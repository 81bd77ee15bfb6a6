/** Compiling one stage (`compile_shader_module` and its call in
    `Pipeline::new`, gears-pipeline/src/lib.rs): the macro table handed to
    the compiler, the debug switch, and the line-numbered error report. The
    compiler itself is an oracle. */
module Compile {
  import opened Wrappers
  import opened Bytes
  import opened Text
  import opened Defines
  import opened Stages
  import opened ModuleInputs
  import opened Seqs

  /** The built-in macros of a vertex stage, in the order they are added. */
  const VertexDefaults: seq<Define> := [
    Define("GEARS_VERTEX", None),
    Define("GEARS_IN(_location, _data)", Some("layout(location = _location) in _data;")),
    Define("GEARS_INOUT(_location, _data)", Some("layout(location = _location) out _data;")),
    Define("GEARS_VERT_UBO(_location, _data)", Some("layout(binding = _location) _data;"))
  ]

  /** The built-in macros of a fragment stage, in the order they are added. */
  const FragmentDefaults: seq<Define> := [
    Define("GEARS_FRAGMENT", None),
    Define("GEARS_OUT(_location, _data)", Some("layout(location = _location) out _data;")),
    Define("GEARS_INOUT(_location, _data)", Some("layout(location = _location) in _data;"))
  ]

  function Defaults(kind: ShaderKind): seq<Define> {
    match kind
    case VertexShader => VertexDefaults
    case FragmentShader => FragmentDefaults
  }

  /** The macro definitions added to the compile options, in order. */
  function MacroTable(kind: ShaderKind, defaultDefines: bool, defines: seq<Define>): seq<Define> {
    (if defaultDefines then Defaults(kind) else []) + defines
  }

  /** The `options.add_macro_definition` sequence: the stage's built-in
      macros when enabled, then every user definition in order. */
  method BuildMacroTable(kind: ShaderKind, defines: seq<Define>, defaultDefines: bool) returns (table: seq<Define>)
    ensures table == MacroTable(kind, defaultDefines, defines)
    ensures !defaultDefines ==> table == defines
    ensures defaultDefines && kind == VertexShader ==> table == VertexDefaults + defines
    ensures defaultDefines && kind == FragmentShader ==> table == FragmentDefaults + defines
    ensures |table| >= |defines| && table[|table| - |defines|..] == defines
  {
    table := [];
    if defaultDefines {
      match kind
      case VertexShader =>
        table := table + [Define("GEARS_VERTEX", None)];
        table := table + [Define("GEARS_IN(_location, _data)", Some("layout(location = _location) in _data;"))];
        table := table + [Define("GEARS_INOUT(_location, _data)", Some("layout(location = _location) out _data;"))];
        table := table + [Define("GEARS_VERT_UBO(_location, _data)", Some("layout(binding = _location) _data;"))];
      case FragmentShader =>
        table := table + [Define("GEARS_FRAGMENT", None)];
        table := table + [Define("GEARS_OUT(_location, _data)", Some("layout(location = _location) out _data;"))];
        table := table + [Define("GEARS_INOUT(_location, _data)", Some("layout(location = _location) in _data;"))];
    }
    ghost var base := table;
    assert base == if defaultDefines then Defaults(kind) else [];
    for i := 0 to |defines|
      invariant table == base + defines[..i]
    {
      table := table + [defines[i]];
      assert defines[..i + 1] == defines[..i] + [defines[i]];
    }
    assert defines[..|defines|] == defines;
    assert table[|base|..] == defines;
  }

  /** The shared `INOUT` macro emits an output qualifier in the vertex
      stage and an input qualifier in the fragment stage; neither stage
      defines the macro only the other one has. */
  lemma StageMacrosDiffer()
    ensures VertexDefaults[2].name == FragmentDefaults[2].name == "GEARS_INOUT(_location, _data)"
    ensures VertexDefaults[2].value == Some("layout(location = _location) out _data;")
    ensures FragmentDefaults[2].value == Some("layout(location = _location) in _data;")
    ensures forall d :: d in VertexDefaults ==> d.name != "GEARS_OUT(_location, _data)"
    ensures forall d :: d in FragmentDefaults ==> d.name != "GEARS_IN(_location, _data)"
  {
  }

  /** The compiler service, as an oracle: `preprocess` yields the expanded
      text or a diagnostic, `compile` the kernel bytes or a diagnostic, each
      from the source, the input file name, the entry point, the include
      directory the include callback uses, and the macro table. */
  datatype Shaderc = Shaderc(
    preprocess: (string, string, string, Option<string>, seq<Define>) -> Result<string, string>,
    compile: (string, ShaderKind, string, string, Option<string>, seq<Define>) -> Result<seq<byte>, string>)

  /** One row of the listing: the 1-based number right-aligned in four
      columns, `": "`, the line. */
  function Row(n: nat, line: string): string {
    PadLeft(Decimal(n), 4) + ": " + line + "\n"
  }

  /** The rows of `ls`, numbered from `n`. */
  function NumberLines(ls: seq<string>, n: nat): string
    decreases |ls|
  {
    if ls == [] then [] else Row(n, ls[0]) + NumberLines(ls[1..], n + 1)
  }

  function ReportHeader(err: string): string {
    "Error:\n" + err + "\nSource:\n"
  }

  /** The error text: the diagnostic, then the numbered source with
      trailing whitespace removed. */
  function ErrorReport(err: string, source: string): string {
    ReportHeader(err) + TrimEnd(NumberLines(Lines(source), 1))
  }

  /** In debug mode a successful preprocessing is reported as an error
      carrying the expanded text. */
  function DebugRoute(r: Result<string, string>): Result<seq<byte>, string> {
    match r
    case Ok(text) => Err(text)
    case Err(e) => Err(e)
  }

  /** `compile_shader_module`. */
  function CompileShaderModule(
    sc: Shaderc, kind: ShaderKind, source: string, name: string, entry: string,
    includePath: Option<string>, defines: seq<Define>, defaultDefines: bool, debug: bool)
    : Result<seq<byte>, string>
  {
    var table := MacroTable(kind, defaultDefines, defines);
    var result :=
      if debug then DebugRoute(sc.preprocess(source, name, entry, includePath, table))
      else sc.compile(source, kind, name, entry, includePath, table);
    match result
    case Ok(kernel) => Ok(kernel)
    case Err(e) => Err(ErrorReport(e, source))
  }

  /** Debug mode never yields a kernel, whether preprocessing succeeds or
      fails; otherwise the kernel is exactly the compiler's, and every
      failure carries the report of the source. */
  lemma CompileOutcome(
    sc: Shaderc, kind: ShaderKind, source: string, name: string, entry: string,
    includePath: Option<string>, defines: seq<Define>, defaultDefines: bool, debug: bool)
    ensures var r := CompileShaderModule(sc, kind, source, name, entry, includePath, defines, defaultDefines, debug);
            var table := MacroTable(kind, defaultDefines, defines);
            && (debug ==> r.Err?)
            && (r.Ok? <==> !debug && sc.compile(source, kind, name, entry, includePath, table).Ok?)
            && (r.Ok? ==> r.value == sc.compile(source, kind, name, entry, includePath, table).value)
            && (debug && sc.preprocess(source, name, entry, includePath, table).Ok? ==>
                  r == Err(ErrorReport(sc.preprocess(source, name, entry, includePath, table).value, source)))
            && (debug && sc.preprocess(source, name, entry, includePath, table).Err? ==>
                  r == Err(ErrorReport(sc.preprocess(source, name, entry, includePath, table).error, source)))
            && (!debug && sc.compile(source, kind, name, entry, includePath, table).Err? ==>
                  r == Err(ErrorReport(sc.compile(source, kind, name, entry, includePath, table).error, source)))
  {
  }

  /** The entry point used: the `entry` option, or `"main"`. */
  function EntryPoint(m: ModuleInput): string {
    m.entry.GetOr("main")
  }

  /** The call in `Pipeline::new`: a parsed stage compiled under the
      stage's kind and name. `processed` is the stage's source after
      `glsl_attrib_macros` has expanded its annotated blocks
      (`Preprocess.GlslAttribMacros` on `m.source`, gears-pipeline/src/lib.rs
      lines 336-342); it is a parameter so that the compiler call is stated
      apart from that expansion. */
  function CompileModule(sc: Shaderc, t: ModuleType, m: ModuleInput, processed: string): Result<seq<byte>, string> {
    CompileShaderModule(sc, Kind(t), processed, Name(t), EntryPoint(m), m.includePath,
                        m.defines, m.defaultDefines, m.debug)
  }

  /** Without an `entry` option the stage is compiled with entry point
      `"main"`, under the stage's own name and kind and with its options
      passed on unchanged; outside debug mode it succeeds exactly when the
      compiler does. */
  lemma CompileModuleDefaults(sc: Shaderc, t: ModuleType, m: ModuleInput, processed: string)
    requires m.entry.None?
    ensures CompileModule(sc, t, m, processed)
         == CompileShaderModule(sc, Kind(t), processed, Name(t), "main", m.includePath,
                                m.defines, m.defaultDefines, m.debug)
    ensures var table := MacroTable(Kind(t), m.defaultDefines, m.defines);
            !m.debug ==>
              (CompileModule(sc, t, m, processed).Ok?
               <==> sc.compile(processed, Kind(t), Name(t), "main", m.includePath, table).Ok?)
  {
  }

  // ---- the report ----------------------------------------------------------

  lemma {:induction false} NumberLinesAppend(a: seq<string>, b: seq<string>, n: nat)
    ensures NumberLines(a + b, n) == NumberLines(a, n) + NumberLines(b, n + |a|)
    decreases |a|
  {
    if a == [] {
      assert a + b == b;
    } else {
      assert (a + b)[1..] == a[1..] + b;
      NumberLinesAppend(a[1..], b, n + 1);
    }
  }

  /** Row `i` of the listing stands in place, after the rows before it. */
  lemma NumberLinesAt(ls: seq<string>, i: nat, n: nat)
    requires i < |ls|
    ensures NumberLines(ls, n)
         == NumberLines(ls[..i], n) + Row(n + i, ls[i]) + NumberLines(ls[i + 1..], n + i + 1)
  {
    assert ls == ls[..i] + ([ls[i]] + ls[i + 1..]);
    NumberLinesAppend(ls[..i], [ls[i]] + ls[i + 1..], n);
    assert ([ls[i]] + ls[i + 1..])[1..] == ls[i + 1..];
  }

  /** Trailing whitespace after a non-whitespace character is all that goes. */
  lemma {:induction false} TrimEndAfterSolid(a: string, b: string)
    requires a != [] && !IsWhitespace(a[|a| - 1])
    ensures TrimEnd(a + b) == a + TrimEnd(b)
    decreases |b|
  {
    var ab := a + b;
    if b == [] {
      assert ab == a;
    } else {
      assert ab[|ab| - 1] == b[|b| - 1];
      if IsWhitespace(b[|b| - 1]) {
        assert ab[..|ab| - 1] == a + b[..|b| - 1];
        TrimEndAfterSolid(a, b[..|b| - 1]);
      }
    }
  }

  /** The error report lists every source line in order, each under its
      1-based number: all rows but the last are intact, and trimming cuts
      only the trailing whitespace of the last line, never its number. */
  lemma ErrorReportLists(err: string, source: string)
    ensures var ls := Lines(source);
            if ls == [] then ErrorReport(err, source) == ReportHeader(err)
            else ErrorReport(err, source)
                 == ReportHeader(err) + (NumberLines(ls[..|ls| - 1], 1)
                    + PadLeft(Decimal(|ls|), 4) + ":" + TrimEnd(" " + ls[|ls| - 1]))
  {
    var ls := Lines(source);
    if ls != [] {
      ListingTrimmed(ls);
    } else {
      assert TrimEnd(NumberLines(ls, 1)) == [];
    }
  }

  lemma ListingTrimmed(ls: seq<string>)
    requires ls != []
    ensures TrimEnd(NumberLines(ls, 1))
         == NumberLines(ls[..|ls| - 1], 1) + PadLeft(Decimal(|ls|), 4) + ":" + TrimEnd(" " + ls[|ls| - 1])
  {
    var k := |ls| - 1;
    ListingSplit(ls);
    TrimLastRow(NumberLines(ls[..k], 1), PadLeft(Decimal(k + 1), 4), ls[k]);
  }

  /** Splitting the listing before its last row. */
  lemma ListingSplit(ls: seq<string>)
    requires ls != []
    ensures NumberLines(ls, 1) == NumberLines(ls[..|ls| - 1], 1) + Row(|ls|, ls[|ls| - 1])
  {
    var k := |ls| - 1;
    SplitLast(ls);
    ListingSplitAt(ls[..k], ls[k]);
  }

  lemma ListingSplitAt(front: seq<string>, last: string)
    ensures NumberLines(front + [last], 1) == NumberLines(front, 1) + Row(|front| + 1, last)
  {
    NumberLinesAppend(front, [last], 1);
    NumberLinesSingle(last, 1 + |front|);
  }

  lemma NumberLinesSingle(l: string, n: nat)
    ensures NumberLines([l], n) == Row(n, l)
  {
    assert [l][1..] == [];
  }

  /** Trimming a listing whose last row is `number: line`. */
  lemma TrimLastRow(rows: string, number: string, line: string)
    ensures TrimEnd(rows + (number + ": " + line + "\n")) == rows + number + ":" + TrimEnd(" " + line)
  {
    var solid := rows + number + ":";
    RowRegroup(rows, number, line);
    assert solid[|solid| - 1] == ':';
    TrimEndAfterSolid(solid, " " + line + "\n");
    TrimEndNewline(" " + line);
  }

  lemma RowRegroup(rows: string, number: string, line: string)
    ensures rows + (number + ": " + line + "\n") == (rows + number + ":") + ((" " + line) + "\n")
  {
  }

  lemma TrimEndNewline(s: string)
    ensures TrimEnd(s + "\n") == TrimEnd(s)
  {
    assert (s + "\n")[..|s|] == s;
  }
}
