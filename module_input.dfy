/** The option record of one shader stage, `stage: { ... }`
    (`ModuleInput`, gears-pipeline/src/lib.rs). */
module ModuleInputs {
  import opened Wrappers
  import opened Tokens
  import opened Defines

  /** A parsed stage: its shader text, the directory `#include` resolves
      against, the user macro definitions, whether the built-in macros are
      injected, the entry point and the debug switch. */
  datatype ModuleInput = ModuleInput(
    source: string,
    includePath: Option<string>,
    defines: seq<Define>,
    defaultDefines: bool,
    entry: Option<string>,
    debug: bool)

  /** The mutable locals of the parse loop. */
  datatype ModuleState = ModuleState(
    source: Option<string>,
    includePath: Option<string>,
    defines: seq<Define>,
    defaultDefines: bool,
    entry: Option<string>,
    debug: bool)

  /** The locals before the loop: no source, no include path, no defines,
      built-in macros on, no entry point, debug off. */
  const Start := ModuleState(None, None, [], true, None, false)

  /** The file system as the parser sees it: `read_shader_source` (the file
      under the crate directory, or one of its three errors) and
      `Path::parent`. */
  datatype Env = Env(
    readShaderSource: string -> Result<string, ParseError>,
    parent: string -> Option<string>)

  const PathNames: set<string> := {"p", "path"}
  const SourceNames: set<string> := {"s", "src", "source"}
  const IncludeNames: set<string> := {"i", "inc", "include"}
  const DefineNames: set<string> := {"d", "def", "define"}
  const NoAutodefineNames: set<string> := {"n", "na", "no-autodefine"}
  const EntryNames: set<string> := {"e", "ep", "entry"}

  predicate IsFieldName(f: string) {
    f in PathNames || f in SourceNames || f in IncludeNames || f in DefineNames
    || f in NoAutodefineNames || f in EntryNames || f == "debug"
  }

  /** The end of the loop: the record, or the missing-source error. */
  function Finish(st: ModuleState): Result<ModuleInput, ParseError> {
    match st.source
    case None => Err(MissingSource)
    case Some(text) =>
      Ok(ModuleInput(text, st.includePath, st.defines, st.defaultDefines, st.entry, st.debug))
  }

  /** One field at the head of `ts`: the new locals and the number of tokens
      the field takes up. */
  function FieldStep(ts: seq<Token>, st: ModuleState, env: Env): (r: Result<(ModuleState, nat), ParseError>)
    requires ts != []
    ensures r.Ok? ==> 0 < r.value.1 <= |ts|
  {
    if !ts[0].Ident? then Err(ExpectedIdent)
    else
      var f := ts[0].name;
      if f in PathNames then
        if !StartsWithPunct(ts[1..], ':') then Err(ExpectedToken(':'))
        else if st.source.Some? then Err(SourceAlreadySpecified)
        else if |ts| < 3 || !ts[2].Str? then Err(ExpectedStr)
        else
          match env.readShaderSource(ts[2].value)
          case Err(e) => Err(e)
          case Ok(text) =>
            if st.includePath.Some? then Ok((st.(source := Some(text)), 3))
            else
              match env.parent(ts[2].value)
              case None => Err(NoDirectory)
              case Some(dir) => Ok((st.(source := Some(text), includePath := Some(dir)), 3))
      else if f in SourceNames then
        if !StartsWithPunct(ts[1..], ':') then Err(ExpectedToken(':'))
        else if st.source.Some? then Err(SourceAlreadySpecified)
        else if |ts| < 3 || !ts[2].Str? then Err(ExpectedStr)
        else Ok((st.(source := Some(ts[2].value)), 3))
      else if f in IncludeNames then
        if !StartsWithPunct(ts[1..], ':') then Err(ExpectedToken(':'))
        else if |ts| < 3 || !ts[2].Str? then Err(ExpectedStr)
        else Ok((st.(includePath := Some(ts[2].value)), 3))
      else if f in DefineNames then
        if !StartsWithPunct(ts[1..], ':') then Err(ExpectedToken(':'))
        else if |ts| < 3 || !ts[2].Group? then Err(ExpectedGroup)
        else
          match DefinesOf(ts[2].inner)
          case Err(e) => Err(e)
          case Ok(ds) => Ok((st.(defines := AddAssign(st.defines, ds)), 3))
      else if f in NoAutodefineNames then Ok((st.(defaultDefines := false), 1))
      else if f in EntryNames then
        if !StartsWithPunct(ts[1..], ':') then Err(ExpectedToken(':'))
        else if |ts| < 3 || !ts[2].Str? then Err(ExpectedStr)
        else Ok((st.(entry := Some(ts[2].value)), 3))
      else if f == "debug" then Ok((st.(debug := true), 1))
      else Err(InvalidField(f))
  }

  /** The outcome of parsing the rest `ts` of a stage body from locals `st`. */
  function ModuleFrom(ts: seq<Token>, st: ModuleState, env: Env): Result<ModuleInput, ParseError>
    decreases |ts|
  {
    if ts == [] then Finish(st)
    else
      match FieldStep(ts, st, env)
      case Err(e) => Err(e)
      case Ok((next, n)) => ModuleFrom(ts[n..], next, env)
  }

  /** `ModuleInput::parse`: the `while !input.is_empty()` loop over fields,
      updating its locals. */
  method ParseModule(ts: seq<Token>, env: Env) returns (r: Result<ModuleInput, ParseError>)
    ensures r == ModuleFrom(ts, Start, env)
  {
    var input := ts;
    var source: Option<string> := None;
    var includePath: Option<string> := None;
    var defines: seq<Define> := [];
    var defaultDefines := true;
    var entry: Option<string> := None;
    var debug := false;

    while input != []
      invariant ModuleFrom(ts, Start, env)
             == ModuleFrom(input, ModuleState(source, includePath, defines, defaultDefines, entry, debug), env)
      decreases |input|
    {
      if !input[0].Ident? {
        return Err(ExpectedIdent);
      }
      var field := input[0].name;
      ghost var here := input;
      input := input[1..];

      if field in PathNames {
        if !StartsWithPunct(input, ':') {
          return Err(ExpectedToken(':'));
        }
        input := input[1..];
        if source.Some? {
          return Err(SourceAlreadySpecified);
        }
        if input == [] || !input[0].Str? {
          return Err(ExpectedStr);
        }
        var path := input[0].value;
        input := input[1..];
        var text := env.readShaderSource(path);
        if text.Err? {
          return Err(text.error);
        }
        source := Some(text.value);
        if includePath.None? {
          var dir := env.parent(path);
          if dir.None? {
            return Err(NoDirectory);
          }
          includePath := Some(dir.value);
        }
        assert input == here[3..];
      } else if field in SourceNames {
        if !StartsWithPunct(input, ':') {
          return Err(ExpectedToken(':'));
        }
        input := input[1..];
        if source.Some? {
          return Err(SourceAlreadySpecified);
        }
        if input == [] || !input[0].Str? {
          return Err(ExpectedStr);
        }
        source := Some(input[0].value);
        input := input[1..];
        assert input == here[3..];
      } else if field in IncludeNames {
        if !StartsWithPunct(input, ':') {
          return Err(ExpectedToken(':'));
        }
        input := input[1..];
        if input == [] || !input[0].Str? {
          return Err(ExpectedStr);
        }
        includePath := Some(input[0].value);
        input := input[1..];
        assert input == here[3..];
      } else if field in DefineNames {
        if !StartsWithPunct(input, ':') {
          return Err(ExpectedToken(':'));
        }
        input := input[1..];
        if input == [] || !input[0].Group? {
          return Err(ExpectedGroup);
        }
        var parsed := ParseDefines(input[0].inner);
        input := input[1..];
        if parsed.Err? {
          return Err(parsed.error);
        }
        defines := AddAssign(defines, parsed.value);
        assert input == here[3..];
      } else if field in NoAutodefineNames {
        defaultDefines := false;
      } else if field in EntryNames {
        if !StartsWithPunct(input, ':') {
          return Err(ExpectedToken(':'));
        }
        input := input[1..];
        if input == [] || !input[0].Str? {
          return Err(ExpectedStr);
        }
        entry := Some(input[0].value);
        input := input[1..];
        assert input == here[3..];
      } else if field == "debug" {
        debug := true;
      } else {
        return Err(InvalidField(field));
      }
    }

    if source.None? {
      return Err(MissingSource);
    }
    return Ok(ModuleInput(source.value, includePath, defines, defaultDefines, entry, debug));
  }

  // ---- field-level semantics ---------------------------------------------

  /** One option of a stage body, by meaning. */
  datatype Field =
    | PathField(path: string)
    | SourceField(text: string)
    | IncludeField(dir: string)
    | DefineField(body: seq<Token>)
    | NoAutodefineField
    | EntryField(name: string)
    | DebugField

  /** `kw` is one of the spellings the parser accepts for field `f`. */
  predicate KeywordFor(f: Field, kw: string) {
    match f
    case PathField(_) => kw in PathNames
    case SourceField(_) => kw in SourceNames
    case IncludeField(_) => kw in IncludeNames
    case DefineField(_) => kw in DefineNames
    case NoAutodefineField => kw in NoAutodefineNames
    case EntryField(_) => kw in EntryNames
    case DebugField => kw == "debug"
  }

  /** A field written out under the keyword `kw`: `kw: "..."` for a string
      value, `kw: [...]` for the definitions, a bare `kw` for a switch. */
  function FieldTokens(f: Field, kw: string): (r: seq<Token>)
    requires KeywordFor(f, kw)
    ensures r != [] && r[0] == Ident(kw)
  {
    match f
    case PathField(p) => [Ident(kw), Punct(':'), Str(p)]
    case SourceField(t) => [Ident(kw), Punct(':'), Str(t)]
    case IncludeField(d) => [Ident(kw), Punct(':'), Str(d)]
    case DefineField(b) => [Ident(kw), Punct(':'), Group(Bracket, b)]
    case NoAutodefineField => [Ident(kw)]
    case EntryField(e) => [Ident(kw), Punct(':'), Str(e)]
    case DebugField => [Ident(kw)]
  }

  /** Each field is spelt by its own keyword. */
  predicate Spelt(fs: seq<Field>, kws: seq<string>) {
    |kws| == |fs| && forall i :: 0 <= i < |fs| ==> KeywordFor(fs[i], kws[i])
  }

  /** The fields written out in order, field `i` under keyword `kws[i]`. */
  function FieldsTokens(fs: seq<Field>, kws: seq<string>): seq<Token>
    requires Spelt(fs, kws)
    decreases |fs|
  {
    if fs == [] then [] else FieldTokens(fs[0], kws[0]) + FieldsTokens(fs[1..], kws[1..])
  }

  /** What one field does to the record being built. */
  function ApplyField(st: ModuleState, f: Field, env: Env): Result<ModuleState, ParseError> {
    match f
    case PathField(p) =>
      if st.source.Some? then Err(SourceAlreadySpecified)
      else
        (match env.readShaderSource(p)
         case Err(e) => Err(e)
         case Ok(text) =>
           if st.includePath.Some? then Ok(st.(source := Some(text)))
           else
             match env.parent(p)
             case None => Err(NoDirectory)
             case Some(dir) => Ok(st.(source := Some(text), includePath := Some(dir))))
    case SourceField(t) =>
      if st.source.Some? then Err(SourceAlreadySpecified) else Ok(st.(source := Some(t)))
    case IncludeField(d) => Ok(st.(includePath := Some(d)))
    case DefineField(b) =>
      (match DefinesOf(b)
       case Err(e) => Err(e)
       case Ok(ds) => Ok(st.(defines := st.defines + ds)))
    case NoAutodefineField => Ok(st.(defaultDefines := false))
    case EntryField(e) => Ok(st.(entry := Some(e)))
    case DebugField => Ok(st.(debug := true))
  }

  /** The fields applied in order, stopping at the first error. */
  function ApplyFields(fs: seq<Field>, st: ModuleState, env: Env): Result<ModuleState, ParseError>
    decreases |fs|
  {
    if fs == [] then Ok(st)
    else
      match ApplyField(st, fs[0], env)
      case Err(e) => Err(e)
      case Ok(next) => ApplyFields(fs[1..], next, env)
  }

  function FinishResult(r: Result<ModuleState, ParseError>): Result<ModuleInput, ParseError> {
    match r
    case Err(e) => Err(e)
    case Ok(st) => Finish(st)
  }

  /** One field at the head of the input, under any of its keywords, takes
      up exactly its own tokens and does what the field means. */
  lemma FieldStepOfTokens(f: Field, kw: string, rest: seq<Token>, st: ModuleState, env: Env)
    requires KeywordFor(f, kw)
    ensures FieldStep(FieldTokens(f, kw) + rest, st, env)
         == match ApplyField(st, f, env)
            case Err(e) => Err(e)
            case Ok(next) => Ok((next, |FieldTokens(f, kw)|))
  {
    var ts := FieldTokens(f, kw) + rest;
    assert ts[1..] == FieldTokens(f, kw)[1..] + rest;
  }

  /** Parsing a body written out field by field, each under any of its
      keywords, is applying its fields in order and then requiring a
      source: the spelling chosen never matters. */
  lemma {:induction false} ParseFieldsTokens(fs: seq<Field>, kws: seq<string>, st: ModuleState, env: Env)
    requires Spelt(fs, kws)
    ensures ModuleFrom(FieldsTokens(fs, kws), st, env) == FinishResult(ApplyFields(fs, st, env))
    decreases |fs|
  {
    if fs != [] {
      assert KeywordFor(fs[0], kws[0]);
      assert Spelt(fs[1..], kws[1..]) by {
        forall i | 0 <= i < |fs| - 1 ensures KeywordFor(fs[1..][i], kws[1..][i]) {
          assert KeywordFor(fs[i + 1], kws[i + 1]);
        }
      }
      var head := FieldTokens(fs[0], kws[0]);
      var rest := FieldsTokens(fs[1..], kws[1..]);
      var ts := head + rest;
      assert FieldsTokens(fs, kws) == ts;
      FieldStepOfTokens(fs[0], kws[0], rest, st, env);
      match ApplyField(st, fs[0], env)
      case Err(e) =>
      case Ok(next) =>
        assert ts[|head|..] == rest;
        ParseFieldsTokens(fs[1..], kws[1..], next, env);
    }
  }

  /** Two spellings of the same fields parse to the same outcome. */
  lemma SpellingIrrelevant(fs: seq<Field>, kws: seq<string>, other: seq<string>, env: Env)
    requires Spelt(fs, kws) && Spelt(fs, other)
    ensures ModuleFrom(FieldsTokens(fs, kws), Start, env) == ModuleFrom(FieldsTokens(fs, other), Start, env)
  {
    ParseFieldsTokens(fs, kws, Start, env);
    ParseFieldsTokens(fs, other, Start, env);
  }

  /** `s: "..."` followed by `def: [...]` and `n`, all short spellings. */
  lemma ShortSpellings(text: string, body: seq<Token>, env: Env)
    requires DefinesOf(body).Ok?
    ensures ModuleFrom([Ident("s"), Punct(':'), Str(text), Ident("def"), Punct(':'), Group(Bracket, body), Ident("n")], Start, env)
         == Ok(ModuleInput(text, None, DefinesOf(body).value, false, None, false))
  {
    var fs := [SourceField(text), DefineField(body), NoAutodefineField];
    var kws := ["s", "def", "n"];
    ShortSpellingsTokens(text, body);
    ShortSpellingsApply(text, body, env);
    ParseFieldsTokens(fs, kws, Start, env);
  }

  lemma ShortSpellingsTokens(text: string, body: seq<Token>)
    ensures Spelt([SourceField(text), DefineField(body), NoAutodefineField], ["s", "def", "n"])
    ensures FieldsTokens([SourceField(text), DefineField(body), NoAutodefineField], ["s", "def", "n"])
         == [Ident("s"), Punct(':'), Str(text), Ident("def"), Punct(':'), Group(Bracket, body), Ident("n")]
  {
    var fs := [SourceField(text), DefineField(body), NoAutodefineField];
    var kws := ["s", "def", "n"];
    assert Spelt(fs, kws);
    assert fs[1..] == [DefineField(body), NoAutodefineField] && kws[1..] == ["def", "n"];
    assert fs[1..][1..] == [NoAutodefineField] && kws[1..][1..] == ["n"];
    assert FieldsTokens([NoAutodefineField], ["n"]) == [Ident("n")];
    assert FieldsTokens(fs, kws)
        == [Ident("s"), Punct(':'), Str(text)] + ([Ident("def"), Punct(':'), Group(Bracket, body)] + [Ident("n")]);
  }

  lemma ShortSpellingsApply(text: string, body: seq<Token>, env: Env)
    requires DefinesOf(body).Ok?
    ensures ApplyFields([SourceField(text), DefineField(body), NoAutodefineField], Start, env)
         == Ok(ModuleState(Some(text), None, DefinesOf(body).value, false, None, false))
  {
    var fs := [SourceField(text), DefineField(body), NoAutodefineField];
    var s1 := Start.(source := Some(text));
    var s2 := s1.(defines := DefinesOf(body).value);
    assert [] + DefinesOf(body).value == DefinesOf(body).value;
    assert ApplyField(Start, fs[0], env) == Ok(s1);
    assert ApplyField(s1, fs[1], env) == Ok(s2);
    assert fs[1..] == [DefineField(body), NoAutodefineField];
    assert fs[1..][1..] == [NoAutodefineField];
    assert ApplyFields([NoAutodefineField], s2, env) == Ok(s2.(defaultDefines := false));
  }

  lemma {:induction false} ApplyFieldsAppend(a: seq<Field>, b: seq<Field>, st: ModuleState, env: Env)
    ensures ApplyFields(a + b, st, env)
         == match ApplyFields(a, st, env)
            case Err(e) => Err(e)
            case Ok(mid) => ApplyFields(b, mid, env)
    decreases |a|
  {
    if a != [] {
      assert (a + b)[1..] == a[1..] + b;
      match ApplyField(st, a[0], env)
      case Err(e) =>
      case Ok(next) => ApplyFieldsAppend(a[1..], b, next, env);
    } else {
      assert a + b == b;
    }
  }

  // ---- properties of the option record ----------------------------------

  /** The built-in macros end up off exactly when some field says so
      (`n`, `na` or `no-autodefine`); nothing else turns them on or off. */
  lemma {:induction false} DefaultDefinesFlag(fs: seq<Field>, st: ModuleState, env: Env)
    requires ApplyFields(fs, st, env).Ok?
    ensures ApplyFields(fs, st, env).value.defaultDefines <==> st.defaultDefines && NoAutodefineField !in fs
    decreases |fs|
  {
    if fs != [] {
      ApplyFieldsInTail(fs);
      DefaultDefinesFlag(fs[1..], ApplyField(st, fs[0], env).value, env);
    }
  }

  /** Debug ends up on exactly when a `debug` field is present. */
  lemma {:induction false} DebugFlag(fs: seq<Field>, st: ModuleState, env: Env)
    requires ApplyFields(fs, st, env).Ok?
    ensures ApplyFields(fs, st, env).value.debug <==> st.debug || DebugField in fs
    decreases |fs|
  {
    if fs != [] {
      ApplyFieldsInTail(fs);
      DebugFlag(fs[1..], ApplyField(st, fs[0], env).value, env);
    }
  }

  lemma ApplyFieldsInTail(fs: seq<Field>)
    requires fs != []
    ensures forall f :: f in fs <==> f == fs[0] || f in fs[1..]
  {
    assert fs == [fs[0]] + fs[1..];
  }

  /** The definitions of all `define` groups, concatenated in field order. */
  function FieldsDefines(fs: seq<Field>): seq<Define>
    decreases |fs|
  {
    if fs == [] then []
    else
      (if fs[0].DefineField? && DefinesOf(fs[0].body).Ok? then DefinesOf(fs[0].body).value else [])
      + FieldsDefines(fs[1..])
  }

  /** Repeated `define` fields accumulate in source order. */
  lemma {:induction false} DefinesAccumulate(fs: seq<Field>, st: ModuleState, env: Env)
    requires ApplyFields(fs, st, env).Ok?
    ensures ApplyFields(fs, st, env).value.defines == st.defines + FieldsDefines(fs)
    decreases |fs|
  {
    if fs != [] {
      var next := ApplyField(st, fs[0], env).value;
      DefinesAccumulate(fs[1..], next, env);
      var own := if fs[0].DefineField? && DefinesOf(fs[0].body).Ok? then DefinesOf(fs[0].body).value else [];
      assert next.defines == st.defines + own;
      assert st.defines + own + FieldsDefines(fs[1..]) == st.defines + (own + FieldsDefines(fs[1..]));
    } else {
      assert st.defines + [] == st.defines;
    }
  }

  predicate IsSourceField(f: Field) {
    f.PathField? || f.SourceField?
  }

  function SourceFieldCount(fs: seq<Field>): nat
    decreases |fs|
  {
    if fs == [] then 0 else (if IsSourceField(fs[0]) then 1 else 0) + SourceFieldCount(fs[1..])
  }

  /** A source is set after the fields iff one was set before or a
      `source`/`path` field is present, and a second one is an error. */
  lemma {:induction false} SourceAtMostOnce(fs: seq<Field>, st: ModuleState, env: Env)
    requires ApplyFields(fs, st, env).Ok?
    ensures st.source.Some? ==> SourceFieldCount(fs) == 0
    ensures SourceFieldCount(fs) <= 1
    ensures ApplyFields(fs, st, env).value.source.Some? <==> st.source.Some? || SourceFieldCount(fs) == 1
    decreases |fs|
  {
    if fs != [] {
      SourceAtMostOnce(fs[1..], ApplyField(st, fs[0], env).value, env);
    }
  }

  /** A stage body that parses has exactly one `source` or `path` field;
      with none, or with two, it is an error. */
  lemma ExactlyOneSource(fs: seq<Field>, kws: seq<string>, env: Env)
    requires Spelt(fs, kws)
    ensures ModuleFrom(FieldsTokens(fs, kws), Start, env).Ok? ==> SourceFieldCount(fs) == 1
    ensures SourceFieldCount(fs) == 0 && ApplyFields(fs, Start, env).Ok?
            ==> ModuleFrom(FieldsTokens(fs, kws), Start, env) == Err(MissingSource)
  {
    ParseFieldsTokens(fs, kws, Start, env);
    if ApplyFields(fs, Start, env).Ok? {
      SourceAtMostOnce(fs, Start, env);
    }
  }

  /** Fields other than `include` never replace an include path that is
      already set. */
  lemma {:induction false} IncludeKept(fs: seq<Field>, st: ModuleState, env: Env)
    requires st.includePath.Some?
    requires forall i :: 0 <= i < |fs| ==> !fs[i].IncludeField?
    requires ApplyFields(fs, st, env).Ok?
    ensures ApplyFields(fs, st, env).value.includePath == st.includePath
    decreases |fs|
  {
    if fs != [] {
      IncludeKept(fs[1..], ApplyField(st, fs[0], env).value, env);
    }
  }

  /** `include` always overwrites, so the last `include` field decides the
      include path whatever follows it. */
  lemma LastIncludeWins(pre: seq<Field>, d: string, post: seq<Field>, st: ModuleState, env: Env)
    requires forall i :: 0 <= i < |post| ==> !post[i].IncludeField?
    requires ApplyFields(pre + [IncludeField(d)] + post, st, env).Ok?
    ensures ApplyFields(pre + [IncludeField(d)] + post, st, env).value.includePath == Some(d)
  {
    ApplyFieldsAppend(pre + [IncludeField(d)], post, st, env);
    ApplyFieldsAppend(pre, [IncludeField(d)], st, env);
    var mid := ApplyFields(pre + [IncludeField(d)], st, env).value;
    IncludeKept(post, mid, env);
  }

  /** Without `include` fields, a `path` field sets the include path to the
      directory of the file when none was set. */
  lemma PathSeedsInclude(pre: seq<Field>, p: string, post: seq<Field>, st: ModuleState, env: Env)
    requires st.includePath.None?
    requires forall i :: 0 <= i < |pre| ==> !pre[i].IncludeField? && !pre[i].PathField?
    requires forall i :: 0 <= i < |post| ==> !post[i].IncludeField?
    requires ApplyFields(pre + [PathField(p)] + post, st, env).Ok?
    ensures ApplyFields(pre + [PathField(p)] + post, st, env).value.includePath == env.parent(p)
    ensures env.parent(p).Some?
  {
    ApplyFieldsAppend(pre + [PathField(p)], post, st, env);
    ApplyFieldsAppend(pre, [PathField(p)], st, env);
    var before := ApplyFields(pre, st, env).value;
    IncludeUntouched(pre, st, env);
    PathFromNoInclude(p, before, env);
    var mid := ApplyFields(pre + [PathField(p)], st, env).value;
    IncludeKept(post, mid, env);
  }

  lemma PathFromNoInclude(p: string, st: ModuleState, env: Env)
    requires st.includePath.None?
    requires ApplyFields([PathField(p)], st, env).Ok?
    ensures env.parent(p).Some?
    ensures ApplyFields([PathField(p)], st, env).value.includePath == env.parent(p)
  {
    assert [PathField(p)][1..] == [];
  }

  lemma {:induction false} IncludeUntouched(fs: seq<Field>, st: ModuleState, env: Env)
    requires forall i :: 0 <= i < |fs| ==> !fs[i].IncludeField? && !fs[i].PathField?
    requires ApplyFields(fs, st, env).Ok?
    ensures ApplyFields(fs, st, env).value.includePath == st.includePath
    decreases |fs|
  {
    if fs != [] {
      IncludeUntouched(fs[1..], ApplyField(st, fs[0], env).value, env);
    }
  }

  /** The entry point is that of the last `entry` field, or unchanged when
      there is none. */
  lemma {:induction false} LastEntryWins(fs: seq<Field>, st: ModuleState, env: Env)
    requires ApplyFields(fs, st, env).Ok?
    ensures ApplyFields(fs, st, env).value.entry == LastEntry(fs, st.entry)
    decreases |fs|
  {
    if fs != [] {
      LastEntryWins(fs[1..], ApplyField(st, fs[0], env).value, env);
    }
  }

  /** The name of the last `entry` field of `fs`, `otherwise` when none. */
  function LastEntry(fs: seq<Field>, otherwise: Option<string>): Option<string>
    decreases |fs|
  {
    if fs == [] then otherwise
    else LastEntry(fs[1..], if fs[0].EntryField? then Some(fs[0].name) else otherwise)
  }

  // ---- token-level facts ---------------------------------------------------

  /** A field name outside the known ones is rejected by name. */
  lemma UnknownFieldRejected(name: string, rest: seq<Token>, st: ModuleState, env: Env)
    requires !IsFieldName(name)
    ensures ModuleFrom([Ident(name)] + rest, st, env) == Err(InvalidField(name))
  {
  }

  /** `no-autodefine` reaches the parser as the three tokens `no`, `-`,
      `autodefine`, so the identifier read is `no` and the field is rejected:
      only `n` and `na` switch the built-in macros off. */
  lemma HyphenatedNoAutodefineRejected(rest: seq<Token>, st: ModuleState, env: Env)
    ensures ModuleFrom([Ident("no"), Punct('-'), Ident("autodefine")] + rest, st, env)
         == Err(InvalidField("no"))
  {
    assert !IsFieldName("no");
  }

  /** A second `source` or `path` is rejected before its value is read. */
  lemma SecondSourceRejected(f: string, rest: seq<Token>, st: ModuleState, env: Env)
    requires f in PathNames || f in SourceNames
    requires st.source.Some?
    ensures ModuleFrom([Ident(f), Punct(':')] + rest, st, env) == Err(SourceAlreadySpecified)
  {
    assert ([Ident(f), Punct(':')] + rest)[1..] == [Punct(':')] + rest;
  }
}
