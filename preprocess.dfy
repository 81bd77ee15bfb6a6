/** Rewriting one stage's shader text before compilation
    (`glsl_attrib_macros`, gears-pipeline/src/lib.rs): comments out,
    annotated blocks expanded, and qualified accesses to input and output
    blocks flattened. */
module Preprocess {
  import opened Wrappers
  import opened Text
  import opened Stages
  import opened Seqs

  // ---- comments ------------------------------------------------------------

  // The start of the last block-comment closer ("*" then "/") of s[..k]
  // that begins at index 2 or later, if any.
  function LastCloseBelow(s: string, k: nat): (r: Option<nat>)
    requires k <= |s|
    ensures r.Some? ==> 2 <= r.value && r.value + 2 <= k && s[r.value] == '*' && s[r.value + 1] == '/'
    ensures forall j :: 2 <= j && j + 2 <= k && (r.None? || r.value < j) ==> !(s[j] == '*' && s[j + 1] == '/')
    decreases k
  {
    if k < 4 then None
    else if s[k - 2] == '*' && s[k - 1] == '/' then Some(k - 2)
    else LastCloseBelow(s, k - 1)
  }

  // The comment regex of `glsl_attrib_macros`, applied with `replace_all`
  // and a single space as replacement: scanning left to right, a line
  // comment runs to the end of its line and a block comment greedily to the
  // LAST closer of the whole text; each match becomes one space. A block
  // opener with no closer after it is kept.
  function StripComments(s: string): string
    decreases |s|
  {
    if |s| < 2 then s
    else if s[0] == '/' && s[1] == '/' then " " + StripComments(s[NewlineFrom(s, 2)..])
    else if s[0] == '/' && s[1] == '*' && LastCloseBelow(s, |s|).Some? then
      " " + StripComments(s[LastCloseBelow(s, |s|).value + 2..])
    else [s[0]] + StripComments(s[1..])
  }

  lemma StripCommentsFirst(s: string)
    requires s != []
    ensures StripComments(s) != []
    ensures StripComments(s)[0] == ' ' || StripComments(s)[0] == s[0]
  {
  }

  /** No line-comment opener `//` occurs in `r`. */
  predicate NoLineOpener(r: string) {
    forall j :: 0 <= j < |r| - 1 ==> !(r[j] == '/' && r[j + 1] == '/')
  }

  /** A character that is not `/` in front of text free of `//` keeps it
      free; so does `/` in front of text that does not start with `/`. */
  lemma ConsNoLineOpener(c: char, r: string)
    requires NoLineOpener(r)
    requires c == '/' ==> r == [] || r[0] != '/'
    ensures NoLineOpener([c] + r)
  {
    var u := [c] + r;
    forall j | 0 <= j < |u| - 1
      ensures !(u[j] == '/' && u[j + 1] == '/')
    {
      if j > 0 {
        assert u[j] == r[j - 1] && u[j + 1] == r[j];
      }
    }
  }

  /** No `//` is left in the stripped text. */
  lemma {:induction false} NoLineCommentLeft(s: string)
    ensures NoLineOpener(StripComments(s))
    decreases |s|
  {
    if |s| >= 2 {
      if s[0] == '/' && s[1] == '/' {
        var t := s[NewlineFrom(s, 2)..];
        NoLineCommentLeft(t);
        ConsNoLineOpener(' ', StripComments(t));
      } else if s[0] == '/' && s[1] == '*' && LastCloseBelow(s, |s|).Some? {
        var t := s[LastCloseBelow(s, |s|).value + 2..];
        NoLineCommentLeft(t);
        ConsNoLineOpener(' ', StripComments(t));
      } else {
        var t := s[1..];
        NoLineCommentLeft(t);
        StripCommentsFirst(t);
        ConsNoLineOpener(s[0], StripComments(t));
      }
    }
  }

  /** Text without `/` has no comment and comes out unchanged. */
  lemma {:induction false} NoSlashUnchanged(s: string)
    requires forall i :: 0 <= i < |s| ==> s[i] != '/'
    ensures StripComments(s) == s
    decreases |s|
  {
    if |s| >= 2 {
      NoSlashUnchanged(s[1..]);
      assert [s[0]] + s[1..] == s;
    }
  }

  /** The block-comment alternative is greedy: everything from the first
      `/*` to the last `*/` goes, code between two comments included. */
  lemma GreedyBlockComment()
    ensures StripComments("x/*1*/y/*2*/z") == "x z"
  {
    var s := "x/*1*/y/*2*/z";
    var t := s[1..];
    assert t == "/*1*/y/*2*/z";
    assert LastCloseBelow(t, |t|) == Some(9) by {
      assert t[9] == '*' && t[10] == '/';
      assert LastCloseBelow(t, 12) == LastCloseBelow(t, 11);
    }
    assert t[11..] == "z";
    assert StripComments(t) == " " + StripComments("z");
  }

  // ---- renaming qualified accesses ----------------------------------------

  /** A regex word character (`\w`), ASCII only. */
  predicate IsWordChar(c: char) {
    ('a' <= c <= 'z') || ('A' <= c <= 'Z') || ('0' <= c <= '9') || c == '_'
  }

  predicate WordAt(s: string, j: int) {
    0 <= j < |s| && IsWordChar(s[j])
  }

  /** A regex word boundary `\b` at position `j`. */
  predicate Boundary(s: string, j: int) {
    WordAt(s, j - 1) != WordAt(s, j)
  }

  /** The pattern `\bNAME\.\b` matches at `i`: the name, then `.`, then a
      word character, with a word boundary before the name. */
  predicate MatchesAt(s: string, name: string, i: nat) {
    i + |name| + 1 < |s| && s[i..i + |name|] == name && s[i + |name|] == '.'
    && Boundary(s, i) && Boundary(s, i + |name| + 1)
  }

  /** One `replace_all` of the renamer from `i` on: each match `NAME.` is
      replaced by `_NAME_`, the search going on after it. */
  function RenameFrom(s: string, name: string, i: nat): string
    decreases |s| - i
  {
    if i >= |s| then []
    else if MatchesAt(s, name, i) then "_" + name + "_" + RenameFrom(s, name, i + |name| + 1)
    else [s[i]] + RenameFrom(s, name, i + 1)
  }

  function Rename(s: string, name: string): string {
    RenameFrom(s, name, 0)
  }

  /** The number of matches the scan from `i` replaces. */
  function MatchCountFrom(s: string, name: string, i: nat): nat
    decreases |s| - i
  {
    if i >= |s| then 0
    else if MatchesAt(s, name, i) then 1 + MatchCountFrom(s, name, i + |name| + 1)
    else MatchCountFrom(s, name, i + 1)
  }

  /** Each replacement adds exactly one character. */
  lemma {:induction false} RenameLength(s: string, name: string, i: nat)
    requires i <= |s|
    ensures |RenameFrom(s, name, i)| == |s| - i + MatchCountFrom(s, name, i)
    decreases |s| - i
  {
    if i < |s| {
      if MatchesAt(s, name, i) {
        var j := i + |name| + 1;
        RenameLength(s, name, j);
        var rest := RenameFrom(s, name, j);
        assert RenameFrom(s, name, i) == "_" + name + "_" + rest;
        assert MatchCountFrom(s, name, i) == 1 + MatchCountFrom(s, name, j);
      } else {
        RenameLength(s, name, i + 1);
        var rest := RenameFrom(s, name, i + 1);
        assert RenameFrom(s, name, i) == [s[i]] + rest;
        assert MatchCountFrom(s, name, i) == MatchCountFrom(s, name, i + 1);
      }
    }
  }

  lemma {:induction false} ScanFindsMatch(s: string, name: string, i: nat, p: nat)
    requires i <= p && MatchesAt(s, name, p)
    ensures MatchCountFrom(s, name, i) >= 1
    decreases |s| - i
  {
    if !MatchesAt(s, name, i) {
      ScanFindsMatch(s, name, i + 1, p);
    }
  }

  lemma {:induction false} RenameWithoutMatch(s: string, name: string, i: nat)
    requires i <= |s|
    requires forall j :: i <= j < |s| ==> !MatchesAt(s, name, j)
    ensures RenameFrom(s, name, i) == s[i..]
    decreases |s| - i
  {
    if i < |s| {
      RenameWithoutMatch(s, name, i + 1);
      assert s[i..] == [s[i]] + s[i + 1..];
    }
  }

  /** The renamer changes the text exactly when the pattern occurs in it. */
  lemma RenameChangesIffMatch(s: string, name: string)
    ensures Rename(s, name) == s <==> forall i :: 0 <= i < |s| ==> !MatchesAt(s, name, i)
  {
    if forall i :: 0 <= i < |s| ==> !MatchesAt(s, name, i) {
      RenameWithoutMatch(s, name, 0);
    } else {
      var p :| 0 <= p < |s| && MatchesAt(s, name, p);
      ScanFindsMatch(s, name, 0, p);
      RenameLength(s, name, 0);
    }
  }

  /** A qualified access is flattened; the name inside a longer identifier,
      or with nothing after the dot, is left alone. */
  lemma RenameExamples()
    ensures Rename("v.pos", "v") == "_v_pos"
    ensures Rename("uv.x", "v") == "uv.x"
    ensures Rename("v.", "v") == "v."
  {
    assert MatchesAt("v.pos", "v", 0);
    assert RenameFrom("v.pos", "v", 2) == "pos" by {
      RenameWithoutMatch("v.pos", "v", 2);
    }
    RenameWithoutMatch("uv.x", "v", 0);
    RenameWithoutMatch("v.", "v", 0);
  }

  /** The renamers applied one after the other, in the order they were
      queued. */
  function RenameAll(s: string, names: seq<string>): string
    decreases |names|
  {
    if names == [] then s else RenameAll(Rename(s, names[0]), names[1..])
  }

  /** The loop `for ident_renamer in ident_renameres { output = ... }`. */
  method ApplyRenamers(source: string, names: seq<string>) returns (output: string)
    ensures output == RenameAll(source, names)
  {
    output := source;
    for i := 0 to |names|
      invariant RenameAll(output, names[i..]) == RenameAll(source, names)
    {
      assert names[i..][1..] == names[i + 1..];
      output := RenameFrom(output, names[i], 0);
    }
  }

  // ---- annotated blocks ----------------------------------------------------

  /** The direction of an annotated block (`BindgenFieldType`). */
  datatype BindType = In | Out | Uniform

  /** An annotated block as the annotation parser yields it: the name it is
      accessed by, its direction, whether host bindings are generated for
      it (`gears_bindgen` rather than `gears_gen`), and its stage. */
  datatype AttribStruct = AttribStruct(fieldName: string, bindType: BindType, bind: bool, inModule: ModuleType)

  /** The names of the input and output blocks, in order. */
  function RenamedNames(structs: seq<AttribStruct>): seq<string>
    decreases |structs|
  {
    if structs == [] then []
    else (if structs[0].bindType.Uniform? then [] else [structs[0].fieldName]) + RenamedNames(structs[1..])
  }

  /** The blocks with host bindings, in order. */
  function Bound(structs: seq<AttribStruct>): seq<AttribStruct>
    decreases |structs|
  {
    if structs == [] then []
    else (if structs[0].bind then [structs[0]] else []) + Bound(structs[1..])
  }

  /** Only input and output blocks queue a renamer; uniform blocks never do. */
  lemma {:induction false} RenamedNamesExactly(structs: seq<AttribStruct>)
    ensures forall n :: n in RenamedNames(structs) <==>
              exists s :: s in structs && !s.bindType.Uniform? && s.fieldName == n
    decreases |structs|
  {
    if structs != [] {
      RenamedNamesExactly(structs[1..]);
      assert structs == [structs[0]] + structs[1..];
    }
  }

  /** Exactly the `bind` blocks are returned, in order. */
  lemma {:induction false} BoundExactly(structs: seq<AttribStruct>)
    ensures forall s :: s in Bound(structs) <==> s in structs && s.bind
    ensures |Bound(structs)| <= |structs|
    decreases |structs|
  {
    if structs != [] {
      BoundExactly(structs[1..]);
      assert structs == [structs[0]] + structs[1..];
    }
  }

  /** The callback of the annotation `replace_all`, over the blocks it
      matched in order: each is tagged with the stage, input and output
      blocks queue a renamer, and `bind` blocks are kept. */
  method CollectAttribs(structs: seq<AttribStruct>, stage: ModuleType)
    returns (renamers: seq<string>, bindgen: seq<AttribStruct>)
    ensures renamers == RenamedNames(structs)
    ensures bindgen == Bound(Tagged(structs, stage))
    ensures forall s :: s in bindgen ==> s.inModule == stage
  {
    renamers, bindgen := [], [];
    for i := 0 to |structs|
      invariant renamers == RenamedNames(structs[..i])
      invariant bindgen == Bound(Tagged(structs[..i], stage))
    {
      var s := structs[i].(inModule := stage);
      match s.bindType {
        case Uniform =>
        case In =>
          renamers := renamers + [s.fieldName];
        case Out =>
          renamers := renamers + [s.fieldName];
      }
      if s.bind {
        bindgen := bindgen + [s];
      }
      RenamedNamesSnoc(structs[..i], structs[i]);
      TaggedSnoc(structs[..i], structs[i], stage);
      BoundSnoc(Tagged(structs[..i], stage), s);
      assert structs[..i + 1] == structs[..i] + [structs[i]];
    }
    assert structs[..|structs|] == structs;
    TaggedModule(structs, stage);
    BoundExactly(Tagged(structs, stage));
  }

  function Tagged(structs: seq<AttribStruct>, stage: ModuleType): (r: seq<AttribStruct>)
    ensures |r| == |structs|
    decreases |structs|
  {
    if structs == [] then [] else [structs[0].(inModule := stage)] + Tagged(structs[1..], stage)
  }

  lemma {:induction false} TaggedModule(structs: seq<AttribStruct>, stage: ModuleType)
    ensures forall s :: s in Tagged(structs, stage) ==> s.inModule == stage
    decreases |structs|
  {
    if structs != [] {
      TaggedModule(structs[1..], stage);
    }
  }

  lemma {:induction false} RenamedNamesSnoc(structs: seq<AttribStruct>, s: AttribStruct)
    ensures RenamedNames(structs + [s]) == RenamedNames(structs) + (if s.bindType.Uniform? then [] else [s.fieldName])
    decreases |structs|
  {
    if structs == [] {
      assert [] + [s] == [s];
    } else {
      assert (structs + [s])[1..] == structs[1..] + [s];
      RenamedNamesSnoc(structs[1..], s);
      var head := (if structs[0].bindType.Uniform? then [] else [structs[0].fieldName]);
      assert RenamedNames(structs + [s]) == head + RenamedNames(structs[1..] + [s]);
      AppendAssoc(head, RenamedNames(structs[1..]), if s.bindType.Uniform? then [] else [s.fieldName]);
    }
  }

  lemma {:induction false} TaggedSnoc(structs: seq<AttribStruct>, s: AttribStruct, stage: ModuleType)
    ensures Tagged(structs + [s], stage) == Tagged(structs, stage) + [s.(inModule := stage)]
    decreases |structs|
  {
    if structs == [] {
      assert [] + [s] == [s];
    } else {
      assert (structs + [s])[1..] == structs[1..] + [s];
      TaggedSnoc(structs[1..], s, stage);
    }
  }

  lemma {:induction false} BoundSnoc(structs: seq<AttribStruct>, s: AttribStruct)
    ensures Bound(structs + [s]) == Bound(structs) + (if s.bind then [s] else [])
    decreases |structs|
  {
    if structs == [] {
      assert [] + [s] == [s];
    } else {
      assert (structs + [s])[1..] == structs[1..] + [s];
      BoundSnoc(structs[1..], s);
      var head := (if structs[0].bind then [structs[0]] else []);
      assert Bound(structs + [s]) == head + Bound(structs[1..] + [s]);
      AppendAssoc(head, Bound(structs[1..]), if s.bind then [s] else []);
    }
  }

  /** The annotation pass as an oracle: the text with every annotated block
      replaced by its plain declaration, and the blocks matched, in order. */
  type Expander = string -> (string, seq<AttribStruct>)

  /** `glsl_attrib_macros`: comments stripped, annotations expanded, then
      every input and output block's accesses flattened; the `bind` blocks
      are returned tagged with the stage. */
  method GlslAttribMacros(source: string, stage: ModuleType, expand: Expander)
    returns (output: string, bindgen: seq<AttribStruct>)
    ensures output == RenameAll(expand(StripComments(source)).0, RenamedNames(expand(StripComments(source)).1))
    ensures bindgen == Bound(Tagged(expand(StripComments(source)).1, stage))
  {
    output := StripComments(source);
    var structs;
    output, structs := expand(output).0, expand(output).1;
    var renamers;
    renamers, bindgen := CollectAttribs(structs, stage);
    output := ApplyRenamers(output, renamers);
  }
}
