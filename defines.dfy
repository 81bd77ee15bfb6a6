/** The macro definition list of a `define: [...]` option
    (`DefinesInput`, gears-pipeline/src/lib.rs). */
module Defines {
  import opened Wrappers
  import opened Tokens

  /** One `(name, Option<value>)` pair. */
  datatype Define = Define(name: string, value: Option<string>)

  /** The result of parsing `ts`, as a function of the whole token list:
      `"N" = "V"` yields `(N, Some V)`, a bare name as the last token yields
      `(N, None)`, a bare name followed by `,` continues without an entry,
      and any other punctuation is rejected. */
  function DefinesOf(ts: seq<Token>): Result<seq<Define>, ParseError>
    decreases |ts|
  {
    if ts == [] then Ok([])
    else if !ts[0].Str? then Err(ExpectedStr)
    else if |ts| == 1 then Ok([Define(ts[0].value, None)])
    else if !ts[1].Punct? then Err(ExpectedPunct)
    else if ts[1].ch == '=' then
      if |ts| == 2 || !ts[2].Str? then Err(ExpectedStr)
      else if |ts| == 3 then Ok([Define(ts[0].value, Some(ts[2].value))])
      else if ts[3] != Punct(',') then Err(ExpectedToken(','))
      else Prefixed([Define(ts[0].value, Some(ts[2].value))], DefinesOf(ts[4..]))
    else if ts[1].ch == ',' then DefinesOf(ts[2..])
    else Err(InvalidPunctuation)
  }

  /** `r` with `ds` put in front of its list, errors left as they are. */
  function Prefixed(ds: seq<Define>, r: Result<seq<Define>, ParseError>): Result<seq<Define>, ParseError> {
    match r
    case Ok(l) => Ok(ds + l)
    case Err(e) => Err(e)
  }

  /** `DefinesInput::parse`: the `while !input.is_empty()` loop, consuming
      the stream `input` and pushing onto `defines`. */
  method ParseDefines(ts: seq<Token>) returns (r: Result<seq<Define>, ParseError>)
    ensures r == DefinesOf(ts)
  {
    var input := ts;
    var defines: seq<Define> := [];
    PrefixedNothing(DefinesOf(ts));
    while input != []
      invariant DefinesOf(ts) == Prefixed(defines, DefinesOf(input))
      decreases |input|
    {
      if !input[0].Str? {
        return Err(ExpectedStr);
      }
      var name := input[0].value;
      ghost var here := input;
      input := input[1..];
      if input == [] {
        PrefixedTwice(defines, [Define(name, None)], Ok([]));
        defines := defines + [Define(name, None)];
        break;
      }
      if !input[0].Punct? {
        return Err(ExpectedPunct);
      }
      var punct := input[0].ch;
      input := input[1..];
      if punct == '=' {
        if input == [] || !input[0].Str? {
          return Err(ExpectedStr);
        }
        var d := Define(name, Some(input[0].value));
        PrefixedOnly([d]);
        assert |input| == 1 ==> DefinesOf(here) == Prefixed([d], Ok([]));
        assert |input| > 1 && input[1] == Punct(',') ==> DefinesOf(here) == Prefixed([d], DefinesOf(here[4..]));
        PrefixedTwice(defines, [d], if |input| == 1 then Ok([]) else DefinesOf(here[4..]));
        defines := defines + [d];
        input := input[1..];
        if input == [] {
          break;
        }
        if input[0] != Punct(',') {
          return Err(ExpectedToken(','));
        }
        input := input[1..];
        assert input == here[4..];
      } else if punct == ',' {
        assert input == here[2..];
        continue;
      } else {
        return Err(InvalidPunctuation);
      }
    }
    PrefixedOnly(defines);
    return Ok(defines);
  }

  lemma PrefixedNothing(r: Result<seq<Define>, ParseError>)
    ensures Prefixed([], r) == r
  {
    if r.Ok? {
      assert [] + r.value == r.value;
    }
  }

  lemma PrefixedOnly(ds: seq<Define>)
    ensures Prefixed(ds, Ok([])) == Ok(ds)
  {
    assert ds + [] == ds;
  }

  lemma PrefixedTwice(a: seq<Define>, b: seq<Define>, r: Result<seq<Define>, ParseError>)
    ensures Prefixed(a, Prefixed(b, r)) == Prefixed(a + b, r)
  {
    if r.Ok? {
      assert a + (b + r.value) == (a + b) + r.value;
    }
  }

  /** `impl AddAssign for DefinesInput`: `rhs` appended after `lhs`. */
  function AddAssign(lhs: seq<Define>, rhs: seq<Define>): (r: seq<Define>)
    ensures |r| == |lhs| + |rhs|
    ensures r[..|lhs|] == lhs && r[|lhs|..] == rhs
  {
    lhs + rhs
  }

  // ---- properties --------------------------------------------------------

  /** A name and an optional value written as the tokens `"N"` or `"N" = "V"`. */
  function DefineTokens(d: Define): seq<Token> {
    match d.value
    case None => [Str(d.name)]
    case Some(v) => [Str(d.name), Punct('='), Str(v)]
  }

  /** A list of definitions written as a `define` group body, separated by `,`. */
  function DefinesTokens(ds: seq<Define>): seq<Token>
    decreases |ds|
  {
    if ds == [] then []
    else if |ds| == 1 then DefineTokens(ds[0])
    else DefineTokens(ds[0]) + [Punct(',')] + DefinesTokens(ds[1..])
  }

  /** The definitions of `ds` that survive parsing: a bare name survives only
      in last position. */
  function Surviving(ds: seq<Define>): seq<Define>
    decreases |ds|
  {
    if |ds| <= 1 then ds
    else (if ds[0].value.Some? then [ds[0]] else []) + Surviving(ds[1..])
  }

  /** Parsing a written-out list yields exactly the surviving definitions,
      in order. */
  lemma {:induction false} ParseDefinesTokens(ds: seq<Define>)
    ensures DefinesOf(DefinesTokens(ds)) == Ok(Surviving(ds))
    decreases |ds|
  {
    if |ds| == 1 {
      assert ds == [ds[0]];
      SingleDefine(ds[0]);
    } else if |ds| > 1 {
      var rest := DefinesTokens(ds[1..]);
      ParseDefinesTokens(ds[1..]);
      match ds[0].value
      case None =>
        assert DefinesTokens(ds) == [Str(ds[0].name), Punct(',')] + rest;
        BareNameBeforeCommaDropped(ds[0].name, rest);
        assert Surviving(ds) == [] + Surviving(ds[1..]);
        assert [] + Surviving(ds[1..]) == Surviving(ds[1..]);
      case Some(v) =>
        assert DefinesTokens(ds) == [Str(ds[0].name), Punct('='), Str(v), Punct(',')] + rest;
        ValuedDefineBeforeComma(ds[0].name, v, rest);
        assert Surviving(ds) == [ds[0]] + Surviving(ds[1..]);
    }
  }

  lemma SingleDefine(d: Define)
    ensures DefinesOf(DefinesTokens([d])) == Ok(Surviving([d]))
  {
    assert DefinesTokens([d]) == DefineTokens(d);
    match d.value
    case None =>
      assert DefinesOf([Str(d.name)]) == Ok([Define(d.name, None)]);
    case Some(v) =>
      assert [Str(d.name), Punct('='), Str(v)][3..] == [];
  }

  lemma ValuedDefineBeforeComma(n: string, v: string, rest: seq<Token>)
    ensures DefinesOf([Str(n), Punct('='), Str(v), Punct(',')] + rest)
         == Prefixed([Define(n, Some(v))], DefinesOf(rest))
  {
    assert ([Str(n), Punct('='), Str(v), Punct(',')] + rest)[4..] == rest;
  }

  /** When only the last entry may lack a value, the list round-trips. */
  lemma {:induction false} DefinesRoundTrip(ds: seq<Define>)
    requires forall i :: 0 <= i < |ds| - 1 ==> ds[i].value.Some?
    ensures DefinesOf(DefinesTokens(ds)) == Ok(ds)
  {
    SurvivingAllValued(ds);
    ParseDefinesTokens(ds);
  }

  lemma {:induction false} SurvivingAllValued(ds: seq<Define>)
    requires forall i :: 0 <= i < |ds| - 1 ==> ds[i].value.Some?
    ensures Surviving(ds) == ds
    decreases |ds|
  {
    if |ds| > 1 {
      assert ds[0].value.Some?;
      SurvivingAllValued(ds[1..]);
      assert [ds[0]] + ds[1..] == ds;
    }
  }

  /** A bare name followed by `,` contributes nothing: the rest of the list
      is parsed as if it were absent. */
  lemma BareNameBeforeCommaDropped(n: string, rest: seq<Token>)
    ensures DefinesOf([Str(n), Punct(',')] + rest) == DefinesOf(rest)
  {
    assert ([Str(n), Punct(',')] + rest)[2..] == rest;
  }

  /** Any punctuation after a name other than `=` and `,` is an error. */
  lemma OtherPunctuationRejected(n: string, c: char, rest: seq<Token>)
    requires c != '=' && c != ','
    ensures DefinesOf([Str(n), Punct(c)] + rest) == Err(InvalidPunctuation)
  {
  }

  /** Every parsed name, and every parsed value, is one of the string
      literals of the input, and there are never more entries than tokens. */
  lemma {:induction false} DefinesFromLiterals(ts: seq<Token>)
    requires DefinesOf(ts).Ok?
    ensures |DefinesOf(ts).value| <= |ts|
    ensures forall d :: d in DefinesOf(ts).value ==>
              Str(d.name) in ts && (d.value.Some? ==> Str(d.value.value) in ts)
    decreases |ts|
  {
    if |ts| > 3 && ts[1] == Punct('=') {
      DefinesFromLiterals(ts[4..]);
      assert forall t :: t in ts[4..] ==> t in ts;
    } else if |ts| > 1 && ts[1] == Punct(',') {
      DefinesFromLiterals(ts[2..]);
      assert forall t :: t in ts[2..] ==> t in ts;
    }
  }
}
