/** Emitting one compiled module as Rust tokens (`CompiledModule::to_tokens`,
    gears-pipeline/src/lib.rs): a constant `pub const VERT_SPIRV: &[u8] =
    &[b0, b1, ..., ];` holding the SPIR-V bytes as unsuffixed literals. */
module Emit {
  import opened Wrappers
  import opened Bytes
  import opened Tokens
  import opened Text
  import opened Stages

  /** The constant's name, from the stage's `name()`. */
  function ConstName(t: ModuleType): string {
    Name(t) + "_SPIRV"
  }

  /** The two stages get constants with different names, `VERT_SPIRV` and
      `FRAG_SPIRV`. */
  lemma ConstNames()
    ensures ConstName(Vertex) == "VERT_SPIRV" && ConstName(Fragment) == "FRAG_SPIRV"
    ensures forall t, u :: ConstName(t) == ConstName(u) ==> t == u
  {
    forall t, u | ConstName(t) == ConstName(u)
      ensures t == u
    {
      assert ConstName(t)[..4] == Name(t);
      assert ConstName(u)[..4] == Name(u);
    }
  }

  /** The bracketed list: one literal and one `,` per byte, in byte order. */
  function ByteList(spirv: seq<byte>): (r: seq<Token>)
    ensures |r| == 2 * |spirv|
    decreases |spirv|
  {
    if spirv == [] then [] else [Num(Decimal(spirv[0])), Punct(',')] + ByteList(spirv[1..])
  }

  /** Byte `k` of the kernel is the literal at position `2k` of the list,
      followed by a `,`. */
  lemma {:induction false} ByteListAt(spirv: seq<byte>, k: nat)
    requires k < |spirv|
    ensures ByteList(spirv)[2 * k] == Num(Decimal(spirv[k]))
    ensures ByteList(spirv)[2 * k + 1] == Punct(',')
    decreases k
  {
    if k > 0 {
      ByteListAt(spirv[1..], k - 1);
      assert ByteList(spirv)[2 * k] == ByteList(spirv[1..])[2 * (k - 1)];
      assert ByteList(spirv)[2 * k + 1] == ByteList(spirv[1..])[2 * (k - 1) + 1];
    }
  }

  /** The whole item `pub const NAME_SPIRV: &[u8] = &[...];`. */
  function ConstItem(t: ModuleType, spirv: seq<byte>): seq<Token> {
    [Ident("pub"), Ident("const"), Ident(ConstName(t)), Punct(':'),
     Punct('&'), Group(Bracket, [Ident("u8")]), Punct('='),
     Punct('&'), Group(Bracket, ByteList(spirv)), Punct(';')]
  }

  /** `to_tokens`: appends the item to the stream, building the list byte by
      byte. */
  method EmitModule(tokens: seq<Token>, t: ModuleType, spirv: seq<byte>) returns (out: seq<Token>)
    ensures out == tokens + ConstItem(t, spirv)
  {
    out := tokens + [Ident("pub"), Ident("const"), Ident(ConstName(t)), Punct(':')];
    out := out + [Punct('&'), Group(Bracket, [Ident("u8")])];
    out := out + [Punct('=')];
    out := out + [Punct('&')];
    var list: seq<Token> := [];
    for i := 0 to |spirv|
      invariant list == ByteList(spirv[..i])
    {
      ByteListSnoc(spirv[..i], spirv[i]);
      assert spirv[..i + 1] == spirv[..i] + [spirv[i]];
      list := list + [Num(Decimal(spirv[i]))];
      list := list + [Punct(',')];
    }
    assert spirv[..|spirv|] == spirv;
    out := out + [Group(Bracket, list)];
    out := out + [Punct(';')];
  }

  lemma {:induction false} ByteListSnoc(spirv: seq<byte>, b: byte)
    ensures ByteList(spirv + [b]) == ByteList(spirv) + [Num(Decimal(b)), Punct(',')]
    decreases |spirv|
  {
    if spirv == [] {
      assert [] + [b] == [b];
    } else {
      assert (spirv + [b])[1..] == spirv[1..] + [b];
      ByteListSnoc(spirv[1..], b);
    }
  }

  /** Reading a byte list back: pairs of a decimal literal below 256 and a
      `,`; anything else is not such a list. */
  function ReadByteList(ts: seq<Token>): Option<seq<byte>>
    decreases |ts|
  {
    if ts == [] then Some([])
    else if |ts| >= 2 && ts[0].Num? && ts[1] == Punct(',') && |ts[0].text| > 0
            && (forall i :: 0 <= i < |ts[0].text| ==> IsDigit(ts[0].text[i]))
            && DecimalValue(ts[0].text) < 256 then
      match ReadByteList(ts[2..])
      case Some(rest) => Some([DecimalValue(ts[0].text) as byte] + rest)
      case None => None
    else None
  }

  /** The emitted list holds exactly the kernel's bytes, in order. */
  lemma {:induction false} ByteListRoundTrip(spirv: seq<byte>)
    ensures ReadByteList(ByteList(spirv)) == Some(spirv)
    decreases |spirv|
  {
    if spirv != [] {
      var ts := ByteList(spirv);
      DecimalRoundTrip(spirv[0]);
      assert ts[2..] == ByteList(spirv[1..]);
      ByteListRoundTrip(spirv[1..]);
      assert [spirv[0]] + spirv[1..] == spirv;
    }
  }

  /** Different kernels give different lists. */
  lemma ByteListInjective(a: seq<byte>, b: seq<byte>)
    requires ByteList(a) == ByteList(b)
    ensures a == b
  {
    ByteListRoundTrip(a);
    ByteListRoundTrip(b);
  }
}
