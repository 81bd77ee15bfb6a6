/** The pieces of Rust's string library the front end relies on: decimal
    printing of integers, `{:4}` padding, `str::trim_end` and `str::lines`. */
module Text {
  import opened Seqs


  function DigitChar(d: nat): char
    requires d < 10
  {
    ('0' as int + d) as char
  }

  predicate IsDigit(c: char) {
    '0' <= c <= '9'
  }

  /** The decimal digits of `n`, most significant first, no leading zero. */
  function Decimal(n: nat): (r: string)
    ensures |r| > 0 && (forall i :: 0 <= i < |r| ==> IsDigit(r[i]))
    ensures r[0] == '0' ==> n == 0
    decreases n
  {
    if n < 10 then [DigitChar(n)] else Decimal(n / 10) + [DigitChar(n % 10)]
  }

  /** The value of a string of decimal digits. */
  function DecimalValue(s: string): nat
    requires forall i :: 0 <= i < |s| ==> IsDigit(s[i])
    decreases |s|
  {
    if s == [] then 0 else DecimalValue(s[..|s| - 1]) * 10 + DigitValue(s[|s| - 1])
  }

  function DigitValue(c: char): nat
    requires IsDigit(c)
  {
    c as int - '0' as int
  }

  /** Printing a number and reading it back gives the number. */
  lemma {:induction false} DecimalRoundTrip(n: nat)
    ensures DecimalValue(Decimal(n)) == n
    decreases n
  {
    if n >= 10 {
      DecimalRoundTrip(n / 10);
      var s := Decimal(n);
      assert s[..|s| - 1] == Decimal(n / 10);
    }
  }

  /** `format!("{:w}", n)` for an integer: right-aligned, space-padded to at
      least `w` characters. */
  function PadLeft(s: string, w: nat): (r: string)
    ensures |r| == if |s| >= w then |s| else w
    ensures r[|r| - |s|..] == s
    ensures forall i :: 0 <= i < |r| - |s| ==> r[i] == ' '
  {
    if |s| >= w then s else seq(w - |s|, _ => ' ') + s
  }

  /** `char::is_whitespace`: the Unicode White_Space characters. */
  predicate IsWhitespace(c: char) {
    c == ' ' || ('\t' <= c <= '\r') || c == '\U{85}' || c == '\U{A0}' || c == '\U{1680}'
    || ('\U{2000}' <= c <= '\U{200A}') || c == '\U{2028}' || c == '\U{2029}'
    || c == '\U{202F}' || c == '\U{205F}' || c == '\U{3000}'
  }

  /** `str::trim_end`: `s` without its trailing whitespace. The result is a
      prefix of `s`, everything cut off is whitespace, and the result does
      not itself end in whitespace. */
  function TrimEnd(s: string): (r: string)
    ensures |r| <= |s| && r == s[..|r|]
    ensures forall i :: |r| <= i < |s| ==> IsWhitespace(s[i])
    ensures r == [] || !IsWhitespace(r[|r| - 1])
    decreases |s|
  {
    if s == [] || !IsWhitespace(s[|s| - 1]) then s else TrimEnd(s[..|s| - 1])
  }

  /** The first index at or after `i` holding `'\n'`, or `|s|`. */
  function NewlineFrom(s: string, i: nat): (k: nat)
    requires i <= |s|
    ensures i <= k <= |s|
    ensures k < |s| ==> s[k] == '\n'
    ensures forall j :: i <= j < k ==> s[j] != '\n'
    decreases |s| - i
  {
    if i == |s| || s[i] == '\n' then i else NewlineFrom(s, i + 1)
  }

  /** A line that was ended by `'\n'` loses a `'\r'` before it. */
  function StripCarriageReturn(line: string): string {
    if |line| > 0 && line[|line| - 1] == '\r' then line[..|line| - 1] else line
  }

  /** `str::lines`: split at `'\n'` (and `"\r\n"`); a final line ending adds
      no empty line, and the empty string has no lines. */
  function Lines(s: string): seq<string>
    decreases |s|
  {
    if s == [] then []
    else
      var k := NewlineFrom(s, 0);
      if k == |s| then [s] else [StripCarriageReturn(s[..k])] + Lines(s[k + 1..])
  }

  /** The lines joined back, each followed by `'\n'`. */
  function Unlines(ls: seq<string>): string
    decreases |ls|
  {
    if ls == [] then [] else ls[0] + "\n" + Unlines(ls[1..])
  }

  /** No line holds a `'\n'`. */
  lemma {:induction false} LinesHaveNoNewline(s: string)
    ensures forall l :: l in Lines(s) ==> '\n' !in l
    decreases |s|
  {
    if s != [] {
      var k := NewlineFrom(s, 0);
      if k < |s| {
        LinesHaveNoNewline(s[k + 1..]);
        assert forall c :: c in StripCarriageReturn(s[..k]) ==> c in s[..k];
      }
    }
  }

  /** Without carriage returns, the lines are exactly the text: joining them
      back gives `s`, with a final `'\n'` added if `s` did not end in one. */
  lemma {:induction false} LinesRoundTrip(s: string)
    requires '\r' !in s
    ensures Unlines(Lines(s)) == if s == [] || s[|s| - 1] == '\n' then s else s + "\n"
    decreases |s|
  {
    if s != [] {
      var k := NewlineFrom(s, 0);
      if k == |s| {
        assert Lines(s) == [s];
        UnlinesCons(s, []);
      } else {
        var head, tail := s[..k], s[k + 1..];
        LinesCons(s, k);
        LinesRoundTrip(tail);
        UnlinesCons(head, Lines(tail));
        SplitAtNewline(s, k);
        JoinLine(head, tail, Unlines(Lines(tail)));
      }
    }
  }

  /** The first line of `s`, cut at its first `'\n'`, and the lines of the
      rest. */
  lemma LinesCons(s: string, k: nat)
    requires k < |s| && k == NewlineFrom(s, 0)
    requires '\r' !in s
    ensures Lines(s) == [s[..k]] + Lines(s[k + 1..])
  {
    var head := s[..k];
    if k > 0 {
      assert s[k - 1] in s;
      assert head[k - 1] == s[k - 1];
    }
    assert StripCarriageReturn(head) == head;
  }

  lemma SplitAtNewline(s: string, k: nat)
    requires k < |s| && s[k] == '\n'
    ensures s == s[..k] + "\n" + s[k + 1..]
  {
  }

  lemma JoinLine(head: string, tail: string, joined: string)
    requires joined == if tail == [] || tail[|tail| - 1] == '\n' then tail else tail + "\n"
    ensures var s := head + "\n" + tail;
            head + "\n" + joined == if s[|s| - 1] == '\n' then s else s + "\n"
  {
    var s := head + "\n" + tail;
    if tail != [] {
      assert s[|s| - 1] == tail[|tail| - 1];
      if tail[|tail| - 1] != '\n' {
        AppendAssoc(head + "\n", tail, "\n");
      }
    }
  }

  lemma UnlinesCons(l: string, ls: seq<string>)
    ensures Unlines([l] + ls) == l + "\n" + Unlines(ls)
  {
    assert ([l] + ls)[1..] == ls;
  }
}
