/**
 * The .NET string operations the core relies on: `char.IsWhiteSpace`,
 * `string.Trim`, `string.ToLowerInvariant` and `Encoding.ASCII.GetString`.
 */
module Text {
  import opened Common

  /** `char.IsWhiteSpace`: the Unicode white-space characters .NET recognises. */
  predicate IsWhiteSpace(c: char) {
    || c == ' '
    || '\t' <= c <= '\r'
    || c == '\U{85}' || c == '\U{A0}' || c == '\U{1680}'
    || '\U{2000}' <= c <= '\U{200A}'
    || c == '\U{2028}' || c == '\U{2029}' || c == '\U{202F}' || c == '\U{205F}' || c == '\U{3000}'
  }

  predicate AllWhiteSpace(s: string) {
    forall i :: 0 <= i < |s| ==> IsWhiteSpace(s[i])
  }

  /** `string.IsNullOrWhiteSpace`, with `None` for a null string. */
  predicate IsNullOrWhiteSpace(s: Option<string>) {
    s.None? || AllWhiteSpace(s.value)
  }

  function TrimStart(s: string): (r: string)
    ensures |r| <= |s|
  {
    if |s| > 0 && IsWhiteSpace(s[0]) then TrimStart(s[1..]) else s
  }

  function TrimEnd(s: string): (r: string)
    ensures |r| <= |s|
  {
    if |s| > 0 && IsWhiteSpace(s[|s| - 1]) then TrimEnd(s[..|s| - 1]) else s
  }

  /** `string.Trim`: white space removed from both ends. */
  function Trim(s: string): (r: string)
    ensures |r| <= |s|
  {
    TrimEnd(TrimStart(s))
  }

  /** `TrimStart` keeps a suffix of its input. */
  lemma {:induction false} TrimStartIsSuffix(s: string)
    ensures TrimStart(s) == s[|s| - |TrimStart(s)|..]
    decreases |s|
  {
    if |s| > 0 && IsWhiteSpace(s[0]) {
      TrimStartIsSuffix(s[1..]);
    }
  }

  /** `TrimEnd` keeps a prefix of its input. */
  lemma {:induction false} TrimEndIsPrefix(s: string)
    ensures TrimEnd(s) == s[..|TrimEnd(s)|]
    decreases |s|
  {
    if |s| > 0 && IsWhiteSpace(s[|s| - 1]) {
      TrimEndIsPrefix(s[..|s| - 1]);
    }
  }

  /** `TrimStart` removes exactly the leading white space. */
  lemma {:induction false} TrimStartSpec(s: string)
    ensures var r := TrimStart(s);
      && (r == [] || !IsWhiteSpace(r[0]))
      && AllWhiteSpace(s[..|s| - |r|])
    decreases |s|
  {
    if |s| > 0 && IsWhiteSpace(s[0]) {
      TrimStartSpec(s[1..]);
      var n := |s| - |TrimStart(s)|;
      assert s[..n] == [s[0]] + s[1..][..n - 1];
    }
  }

  /** `TrimEnd` removes exactly the trailing white space. */
  lemma {:induction false} TrimEndSpec(s: string)
    ensures var r := TrimEnd(s);
      && (r == [] || !IsWhiteSpace(r[|r| - 1]))
      && AllWhiteSpace(s[|r|..])
    decreases |s|
  {
    if |s| > 0 && IsWhiteSpace(s[|s| - 1]) {
      TrimEndSpec(s[..|s| - 1]);
      var n := |TrimEnd(s)|;
      assert s[n..] == s[..|s| - 1][n..] + [s[|s| - 1]];
    }
  }

  /** `Trim` yields a slice of `s`, starting where `TrimStart` cut. */
  lemma TrimIsSlice(s: string)
    ensures var r, a := Trim(s), |s| - |TrimStart(s)|;
      a + |r| <= |s| && r == s[a..a + |r|]
  {
    TrimStartIsSuffix(s);
    TrimEndIsPrefix(TrimStart(s));
  }

  /** Everything `Trim` cuts off, on either side, is white space. */
  lemma TrimCutsWhiteSpace(s: string)
    ensures var r, a := Trim(s), |s| - |TrimStart(s)|;
      AllWhiteSpace(s[..a]) && AllWhiteSpace(s[a + |r|..])
  {
    var t := TrimStart(s);
    var a := |s| - |t|;
    TrimStartSpec(s);
    TrimEndSpec(t);
    TrimStartIsSuffix(s);
    assert s[a + |TrimEnd(t)|..] == t[|TrimEnd(t)|..];
  }

  /** What `Trim` keeps neither starts nor ends with white space. */
  lemma TrimEndsNotWhiteSpace(s: string)
    ensures var r := Trim(s);
      r == [] || (!IsWhiteSpace(r[0]) && !IsWhiteSpace(r[|r| - 1]))
  {
    var t := TrimStart(s);
    var r := TrimEnd(t);
    TrimStartSpec(s);
    TrimEndSpec(t);
    TrimEndIsPrefix(t);
    if r != [] {
      assert r[0] == t[0];
    }
  }

  /** `char.ToLowerInvariant` on the ASCII range. */
  function LowerChar(c: char): char {
    if 'A' <= c <= 'Z' then (c as int + 32) as char else c
  }

  function ToLower(s: string): (r: string)
    ensures |r| == |s|
  {
    seq(|s|, i requires 0 <= i < |s| => LowerChar(s[i]))
  }

  /** `Encoding.ASCII.GetString` of one byte: bytes above 127 decode to '?'. */
  function AsciiChar(b: byte): char {
    if b < 128 then (b as int) as char else '?'
  }

  function AsciiString(bs: seq<byte>): (r: string)
    ensures |r| == |bs|
  {
    seq(|bs|, i requires 0 <= i < |bs| => AsciiChar(bs[i]))
  }

  /** Lower-casing neither creates nor removes white space. */
  lemma LowerKeepsWhiteSpace(c: char)
    ensures IsWhiteSpace(LowerChar(c)) == IsWhiteSpace(c)
  {
  }

  lemma {:induction false} TrimStartOfLower(s: string)
    ensures TrimStart(ToLower(s)) == ToLower(TrimStart(s))
    decreases |s|
  {
    if |s| > 0 {
      LowerKeepsWhiteSpace(s[0]);
      if IsWhiteSpace(s[0]) {
        assert ToLower(s)[1..] == ToLower(s[1..]);
        TrimStartOfLower(s[1..]);
      }
    }
  }

  lemma {:induction false} TrimEndOfLower(s: string)
    ensures TrimEnd(ToLower(s)) == ToLower(TrimEnd(s))
    decreases |s|
  {
    if |s| > 0 {
      LowerKeepsWhiteSpace(s[|s| - 1]);
      if IsWhiteSpace(s[|s| - 1]) {
        assert ToLower(s)[..|s| - 1] == ToLower(s[..|s| - 1]);
        TrimEndOfLower(s[..|s| - 1]);
      }
    }
  }

  /** Trimming and lower-casing commute. */
  lemma TrimOfLower(s: string)
    ensures Trim(ToLower(s)) == ToLower(Trim(s))
  {
    TrimStartOfLower(s);
    TrimEndOfLower(TrimStart(s));
  }

  /** `Trim` is idempotent. */
  lemma TrimIdempotent(s: string)
    ensures Trim(Trim(s)) == Trim(s)
  {
    var r := Trim(s);
    TrimEndsNotWhiteSpace(s);
    assert TrimStart(r) == r;
    assert TrimEnd(r) == r;
  }

  lemma ToLowerIdempotent(s: string)
    ensures ToLower(ToLower(s)) == ToLower(s)
  {
  }
}
