/**
 * Allocation-free primitives over a byte region (an array, an offset and a
 * length): table-driven ASCII upper-casing and digit decoding, exact, prefix
 * and suffix comparison, naive substring search and delimiter splitting.
 * Each routine is the index loop of the source, proved against a function
 * that states what it computes.
 */
module Bytes {
  import opened Common

  /** A view on part of an array (`ArraySegment<byte>`): absolute offset and length. */
  datatype Segment = Segment(offset: nat, count: nat) {
    function End(): nat { offset + count }
  }

  // ---------------------------------------------------------------------------
  // Lookup tables

  /** The upper-casing table: bytes 97..122 ('a'..'z') map to 65..90, every other byte to itself. */
  function AlphaUpper(b: byte): byte {
    if 97 <= b <= 122 then b - 32 else b
  }

  /** The digit table: bytes 48..57 ('0'..'9') map to 0..9, every other byte to 255. */
  function Digits(b: byte): byte {
    if 48 <= b <= 57 then b - 48 else 255
  }

  /** The static constructor's loop that fills both 256-entry tables. */
  method BuildTables() returns (alphaUpper: array<byte>, digits: array<byte>)
    ensures fresh(alphaUpper) && fresh(digits)
    ensures alphaUpper.Length == 256 && digits.Length == 256
    ensures forall i :: 0 <= i < 256 ==> alphaUpper[i] == AlphaUpper(i as byte)
    ensures forall i :: 0 <= i < 256 ==> digits[i] == Digits(i as byte)
  {
    alphaUpper := new byte[256];
    digits := new byte[256];
    var i := 0;
    while i <= 255
      invariant 0 <= i <= 256
      invariant forall k :: 0 <= k < i ==> alphaUpper[k] == AlphaUpper(k as byte)
      invariant forall k :: 0 <= k < i ==> digits[k] == Digits(k as byte)
    {
      alphaUpper[i] := if 97 <= i <= 122 then (i - 32) as byte else i as byte;
      digits[i] := if 48 <= i <= 57 then (i - 48) as byte else 255;
      i := i + 1;
    }
  }

  /** Only the 26 lower-case ASCII letters are changed by the table, each to its upper-case form. */
  lemma AlphaUpperChangesOnlyLowerCase(b: byte)
    ensures AlphaUpper(b) != b <==> 97 <= b <= 122
    ensures 97 <= b <= 122 ==> 65 <= AlphaUpper(b) <= 90 && AlphaUpper(b) == b - 32
    ensures !(97 <= AlphaUpper(b) <= 122)
  {
  }

  /** The digit table decodes exactly the ten ASCII digits. */
  lemma DigitsDecodeAsciiDigits(b: byte)
    ensures Digits(b) <= 9 <==> 48 <= b <= 57
    ensures 48 <= b <= 57 ==> b == 48 + Digits(b)
  {
  }

  // ---------------------------------------------------------------------------
  // ToUpper

  /** `s` with every byte in [offset, offset + length) passed through the upper-casing table. */
  function UpperRegion(s: seq<byte>, offset: nat, length: nat): (r: seq<byte>)
    requires offset + length <= |s|
    ensures |r| == |s|
  {
    seq(|s|, i requires 0 <= i < |s| => if offset <= i < offset + length then AlphaUpper(s[i]) else s[i])
  }

  method ToUpper(data: array<byte>, offset: nat, length: nat)
    requires offset + length <= data.Length
    modifies data
    ensures data[..] == UpperRegion(old(data[..]), offset, length)
  {
    var i := offset;
    var end := offset + length;
    while i < end
      invariant offset <= i <= end
      invariant forall k :: 0 <= k < data.Length ==>
        data[k] == if offset <= k < i then AlphaUpper(old(data[k])) else old(data[k])
    {
      data[i] := AlphaUpper(data[i]);
      i := i + 1;
    }
  }

  /**
   * Upper-casing a region changes only bytes inside it, only lower-case
   * letters, each to its upper-case form; and doing it twice is doing it once.
   */
  lemma UpperRegionSpec(s: seq<byte>, offset: nat, length: nat)
    requires offset + length <= |s|
    ensures forall k :: 0 <= k < |s| && UpperRegion(s, offset, length)[k] != s[k] ==>
      offset <= k < offset + length && 97 <= s[k] <= 122 && UpperRegion(s, offset, length)[k] == s[k] - 32
    ensures forall k :: offset <= k < offset + length && 97 <= s[k] <= 122 ==>
      UpperRegion(s, offset, length)[k] == s[k] - 32
    ensures UpperRegion(UpperRegion(s, offset, length), offset, length) == UpperRegion(s, offset, length)
  {
  }

  // ---------------------------------------------------------------------------
  // Comparisons

  method IsSame(search: seq<byte>, data: array<byte>, offset: nat, length: nat) returns (r: bool)
    requires offset + length <= data.Length
    ensures r <==> search == data[offset..offset + length]
  {
    if |search| != length {
      return false;
    }
    var i := 0;
    while i < length
      invariant 0 <= i <= length
      invariant forall k :: 0 <= k < i ==> search[k] == data[offset + k]
    {
      if search[i] != data[offset + i] {
        assert data[offset..offset + length][i] != search[i];
        return false;
      }
      i := i + 1;
    }
    return true;
  }

  method StartsWith(search: seq<byte>, data: array<byte>, offset: nat, length: nat) returns (r: bool)
    requires offset + length <= data.Length
    ensures r <==> |search| <= length && data[offset..offset + |search|] == search
  {
    if length >= |search| {
      var i := 0;
      while i < |search|
        invariant 0 <= i <= |search|
        invariant forall k :: 0 <= k < i ==> search[k] == data[offset + k]
      {
        if data[offset + i] != search[i] {
          assert data[offset..offset + |search|][i] != search[i];
          return false;
        }
        i := i + 1;
      }
      return true;
    }
    return false;
  }

  method EndsWith(search: seq<byte>, data: array<byte>, offset: nat, length: nat) returns (r: bool)
    requires offset + length <= data.Length
    ensures r <==> |search| <= length && data[offset + length - |search|..offset + length] == search
  {
    if length >= |search| {
      var beginOffset := offset + length - |search|;
      var i := 0;
      while i < |search|
        invariant 0 <= i <= |search|
        invariant forall k :: 0 <= k < i ==> search[k] == data[beginOffset + k]
      {
        if data[beginOffset + i] != search[i] {
          assert data[beginOffset..offset + length][i] != search[i];
          return false;
        }
        i := i + 1;
      }
      return true;
    }
    return false;
  }

  // ---------------------------------------------------------------------------
  // OffsetOf

  predicate OccursAt(s: seq<byte>, pattern: seq<byte>, i: int) {
    0 <= i && i + |pattern| <= |s| && s[i..i + |pattern|] == pattern
  }

  /**
   * The smallest start of an occurrence of `pattern` lying wholly inside
   * [from, end) of `s`, or -1 when there is none. A region with
   * `end < from + |pattern|` (a negative length included) has none.
   */
  function FirstOccurrence(s: seq<byte>, pattern: seq<byte>, from: int, end: int): (r: int)
    requires 0 <= from && end <= |s|
    ensures r == -1 || (from <= r && r + |pattern| <= end && OccursAt(s, pattern, r))
    decreases end - from
  {
    if from + |pattern| > end then -1
    else if s[from..from + |pattern|] == pattern then from
    else FirstOccurrence(s, pattern, from + 1, end)
  }

  /** No occurrence inside the region starts before the one found (nor at all when none is found). */
  lemma {:induction false} FirstOccurrenceIsFirst(s: seq<byte>, pattern: seq<byte>, from: int, end: int)
    requires 0 <= from && end <= |s|
    ensures var r := FirstOccurrence(s, pattern, from, end);
      forall i :: from <= i && i + |pattern| <= end && (r == -1 || i < r) ==> !OccursAt(s, pattern, i)
    decreases end - from
  {
    if from + |pattern| <= end && s[from..from + |pattern|] != pattern {
      FirstOccurrenceIsFirst(s, pattern, from + 1, end);
    }
  }

  /** The search reads nothing outside [from, end). */
  lemma {:induction false} FirstOccurrenceLocal(s: seq<byte>, t: seq<byte>, pattern: seq<byte>, from: int, end: int)
    requires 0 <= from <= end <= |s| && end <= |t|
    requires s[from..end] == t[from..end]
    ensures FirstOccurrence(s, pattern, from, end) == FirstOccurrence(t, pattern, from, end)
    decreases end - from
  {
    if from + |pattern| <= end {
      forall k | from <= k < end
        ensures s[k] == t[k]
      {
        assert s[k] == s[from..end][k - from];
        assert t[k] == t[from..end][k - from];
      }
      assert s[from..from + |pattern|] == t[from..from + |pattern|];
      if s[from..from + |pattern|] != pattern {
        assert s[from + 1..end] == t[from + 1..end];
        FirstOccurrenceLocal(s, t, pattern, from + 1, end);
      }
    }
  }

  /** The inner comparison loop of `OffsetOf`: whether `search` occurs at `dataOffset`. */
  method MatchesAt(search: seq<byte>, data: array<byte>, dataOffset: nat) returns (found: bool)
    requires dataOffset + |search| <= data.Length
    ensures found <==> OccursAt(data[..], search, dataOffset)
  {
    found := true;
    for i := 0 to |search|
      invariant forall k :: 0 <= k < i ==> data[dataOffset + k] == search[k]
    {
      if data[dataOffset + i] != search[i] {
        found := false;
        assert data[..][dataOffset..dataOffset + |search|][i] != search[i];
        return;
      }
    }
    assert data[..][dataOffset..dataOffset + |search|] == search;
  }

  method OffsetOf(search: seq<byte>, data: array<byte>, offset: nat, length: int) returns (r: int)
    requires offset + length <= data.Length
    ensures r == FirstOccurrence(data[..], search, offset, offset + length)
  {
    var dataOffset := offset;
    while dataOffset <= offset + length - |search|
      invariant offset <= dataOffset
      invariant FirstOccurrence(data[..], search, dataOffset, offset + length)
             == FirstOccurrence(data[..], search, offset, offset + length)
      decreases offset + length - dataOffset
    {
      var found := MatchesAt(search, data, dataOffset);
      if found {
        return dataOffset;
      }
      dataOffset := dataOffset + 1;
    }
    return -1;
  }

  // ---------------------------------------------------------------------------
  // Split

  predicate NoDelimiter(s: seq<byte>, delimiters: seq<byte>, from: int, end: int)
    requires 0 <= from && end <= |s|
  {
    forall k :: from <= k < end ==> s[k] !in delimiters
  }

  /** The end of the run of non-delimiters that starts at `from`. */
  function RunEnd(s: seq<byte>, delimiters: seq<byte>, from: nat, end: nat): (e: nat)
    requires from <= end <= |s|
    ensures from <= e <= end
    decreases end - from
  {
    if from == end || s[from] in delimiters then from else RunEnd(s, delimiters, from + 1, end)
  }

  /** The run holds no delimiter and stops at a delimiter or at the end. */
  lemma {:induction false} RunEndIsRun(s: seq<byte>, delimiters: seq<byte>, from: nat, end: nat)
    requires from <= end <= |s|
    ensures var e := RunEnd(s, delimiters, from, end);
      NoDelimiter(s, delimiters, from, e) && (e == end || s[e] in delimiters)
    decreases end - from
  {
    if from < end && s[from] !in delimiters {
      RunEndIsRun(s, delimiters, from + 1, end);
    }
  }

  /** A token of [from, end): a non-empty maximal run of non-delimiters inside the region. */
  predicate IsToken(s: seq<byte>, delimiters: seq<byte>, from: nat, end: nat, t: Segment)
    requires end <= |s|
  {
    && t.count > 0 && from <= t.offset && t.End() <= end
    && NoDelimiter(s, delimiters, t.offset, t.End())
    && (t.offset == from || s[t.offset - 1] in delimiters)
    && (t.End() == end || s[t.End()] in delimiters)
  }

  /**
   * The tokens of [from, end) in order: every maximal run of non-delimiter
   * bytes, consecutive delimiters yielding no empty token.
   */
  function Tokens(s: seq<byte>, delimiters: seq<byte>, from: nat, end: nat): (r: seq<Segment>)
    requires from <= end <= |s|
    decreases end - from
  {
    if from == end then []
    else if s[from] in delimiters then Tokens(s, delimiters, from + 1, end)
    else
      var e := RunEnd(s, delimiters, from, end);
      [Segment(from, e - from)] + Tokens(s, delimiters, e, end)
  }

  /** An empty region has no token and keeps nothing. */
  lemma TokensNone(s: seq<byte>, delimiters: seq<byte>, from: nat)
    requires from <= |s|
    ensures Tokens(s, delimiters, from, from) == [] && Kept(s, delimiters, from, from) == []
  {
  }

  /** The first byte of the region is a delimiter: it adds no token. */
  lemma TokensSkip(s: seq<byte>, delimiters: seq<byte>, from: nat, end: nat)
    requires from < end <= |s| && s[from] in delimiters
    ensures Tokens(s, delimiters, from, end) == Tokens(s, delimiters, from + 1, end)
  {
  }

  /** The first byte of the region is not a delimiter: the first token is the run it starts. */
  lemma TokensRun(s: seq<byte>, delimiters: seq<byte>, from: nat, end: nat)
    requires from < end <= |s| && s[from] !in delimiters
    ensures var e := RunEnd(s, delimiters, from, end);
      Tokens(s, delimiters, from, end) == [Segment(from, e - from)] + Tokens(s, delimiters, e, end)
  {
  }

  /** Every token lies inside the region it was cut from. */
  lemma {:induction false} TokensWithin(s: seq<byte>, delimiters: seq<byte>, from: nat, end: nat)
    requires from <= end <= |s|
    ensures forall i :: 0 <= i < |Tokens(s, delimiters, from, end)| ==>
      from <= Tokens(s, delimiters, from, end)[i].offset && Tokens(s, delimiters, from, end)[i].End() <= end
    decreases end - from
  {
    if from == end {
    } else if s[from] in delimiters {
      TokensWithin(s, delimiters, from + 1, end);
      assert Tokens(s, delimiters, from, end) == Tokens(s, delimiters, from + 1, end);
    } else {
      var e := RunEnd(s, delimiters, from, end);
      TokensWithin(s, delimiters, e, end);
      assert Tokens(s, delimiters, from, end) == [Segment(from, e - from)] + Tokens(s, delimiters, e, end);
    }
  }

  /** Segments in ascending order, none touching the next. */
  predicate Ascending(r: seq<Segment>) {
    forall i, j :: 0 <= i < j < |r| ==> r[i].End() < r[j].offset
  }

  /** Every segment is a token of [from, end), and they come in ascending, non-touching order. */
  predicate AreTokens(s: seq<byte>, delimiters: seq<byte>, from: nat, end: nat, r: seq<Segment>)
    requires end <= |s|
  {
    && (forall i :: 0 <= i < |r| ==> IsToken(s, delimiters, from, end, r[i]))
    && Ascending(r)
  }

  lemma AscendingCons(t: Segment, rest: seq<Segment>)
    requires Ascending(rest)
    requires forall k :: 0 <= k < |rest| ==> t.End() < rest[k].offset
    ensures Ascending([t] + rest)
  {
    var r := [t] + rest;
    forall i, j | 0 <= i < j < |r|
      ensures r[i].End() < r[j].offset
    {
      assert r[j] == rest[j - 1];
      if i > 0 {
        assert r[i] == rest[i - 1];
      }
    }
  }

  /** A leading delimiter adds no token: the tokens after it are the tokens of the whole region. */
  lemma TokensSkipDelimiter(s: seq<byte>, delimiters: seq<byte>, from: nat, end: nat)
    requires from < end <= |s| && s[from] in delimiters
    requires AreTokens(s, delimiters, from + 1, end, Tokens(s, delimiters, from + 1, end))
    ensures AreTokens(s, delimiters, from, end, Tokens(s, delimiters, from, end))
  {
    var r := Tokens(s, delimiters, from + 1, end);
    forall i | 0 <= i < |r|
      ensures IsToken(s, delimiters, from, end, r[i])
    {
      assert IsToken(s, delimiters, from + 1, end, r[i]);
    }
  }

  /** A token of [e, end) that starts after `e` is also a token of any larger region [from, end). */
  lemma TokenWiden(s: seq<byte>, delimiters: seq<byte>, from: nat, e: nat, end: nat, t: Segment)
    requires from <= e <= end <= |s|
    requires IsToken(s, delimiters, e, end, t) && e < end && s[e] in delimiters
    ensures e < t.offset && IsToken(s, delimiters, from, end, t)
  {
    assert s[t.offset] !in delimiters;
  }

  /** The tokens after a leading run all start past the run's end. */
  lemma TokensAfterRun(s: seq<byte>, delimiters: seq<byte>, from: nat, end: nat)
    requires from < end <= |s| && s[from] !in delimiters
    requires var e := RunEnd(s, delimiters, from, end);
      AreTokens(s, delimiters, e, end, Tokens(s, delimiters, e, end))
    ensures var e := RunEnd(s, delimiters, from, end);
      var rest := Tokens(s, delimiters, e, end);
      && Tokens(s, delimiters, from, end) == [Segment(from, e - from)] + rest
      && forall i :: 0 <= i < |rest| ==> e < rest[i].offset && IsToken(s, delimiters, from, end, rest[i])
  {
    TokensRun(s, delimiters, from, end);
    hide Tokens;
    var e := RunEnd(s, delimiters, from, end);
    var rest := Tokens(s, delimiters, e, end);
    RunEndIsRun(s, delimiters, from, end);
    forall i | 0 <= i < |rest|
      ensures e < rest[i].offset && IsToken(s, delimiters, from, end, rest[i])
    {
      assert IsToken(s, delimiters, e, end, rest[i]);
      TokenWiden(s, delimiters, from, e, end, rest[i]);
    }
  }

  /** A token placed before tokens that all start past its end keeps the list a token list. */
  lemma TokensCons(s: seq<byte>, delimiters: seq<byte>, from: nat, end: nat, t: Segment, rest: seq<Segment>)
    requires end <= |s| && IsToken(s, delimiters, from, end, t) && Ascending(rest)
    requires forall i :: 0 <= i < |rest| ==> t.End() < rest[i].offset && IsToken(s, delimiters, from, end, rest[i])
    ensures AreTokens(s, delimiters, from, end, [t] + rest)
  {
    var r := [t] + rest;
    AscendingCons(t, rest);
    forall i | 0 < i < |r|
      ensures IsToken(s, delimiters, from, end, r[i])
    {
      assert r[i] == rest[i - 1];
    }
  }

  /** A leading run of non-delimiters is a token, placed before the tokens after it. */
  lemma TokensRunFirst(s: seq<byte>, delimiters: seq<byte>, from: nat, end: nat)
    requires from < end <= |s| && s[from] !in delimiters
    requires var e := RunEnd(s, delimiters, from, end);
      AreTokens(s, delimiters, e, end, Tokens(s, delimiters, e, end))
    ensures AreTokens(s, delimiters, from, end, Tokens(s, delimiters, from, end))
  {
    var e := RunEnd(s, delimiters, from, end);
    var rest := Tokens(s, delimiters, e, end);
    TokensAfterRun(s, delimiters, from, end);
    RunEndIsRun(s, delimiters, from, end);
    TokensCons(s, delimiters, from, end, Segment(from, e - from), rest);
  }

  lemma {:induction false} TokensAreTokens(s: seq<byte>, delimiters: seq<byte>, from: nat, end: nat)
    requires from <= end <= |s|
    ensures AreTokens(s, delimiters, from, end, Tokens(s, delimiters, from, end))
    decreases end - from
  {
    if from == end {
    } else if s[from] in delimiters {
      TokensAreTokens(s, delimiters, from + 1, end);
      TokensSkipDelimiter(s, delimiters, from, end);
    } else {
      TokensAreTokens(s, delimiters, RunEnd(s, delimiters, from, end), end);
      TokensRunFirst(s, delimiters, from, end);
    }
  }

  /** A run of non-delimiters that stops at a delimiter or at the end is the run `RunEnd` finds. */
  lemma {:induction false} RunEndAt(s: seq<byte>, delimiters: seq<byte>, from: nat, e: nat, end: nat)
    requires from <= e <= end <= |s|
    requires NoDelimiter(s, delimiters, from, e)
    requires e == end || s[e] in delimiters
    ensures RunEnd(s, delimiters, from, end) == e
    decreases e - from
  {
    if from < e {
      RunEndAt(s, delimiters, from + 1, e, end);
    }
  }

  /** The inner loop of `Split`: whether `b` is one of the delimiters. */
  method IsDelimiter(delimiters: seq<byte>, b: byte) returns (isDelimiter: bool)
    ensures isDelimiter <==> b in delimiters
  {
    isDelimiter := false;
    for j := 0 to |delimiters|
      invariant isDelimiter <==> b in delimiters[..j]
    {
      if delimiters[j] == b {
        isDelimiter := true;
        assert b in delimiters[..j + 1];
        return;
      }
    }
    assert delimiters[..|delimiters|] == delimiters;
  }

  /** A delimiter at `i` closes the run [b, i), if it is not empty, and the tokens go on after it. */
  lemma TokensAtDelimiter(s: seq<byte>, delimiters: seq<byte>, b: nat, i: nat, end: nat)
    requires b <= i < end <= |s|
    requires NoDelimiter(s, delimiters, b, i) && s[i] in delimiters
    ensures Tokens(s, delimiters, b, end)
         == (if b < i then [Segment(b, i - b)] else []) + Tokens(s, delimiters, i + 1, end)
  {
    if b < i {
      RunEndAt(s, delimiters, b, i, end);
      assert Tokens(s, delimiters, i, end) == Tokens(s, delimiters, i + 1, end);
    }
  }

  /** A run without delimiters up to the end is the last token. */
  lemma TokensAtEnd(s: seq<byte>, delimiters: seq<byte>, b: nat, end: nat)
    requires b <= end <= |s| && NoDelimiter(s, delimiters, b, end)
    ensures Tokens(s, delimiters, b, end) == if b < end then [Segment(b, end - b)] else []
  {
    if b < end {
      RunEndAt(s, delimiters, b, end, end);
    }
  }

  /** The loop of `Split` has found `segments`, and the tokens from `b` on complete them to `total`. */
  ghost predicate Scanned(s: seq<byte>, delimiters: seq<byte>, segments: seq<Segment>, b: nat, end: nat,
                          total: seq<Segment>)
    requires b <= end <= |s|
  {
    segments + Tokens(s, delimiters, b, end) == total
  }

  /** Before the loop nothing is found and every token is still ahead. */
  lemma ScannedInitially(s: seq<byte>, delimiters: seq<byte>, b: nat, end: nat)
    requires b <= end <= |s|
    ensures Scanned(s, delimiters, [], b, end, Tokens(s, delimiters, b, end))
  {
    assert [] + Tokens(s, delimiters, b, end) == Tokens(s, delimiters, b, end);
  }

  /** A delimiter at `i` closes the run that began at `b`: its token, if any, joins the ones found so far. */
  lemma SplitAtDelimiter(s: seq<byte>, delimiters: seq<byte>, segments: seq<Segment>, b: nat, i: nat, end: nat,
                         total: seq<Segment>, found: seq<Segment>)
    requires b <= i < end <= |s|
    requires NoDelimiter(s, delimiters, b, i) && s[i] in delimiters
    requires Scanned(s, delimiters, segments, b, end, total)
    requires found == if b < i then segments + [Segment(b, i - b)] else segments
    ensures Scanned(s, delimiters, found, i + 1, end, total)
  {
    hide Tokens;
    TokensAtDelimiter(s, delimiters, b, i, end);
    if b < i {
      var token := Segment(b, i - b);
      assert (segments + [token]) + Tokens(s, delimiters, i + 1, end)
          == segments + ([token] + Tokens(s, delimiters, i + 1, end));
    }
  }

  /** At the end of the data the open run, if any, is the last token. */
  lemma SplitAtEnd(s: seq<byte>, delimiters: seq<byte>, segments: seq<Segment>, b: nat, end: nat,
                   total: seq<Segment>, found: seq<Segment>)
    requires b <= end <= |s|
    requires NoDelimiter(s, delimiters, b, end)
    requires Scanned(s, delimiters, segments, b, end, total)
    requires found == if b < end then segments + [Segment(b, end - b)] else segments
    ensures found == total
  {
    hide Tokens;
    TokensAtEnd(s, delimiters, b, end);
  }

  /** An empty run holds no delimiter. */
  lemma NoDelimiterEmpty(s: seq<byte>, delimiters: seq<byte>, b: nat)
    requires b <= |s|
    ensures NoDelimiter(s, delimiters, b, b)
  {
  }

  /** A byte that is not a delimiter extends the run. */
  lemma NoDelimiterExtended(s: seq<byte>, delimiters: seq<byte>, b: nat, i: nat)
    requires b <= i < |s| && NoDelimiter(s, delimiters, b, i) && s[i] !in delimiters
    ensures NoDelimiter(s, delimiters, b, i + 1)
  {
  }

  method Split(data: array<byte>, offset: nat, count: nat, delimiters: seq<byte>) returns (segments: seq<Segment>)
    requires offset + count <= data.Length
    ensures segments == Tokens(data[..], delimiters, offset, offset + count)
  {
    hide *;
    ghost var s := data[..];
    ghost var end := offset + count;
    ghost var total := Tokens(s, delimiters, offset, end);
    ScannedInitially(s, delimiters, offset, end);
    NoDelimiterEmpty(s, delimiters, offset);
    segments := [];
    var segmentBegin := 0;
    var previousByteWasDelimiter := false;
    for i := 0 to count
      invariant data[..] == s
      invariant segmentBegin <= i
      invariant NoDelimiter(s, delimiters, offset + segmentBegin, offset + i)
      invariant previousByteWasDelimiter ==> segmentBegin == i
      invariant Scanned(s, delimiters, segments, offset + segmentBegin, end, total)
    {
      var thisByte := data[offset + i];
      assert thisByte == s[offset + i];
      var isDelimiter := IsDelimiter(delimiters, thisByte);
      if isDelimiter {
        ghost var before := segments;
        if !previousByteWasDelimiter && segmentBegin < i {
          segments := segments + [Segment(offset + segmentBegin, i - segmentBegin)];
        }
        SplitAtDelimiter(s, delimiters, before, offset + segmentBegin, offset + i, end, total, segments);
        NoDelimiterEmpty(s, delimiters, offset + i + 1);
        previousByteWasDelimiter := true;
        segmentBegin := i + 1;
      } else {
        NoDelimiterExtended(s, delimiters, offset + segmentBegin, offset + i);
        previousByteWasDelimiter := false;
      }
    }
    ghost var before := segments;
    if !previousByteWasDelimiter && segmentBegin < count {
      segments := segments + [Segment(offset + segmentBegin, count - segmentBegin)];
    }
    SplitAtEnd(s, delimiters, before, offset + segmentBegin, end, total, segments);
  }

  // ---------------------------------------------------------------------------
  // What the tokens add up to

  /** The bytes of [from, end) that are not delimiters, in order. */
  function Kept(s: seq<byte>, delimiters: seq<byte>, from: nat, end: nat): seq<byte>
    requires from <= end <= |s|
    decreases end - from
  {
    if from == end then []
    else (if s[from] in delimiters then [] else [s[from]]) + Kept(s, delimiters, from + 1, end)
  }

  /** A delimiter is not kept. */
  lemma KeptSkip(s: seq<byte>, delimiters: seq<byte>, from: nat, end: nat)
    requires from < end <= |s| && s[from] in delimiters
    ensures Kept(s, delimiters, from, end) == Kept(s, delimiters, from + 1, end)
  {
    assert [] + Kept(s, delimiters, from + 1, end) == Kept(s, delimiters, from + 1, end);
  }

  /** The bytes a segment views, or nothing when it reaches past `s`. */
  function View(s: seq<byte>, t: Segment): seq<byte> {
    if t.End() <= |s| then s[t.offset..t.End()] else []
  }

  /** The concatenation of the bytes the segments view. */
  function Flatten(s: seq<byte>, segments: seq<Segment>): seq<byte> {
    if segments == [] then [] else View(s, segments[0]) + Flatten(s, segments[1..])
  }

  lemma {:induction false} KeptRun(s: seq<byte>, delimiters: seq<byte>, from: nat, e: nat, end: nat)
    requires from <= e <= end <= |s|
    requires NoDelimiter(s, delimiters, from, e)
    ensures Kept(s, delimiters, from, end) == s[from..e] + Kept(s, delimiters, e, end)
    decreases e - from
  {
    if from < e {
      KeptRun(s, delimiters, from + 1, e, end);
      assert s[from..e] == [s[from]] + s[from + 1..e];
    }
  }

  /** A region that starts with a non-delimiter: its first token runs to `RunEnd`. */
  lemma FlattenTokensAtRun(s: seq<byte>, delimiters: seq<byte>, from: nat, end: nat)
    requires from < end <= |s| && s[from] !in delimiters
    ensures var e := RunEnd(s, delimiters, from, end);
      Flatten(s, Tokens(s, delimiters, from, end)) == s[from..e] + Flatten(s, Tokens(s, delimiters, e, end))
  {
    TokensRun(s, delimiters, from, end);
    hide Tokens;
    var e := RunEnd(s, delimiters, from, end);
    var rest := Tokens(s, delimiters, e, end);
    var tokens := [Segment(from, e - from)] + rest;
    assert tokens[1..] == rest;
  }

  /** Concatenating the tokens gives the region with every delimiter byte removed. */
  lemma {:induction false} TokensConcatenate(s: seq<byte>, delimiters: seq<byte>, from: nat, end: nat)
    requires from <= end <= |s|
    ensures Flatten(s, Tokens(s, delimiters, from, end)) == Kept(s, delimiters, from, end)
    decreases end - from
  {
    hide Tokens, RunEnd, Kept;
    if from == end {
      TokensNone(s, delimiters, from);
    } else if s[from] in delimiters {
      TokensSkip(s, delimiters, from, end);
      KeptSkip(s, delimiters, from, end);
      TokensConcatenate(s, delimiters, from + 1, end);
    } else {
      var e := RunEnd(s, delimiters, from, end);
      RunEndIsRun(s, delimiters, from, end);
      FlattenTokensAtRun(s, delimiters, from, end);
      TokensConcatenate(s, delimiters, e, end);
      KeptRun(s, delimiters, from, e, end);
    }
  }
}
