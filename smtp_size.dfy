/**
 * The SIZE= parameter of MAIL: where it is looked for, which values are
 * malformed, and what number the digit loop makes of a value, next to the
 * decimal value of its digits.
 */
module SmtpSize {
  import opened Common
  import opened Bytes
  import opened Smtp

  /**
   * The parameter is absent exactly when "SIZE=" does not occur in the
   * searched window, which runs from just after '>' to absolute index
   * `count`.
   */
  lemma SizeAbsentSpec(buf: seq<byte>, begin: nat, count: nat, gt: nat)
    requires begin + count <= |buf|
    ensures SizeParameterOf(buf, begin, count, gt).NoSize? <==>
      forall i :: gt < i && i + |MessageSizeExtension| <= count ==> !OccursAt(buf, MessageSizeExtension, i)
  {
    FirstOccurrenceIsFirst(buf, MessageSizeExtension, gt + 1, count);
    hide ValueEnd, AccumulateAsWritten, FirstOccurrence;
  }

  /**
   * When "SIZE=" occurs, the value is the run of digits after its first
   * occurrence: malformed when that run is empty or ended by a byte other
   * than white space, and otherwise what the digit loop makes of the run.
   */
  lemma SizeValueSpec(buf: seq<byte>, begin: nat, count: nat, gt: nat)
    requires begin + count <= |buf|
    requires FirstOccurrence(buf, MessageSizeExtension, gt + 1, count) != -1
    ensures var p, o := SizeParameterOf(buf, begin, count, gt), FirstOccurrence(buf, MessageSizeExtension, gt + 1, count);
      var valueBegin := o + |MessageSizeExtension|;
      var k := DigitRunEnd(buf, valueBegin, begin + count);
      && (p.Malformed? <==> k == valueBegin || (k < begin + count && !IsWhitespaceByte(buf[k])))
      && (p.Declared? ==> p.size == AccumulateAsWritten(buf[valueBegin..k], k - valueBegin, 0, 1))
  {
    hide FirstOccurrence, AccumulateAsWritten, DigitRunEnd, ValueEnd;
    var o := FirstOccurrence(buf, MessageSizeExtension, gt + 1, count);
    var valueBegin := o + |MessageSizeExtension|;
    ValueEndIsDigitRun(buf, valueBegin, begin + count, -1);
  }

  /**
   * A line that does not start at the front of the buffer has its SIZE=
   * window cut short by its offset; from the line at offset `count` on, the
   * window is empty and every SIZE= parameter is ignored.
   */
  lemma SizeIgnoredOnLaterLines(buf: seq<byte>, begin: nat, count: nat, gt: nat)
    requires begin + count <= |buf| && begin <= gt && count <= begin
    ensures SizeParameterOf(buf, begin, count, gt) == NoSize
  {
  }

  /** Whether every byte is an ASCII digit. */
  predicate AllDigits(d: seq<byte>) {
    forall i :: 0 <= i < |d| ==> Digits(d[i]) <= 9
  }

  function Pow10(n: nat): (r: nat)
    ensures r >= 1
  {
    if n == 0 then 1 else 10 * Pow10(n - 1)
  }

  /** The decimal value of a digit string, most significant digit first. */
  function DecimalValue(d: seq<byte>): nat
    requires AllDigits(d)
  {
    if d == [] then 0 else DecimalValue(d[..|d| - 1]) * 10 + Digits(d[|d| - 1]) as nat
  }

  /** A value of n digits is below 10^n. */
  lemma {:induction false} DecimalValueBound(d: seq<byte>)
    requires AllDigits(d)
    ensures DecimalValue(d) < Pow10(|d|)
  {
    if d != [] {
      DecimalValueBound(d[..|d| - 1]);
    }
  }

  /** A leading digit adds its weight to the value of the rest. */
  lemma {:induction false} DecimalValuePrepend(x: byte, d: seq<byte>)
    requires Digits(x) <= 9 && AllDigits(d)
    ensures AllDigits([x] + d)
    ensures DecimalValue([x] + d) == Digits(x) as nat * Pow10(|d|) + DecimalValue(d)
  {
    var xd := [x] + d;
    if d != [] {
      var front := d[..|d| - 1];
      assert xd[..|xd| - 1] == [x] + front;
      DecimalValuePrepend(x, front);
      var w, p := Digits(x) as nat, Pow10(|front|);
      var last := Digits(d[|d| - 1]) as nat;
      calc {
        DecimalValue(xd);
        DecimalValue([x] + front) * 10 + last;
        (w * p + DecimalValue(front)) * 10 + last;
        { assert (w * p) * 10 == w * (p * 10); }
        w * (p * 10) + (DecimalValue(front) * 10 + last);
        w * Pow10(|d|) + DecimalValue(d);
      }
    } else {
      assert xd[..|xd| - 1] == [];
    }
  }

  /**
   * The loop run from digit n back to digit m, with the digits from n on
   * already summed, leaves the digits from m on summed, as long as at most
   * seven digits are summed: no partial sum reaches the maximum early and
   * no product or sum leaves 32 bits.
   */
  lemma {:induction false} AccumulateBetween(d: seq<byte>, m: nat, n: nat)
    requires AllDigits(d) && m <= n <= |d| && |d| - m <= 7
    ensures AllDigits(d[n..]) && AllDigits(d[m..])
    ensures AccumulateAsWritten(d, n, DecimalValue(d[n..]), Pow10(|d| - n))
         == AccumulateAsWritten(d, m, DecimalValue(d[m..]), Pow10(|d| - m))
    decreases n - m
  {
    hide AccumulateAsWritten, DecimalValue, Pow10;
    AllDigitsSuffix(d, n);
    AllDigitsSuffix(d, m);
    if m < n {
      AccumulateTurn(d, n);
      AccumulateBetween(d, m, n - 1);
    }
  }

  lemma AllDigitsSuffix(d: seq<byte>, n: nat)
    requires AllDigits(d) && n <= |d|
    ensures AllDigits(d[n..])
  {
    forall i | 0 <= i < |d[n..]| ensures Digits(d[n..][i]) <= 9 {
      assert d[n..][i] == d[n + i];
    }
  }

  /** One turn of the loop adds the weight of digit n - 1 to the value of the digits after it. */
  lemma AccumulateTurn(d: seq<byte>, n: nat)
    requires AllDigits(d) && 0 < n <= |d| && |d| - n < 7
    ensures AllDigits(d[n..]) && AllDigits(d[n - 1..])
    ensures AccumulateAsWritten(d, n, DecimalValue(d[n..]), Pow10(|d| - n))
         == AccumulateAsWritten(d, n - 1, DecimalValue(d[n - 1..]), Pow10(|d| - (n - 1)))
  {
    hide Wrap32, DecimalValue, Pow10, AccumulateAsWritten, AllDigits, Digits;
    AllDigitsSuffix(d, n);
    AllDigitsSuffix(d, n - 1);
    var rest := d[n..];
    var size, scale := DecimalValue(rest), Pow10(|d| - n);
    var digit := Digits(d[n - 1]) as int;
    TurnValue(d, n);
    TurnBounds(d, n);
    Pow10Facts(|d| - n);
    AccumulateTurnExact(size, scale, digit);
    AccumulateUnfold(d, n, size, scale);
  }

  /** One turn of the digit loop while digits remain and the size is below the maximum. */
  lemma AccumulateUnfold(d: seq<byte>, n: nat, size: int, scale: int)
    requires 0 < n <= |d| && size < MaximumMessageSize
    ensures AccumulateAsWritten(d, n, size, scale)
         == AccumulateAsWritten(d, n - 1, Wrap32(size + Wrap32(Digits(d[n - 1]) as int * scale)), Wrap32(scale * 10))
  {
  }

  lemma TurnValue(d: seq<byte>, n: nat)
    requires AllDigits(d) && 0 < n <= |d| && AllDigits(d[n..]) && AllDigits(d[n - 1..])
    ensures DecimalValue(d[n..]) + Digits(d[n - 1]) as int * Pow10(|d| - n) == DecimalValue(d[n - 1..])
  {
    assert d[n - 1..] == [d[n - 1]] + d[n..];
    DecimalValuePrepend(d[n - 1], d[n..]);
  }

  lemma TurnBounds(d: seq<byte>, n: nat)
    requires 0 < n <= |d| && |d| - n < 7 && AllDigits(d[n..])
    ensures 0 <= DecimalValue(d[n..]) < Pow10(|d| - n) <= 1_000_000
  {
    DecimalValueBound(d[n..]);
    Pow10Monotone(|d| - n, 6);
    assert Pow10(6) == 1_000_000;
  }

  lemma {:induction false} Pow10Monotone(m: nat, n: nat)
    requires m <= n
    ensures Pow10(m) <= Pow10(n)
    decreases n
  {
    if m < n {
      Pow10Monotone(m, n - 1);
    }
  }

  /**
   * One turn of the loop while fewer than seven digits were read: the size
   * is below the maximum, and neither the product, the sum nor the new scale
   * leaves 32 bits.
   */
  lemma AccumulateTurnExact(size: int, scale: int, digit: int)
    requires 0 <= size < scale <= 1_000_000 && 0 <= digit <= 9
    ensures size < MaximumMessageSize
    ensures Wrap32(size + Wrap32(digit * scale)) == size + digit * scale
    ensures Wrap32(scale * 10) == scale * 10
  {
    hide Wrap32;
    DigitTimesScale(digit, scale);
  }

  lemma DigitTimesScale(digit: int, scale: int)
    requires 0 <= digit <= 9 && 0 <= scale
    ensures 0 <= digit * scale <= 9 * scale
  {
    if digit > 0 {
      DigitTimesScale(digit - 1, scale);
      assert digit * scale == (digit - 1) * scale + scale;
    }
  }

  /** A SIZE= value of at most seven digits is read as its decimal value. */
  lemma AccumulateIsDecimal(d: seq<byte>)
    requires AllDigits(d) && |d| <= 7
    ensures AccumulateAsWritten(d, |d|, 0, 1) == DecimalValue(d)
  {
    AccumulateBetween(d, 0, |d|);
    assert d[|d|..] == [];
    assert d[0..] == d;
  }

  /**
   * Longer values are read from their last digit and the loop stops once the
   * partial size reaches the maximum: "SIZE=12097152" declares 2097152 and is
   * accepted, the leading 1 unread.
   */
  lemma LongValueStopsEarly()
    ensures AccumulateAsWritten([49, 50, 48, 57, 55, 49, 53, 50], 8, 0, 1) == MaximumMessageSize
  {
    var d: seq<byte> := [49, 50, 48, 57, 55, 49, 53, 50];
    assert d[8..] == [];
    assert DecimalValue([]) == 0;
    Pow10Facts(0);
    LongValueDigits(d);
    hide AccumulateAsWritten, DecimalValue, Pow10, Wrap32;
    AccumulateBetween(d, 1, 8);
    AccumulateStops(d, 1, DecimalValue(d[1..]), Pow10(7));
  }

  /** The last seven digits of "12097152" are the maximum size. */
  lemma LongValueDigits(d: seq<byte>)
    requires d == [49, 50, 48, 57, 55, 49, 53, 50]
    ensures AllDigits(d) && AllDigits(d[1..]) && DecimalValue(d[1..]) == MaximumMessageSize
  {
    assert AllDigits(d) && d[1..8] == d[1..];
    LongValueLeadingDigits(d);
    hide DecimalValue, AllDigits;
    DecimalValueSlice(d, 1, 6);
    DecimalValueSlice(d, 1, 7);
    DecimalValueSlice(d, 1, 8);
  }

  /** The four digits after the leading 1 of "12097152" read 2097. */
  lemma LongValueLeadingDigits(d: seq<byte>)
    requires d == [49, 50, 48, 57, 55, 49, 53, 50]
    ensures AllDigits(d) && DecimalValue(d[1..5]) == 2097
  {
    assert AllDigits(d) && d[1..1] == [];
    assert DecimalValue(d[1..1]) == 0;
    hide DecimalValue, AllDigits;
    DecimalValueSlice(d, 1, 2);
    DecimalValueSlice(d, 1, 3);
    DecimalValueSlice(d, 1, 4);
    DecimalValueSlice(d, 1, 5);
  }

  /** Extending a slice of digits by one digit multiplies its value by ten and adds the digit. */
  lemma DecimalValueSlice(d: seq<byte>, i: nat, j: nat)
    requires AllDigits(d) && i < j <= |d|
    ensures AllDigits(d[i..j]) && AllDigits(d[i..j - 1])
    ensures DecimalValue(d[i..j]) == DecimalValue(d[i..j - 1]) * 10 + Digits(d[j - 1]) as nat
  {
    assert d[i..j][..j - i - 1] == d[i..j - 1];
  }

  /** Once the partial size reaches the maximum the loop reads no further digit. */
  lemma AccumulateStops(d: seq<byte>, n: nat, size: int, scale: int)
    requires n <= |d| && size >= MaximumMessageSize
    ensures AccumulateAsWritten(d, n, size, scale) == size
  {
  }

  /**
   * The products are 32-bit and wrap: "SIZE=3000000000" declares
   * -1294967296, which is not above the maximum, so MAIL accepts it.
   */
  lemma HugeValueWraps()
    ensures AccumulateAsWritten([51, 48, 48, 48, 48, 48, 48, 48, 48, 48], 10, 0, 1) == -1_294_967_296
    ensures -1_294_967_296 <= MaximumMessageSize
  {
    var d: seq<byte> := [51, 48, 48, 48, 48, 48, 48, 48, 48, 48];
    var product := Wrap32(3 * 1_000_000_000);
    assert product == -1_294_967_296 by {
      assert (3_000_000_000 - Int32Min) % 0x1_0000_0000 == 852_516_352;
    }
    hide AccumulateAsWritten, Wrap32, Pow10;
    ZerosKeepNothing(d, 10, 0);
    Pow10Facts(0);
    AccumulateFirstDigit(d, 1_000_000_000);
    assert Wrap32(0 + product) == product;
  }

  /** The last turn of the loop, reading the first digit when the size is still 0. */
  lemma AccumulateFirstDigit(d: seq<byte>, scale: int)
    requires |d| >= 1
    ensures AccumulateAsWritten(d, 1, 0, scale) == Wrap32(0 + Wrap32(Digits(d[0]) as int * scale))
  {
  }

  /**
   * Zeros read from the end add nothing: each only multiplies the scale by
   * ten, as long as the scale stays within 32 bits.
   */
  lemma {:induction false} ZerosKeepNothing(d: seq<byte>, m: nat, k: nat)
    requires 1 <= m <= |d| && k + m - 1 <= 9
    requires forall i :: 1 <= i < m ==> d[i] == 48
    ensures AccumulateAsWritten(d, m, 0, Pow10(k)) == AccumulateAsWritten(d, 1, 0, Pow10(k + m - 1))
    decreases m
  {
    if m > 1 {
      Pow10Monotone(k + 1, 9);
      Pow10Facts(k);
      hide Wrap32, Pow10;
      var scale := Pow10(k);
      assert Wrap32(scale * 10) == Pow10(k + 1);
      assert Wrap32(0 + Wrap32(Digits(d[m - 1]) as int * scale)) == 0;
      assert AccumulateAsWritten(d, m, 0, scale) == AccumulateAsWritten(d, m - 1, 0, Pow10(k + 1));
      ZerosKeepNothing(d, m - 1, k + 1);
    }
  }

  lemma Pow10Facts(k: nat)
    ensures Pow10(k + 1) == Pow10(k) * 10
    ensures Pow10(0) == 1 && Pow10(9) == 1_000_000_000
  {
  }

  // ---------------------------------------------------------------------------
  // The SIZE= reading the protocol intends, beside the one above

  /**
   * The value of a digit string read from its first digit on, stopping once
   * it exceeds the maximum. Every partial value stays below 10 * max + 10,
   * so a 32-bit loop computing it never wraps.
   */
  function SaturatedValue(d: seq<byte>): (r: nat)
    requires AllDigits(d)
    ensures r <= 10 * MaximumMessageSize + 9 < Int32Max
  {
    if d == [] then 0
    else
      var front := SaturatedValue(d[..|d| - 1]);
      if front > MaximumMessageSize then front else front * 10 + Digits(d[|d| - 1]) as nat
  }

  /**
   * The saturated value exceeds the maximum exactly when the decimal value
   * does, and equals the decimal value when that does not.
   */
  lemma {:induction false} SaturatedValueSpec(d: seq<byte>)
    requires AllDigits(d)
    ensures SaturatedValue(d) > MaximumMessageSize <==> DecimalValue(d) > MaximumMessageSize
    ensures DecimalValue(d) <= MaximumMessageSize ==> SaturatedValue(d) == DecimalValue(d)
  {
    if d != [] {
      SaturatedValueSpec(d[..|d| - 1]);
    }
  }

  /**
   * The SIZE= parameter searched for between the closing bracket at `gt`
   * and the end of the line, wherever the line lies in the buffer, and its
   * digits read by `SaturatedValue`.
   */
  function SizeParameterCorrected(buf: seq<byte>, begin: nat, count: nat, gt: nat): SizeParameter
    requires begin + count <= |buf|
  {
    var sizeOffset := FirstOccurrence(buf, MessageSizeExtension, gt + 1, begin + count);
    if sizeOffset == -1 then NoSize
    else
      var valueBegin := sizeOffset + |MessageSizeExtension|;
      var valueEnd := ValueEnd(buf, valueBegin, begin + count, -1);
      if valueEnd >= valueBegin then
        ValueEndIsDigitRun(buf, valueBegin, begin + count, -1);
        DigitRunEndIsRun(buf, valueBegin, begin + count);
        Declared(SaturatedValue(buf[valueBegin..valueEnd + 1]))
      else Malformed
  }

  /**
   * The corrected parameter is absent exactly when "SIZE=" does not occur
   * after the bracket within the line.
   */
  lemma CorrectedSizeAbsentSpec(buf: seq<byte>, begin: nat, count: nat, gt: nat)
    requires begin + count <= |buf|
    ensures SizeParameterCorrected(buf, begin, count, gt).NoSize? <==>
      forall i :: gt < i && i + |MessageSizeExtension| <= begin + count ==> !OccursAt(buf, MessageSizeExtension, i)
  {
    FirstOccurrenceIsFirst(buf, MessageSizeExtension, gt + 1, begin + count);
    hide ValueEnd, SaturatedValue, FirstOccurrence;
  }

  /**
   * When "SIZE=" occurs, the corrected value is malformed exactly as before,
   * and a declared size is above the maximum exactly when the decimal value
   * of the digits is, and is that value otherwise.
   */
  lemma CorrectedSizeValueSpec(buf: seq<byte>, begin: nat, count: nat, gt: nat)
    requires begin + count <= |buf|
    requires FirstOccurrence(buf, MessageSizeExtension, gt + 1, begin + count) != -1
    ensures var p, o := SizeParameterCorrected(buf, begin, count, gt), FirstOccurrence(buf, MessageSizeExtension, gt + 1, begin + count);
      var valueBegin := o + |MessageSizeExtension|;
      var k := DigitRunEnd(buf, valueBegin, begin + count);
      && AllDigits(buf[valueBegin..k])
      && (p.Malformed? <==> k == valueBegin || (k < begin + count && !IsWhitespaceByte(buf[k])))
      && (p.Declared? ==>
            && (p.size > MaximumMessageSize <==> DecimalValue(buf[valueBegin..k]) > MaximumMessageSize)
            && (DecimalValue(buf[valueBegin..k]) <= MaximumMessageSize ==> p.size == DecimalValue(buf[valueBegin..k])))
  {
    hide ValueEnd, SaturatedValue, DecimalValue, FirstOccurrence, DigitRunEnd;
    var o := FirstOccurrence(buf, MessageSizeExtension, gt + 1, begin + count);
    var valueBegin := o + |MessageSizeExtension|;
    ValueEndIsDigitRun(buf, valueBegin, begin + count, -1);
    DigitRunEndIsRun(buf, valueBegin, begin + count);
    var k := DigitRunEnd(buf, valueBegin, begin + count);
    assert AllDigits(buf[valueBegin..k]);
    SaturatedValueSpec(buf[valueBegin..k]);
  }

  /**
   * On a line at the front of the buffer with a value of at most seven
   * digits, the corrected reading and the one as written agree on whether
   * the parameter is absent, malformed or above the maximum, and on the
   * size when it is not.
   */
  lemma CorrectedAgreesOnShortValues(buf: seq<byte>, count: nat, gt: nat)
    requires count <= |buf|
    requires var o := FirstOccurrence(buf, MessageSizeExtension, gt + 1, count);
      o != -1 ==> DigitRunEnd(buf, o + |MessageSizeExtension|, count) - (o + |MessageSizeExtension|) <= 7
    ensures var p, q := SizeParameterOf(buf, 0, count, gt), SizeParameterCorrected(buf, 0, count, gt);
      && (p.NoSize? <==> q.NoSize?)
      && (p.Malformed? <==> q.Malformed?)
      && (p.Declared? ==> (p.size > MaximumMessageSize <==> q.size > MaximumMessageSize))
      && (p.Declared? && p.size <= MaximumMessageSize ==> p.size == q.size)
  {
    hide ValueEnd, SaturatedValue, DecimalValue, FirstOccurrence, DigitRunEnd, AccumulateAsWritten;
    var o := FirstOccurrence(buf, MessageSizeExtension, gt + 1, count);
    if o != -1 {
      var valueBegin := o + |MessageSizeExtension|;
      ValueEndIsDigitRun(buf, valueBegin, count, -1);
      DigitRunEndIsRun(buf, valueBegin, count);
      var k := DigitRunEnd(buf, valueBegin, count);
      if k > valueBegin && (k == count || IsWhitespaceByte(buf[k])) {
        var d := buf[valueBegin..k];
        assert AllDigits(d);
        AccumulateIsDecimal(d);
        SaturatedValueSpec(d);
      }
    }
  }
}
