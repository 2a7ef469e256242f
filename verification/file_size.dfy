/**
 The human-readable size label shown for the original and the compressed
 image (`formatFileSize`). The unit index and the scaled value are computed
 with exact integer arithmetic: the unit index is the largest `i` with
 `1024^i <= bytes`, and the value `bytes / 1024^i` is rounded to hundredths
 (half-way cases upward) and printed without trailing zeros.
 */
module FileSize {
  import opened Optional
  import opened Text

  /** The unit names, indexed by the power of 1024. */
  const Sizes: seq<string> := ["Bytes", "KB", "MB", "GB"]

  /** 1024 raised to the power `i`. */
  function Scale(i: nat): (p: nat)
    ensures p >= 1
  {
    if i == 0 then 1 else 1024 * Scale(i - 1)
  }

  /** Larger exponents give strictly larger powers of 1024. */
  lemma {:induction false} ScaleStrictlyIncreasing(i: nat, j: nat)
    requires i < j
    ensures Scale(i) < Scale(j)
    decreases j
  {
    if i < j - 1 {
      ScaleStrictlyIncreasing(i, j - 1);
    }
  }

  /** One step of the unit search: dividing by 1024 lowers the index by one. */
  lemma ScaleStep(b: nat, j: nat)
    requires b >= 1024
    requires Scale(j) <= b / 1024 < Scale(j + 1)
    ensures Scale(j + 1) <= b < Scale(j + 2)
  {
    var q := b / 1024;
    assert 1024 * q <= b < 1024 * q + 1024;
    assert Scale(j + 1) == 1024 * Scale(j);
    assert Scale(j + 2) == 1024 * Scale(j + 1);
  }

  /** The unit index: the exponent of the largest power of 1024 that is at most `b`. */
  function UnitIndex(b: nat): (i: nat)
    requires b >= 1
    ensures Scale(i) <= b < Scale(i + 1)
    decreases b
  {
    if b < 1024 then 0
    else
      var j := UnitIndex(b / 1024);
      ScaleStep(b, j);
      j + 1
  }

  /** `UnitIndex(b)` is the largest `i` with `1024^i <= b`, and the only `i` with `1024^i <= b < 1024^(i+1)`. */
  lemma UnitIndexIsLargest(b: nat, i: nat)
    requires b >= 1
    ensures Scale(i) <= b ==> i <= UnitIndex(b)
    ensures Scale(i) <= b < Scale(i + 1) <==> i == UnitIndex(b)
  {
    var u := UnitIndex(b);
    if u < i {
      ScaleStrictlyIncreasing(u, i);
      if u + 1 < i {
        ScaleStrictlyIncreasing(u + 1, i);
      }
    } else if i < u {
      ScaleStrictlyIncreasing(i, u);
      if i + 1 < u {
        ScaleStrictlyIncreasing(i + 1, u);
      }
    }
  }

  /** Multiplying by a non-negative factor keeps the order. */
  lemma {:induction false} MulMonotone(a: int, b: int, c: nat)
    requires a <= b
    ensures c * a <= c * b
    decreases c
  {
    if c > 0 {
      MulMonotone(a, b, c - 1);
      assert c * a == (c - 1) * a + a;
      assert c * b == (c - 1) * b + b;
    }
  }

  /** Integer division is bracketed by the multiples that bracket the dividend. */
  lemma DivRange(b: nat, p: nat, lo: nat, hi: nat)
    requires p >= 1
    requires p * lo <= b < p * hi
    ensures lo <= b / p < hi
  {
    var q := b / p;
    assert p * q <= b < p * q + p;
    if q < lo {
      MulMonotone(q + 1, lo, p);
    }
    if q >= hi {
      MulMonotone(hi, q, p);
    }
  }

  /**
   Below 1024^4 the index selects one of the four named units; from 1024^4
   on it falls outside the table.
   */
  lemma UnitIndexInTable(b: nat)
    requires b >= 1
    ensures UnitIndex(b) < |Sizes| <==> b < Scale(4)
  {
    var i := UnitIndex(b);
    if i < 3 {
      ScaleStrictlyIncreasing(i + 1, 4);
    } else if 4 < i {
      ScaleStrictlyIncreasing(4, i);
    }
  }

  /** The unscaled value `b / 1024^i` at the unit index lies in [1, 1024). */
  lemma UnscaledInRange(b: nat)
    requires b >= 1
    ensures 1 <= b / Scale(UnitIndex(b)) < 1024
  {
    var i := UnitIndex(b);
    var p := Scale(i);
    assert Scale(i + 1) == 1024 * p;
    DivRange(b, p, 1, 1024);
  }

  /** The text after the number: the unit name, or "undefined" past the end of the table. */
  function UnitName(i: nat): string {
    if i < |Sizes| then Sizes[i] else "undefined"
  }

  /**
   `b / p` rounded to hundredths, half-way cases upward: the nearest
   multiple of 1/100, the larger one on a tie.
   */
  function Hundredths(b: nat, p: nat): (n: nat)
    requires p >= 1
    ensures 200 * b - p < 2 * p * n <= 200 * b + p
  {
    var d := 2 * p;
    var n := (200 * b + p) / d;
    assert d * n <= 200 * b + p < d * n + d;
    n
  }

  /**
   The digits after the decimal point of a number of hundredths, trailing
   zeros dropped: nothing for a whole number, otherwise a point and one or
   two digits, the last of which is not zero.
   */
  function FractionText(f: nat): (s: string)
    requires f < 100
    ensures f == 0 <==> s == ""
    ensures s != "" ==> 2 <= |s| <= 3 && s[0] == '.' && s[|s| - 1] != '0'
    ensures forall i :: 1 <= i < |s| ==> IsDigit(s[i])
  {
    if f == 0 then ""
    else if f % 10 == 0 then "." + [DigitChar(f / 10)]
    else "." + [DigitChar(f / 10), DigitChar(f % 10)]
  }

  /** One or two digits after a decimal point, read as hundredths: ".5" is 50, ".05" is 5. */
  function FractionValue(t: string): nat
    requires 1 <= |t| <= 2 && AllDigits(t)
  {
    if |t| == 1 then 10 * DigitValue(t[0]) else ParseNat(t)
  }

  /** The fractional digits read back as the number of hundredths they stand for. */
  lemma FractionRoundTrip(f: nat)
    requires 0 < f < 100
    ensures var t := FractionText(f)[1..];
            && 1 <= |t| <= 2 && AllDigits(t)
            && FractionValue(t) == f
  {
    var t := FractionText(f)[1..];
    if f % 10 != 0 {
      assert t[..1] == [DigitChar(f / 10)];
      assert [DigitChar(f / 10)][..0] == [];
      assert ParseNat(t) == 10 * ParseNat(t[..1]) + f % 10;
    }
  }

  /** The shortest decimal text of `h / 100`. */
  function DecimalText(h: nat): (s: string)
    ensures forall i :: 0 <= i < |s| ==> IsDigit(s[i]) || s[i] == '.'
  {
    NatToString(h / 100) + FractionText(h % 100)
  }

  /**
   The decimal text is in shortest form: it has a decimal point exactly
   when `h / 100` is not whole, and after the point at most two digits, the
   last of which is not zero. The whole part has no leading zero: a '0'
   first is the whole text or is followed by the point.
   */
  lemma DecimalTextShortest(h: nat)
    ensures var s := DecimalText(h);
            && ('.' in s <==> h % 100 != 0)
            && (forall i :: 0 <= i < |s| && s[i] == '.' ==> |s| - i <= 3 && s[|s| - 1] != '0')
            && (s[0] == '0' ==> |s| == 1 || s[1] == '.')
  {
    var w := NatToString(h / 100);
    var f := FractionText(h % 100);
    var s := w + f;
    assert forall i :: 0 <= i < |w| ==> s[i] == w[i];
    assert forall i :: |w| <= i < |s| ==> s[i] == f[i - |w|];
    if f != "" {
      assert s[|w|] == '.';
    }
    if s[0] == '0' && |s| > 1 {
      assert |w| == 1;
      assert s[1] == f[0];
    }
  }

  /** Reads a decimal with at most two fractional digits as a number of hundredths. */
  function ParseDecimal(s: string): Option<nat> {
    match Find(s, ".")
    case None => if |s| >= 1 && AllDigits(s) then Some(100 * ParseNat(s)) else None
    case Some(k) => ParseParts(s[..k], s[k + 1..])
  }

  /** The digits before and after a decimal point, read as a number of hundredths. */
  function ParseParts(whole: string, frac: string): Option<nat> {
    if |whole| >= 1 && AllDigits(whole) && 1 <= |frac| <= 2 && AllDigits(frac) then
      Some(100 * ParseNat(whole) + FractionValue(frac))
    else None
  }

  /** A text whose first point follows `w` reads as the parts on either side of that point. */
  lemma ParseDecimalAfter(w: string, t: string)
    requires Find(w + ['.'] + t, ".") == Some(|w|)
    ensures ParseDecimal(w + ['.'] + t) == ParseParts(w, t)
  {
    var s := w + ['.'] + t;
    assert s[..|w|] == w;
    assert s[|w| + 1..] == t;
  }

  /** Well-formed parts read as the whole part and the hundredths after it. */
  lemma ParsePartsOf(w: string, t: string)
    requires |w| >= 1 && AllDigits(w)
    requires 1 <= |t| <= 2 && AllDigits(t)
    ensures ParseParts(w, t) == Some(100 * ParseNat(w) + FractionValue(t))
  {
  }

  /** A string of digits without a point reads as that many whole units. */
  lemma ParseDecimalWhole(w: string)
    requires |w| >= 1 && AllDigits(w)
    ensures ParseDecimal(w) == Some(100 * ParseNat(w))
  {
    forall k: nat
      ensures !OccursAt(w, ".", k)
    {
      AbsentChar(w, '.', k);
    }
    assert Find(w, ".") == None;
  }

  /** Digits, a point and one or two digits read as the whole part and the hundredths after it. */
  lemma ParseDecimalPoint(w: string, t: string)
    requires |w| >= 1 && AllDigits(w)
    requires 1 <= |t| <= 2 && AllDigits(t)
    ensures ParseDecimal(w + ['.'] + t) == Some(100 * ParseNat(w) + FractionValue(t))
  {
    FindAfterPrefix(w, '.', t);
    ParseDecimalAfter(w, t);
    ParsePartsOf(w, t);
  }

  /** The decimal text of a number of hundredths reads back as that number. */
  lemma DecimalTextRoundTrip(h: nat)
    ensures ParseDecimal(DecimalText(h)) == Some(h)
  {
    var w := NatToString(h / 100);
    var f := h % 100;
    ParseNatToString(h / 100);
    if f == 0 {
      assert DecimalText(h) == w;
      ParseDecimalWhole(w);
    } else {
      var tail := FractionText(f)[1..];
      assert DecimalText(h) == w + ['.'] + tail;
      FractionRoundTrip(f);
      ParseDecimalPoint(w, tail);
    }
  }

  /**
   `formatFileSize`: the label reads back as zero bytes for zero, and
   otherwise as the rounded value at the unit index and that unit's name.
   */
  function FormatFileSize(b: nat): (r: string)
    ensures b == 0 ==> ParseLabel(r) == Some((0, "Bytes"))
    ensures b >= 1 ==> ParseLabel(r) == Some((Hundredths(b, Scale(UnitIndex(b))), UnitName(UnitIndex(b))))
  {
    if b == 0 then
      ZeroLabel();
      "0 Bytes"
    else
      var i := UnitIndex(b);
      var n := Hundredths(b, Scale(i));
      ParseLabelOf(n, UnitName(i));
      DecimalText(n) + " " + UnitName(i)
  }

  /** A non-zero size is shown as the rounded value, a space and the unit name. */
  lemma FormatNonZero(b: nat)
    requires b >= 1
    ensures FormatFileSize(b) == DecimalText(Hundredths(b, Scale(UnitIndex(b)))) + " " + UnitName(UnitIndex(b))
  {
  }

  /** The zero label reads back as zero bytes. */
  lemma ZeroLabel()
    ensures ParseLabel("0 Bytes") == Some((0, "Bytes"))
  {
    assert DecimalText(0) == "0";
    assert "0 Bytes" == DecimalText(0) + " " + "Bytes";
    ParseLabelOf(0, "Bytes");
  }

  /** Splits a size label at its first space into the number (in hundredths) and the unit text. */
  function ParseLabel(shown: string): Option<(nat, string)> {
    match Find(shown, " ")
    case None => None
    case Some(k) =>
      match ParseDecimal(shown[..k])
      case None => None
      case Some(h) => Some((h, shown[k + 1..]))
  }

  /** A label made of a decimal, a space and a unit reads back as that pair. */
  lemma ParseLabelOf(h: nat, unit: string)
    ensures ParseLabel(DecimalText(h) + " " + unit) == Some((h, unit))
  {
    var d := DecimalText(h);
    var s := d + " " + unit;
    assert s == d + [' '] + unit;
    FindAfterPrefix(d, ' ', unit);
    assert s[..|d|] == d;
    assert s[|d| + 1..] == unit;
    DecimalTextRoundTrip(h);
  }

  /**
   What a non-zero label means: it reads back as a number of hundredths `n`
   and a unit; the unit is that of the largest power 1024^i not above `b`;
   `n / 100` is within half a hundredth of `b / 1024^i` (ties upward); and
   the number shown lies between 1 and 1024.
   */
  lemma FormatFileSizeMeaning(b: nat)
    requires b >= 1
    ensures ParseLabel(FormatFileSize(b)).Some?
    ensures var (n, unit) := ParseLabel(FormatFileSize(b)).value;
            var i := UnitIndex(b);
            var p := Scale(i);
            && unit == UnitName(i)
            && p <= b < 1024 * p
            && 200 * b - p < 2 * p * n <= 200 * b + p
            && 100 <= n <= 102400
  {
    var i := UnitIndex(b);
    var p := Scale(i);
    var n := Hundredths(b, p);
    assert Scale(i + 1) == 1024 * p;
    HundredthsBounds(b, p, n);
  }

  /** The rounded value of `b / p` for `p <= b < 1024 p` lies in [1.00, 1024.00]. */
  lemma HundredthsBounds(b: nat, p: nat, n: nat)
    requires 1 <= p <= b < 1024 * p
    requires 200 * b - p < 2 * p * n <= 200 * b + p
    ensures 100 <= n <= 102400
  {
    if n < 100 {
      MulMonotone(n, 99, 2 * p);
    }
    if n > 102400 {
      MulMonotone(102401, n, 2 * p);
    }
  }

  /** Zero is shown as "0 Bytes". */
  lemma FormatZero()
    ensures FormatFileSize(0) == "0 Bytes"
  {
  }

  /** A whole number of units is printed without a decimal point. */
  lemma DecimalTextWhole(w: nat)
    ensures DecimalText(100 * w) == NatToString(w)
  {
    assert (100 * w) / 100 == w;
    assert (100 * w) % 100 == 0;
  }

  /** Below 1024 the label is the exact byte count followed by "Bytes". */
  lemma FormatSmall(b: nat)
    requires 1 <= b < 1024
    ensures FormatFileSize(b) == NatToString(b) + " " + "Bytes"
  {
    FormatNonZero(b);
    SmallLabelText(b);
  }

  /** Below 1024 the rounded value is the byte count itself and the unit is "Bytes". */
  lemma SmallLabelText(b: nat)
    requires 1 <= b < 1024
    ensures DecimalText(Hundredths(b, Scale(UnitIndex(b)))) + " " + UnitName(UnitIndex(b)) == NatToString(b) + " " + "Bytes"
  {
    assert UnitIndex(b) == 0;
    assert Scale(0) == 1;
    var n := Hundredths(b, 1);
    assert n == 100 * b;
    DecimalTextWhole(b);
    var x := NatToString(b);
    assert DecimalText(n) == x;
    assert UnitName(0) == "Bytes";
  }

  /** One kibibyte is shown as "1 KB". */
  lemma FormatOneKilobyte()
    ensures FormatFileSize(1024) == "1 KB"
  {
    assert Scale(1) == 1024 && Scale(2) == 1048576;
    UnitIndexIsLargest(1024, 1);
    assert Hundredths(1024, 1024) == 100;
    DecimalTextWhole(1);
    assert NatToString(1) == "1";
  }

  /** 1536 bytes are shown as "1.5 KB": the trailing zero of 1.50 is dropped. */
  lemma FormatOneAndAHalfKilobytes()
    ensures FormatFileSize(1536) == "1.5 KB"
  {
    assert Scale(1) == 1024 && Scale(2) == 1048576;
    UnitIndexIsLargest(1536, 1);
    assert Hundredths(1536, 1024) == 150;
    assert NatToString(1) == "1";
    assert FractionText(50) == ".5";
    assert DecimalText(150) == "1.5";
  }

  /** Five million bytes are shown as "4.77 MB". */
  lemma FormatFiveMillionBytes()
    ensures FormatFileSize(5000000) == "4.77 MB"
  {
    assert Scale(2) == 1048576 && Scale(3) == 1073741824;
    UnitIndexIsLargest(5000000, 2);
    assert Hundredths(5000000, 1048576) == 477;
    assert NatToString(4) == "4";
    assert FractionText(77) == ".77";
    assert DecimalText(477) == "4.77";
  }

  /**
   1048575 bytes, one byte short of a mebibyte, round up to "1024 KB": the
   rounded value can reach 1024 without moving to the next unit.
   */
  lemma FormatJustBelowMegabyte()
    ensures FormatFileSize(1048575) == "1024 KB"
  {
    assert Scale(1) == 1024 && Scale(2) == 1048576;
    UnitIndexIsLargest(1048575, 1);
    assert Hundredths(1048575, 1024) == 102400;
    DecimalTextWhole(1024);
    assert NatToString(10) == "10";
    assert NatToString(102) == "102";
    assert NatToString(1024) == "1024";
  }
}
