/** `human_readable` and `total_bytes`: a byte count rendered as
    "<value with one decimal> <unit>", and such a string read back as a sort key.

    Python's `human_readable` turns the count into a float and divides it by
    1024 until it is below 1024. Dividing by a power of two is exact for counts
    below 2^53, so after `i` divisions the float holds exactly `b / 1024^i`; the
    model keeps that value as the pair (b, 1024^i). `f"{x:.1f}"` rounds the
    exact value of `x` to one decimal, ties to even, so the printed number is
    `RoundHalfEven(10 * b, 1024^i)` tenths. */
module ByteUnits {
  import opened Text

  /** The unit labels in the order `human_readable` tries them; "PB" is the
      ceiling and is used without a further comparison. */
  const Units: seq<string> := ["B", "KB", "MB", "GB", "TB", "PB"]

  /** The `units` table of `total_bytes`. It has no entry for "PB". */
  const UnitBytes: map<string, nat> :=
    map["B" := 1, "KB" := 1024, "MB" := 1048576, "GB" := 1073741824, "TB" := 1099511627776]

  function Pow1024(k: nat): (p: nat)
    ensures p >= 1
  {
    if k == 0 then 1 else 1024 * Pow1024(k - 1)
  }

  lemma {:induction false} Pow1024Monotone(i: nat, j: nat)
    requires i <= j
    ensures Pow1024(i) <= Pow1024(j)
    decreases j
  {
    if i < j {
      Pow1024Monotone(i, j - 1);
    }
  }

  lemma Pow1024Values()
    ensures Pow1024(1) == 1024 && Pow1024(2) == 1048576 && Pow1024(3) == 1073741824
    ensures Pow1024(4) == 1099511627776 && Pow1024(5) == 1125899906842624
  {
    assert Pow1024(1) == 1024;
    assert Pow1024(2) == 1048576;
    assert Pow1024(3) == 1073741824;
    assert Pow1024(4) == 1099511627776;
  }

  // ---------------------------------------------------------------------------
  // human_readable

  /** The index of the unit `human_readable` prints `b` bytes in. */
  function UnitIndex(b: nat): nat {
    if b < Pow1024(1) then 0
    else if b < Pow1024(2) then 1
    else if b < Pow1024(3) then 2
    else if b < Pow1024(4) then 3
    else if b < Pow1024(5) then 4
    else 5
  }

  /** The unit index is the smallest k among B..TB with b < 1024^(k+1), and PB
      when there is none. */
  lemma UnitIndexIsSmallest(b: nat)
    ensures UnitIndex(b) <= 5
    ensures UnitIndex(b) < 5 ==> b < Pow1024(UnitIndex(b) + 1)
    ensures forall j :: 1 <= j <= UnitIndex(b) ==> Pow1024(j) <= b
  {
    Pow1024Values();
    var k := UnitIndex(b);
    forall j | 1 <= j <= k
      ensures Pow1024(j) <= b
    {
      Pow1024Monotone(j, k);
    }
  }

  /** A count between 1024^k and 1024^(k+1) is printed in unit k. */
  lemma UnitIndexIs(b: nat, k: nat)
    requires k <= 5
    requires k == 0 || Pow1024(k) <= b
    requires k == 5 || b < Pow1024(k + 1)
    ensures UnitIndex(b) == k
  {
    UnitIndexIsSmallest(b);
    var u := UnitIndex(b);
    if u < k {
      Pow1024Monotone(u + 1, k);
    }
  }

  /** `n / d` rounded to the nearest integer, ties to the even neighbour. */
  function RoundHalfEven(n: nat, d: nat): (r: nat)
    requires d > 0
    ensures -(d as int) <= 2 * (n - r * d) <= d
    ensures (2 * (n - r * d) == d || 2 * (n - r * d) == -(d as int)) ==> r % 2 == 0
  {
    var q, m := n / d, n % d;
    DivModParts(n, d);
    if 2 * m < d then q
    else if 2 * m > d then q + 1
    else if q % 2 == 0 then q
    else q + 1
  }

  lemma DivModParts(n: nat, d: nat)
    requires d > 0
    ensures n - (n / d) * d == n % d
    ensures n - (n / d + 1) * d == n % d - d
    ensures 0 <= n % d < d
  {
    assert (n / d + 1) * d == (n / d) * d + d;
  }

  /** Rounding to the nearest integer never reverses the order of two numerators. */
  lemma RoundHalfEvenMonotone(n1: nat, n2: nat, d: nat)
    requires d > 0 && n1 <= n2
    ensures RoundHalfEven(n1, d) <= RoundHalfEven(n2, d)
  {
    if n1 < n2 {
      NearestOrdered(n1, n2, d, RoundHalfEven(n1, d), RoundHalfEven(n2, d));
    }
  }

  /** Two numerators within half a step of r1 * d and r2 * d keep their order. */
  lemma NearestOrdered(n1: int, n2: int, d: int, r1: int, r2: int)
    requires d > 0 && n1 < n2
    requires 2 * (n1 - r1 * d) >= -d
    requires 2 * (n2 - r2 * d) <= d
    ensures r1 <= r2
  {
    if r1 > r2 {
      // 2*r1*d <= 2*n1 + d < 2*n2 + d <= 2*r2*d + 2*d, so r1 < r2 + 1
      MulMonotone(r2 + 1, r1, d);
      MulSucc(r2, d);
      assert false;
    }
  }

  lemma MulSucc(a: int, d: int)
    ensures (a + 1) * d == a * d + d
  {
  }

  lemma MulMonotone(a: int, b: int, c: nat)
    requires a <= b
    ensures a * c <= b * c
  {
  }

  /** The tenths `human_readable` prints for `b` bytes. */
  function Tenths(b: nat): nat {
    RoundHalfEven(10 * b, Pow1024(UnitIndex(b)))
  }

  /** `f"{x:.1f}"` for the value of `t` tenths. */
  function FormatTenths(t: nat): (s: string)
    ensures s != [] && NoSpace(s)
  {
    NatToString(t / 10) + "." + [DigitChar(t % 10)]
  }

  /** What `human_readable` returns for a count of `b` bytes. */
  function FormatBytes(b: nat): string {
    FormatTenths(Tenths(b)) + " " + Units[UnitIndex(b)]
  }

  /** What `human_readable` returns for its argument: "N/A" whenever the
      argument is not a decimal count. */
  function HumanReadableOf(bytesStr: string): string {
    match ParseNat(bytesStr)
    case None => "N/A"
    case Some(b) => FormatBytes(b)
  }

  /** `human_readable(bytes_str)`: the loop over the units, dividing by 1024. */
  method HumanReadable(bytesStr: string) returns (text: string)
    ensures text == HumanReadableOf(bytesStr)
  {
    var parsed := ParseNat(bytesStr);
    if parsed.None? {
      return "N/A";
    }
    var b := parsed.value;
    var units := ["B", "KB", "MB", "GB", "TB"];
    // Python's `b` after i divisions is b / scale.
    var scale := 1;
    for i := 0 to |units|
      invariant scale == Pow1024(i)
      invariant i == 0 || scale <= b
    {
      if b < 1024 * scale {
        UnitIndexIs(b, i);
        return FormatTenths(RoundHalfEven(10 * b, scale)) + " " + units[i];
      }
      scale := scale * 1024;
    }
    UnitIndexIs(b, 5);
    return FormatTenths(RoundHalfEven(10 * b, scale)) + " PB";
  }

  /** Counts below 1024 are printed as the count itself with ".0 B". */
  lemma SmallCountInBytes(b: nat)
    requires b < 1024
    ensures FormatBytes(b) == NatToString(b) + ".0 B"
  {
    assert UnitIndex(b) == 0;
    assert Tenths(b) == 10 * b;
    assert (10 * b) / 10 == b && (10 * b) % 10 == 0;
  }

  /** Any argument that is not a decimal count, "N/A" and "" among them, is
      rendered as "N/A"; a count never is. */
  lemma HumanReadableNA(bytesStr: string)
    ensures HumanReadableOf(bytesStr) == "N/A" <==> ParseNat(bytesStr).None?
  {
    match ParseNat(bytesStr)
    case None =>
    case Some(b) =>
      var s := FormatBytes(b);
      assert s[|FormatTenths(Tenths(b))|] == ' ';
      assert s != "N/A" by {
        var t := Tenths(b);
        var w := NatToString(t / 10);
        assert s[|w|] == '.';
        if |w| == 1 { assert s[1] == '.'; }
        else if |w| == 2 { assert s[2] == '.'; }
        else { assert |s| > 3; }
      }
  }

  // ---------------------------------------------------------------------------
  // total_bytes

  function Pow10(k: nat): (p: nat)
    ensures p >= 1
  {
    if k == 0 then 1 else 10 * Pow10(k - 1)
  }

  /** Python's `float(s)` on the plain decimal forms "12", "12.5", "12." and ".5". */
  function ParseDecimal(s: string): (r: Option<real>)
    ensures r.Some? ==> r.value >= 0.0
  {
    match FindFrom(s, ".", 0)
    case None =>
      if ParseNat(s).Some? then Some(ParseNat(s).value as real) else None
    case Some(dot) =>
      var whole, frac := s[..dot], s[dot + 1..];
      if AllDigits(whole) && AllDigits(frac) && |whole| + |frac| > 0
      then Some(DigitsValue(whole) as real + DigitsValue(frac) as real / Pow10(|frac|) as real)
      else None
  }

  /** `parse(val)` inside `total_bytes`: the number times the unit's multiplier,
      and 0 whenever `val` does not split into two tokens, the number does
      not parse or the unit is not in the table. */
  function ParseSize(val: string): (r: real)
    ensures r >= 0.0
  {
    var ws := Words(val);
    if |ws| == 2 then SizeOf(ws[0], ws[1]) else 0.0
  }

  /** `float(num) * units[unit]` when both succeed, else 0. */
  function SizeOf(num: string, unit: string): (r: real)
    ensures r >= 0.0
  {
    if unit in UnitBytes && ParseDecimal(num).Some?
    then ParseDecimal(num).value * UnitBytes[unit] as real
    else 0.0
  }

  /** `total_bytes(rx, tx)`. */
  function TotalBytes(rx: string, tx: string): (r: real)
    ensures r >= 0.0
  {
    ParseSize(rx) + ParseSize(tx)
  }

  /** The cases in which `parse` contributes 0. */
  lemma ParseSizeZeroCases(val: string)
    ensures val == "N/A" ==> ParseSize(val) == 0.0
    ensures |Words(val)| != 2 ==> ParseSize(val) == 0.0
    ensures |Words(val)| == 2 && Words(val)[1] !in UnitBytes ==> ParseSize(val) == 0.0
    ensures |Words(val)| == 2 && Words(val)[1] == "PB" ==> ParseSize(val) == 0.0
  {
    if val == "N/A" {
      WordsOfNA();
    }
  }

  /** "N/A" is a single word. */
  lemma WordsOfNA()
    ensures Words("N/A") == ["N/A"]
  {
    var val := "N/A";
    RunLengthIs(val, 0, IsSpace, 0);
    RunLengthIs(val, 0, IsNotSpace, 3);
    assert val[3..] == [];
    RunLengthIs([], 0, IsSpace, 0);
    assert Words(val[3..]) == [];
    assert val[0..3] == val;
    assert Words(val) == [val[0..3]] + Words(val[3..]);
  }

  lemma ParseDecimalOfTenths(t: nat)
    ensures ParseDecimal(FormatTenths(t)) == Some(t as real / 10.0)
  {
    var w := NatToString(t / 10);
    var s := FormatTenths(t);
    assert OccursAt(s, ".", |w|);
    forall j | 0 <= j < |w|
      ensures !OccursAt(s, ".", j)
    {
      assert s[j] == w[j];
    }
    assert FindFrom(s, ".", 0) == Some(|w|);
    assert s[..|w|] == w;
    var frac := s[|w| + 1..];
    assert frac == [DigitChar(t % 10)];
    NatToStringValue(t / 10);
    assert DigitsValue(frac) == t % 10 by {
      assert frac[..0] == [];
    }
    assert t == 10 * (t / 10) + t % 10;
  }

  /** Ten times the sort key of `human_readable(b)`, as an integer. */
  function KeyTenths(b: nat): nat {
    Tenths(b) * Pow1024(UnitIndex(b))
  }

  /** `parse(human_readable(b))` is `Tenths(b) * 1024^k / 10` below 1024^5,
      and 0 from 1024^5 on, where the "PB" unit is not in the table. */
  lemma ParseSizeOfFormatBytes(b: nat)
    ensures b < Pow1024(5) ==> ParseSize(FormatBytes(b)) == KeyTenths(b) as real / 10.0
    ensures b >= Pow1024(5) ==> ParseSize(FormatBytes(b)) == 0.0
  {
    var k := UnitIndex(b);
    FormatBytesWords(b);
    UnitIndexIsSmallest(b);
    if b < Pow1024(5) {
      assert k < 5 by {
        if k == 5 { Pow1024Values(); }
      }
      ParseSizeOfWords(FormatBytes(b), Tenths(b), k);
    } else {
      UnitIndexIs(b, 5);
      ParseSizeOfPB(FormatBytes(b), FormatTenths(Tenths(b)));
    }
  }

  /** The text of `t` tenths in unit k below PB parses back as t·1024^k/10. */
  lemma ParseSizeOfWords(s: string, t: nat, k: nat)
    requires k < 5
    requires Words(s) == [FormatTenths(t), Units[k]]
    ensures ParseSize(s) == (t * Pow1024(k)) as real / 10.0
  {
    UnitTable(k);
    ParseDecimalOfTenths(t);
    ParseSizeOfPair(s, FormatTenths(t), Units[k], t, Pow1024(k));
  }

  lemma ParseSizeOfPB(s: string, num: string)
    requires Words(s) == [num, Units[5]]
    ensures ParseSize(s) == 0.0
  {
    assert Units[5] !in UnitBytes;
  }

  /** `human_readable(b)` splits into the number it printed and its unit. */
  lemma FormatBytesWords(b: nat)
    ensures UnitIndex(b) <= 5
    ensures Words(FormatBytes(b)) == [FormatTenths(Tenths(b)), Units[UnitIndex(b)]]
  {
    assert UnitIndex(b) <= 5 by {
      UnitIndexIsSmallest(b);
    }
    var num, unit := FormatTenths(Tenths(b)), Units[UnitIndex(b)];
    UnitLabel(UnitIndex(b));
    WordsOfPair(num, unit);
  }

  lemma ParseSizeOfPair(s: string, num: string, unit: string, t: nat, m: nat)
    requires Words(s) == [num, unit] && unit in UnitBytes && UnitBytes[unit] == m
    requires ParseDecimal(num) == Some(t as real / 10.0)
    ensures ParseSize(s) == (t * m) as real / 10.0
  {
    assert ParseSize(s) == SizeOf(num, unit);
    SizeOfTenths(num, unit, t, m);
  }

  lemma SizeOfTenths(num: string, unit: string, t: nat, m: nat)
    requires unit in UnitBytes && UnitBytes[unit] == m
    requires ParseDecimal(num) == Some(t as real / 10.0)
    ensures SizeOf(num, unit) == (t * m) as real / 10.0
  {
    TenthsTimes(t, m);
  }

  lemma TenthsTimes(t: nat, m: nat)
    ensures (t as real / 10.0) * m as real == (t * m) as real / 10.0
  {
    assert (t * m) as real == t as real * m as real;
  }

  lemma UnitLabel(k: nat)
    requires k <= 5
    ensures Units[k] != [] && NoSpace(Units[k])
  {
  }

  /** The multiplier `total_bytes` has for each unit below PB is the scale
      `human_readable` divided by. */
  lemma UnitTable(k: nat)
    requires k < 5
    ensures Units[k] in UnitBytes && UnitBytes[Units[k]] == Pow1024(k)
  {
    Pow1024Values();
  }

  /** Below 1024^5 the sort key differs from the count by at most half a
      printed tenth, 0.05 * 1024^k. */
  lemma RoundTripError(b: nat)
    requires b < Pow1024(5)
    ensures -(Pow1024(UnitIndex(b)) as real) / 20.0 <= ParseSize(FormatBytes(b)) - b as real
    ensures ParseSize(FormatBytes(b)) - b as real <= Pow1024(UnitIndex(b)) as real / 20.0
  {
    ParseSizeOfFormatBytes(b);
    var m := Pow1024(UnitIndex(b));
    assert -m <= 2 * (10 * b - Tenths(b) * m) <= m;
  }

  /** The integer sort key grows with the count: within one unit by the
      monotonicity of rounding, across units because a count in unit k prints
      at most 1024.0 of them and a count in a larger unit at least 1.0. */
  lemma {:induction false} KeyTenthsMonotone(b1: nat, b2: nat)
    requires b1 <= b2 < Pow1024(5)
    ensures KeyTenths(b1) <= KeyTenths(b2)
  {
    var k1, k2 := UnitIndex(b1), UnitIndex(b2);
    var m1, m2 := Pow1024(k1), Pow1024(k2);
    var t1, t2 := Tenths(b1), Tenths(b2);
    UnitIndexIsSmallest(b1);
    UnitIndexIsSmallest(b2);
    if k1 == k2 {
      RoundHalfEvenMonotone(10 * b1, 10 * b2, m1);
      MulMonotone(t1, t2, m1);
    } else {
      assert k1 < k2;
      // t1 <= 10240: 2 * t1 * m1 <= 20 * b1 + m1 < 20481 * m1
      assert b1 < 1024 * m1;
      assert t1 <= 10240 by {
        if t1 > 10240 {
          MulMonotone(10241, t1, m1);
          assert false;
        }
      }
      MulMonotone(t1, 10240, m1);
      // t2 >= 10: 2 * t2 * m2 >= 20 * b2 - m2 >= 19 * m2
      assert m2 <= b2 by {
        assert k2 - 1 < k2;
      }
      assert t2 >= 10 by {
        if t2 < 10 {
          MulMonotone(t2, 9, m2);
          assert false;
        }
      }
      MulMonotone(10, t2, m2);
      Pow1024Monotone(k1 + 1, k2);
    }
  }

  /** The sort key of one printed count never decreases as the count grows
      below 1024^5. */
  lemma SortKeyMonotone(b1: nat, b2: nat)
    requires b1 <= b2 < Pow1024(5)
    ensures ParseSize(FormatBytes(b1)) <= ParseSize(FormatBytes(b2))
  {
    ParseSizeOfFormatBytes(b1);
    ParseSizeOfFormatBytes(b2);
    KeyTenthsMonotone(b1, b2);
  }

  lemma PetabytesFour()
    ensures FormatBytes(4 * Pow1024(5)) == "4.0 PB"
  {
    var b := 4 * Pow1024(5);
    UnitIndexIs(b, 5);
    assert Tenths(b) == 40;
    assert NatToString(4) == "4";
  }

  /** `total_bytes` adds two separately rounded keys, so its order can be the
      opposite of the raw totals: 1075 B in and 1075 B out (2150 B) print as
      1.0 KB each and sort as 2048, while 2100 B in and 0 B out (2100 B)
      print as 2.1 KB and 0.0 B and sort as 2150.4. */
  lemma SumOfKeysCanInvert()
    ensures TotalBytes(FormatBytes(1075), FormatBytes(1075)) == 2048.0
    ensures TotalBytes(FormatBytes(2100), FormatBytes(0)) == 2150.4
  {
    Pow1024Values();
    ParseSizeOfFormatBytes(1075);
    UnitIndexIs(1075, 1);
    assert Tenths(1075) == 10;
    ParseSizeOfFormatBytes(2100);
    UnitIndexIs(2100, 1);
    assert Tenths(2100) == 21;
    ParseSizeOfFormatBytes(0);
    assert Tenths(0) == 0;
  }

  /** From 1024^5 bytes on the count is printed in PB, and that count adds 0
      to its adapter's sort key, since the table has no "PB" entry. */
  lemma PetabytesSortAsZero(b: nat)
    requires b >= Pow1024(5)
    ensures FormatBytes(b) == FormatTenths(Tenths(b)) + " PB"
    ensures ParseSize(FormatBytes(b)) == 0.0
  {
    UnitIndexIs(b, 5);
    ParseSizeOfFormatBytes(b);
  }

  /** Worked values: the one from the documentation of the tool, the two
      ties 1.25 KB and 1.75 KB, which round to the even tenth, and 2^52 bytes,
      which is past the last unit and prints as 4 PB. */
  lemma FormatExamples()
    ensures FormatBytes(9999999) == "9.5 MB"
    ensures FormatBytes(1280) == "1.2 KB"
    ensures FormatBytes(1792) == "1.8 KB"
    ensures FormatBytes(4 * Pow1024(5)) == "4.0 PB"
  {
    FormatExample(9999999, 2, 95);
    FormatExample(1280, 1, 12);
    FormatExample(1792, 1, 18);
    PetabytesFour();
  }

  /** A count printed in unit k with t tenths. */
  lemma FormatExample(b: nat, k: nat, t: nat)
    requires k < 5 && (k == 0 || Pow1024(k) <= b) && b < Pow1024(k + 1)
    requires RoundHalfEven(10 * b, Pow1024(k)) == t
    ensures FormatBytes(b) == FormatTenths(t) + " " + Units[k]
  {
    UnitIndexIs(b, k);
  }
}
