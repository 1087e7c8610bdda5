/** Python's `f"{n:,}"` on an `int`: the decimal digits of `n` with a comma
    between every group of three digits, counted from the right (the `,`
    option of PEP 378), and a leading `-` for a negative number. */
module NumberFormat {
  import Text

  predicate IsDigit(c: char) {
    '0' <= c <= '9'
  }

  function DigitChar(d: nat): (c: char)
    requires d < 10
    ensures IsDigit(c)
  {
    (48 + d) as char
  }

  function DigitValue(c: char): nat
    requires IsDigit(c)
  {
    c as nat - 48
  }

  predicate AllDigits(s: string) {
    forall i :: 0 <= i < |s| ==> IsDigit(s[i])
  }

  /** `str(n)` for a natural number. */
  function Decimal(n: nat): (r: string)
    ensures r != []
    ensures AllDigits(r)
    ensures |r| == 1 <==> n < 10
    ensures |r| <= 2 <==> n < 100
    ensures |r| <= 3 <==> n < 1000
    ensures r[0] != '0' || n == 0
  {
    if n < 10 then [DigitChar(n)] else Decimal(n / 10) + [DigitChar(n % 10)]
  }

  /** The number a string of digits stands for. */
  function Value(s: string): nat
    requires AllDigits(s)
  {
    if s == [] then 0 else Value(s[..|s| - 1]) * 10 + DigitValue(s[|s| - 1])
  }

  function Pow10(k: nat): nat {
    if k == 0 then 1 else 10 * Pow10(k - 1)
  }

  lemma {:induction false} ValueAppend(a: string, b: string)
    requires AllDigits(a) && AllDigits(b)
    ensures Value(a + b) == Value(a) * Pow10(|b|) + Value(b)
  {
    if b == [] {
      assert a + b == a;
    } else {
      var b' := b[..|b| - 1];
      var d := DigitValue(b[|b| - 1]);
      assert (a + b)[..|a + b| - 1] == a + b';
      assert (a + b)[|a + b| - 1] == b[|b| - 1];
      ValueAppend(a, b');
      assert Value(a + b) == Value(a + b') * 10 + d;
      assert Value(b) == Value(b') * 10 + d;
      ShiftDigit(Value(a), Pow10(|b'|), Value(b'), d);
    }
  }

  lemma ShiftDigit(x: int, p: int, y: int, d: int)
    ensures (x * p + y) * 10 + d == x * (p * 10) + (y * 10 + d)
  {
  }

  /** `str(n)` reads back as `n`. */
  lemma {:induction false} DecimalValue(n: nat)
    ensures Value(Decimal(n)) == n
  {
    if n >= 10 {
      DecimalValue(n / 10);
      var r := Decimal(n);
      assert r[..|r| - 1] == Decimal(n / 10);
    }
  }

  /** Three digits with leading zeros, for a group after a comma. */
  function Pad3(m: nat): (r: string)
    requires m < 1000
    ensures |r| == 3
    ensures forall i :: 0 <= i < 3 ==> IsDigit(r[i])
  {
    [DigitChar(m / 100), DigitChar(m / 10 % 10), DigitChar(m % 10)]
  }

  lemma {:induction false} Pad3Value(m: nat)
    requires m < 1000
    ensures Value(Pad3(m)) == m
  {
    var r := Pad3(m);
    var q := m / 10;
    assert r[..2][..1] == [r[0]];
    assert Value(r[..1]) == q / 10 by {
      HundredsDigit(m);
    }
    assert Value(r[..2]) == q by {
      assert Value(r[..2]) == q / 10 * 10 + q % 10;
    }
  }

  /** The hundreds digit is the tens digit of `m / 10`. */
  lemma HundredsDigit(m: nat)
    ensures m / 100 == m / 10 / 10
  {
  }

  /** Every comma is followed by exactly three digits, then a comma or the end. */
  predicate CommasEveryThree(r: string) {
    forall i :: 0 <= i < |r| && r[i] == ',' ==>
      i + 3 < |r| && IsDigit(r[i + 1]) && IsDigit(r[i + 2]) && IsDigit(r[i + 3])
      && (i + 4 == |r| || r[i + 4] == ',')
  }

  /** No four digits in a row. */
  predicate NoLongRun(r: string) {
    forall i :: 0 <= i && i + 3 < |r| ==>
      r[i] == ',' || r[i + 1] == ',' || r[i + 2] == ',' || r[i + 3] == ','
  }

  /** The shape of a grouped number: starts with a digit, holds only digits
      and commas, and puts a comma before every group of three digits counted
      from the right. */
  predicate WellGrouped(r: string) {
    && r != [] && IsDigit(r[0])
    && (forall i :: 0 <= i < |r| ==> IsDigit(r[i]) || r[i] == ',')
    && CommasEveryThree(r)
    && NoLongRun(r)
  }

  /** The digits of `n` grouped by threes. */
  function GroupDigits(n: nat): (r: string)
    ensures WellGrouped(r)
    ensures ',' in r <==> n >= 1000
  {
    if n < 1000 then
      var d := Decimal(n);
      assert forall i :: 0 <= i < |d| ==> d[i] != ',';
      d
    else
      var g := GroupDigits(n / 1000);
      var p := Pad3(n % 1000);
      GroupStep(g, p);
      assert (g + [','] + p)[|g|] == ',';
      g + [','] + p
  }

  /** The grouped digits read back as `n` and do not start with `0` unless
      `n` is 0: with the shape that `GroupDigits` ensures, this pins the
      text down to `f"{n:,}"`. */
  lemma {:induction false} GroupDigitsValue(n: nat)
    ensures Value(Ungroup(GroupDigits(n))) == n
    ensures GroupDigits(n)[0] != '0' || n == 0
  {
    if n < 1000 {
      Text.WithoutNoSeps(Decimal(n), {','});
      DecimalValue(n);
    } else {
      GroupDigitsValue(n / 1000);
      GroupValueStep(GroupDigits(n / 1000), n % 1000);
    }
  }

  /** A comma and a group of three more digits multiply the value by 1000
      and add the group. */
  lemma GroupValueStep(g: string, m: nat)
    requires m < 1000
    requires forall i :: 0 <= i < |g| ==> IsDigit(g[i]) || g[i] == ','
    ensures forall i :: 0 <= i < |g + [','] + Pad3(m)| ==>
      IsDigit((g + [','] + Pad3(m))[i]) || (g + [','] + Pad3(m))[i] == ','
    ensures Value(Ungroup(g + [','] + Pad3(m))) == Value(Ungroup(g)) * 1000 + m
  {
    UngroupStep(g, Pad3(m));
    ValueAppend(Ungroup(g), Pad3(m));
    assert Pow10(3) == 1000;
    Pad3Value(m);
  }

  /** A comma and a group of three digits add those digits to the ungrouped
      text. */
  lemma UngroupStep(g: string, p: string)
    requires forall i :: 0 <= i < |g| ==> IsDigit(g[i]) || g[i] == ','
    requires |p| == 3 && forall i :: 0 <= i < 3 ==> IsDigit(p[i])
    ensures forall i :: 0 <= i < |g + [','] + p| ==> IsDigit((g + [','] + p)[i]) || (g + [','] + p)[i] == ','
    ensures Ungroup(g + [','] + p) == Ungroup(g) + p
  {
    var a := g + [','];
    assert Text.Without(a, {','}) == Text.Without(g, {','}) by {
      Text.WithoutAppend(g, [','], {','});
      assert Text.Without([','], {','}) == [];
    }
    Text.WithoutAppend(a, p, {','});
    Text.WithoutNoSeps(p, {','});
  }

  /** Appending a comma and three more digits keeps a number well grouped. */
  lemma {:induction false} GroupStep(g: string, p: string)
    requires WellGrouped(g)
    requires |p| == 3 && forall i :: 0 <= i < 3 ==> IsDigit(p[i])
    ensures WellGrouped(g + [','] + p)
  {
    var r := g + [','] + p;
    assert forall i :: 0 <= i < |r| ==> IsDigit(r[i]) || r[i] == ',' by {
      forall i | 0 <= i < |r| ensures IsDigit(r[i]) || r[i] == ',' {
        if i < |g| { assert r[i] == g[i]; }
        else if i > |g| { assert r[i] == p[i - |g| - 1]; }
      }
    }
    CommasStep(g, p);
    NoLongRunStep(g, p);
  }

  lemma {:induction false} CommasStep(g: string, p: string)
    requires CommasEveryThree(g)
    requires |p| == 3 && forall i :: 0 <= i < 3 ==> IsDigit(p[i])
    ensures CommasEveryThree(g + [','] + p)
  {
    var r := g + [','] + p;
    forall i | 0 <= i < |r| && r[i] == ','
      ensures i + 3 < |r| && IsDigit(r[i + 1]) && IsDigit(r[i + 2]) && IsDigit(r[i + 3])
      ensures i + 4 == |r| || r[i + 4] == ','
    {
      if i < |g| {
        assert g[i] == ',';
        assert r[i + 1] == g[i + 1] && r[i + 2] == g[i + 2] && r[i + 3] == g[i + 3];
        if i + 4 < |g| {
          assert r[i + 4] == g[i + 4];
        }
      } else if i == |g| {
        assert r[i + 1] == p[0] && r[i + 2] == p[1] && r[i + 3] == p[2];
      }
    }
  }

  lemma {:induction false} NoLongRunStep(g: string, p: string)
    requires NoLongRun(g)
    requires |p| == 3
    ensures NoLongRun(g + [','] + p)
  {
    var r := g + [','] + p;
    forall i | 0 <= i && i + 3 < |r|
      ensures r[i] == ',' || r[i + 1] == ',' || r[i + 2] == ',' || r[i + 3] == ','
    {
      if i + 3 < |g| {
        assert r[i] == g[i] && r[i + 1] == g[i + 1] && r[i + 2] == g[i + 2] && r[i + 3] == g[i + 3];
      } else {
        assert r[|g|] == ',';
        assert i <= |g| <= i + 3;
      }
    }
  }

  /** The digits of a grouped string, with the commas left out. */
  function Ungroup(s: string): (r: string)
    requires forall i :: 0 <= i < |s| ==> IsDigit(s[i]) || s[i] == ','
    ensures forall i :: 0 <= i < |r| ==> IsDigit(r[i])
  {
    var r := Text.Without(s, {','});
    Text.WithoutChars(s, {','});
    assert forall i :: 0 <= i < |r| ==> IsDigit(r[i]) by {
      forall i | 0 <= i < |r| ensures IsDigit(r[i]) {
        assert r[i] in r;
      }
    }
    r
  }

  /** `f"{n:,}"`. */
  function Grouped(n: int): (r: string)
    ensures r != []
    ensures r[0] == '-' <==> n < 0
  {
    if n < 0 then "-" + GroupDigits(-n) else GroupDigits(n)
  }

  /** Reading a grouped number back: an optional `-`, then digits and commas. */
  function ParseGrouped(s: string): int
    requires s != []
    requires forall i :: 0 < i < |s| ==> IsDigit(s[i]) || s[i] == ','
    requires IsDigit(s[0]) || s[0] == ',' || s[0] == '-'
  {
    if s[0] == '-' then -(Value(Ungroup(s[1..])) as int) else Value(Ungroup(s))
  }

  /** Formatting with `,` loses nothing: the grouped text reads back as the
      number it was made from. */
  lemma {:induction false} GroupedRoundTrip(n: int)
    ensures ParseGrouped(Grouped(n)) == n
  {
    var s := Grouped(n);
    if n < 0 {
      var g := GroupDigits(-n);
      assert s == "-" + g;
      assert s[1..] == g;
      assert forall i :: 0 < i < |s| ==> s[i] == g[i - 1];
      GroupDigitsValue(-n);
    } else {
      GroupDigitsValue(n);
    }
  }
}
