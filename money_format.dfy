/**
 * Rendering of an integer number of cents as Brazilian Portuguese money text
 * (format_centavos in app.py): a `-` only for a negative amount, the whole
 * part with a `.` between groups of three digits, then `,` and exactly two
 * digits of cents. -123456 becomes "-1.234,56".
 */
module MoneyFormat {

  import opened Basics

  predicate IsDigit(c: char) { '0' <= c <= '9' }

  predicate AllDigits(s: string)
  {
    forall p :: 0 <= p < |s| ==> IsDigit(s[p])
  }

  function DigitValue(c: char): int { c as int - '0' as int }

  /** The character of the decimal digit `d`. */
  function DigitChar(d: nat): (c: char)
    requires d < 10
    ensures IsDigit(c) && DigitValue(c) == d
  {
    (48 + d) as char
  }

  /** The number the decimal digits `s` denote, most significant first. */
  function DecimalValue(s: string): int
  {
    if |s| == 0 then 0 else DecimalValue(s[..|s| - 1]) * 10 + DigitValue(s[|s| - 1])
  }

  lemma AppendThreeDigits(a: string, b: string)
    requires |b| == 3
    ensures DecimalValue(a + b) == DecimalValue(a) * 1000 + DecimalValue(b)
  {
    var b1, b2 := b[..1], b[..2];
    assert (a + b)[..|a| + 2] == a + b2;
    assert (a + b2)[..|a| + 1] == a + b1;
    assert (a + b1)[..|a|] == a;
    assert b[..2] == b2 && b2[..1] == b1 && b1[..0] == [];
    assert DecimalValue(a + b) == DecimalValue(a + b2) * 10 + DigitValue(b[2]);
    assert DecimalValue(a + b2) == DecimalValue(a + b1) * 10 + DigitValue(b[1]);
    assert DecimalValue(a + b1) == DecimalValue(a) * 10 + DigitValue(b[0]);
    assert DecimalValue(b) == DecimalValue(b2) * 10 + DigitValue(b[2]);
    assert DecimalValue(b2) == DecimalValue(b1) * 10 + DigitValue(b[1]);
    assert DecimalValue(b1) == DigitValue(b[0]);
  }

  /** Python's decimal rendering of a natural number: digits only, no
      leading zero. */
  function Decimal(n: nat): (r: string)
    ensures |r| >= 1 && AllDigits(r) && DecimalValue(r) == n
    ensures (r[0] == '0') == (n == 0)
    ensures n == 0 ==> r == "0"
  {
    if n < 10 then [DigitChar(n)]
    else
      var r := Decimal(n / 10) + [DigitChar(n % 10)];
      assert r[..|r| - 1] == Decimal(n / 10);
      r
  }

  lemma DecimalShort(n: nat)
    requires n < 1000
    ensures |Decimal(n)| <= 3
  {
    if n >= 10 {
      assert Decimal(n) == Decimal(n / 10) + [DigitChar(n % 10)];
      if n / 10 >= 10 {
        assert Decimal(n / 10) == Decimal(n / 100) + [DigitChar(n / 10 % 10)];
      }
    }
  }

  /** `m` as exactly two digits, zero-padded (the `02d` format). */
  function Pad2(m: nat): (r: string)
    requires m < 100
    ensures |r| == 2 && AllDigits(r) && DecimalValue(r) == m
  {
    var r := [DigitChar(m / 10), DigitChar(m % 10)];
    assert r[..1] == [r[0]] && [r[0]][..0] == [];
    assert DecimalValue(r) == DecimalValue([r[0]]) * 10 + DigitValue(r[1]);
    assert DecimalValue([r[0]]) == DigitValue(r[0]);
    r
  }

  /** `m` as exactly three digits, zero-padded: a group after a separator. */
  function Pad3(m: nat): (r: string)
    requires m < 1000
    ensures |r| == 3 && AllDigits(r) && DecimalValue(r) == m
  {
    var r := [DigitChar(m / 100), DigitChar(m / 10 % 10), DigitChar(m % 10)];
    AppendThreeDigits([], r);
    assert [] + r == r;
    assert DecimalValue(r) == DecimalValue([r[0], r[1]]) * 10 + DigitValue(r[2]) by {
      assert r[..2] == [r[0], r[1]];
    }
    assert DecimalValue([r[0], r[1]]) == DecimalValue([r[0]]) * 10 + DigitValue(r[1]) by {
      assert [r[0], r[1]][..1] == [r[0]];
    }
    assert DecimalValue([r[0]]) == DigitValue(r[0]) by {
      assert [r[0]][..0] == [];
    }
    r
  }

  /** The characters of `s` other than `.`. */
  function Ungroup(s: string): (r: string)
    ensures |r| <= |s|
  {
    if |s| == 0 then [] else (if s[0] == '.' then [] else [s[0]]) + Ungroup(s[1..])
  }

  lemma {:induction false} UngroupConcat(a: string, b: string)
    ensures Ungroup(a + b) == Ungroup(a) + Ungroup(b)
  {
    if |a| > 0 {
      assert (a + b)[1..] == a[1..] + b;
      UngroupConcat(a[1..], b);
    } else {
      assert a + b == b;
    }
  }

  lemma {:induction false} UngroupDigits(s: string)
    requires AllDigits(s)
    ensures Ungroup(s) == s
  {
    if |s| > 0 {
      UngroupDigits(s[1..]);
    }
  }

  /** Digits with a `.` exactly at every fourth place counted from the
      right: "1", "12.345", "1.234.567"; never a separator in front. */
  predicate WellGrouped(g: string)
  {
    |g| % 4 != 0 &&
    forall p :: 0 <= p < |g| ==> (g[p] == '.' <==> (|g| - p) % 4 == 0) && (g[p] != '.' ==> IsDigit(g[p]))
  }

  /** One to three digits need no separator. */
  lemma ShortWellGrouped(d: string)
    requires 1 <= |d| <= 3 && AllDigits(d)
    ensures WellGrouped(d)
  {
    forall p | 0 <= p < |d|
      ensures (d[p] == '.' <==> (|d| - p) % 4 == 0) && (d[p] != '.' ==> IsDigit(d[p]))
    {
      assert 1 <= |d| - p <= 3;
    }
  }

  /** A well-grouped head, a `.` and three more digits are well grouped. */
  lemma JoinWellGrouped(head: string, tail: string)
    requires WellGrouped(head) && |tail| == 3 && AllDigits(tail)
    ensures WellGrouped(head + "." + tail)
  {
    var g := head + "." + tail;
    forall p | 0 <= p < |g|
      ensures (g[p] == '.' <==> (|g| - p) % 4 == 0) && (g[p] != '.' ==> IsDigit(g[p]))
    {
      if p < |head| {
        assert g[p] == head[p];
        assert (|g| - p) % 4 == (|head| - p) % 4;
      } else if p > |head| {
        assert g[p] == tail[p - |head| - 1];
      }
    }
  }

  /** The separator drops out when ungrouping. */
  lemma UngroupSeparator(head: string, tail: string)
    requires AllDigits(tail)
    ensures Ungroup(head + "." + tail) == Ungroup(head) + tail
  {
    var dot := ".";
    assert Ungroup(dot) == [] by {
      assert dot[1..] == [];
    }
    calc {
      Ungroup(head + dot + tail);
      { UngroupConcat(head + dot, tail); }
      Ungroup(head + dot) + Ungroup(tail);
      { UngroupConcat(head, dot); UngroupDigits(tail); }
      Ungroup(head) + [] + tail;
      { assert Ungroup(head) + [] == Ungroup(head); }
      Ungroup(head) + tail;
    }
  }

  lemma AllDigitsConcat(a: string, b: string)
    requires AllDigits(a) && AllDigits(b)
    ensures AllDigits(a + b)
  {
    forall p | 0 <= p < |a + b| ensures IsDigit((a + b)[p]) {
      if p >= |a| {
        assert (a + b)[p] == b[p - |a|];
      }
    }
  }

  /** Ungrouping a head, a `.` and three digits appends the digits. */
  lemma JoinUngrouped(head: string, tail: string, q: nat)
    requires |Ungroup(head)| >= 1 && AllDigits(Ungroup(head)) && DecimalValue(Ungroup(head)) == q
    requires (Ungroup(head)[0] == '0') == (q == 0) && q > 0
    requires |tail| == 3 && AllDigits(tail)
    ensures var u := Ungroup(head + "." + tail);
            |u| >= 1 && AllDigits(u) && DecimalValue(u) == q * 1000 + DecimalValue(tail) && u[0] != '0'
  {
    UngroupSeparator(head, tail);
    AllDigitsConcat(Ungroup(head), tail);
    AppendThreeDigits(Ungroup(head), tail);
  }

  /** The whole part as Python's `{n:,}` writes it, with `.` for `,`. */
  function Grouped(n: nat): (g: string)
    ensures WellGrouped(g)
    ensures |Ungroup(g)| >= 1 && AllDigits(Ungroup(g)) && DecimalValue(Ungroup(g)) == n
    ensures (Ungroup(g)[0] == '0') == (n == 0)
    ensures n == 0 ==> g == "0"
  {
    if n < 1000 then
      var d := Decimal(n);
      DecimalShort(n);
      ShortWellGrouped(d);
      UngroupDigits(d);
      d
    else
      var head, tail := Grouped(n / 1000), Pad3(n % 1000);
      JoinWellGrouped(head, tail);
      JoinUngrouped(head, tail, n / 1000);
      head + "." + tail
  }

  /** format_centavos: sign, grouped whole part, `,`, two cent digits. */
  function FormatCentavos(cents: int): (r: string)
    ensures |r| >= 4
    ensures (r[0] == '-') == (cents < 0)
    ensures r[|r| - 3] == ',' && AllDigits(r[|r| - 2..])
    ensures DecimalValue(r[|r| - 2..]) == Abs(cents) % 100
    ensures var whole := r[if cents < 0 then 1 else 0..|r| - 3];
            WellGrouped(whole) && |Ungroup(whole)| >= 1 && AllDigits(Ungroup(whole)) &&
            DecimalValue(Ungroup(whole)) == Abs(cents) / 100 &&
            (Ungroup(whole)[0] == '0') == (Abs(cents) / 100 == 0) &&
            (Abs(cents) / 100 == 0 ==> whole == "0")
  {
    var sign := if cents < 0 then "-" else "";
    var whole := Grouped(Abs(cents) / 100);
    var frac := Pad2(Abs(cents) % 100);
    var r := sign + whole + "," + frac;
    assert r[|sign|..|r| - 3] == whole;
    assert r[|r| - 2..] == frac;
    assert |whole| >= 1 && IsDigit(whole[0]) by {
      assert (|whole| - 0) % 4 != 0;
    }
    assert cents >= 0 ==> r[0] == whole[0];
    r
  }

  /** Reads back text of the shape FormatCentavos writes: an optional `-`,
      a well-grouped whole part with no leading zero (just "0" when it is
      zero), `,` and two digits of cents; a `-` before zero is refused. */
  function ParseCentavos(s: string): (r: Option<int>)
  {
    if |s| < 4 || s[|s| - 3] != ',' then None
    else
      var k := if s[0] == '-' then 1 else 0;
      var whole, frac := s[k..|s| - 3], s[|s| - 2..];
      if !WellGrouped(whole) || !AllDigits(frac) then None
      else
        var u := Ungroup(whole);
        var m := DecimalValue(u) * 100 + DecimalValue(frac);
        if |u| == 0 || (u[0] == '0' && whole != "0") || (k == 1 && m == 0) then None
        else Some(if k == 1 then -m else m)
  }

  /** No amount is lost in the text: it reads back to the same cents. */
  lemma ParseFormatRoundTrip(cents: int)
    ensures ParseCentavos(FormatCentavos(cents)) == Some(cents)
  {
    var r := FormatCentavos(cents);
    var k := if r[0] == '-' then 1 else 0;
    assert k == (if cents < 0 then 1 else 0);
    var whole, frac := r[k..|r| - 3], r[|r| - 2..];
    var u := Ungroup(whole);
    var m := DecimalValue(u) * 100 + DecimalValue(frac);
    assert m == Abs(cents);
    assert u[0] == '0' ==> whole == "0";
    assert k == 1 ==> m != 0;
  }

  /** Distinct amounts are rendered differently. */
  lemma FormatInjective(a: int, b: int)
    requires FormatCentavos(a) == FormatCentavos(b)
    ensures a == b
  {
    ParseFormatRoundTrip(a);
    ParseFormatRoundTrip(b);
  }
}
