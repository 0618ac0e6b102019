/**
 How good printed numbers are, and what the texts of numbers mean: `%f` gives the nearest
 number with six decimals, the even one of two; what the buffer of 32 characters cuts off is
 worth less than one unit of the last digit that is left; and `strtof` gives every number of
 RFC 8259 its value.
 */
module JsonPrecision {
  import opened JsonSyntax
  import opened JsonNumbers
  import Rfc8259

  // ------------------------------------------------------------ powers of ten

  lemma Million(y: real)
    ensures Tenfold(y, 6) == y * 1000000.0
  {
    assert Tenfold(y, 6) == Tenfold(y * 100.0, 4) == Tenfold(y * 10000.0, 2);
  }

  lemma {:induction false} TenfoldAdds(x: real, y: real, k: nat)
    ensures Tenfold(x + y, k) == Tenfold(x, k) + Tenfold(y, k)
    decreases k
  {
    if k > 0 {
      TenfoldAdds(x * 10.0, y * 10.0, k - 1);
      assert (x + y) * 10.0 == x * 10.0 + y * 10.0;
    }
  }

  lemma TenfoldGrows(x: real, y: real, k: nat)
    requires x <= y
    ensures Tenfold(x, k) <= Tenfold(y, k)
  {
    TenfoldAdds(x, y - x, k);
    TenfoldIsNotNegative(y - x, k);
  }

  /** The last c digits are worth less than ten to the c. */
  lemma {:induction false} CutIsBelow(n: nat, c: nat)
    ensures Tenfold(Cut(n, c) as real, c) <= n as real <= Tenfold(Cut(n, c) as real, c) + Tenfold(1.0, c) - 1.0
    decreases c
  {
    if c > 0 {
      CutIsBelow(n, c - 1);
      var q := Cut(n, c - 1);
      var r := (q % 10) as real;
      LastDigit(q, c);
      TenfoldAdds(r, 1.0, c - 1);
      TenfoldGrows(r + 1.0, 10.0, c - 1);
      TenfoldIsNotNegative(r, c - 1);
    }
  }

  lemma LastDigit(q: nat, c: nat)
    requires c > 0
    ensures Tenfold(q as real, c - 1) == Tenfold((q / 10) as real, c) + Tenfold((q % 10) as real, c - 1)
    ensures Tenfold(1.0, c) == Tenfold(10.0, c - 1)
  {
    assert q as real == (q / 10) as real * 10.0 + (q % 10) as real;
    TenfoldAdds((q / 10) as real * 10.0, (q % 10) as real, c - 1);
  }

  // ------------------------------------------------------------------- rounding

  /** The nearest integer is at most half away, and even at half. */
  lemma NearestIsNear(y: real)
    requires y >= 0.0
    ensures var n := Nearest(y);
      && -0.5 <= n as real - y <= 0.5
      && (n as real - y == 0.5 || y - n as real == 0.5 ==> n % 2 == 0)
  {
  }

  lemma MillionthsAreNear(x: real)
    ensures var m, y := Millionths(x), Abs(x) * 1000000.0;
      && -0.5 <= m as real - y <= 0.5
      && (m as real - y == 0.5 || y - m as real == 0.5 ==> m % 2 == 0)
  {
    Million(Abs(x));
    TenfoldIsNotNegative(Abs(x), 6);
    NearestIsNear(Tenfold(Abs(x), 6));
  }

  /** The text's length, and what of it is kept. */
  lemma TextLength(x: real)
    ensures var n := |Digits(Millionths(x), DECIMALS + 1)| - DECIMALS;
      n >= 1 && |FormatF(x)| == |Sign(x < 0.0)| + n + 7
  {
  }

  /**
   Read back, a printed number that fits its buffer is the nearest one with six decimals, and
   of two as near the one whose last digit is even.
   */
  lemma PrintedIsNearest(x: real)
    requires |FormatF(x)| <= 31
    ensures var v := Strtof(Clip(FormatF(x)));
      && -0.0000005 <= v - x <= 0.0000005
      && IsWhole(v * 1000000.0)
      && (v - x == 0.0000005 || x - v == 0.0000005 ==> (v * 1000000.0).Floor % 2 == 0)
  {
    PrintedValue(x);
    TextLength(x);
    MillionthsAreNear(x);
    hide FormatF, Clip, Strtof, Millionths, Digits;
    var m: int, n := Millionths(x), |Digits(Millionths(x), DECIMALS + 1)| - DECIMALS;
    assert Lost(n, Room(x)) == 0 && Places(n, Room(x)) == 6;
    CutNothing(m);
    TenfoldOfTenth(m as real, 6);
    Million(Tenth(m as real, 6));
    NearestSigned(x, Tenth(m as real, 6), m);
  }

  lemma NearestSigned(x: real, t: real, m: int)
    requires t * 1000000.0 == m as real
    requires var y := Abs(x) * 1000000.0;
      && -0.5 <= m as real - y <= 0.5
      && (m as real - y == 0.5 || y - m as real == 0.5 ==> m % 2 == 0)
    ensures var v := WithSign(x < 0.0, t);
      && -0.0000005 <= v - x <= 0.0000005
      && IsWhole(v * 1000000.0)
      && (v - x == 0.0000005 || x - v == 0.0000005 ==> (v * 1000000.0).Floor % 2 == 0)
  {
    var v := WithSign(x < 0.0, t);
    assert v * 1000000.0 == (if x < 0.0 then -m else m) as real;
  }

  /** The sign is kept, also where nothing else is left of the number. */
  lemma PrintedSign(x: real)
    ensures var v := Strtof(Clip(FormatF(x))); if x < 0.0 then v <= 0.0 else v >= 0.0
  {
    PrintedValue(x);
    hide FormatF, Clip, Strtof, Millionths, Digits, Cut, Tenth;
    var n := |Digits(Millionths(x), DECIMALS + 1)| - DECIMALS;
    TenthIsNotNegative(Cut(Millionths(x), Lost(n, Room(x))) as real, Places(n, Room(x)));
  }

  /** What is kept of a text that is c characters too long. */
  lemma KeptOf(x: real, c: nat)
    requires c > 0 && |FormatF(x)| == 31 + c
    ensures Abs(Kept(x)) ==
      if c < 7 then Tenth(Cut(Millionths(x), c) as real, 6 - c) else Cut(Millionths(x), c - 1) as real
  {
    TextLength(x);
    hide FormatF, Millionths, Digits, Cut, Tenth;
    var m, n, room := Millionths(x), |Digits(Millionths(x), DECIMALS + 1)| - DECIMALS, Room(x);
    assert n + 7 - room == c;
    assert Lost(n, room) == (if c < 7 then c else c - 1) && Places(n, room) == if c < 7 then 6 - c else 0;
    TenthIsNotNegative(Cut(m, Lost(n, room)) as real, Places(n, room));
    NoTenth(Cut(m, Lost(n, room)) as real);
  }

  lemma NoTenth(y: real)
    ensures Tenth(y, 0) == y
  {
  }

  /**
   Of a text that is c characters too long for its buffer, the decimals that were cut off are,
   in millionths, worth less than ten to the c; and where the period goes too, from c = 7 on,
   the number read back lacks the last c - 7 digits of its whole part.
   */
  lemma PrintedIsCutOff(x: real, c: nat)
    requires c > 0 && |FormatF(x)| == 31 + c
    ensures var y, u := Abs(x), Abs(Strtof(Clip(FormatF(x))));
      if c < 7 then -0.5 <= (y - u) * 1000000.0 < Tenfold(1.0, c)
      else -0.5 <= (y - Tenfold(u, c - 7)) * 1000000.0 < Tenfold(1.0, c - 1)
  {
    PrintedValue(x);
    KeptOf(x, c);
    MillionthsAreNear(x);
    hide FormatF, Clip, Strtof, Millionths, Digits, Kept, Cut, Tenth, Tenfold;
    if c < 7 {
      FewerDecimals(Millionths(x), c);
    } else {
      FewerDigits(Millionths(x), c - 7);
    }
  }

  lemma FewerDecimals(m: nat, c: nat)
    requires c < 7
    ensures var u := Tenth(Cut(m, c) as real, 6 - c);
      0.0 <= m as real - u * 1000000.0 <= Tenfold(1.0, c) - 1.0
  {
    hide Cut, Tenth, Tenfold;
    var u := Tenth(Cut(m, c) as real, 6 - c);
    CutIsBelow(m, c);
    TenfoldOfTenth(Cut(m, c) as real, 6 - c);
    TenfoldTwice(u, 6 - c, c);
    Million(u);
  }

  lemma FewerDigits(m: nat, d: nat)
    ensures var u := Cut(m, d + 6) as real;
      0.0 <= m as real - Tenfold(u, d) * 1000000.0 <= Tenfold(1.0, d + 6) - 1.0
  {
    hide Cut, Tenfold;
    var u := Cut(m, d + 6) as real;
    CutIsBelow(m, d + 6);
    TenfoldTwice(u, d, 6);
    Million(Tenfold(u, d));
  }

  // -------------------------------------------------------------- the printed text

  lemma {:induction false} NoLeadingZero(n: nat)
    ensures n > 0 ==> Digits(n, 0)[0] != '0'
    ensures n < 10 ==> |Digits(n, 0)| == 1
    ensures Digits(n, 1) == Digits(n, 0)
  {
    if n >= 10 {
      NoLeadingZero(n / 10);
      assert Digits(n, 0)[0] == Digits(n / 10, 0)[0];
    } else {
      assert ValueOf(Digits(n, 0)[0]) == n;
    }
  }

  lemma {:induction false} DigitsPrefix(n: nat, c: nat)
    ensures |Digits(n, c + 1)| >= c && Digits(n, c + 1)[..|Digits(n, c + 1)| - c] == Digits(Cut(n, c), 1)
    decreases c
  {
    hide Cut;
    var w := Digits(n, c + 1);
    if c > 0 {
      DigitsPrefix(n / 10, c - 1);
      CutFirst(n, c);
      var v := Digits(n / 10, c);
      assert w == v + [DigitOf(n % 10)];
      assert w[..|w| - c] == v[..|v| - (c - 1)];
    } else {
      CutNothing(n);
      assert w[..|w|] == w;
    }
  }

  /** A printed number is a minus or nothing, a whole part without needless zeros, a period
      and six decimals: a number of RFC 8259, unless it is cut off. */
  lemma PrintedForm(x: real) returns (whole: string, frac: string)
    ensures FormatF(x) == (if x < 0.0 then "-" else "") + whole + "." + frac
    ensures whole != "" && AllDigits(whole) && (whole[0] == '0' ==> |whole| == 1)
    ensures |frac| == 6 && AllDigits(frac)
    ensures Rfc8259.IsNumber(FormatF(x))
  {
    hide Millionths, Cut, Digits;
    var m := Millionths(x);
    var w := Digits(m, DECIMALS + 1);
    whole, frac := w[..|w| - 6], w[|w| - 6..];
    DigitsPrefix(m, 6);
    NoLeadingZero(Cut(m, 6));
    DecimalIsNumber(if x < 0.0 then "-" else "", whole, frac);
  }

  lemma DecimalIsNumber(minus: string, whole: string, frac: string)
    requires minus == "" || minus == "-"
    requires whole != "" && AllDigits(whole) && (whole[0] == '0' ==> |whole| == 1)
    requires frac != "" && AllDigits(frac)
    ensures Rfc8259.IsNumber(minus + whole + "." + frac)
  {
    var p := Rfc8259.NumberParts(minus, whole, "." + frac, "");
    assert p.frac[1..] == frac;
    assert p.Valid() && p.Text() == minus + whole + "." + frac;
  }

  // ------------------------------------------------------- what the texts mean

  lemma {:induction false} NaturalConcat(a: string, b: string)
    requires AllDigits(a) && AllDigits(b)
    ensures Natural(a + b) as real == Tenfold(Natural(a) as real, |b|) + Natural(b) as real
  {
    if b == "" {
      assert a + b == a;
    } else {
      var n := |b| - 1;
      NaturalConcat(a, b[..n]);
      assert (a + b)[..|a + b| - 1] == a + b[..n];
      TenfoldTwice(Natural(a) as real, n, 1);
      TenfoldOnce(Tenfold(Natural(a) as real, n));
    }
  }

  lemma TenfoldOnce(y: real)
    ensures Tenfold(y, 1) == y * 10.0
  {
    assert Tenfold(y, 1) == Tenfold(y * 10.0, 0);
  }

  lemma {:induction false} TenthAdds(x: real, y: real, k: nat)
    ensures Tenth(x + y, k) == Tenth(x, k) + Tenth(y, k)
    decreases k
  {
    if k > 0 {
      TenthAdds(x, y, k - 1);
    }
  }

  lemma DecimalValue(whole: string, frac: string)
    requires AllDigits(whole) && AllDigits(frac)
    ensures Tenth(Natural(whole + frac) as real, |frac|) ==
            Natural(whole) as real + Tenth(Natural(frac) as real, |frac|)
  {
    hide Tenth, Tenfold, Natural;
    NaturalConcat(whole, frac);
    TenthAdds(Tenfold(Natural(whole) as real, |frac|), Natural(frac) as real, |frac|);
    TenthOfTenfold(Natural(whole) as real, |frac|);
  }

  /** The digits of a part: without its period, or its exponent mark and sign. */
  function Fraction(frac: string): string { if frac == "" then "" else frac[1..] }

  predicate HasSign(exp: string) { |exp| > 1 && (exp[1] == '-' || exp[1] == '+') }

  function Power(exp: string): string { if exp == "" then "" else if HasSign(exp) then exp[2..] else exp[1..] }

  function Signed(exp: string, e: int): int { if HasSign(exp) && exp[1] == '-' then -e else e }

  /** The number that the parts of section 6 stand for. */
  ghost function Meaning(p: Rfc8259.NumberParts): real
    requires p.Valid()
  {
    var frac := Fraction(p.frac);
    var y := Natural(p.whole) as real + Tenth(Natural(frac) as real, |frac|);
    var e := Natural(Power(p.exp));
    var scaled := if HasSign(p.exp) && p.exp[1] == '-' then Tenth(y, e) else Tenfold(y, e);
    if p.minus == "-" then -scaled else scaled
  }

  /** The exponent is read from its mark to the end. */
  lemma ExponentIs(w: string, b: nat, exp: string)
    requires b <= |w| && w[b..] == exp
    requires exp != "" ==> IsE(exp[0]) && Power(exp) != ""
    requires AllDigits(Power(exp))
    ensures Exponent(w, b) == Signed(exp, Natural(Power(exp)))
  {
    hide Natural, DigitsEnd;
    if exp == "" {
      assert Natural("") == 0 by { NoDigits(); }
    } else {
      assert w[b] == exp[0] && w[b + 1] == exp[1];
      var s := if HasSign(exp) then b + 2 else b + 1;
      assert w[s..|w|] == Power(exp);
      assert !HasSign(exp) ==> IsDigit(exp[1]) by {
        if !HasSign(exp) {
          assert Power(exp)[0] == exp[1];
        }
      }
      DigitsEndIs(w, s, |w|);
    }
  }

  lemma NoDigits()
    ensures Natural("") == 0
  {
  }

  /** strtof gives every number of RFC 8259 its value. */
  lemma StrtofMeans(p: Rfc8259.NumberParts)
    requires p.Valid()
    ensures Strtof(p.Text()) == Meaning(p)
  {
    hide Strtof, Natural, Tenth, Tenfold, DigitsEnd, Exponent, Fraction, Power, HasSign, Signed;
    var w, s := p.Text(), |p.minus|;
    var a := s + |p.whole|;
    var b := a + |p.frac|;
    PartsEnd(p);
    ExponentIs(w, b, p.exp);
    DecimalValue(p.whole, Fraction(p.frac));
    StrtofIs(w, s, a, b, Fraction(p.frac));
    var y := Natural(p.whole) as real + Tenth(Natural(Fraction(p.frac)) as real, |Fraction(p.frac)|);
    Shifted(p.exp, Natural(Power(p.exp)), y);
  }

  lemma Shifted(exp: string, e: nat, y: real)
    ensures var n := Signed(exp, e);
      (if HasSign(exp) && exp[1] == '-' then Tenth(y, e) else Tenfold(y, e))
      == if n >= 0 then Tenfold(y, n) else Tenth(y, -n)
  {
    assert Tenth(y, 0) == y == Tenfold(y, 0);
  }

  lemma PartsEnd(p: Rfc8259.NumberParts)
    requires p.Valid()
    ensures var w, s := p.Text(), |p.minus|;
      var a := s + |p.whole|;
      var b := a + |p.frac|;
      && s == (if w != "" && IsSign(w[0]) then 1 else 0) && (s == 1 <==> p.minus == "-") && (s == 1 ==> w[0] == '-')
      && a <= b <= |w| && w[s..a] == p.whole && DigitsEnd(w, s) == a
      && (if a < |w| && w[a] == '.' then a < b && DigitsEnd(w, a + 1) == b && w[a + 1..b] == Fraction(p.frac)
          else b == a && Fraction(p.frac) == "")
      && w[b..] == p.exp && AllDigits(Power(p.exp)) && (p.exp != "" ==> IsE(p.exp[0]) && Power(p.exp) != "")
  {
    hide DigitsEnd;
    var w, s := p.Text(), |p.minus|;
    var a := s + |p.whole|;
    TextParts(p);
    DigitsEndIs(w, s, a);
    if p.frac != "" {
      DigitsEndIs(w, a + 1, a + |p.frac|);
    }
  }

  /** Where the parts lie. */
  lemma TextParts(p: Rfc8259.NumberParts)
    requires p.Valid()
    ensures var w, s := p.Text(), |p.minus|;
      var a := s + |p.whole|;
      var b := a + |p.frac|;
      && s == (if w != "" && IsSign(w[0]) then 1 else 0) && (s == 1 ==> w[0] == '-')
      && b <= |w| && w[s..a] == p.whole && AllDigits(w[s..a]) && w[b..] == p.exp
      && (a < |w| ==> !IsDigit(w[a]))
      && (b < |w| ==> !IsDigit(w[b]) && IsE(w[b]))
      && (p.frac == "" ==> a < |w| ==> w[a] != '.')
      && (p.frac != "" ==> w[a] == '.' && w[a + 1..b] == Fraction(p.frac) && AllDigits(w[a + 1..b]))
  {
  }

  lemma StrtofIs(w: string, s: nat, a: nat, b: nat, frac: string)
    requires s == if w != "" && IsSign(w[0]) then 1 else 0
    requires s <= a <= b <= |w| && DigitsEnd(w, s) == a
    requires if a < |w| && w[a] == '.' then a < b && DigitsEnd(w, a + 1) == b && w[a + 1..b] == frac
             else b == a && frac == ""
    ensures AllDigits(w[s..a]) && AllDigits(frac)
    ensures var y := Tenth(Natural(w[s..a] + frac) as real, |frac|);
      var e := Exponent(w, b);
      Strtof(w) == WithSign(s == 1 && w[0] == '-', if e >= 0 then Tenfold(y, e) else Tenth(y, -e))
  {
    hide Natural, Tenth, Tenfold, DigitsEnd, Exponent;
  }
}
