/**
 Numbers as include/cerialize/cerialize.h prints and reads them: `%f` into a buffer of 32
 characters, and `strtof`. Values are exact reals; rounding one to a float is left to a
 function of the caller's.
 */
module JsonNumbers {
  import opened JsonSyntax

  // ---------------------------------------------------------------- decimals

  /** y times ten, k times. */
  function Tenfold(y: real, k: nat): real
    decreases k
  {
    if k == 0 then y else Tenfold(y * 10.0, k - 1)
  }

  /** y divided by ten, k times. */
  function Tenth(y: real, k: nat): real
    decreases k
  {
    if k == 0 then y else Tenth(y, k - 1) / 10.0
  }

  /** n without its last c digits. */
  function Cut(n: nat, c: nat): (m: nat)
    ensures m <= n && (c > 0 && n > 0 ==> m < n)
    decreases c
  {
    if c == 0 then n else Cut(n, c - 1) / 10
  }

  function DigitOf(d: nat): (c: char)
    requires d < 10
    ensures IsDigit(c) && ValueOf(c) == d
  {
    ['0', '1', '2', '3', '4', '5', '6', '7', '8', '9'][d]
  }

  function ValueOf(c: char): (d: nat)
    requires IsDigit(c)
    ensures d < 10 && "0123456789"[d] == c
  {
    c as int - '0' as int
  }

  /** The digits of n, at least k of them. */
  function Digits(n: nat, k: nat): (w: string)
    ensures w != "" && AllDigits(w) && |w| >= k
    decreases n, k
  {
    if n < 10 && k <= 1 then [DigitOf(n)]
    else Digits(n / 10, if k == 0 then 0 else k - 1) + [DigitOf(n % 10)]
  }

  function Natural(w: string): nat
    requires AllDigits(w)
  {
    if w == "" then 0 else Natural(w[..|w| - 1]) * 10 + ValueOf(w[|w| - 1])
  }

  lemma {:induction false} NaturalOfDigits(n: nat, k: nat)
    ensures Natural(Digits(n, k)) == n
    decreases n, k
  {
    if n >= 10 || k > 1 {
      var w := Digits(n / 10, if k == 0 then 0 else k - 1);
      NaturalOfDigits(n / 10, if k == 0 then 0 else k - 1);
      assert (w + [DigitOf(n % 10)])[..|w|] == w;
    } else {
      assert Natural("") == 0 && [DigitOf(n)][..0] == "";
    }
  }

  lemma {:induction false} NaturalOfPrefix(w: string, c: nat)
    requires AllDigits(w) && c <= |w|
    ensures Natural(w[..|w| - c]) == Cut(Natural(w), c)
    decreases c
  {
    if c == 0 {
      assert w[..|w|] == w;
    } else {
      NaturalOfPrefix(w, c - 1);
      var v := w[..|w| - (c - 1)];
      assert v[..|v| - 1] == w[..|w| - c];
    }
  }

  /** How many digits there are once the last c are taken off. */
  lemma {:induction false} DigitsOfCut(n: nat, c: nat)
    ensures |Digits(n, c + 1)| == c + |Digits(Cut(n, c), 1)|
    decreases c
  {
    hide Cut;
    if c > 0 {
      DigitsOfCut(n / 10, c - 1);
      CutFirst(n, c);
    } else {
      assert Cut(n, 0) == n by { CutNothing(n); }
    }
  }

  lemma CutNothing(n: nat)
    ensures Cut(n, 0) == n
  {
  }

  lemma {:induction false} CutFirst(n: nat, c: nat)
    requires c > 0
    ensures Cut(n, c) == Cut(n / 10, c - 1)
    decreases c
  {
    if c > 1 {
      CutFirst(n, c - 1);
    } else {
      assert Cut(n, 0) == n;
    }
  }

  lemma {:induction false} CutTwice(n: nat, c: nat, d: nat)
    ensures Cut(n, c + d) == Cut(Cut(n, c), d)
    decreases d
  {
    if d > 0 {
      CutTwice(n, c, d - 1);
    }
  }

  lemma {:induction false} TenfoldTwice(y: real, k: nat, c: nat)
    ensures Tenfold(y, k + c) == Tenfold(Tenfold(y, k), c)
    decreases k
  {
    if k > 0 {
      TenfoldTwice(y * 10.0, k - 1, c);
    }
  }

  lemma {:induction false} TenthOfTenfold(y: real, k: nat)
    ensures Tenth(Tenfold(y, k), k) == y
    decreases k
  {
    if k > 0 {
      TenthOfTenfold(y * 10.0, k - 1);
    }
  }

  lemma {:induction false} TenfoldOfTenth(y: real, k: nat)
    ensures Tenfold(Tenth(y, k), k) == y
    decreases k
  {
    if k > 0 {
      TenfoldOfTenth(y, k - 1);
    }
  }

  predicate IsWhole(y: real) { y == y.Floor as real }

  lemma {:induction false} WholeStaysWhole(y: real, k: nat)
    requires y >= 0.0 && IsWhole(y)
    ensures Tenfold(y, k) >= 0.0 && IsWhole(Tenfold(y, k))
    decreases k
  {
    if k > 0 {
      assert y * 10.0 == (y.Floor * 10) as real;
      WholeStaysWhole(y * 10.0, k - 1);
    }
  }

  /** Cutting off the digits behind the period. */
  lemma {:induction false} CutIsFloor(y: real, c: nat, m: nat)
    requires y >= 0.0 && Tenfold(y, c) == m as real
    ensures Cut(m, c) == y.Floor
    decreases c
  {
    if c > 0 {
      CutIsFloor(y * 10.0, c - 1, m);
    }
  }

  // ------------------------------------------------------------------ strtof

  function DigitsEnd(w: string, i: nat): (j: nat)
    requires i <= |w|
    ensures i <= j <= |w| && AllDigits(w[i..j])
    ensures j < |w| ==> !IsDigit(w[j])
    decreases |w| - i
  {
    if i < |w| && IsDigit(w[i]) then DigitsEnd(w, i + 1) else i
  }

  lemma {:induction false} DigitsEndIs(w: string, i: nat, j: nat)
    requires i <= j <= |w| && AllDigits(w[i..j]) && (j < |w| ==> !IsDigit(w[j]))
    ensures DigitsEnd(w, i) == j
    decreases j - i
  {
    if i < j {
      assert w[i] == w[i..j][0];
      assert w[i + 1..j] == w[i..j][1..];
      DigitsEndIs(w, i + 1, j);
    }
  }

  function Exponent(w: string, b: nat): int
    requires b <= |w|
  {
    if b == |w| || !IsE(w[b]) then 0 else
    var s := if b + 1 < |w| && IsSign(w[b + 1]) then b + 2 else b + 1;
    var value: int := Natural(w[s..DigitsEnd(w, s)]);
    if s == b + 2 && w[b + 1] == '-' then -value else value
  }

  /** What strtof makes of a number: a sign, digits, a period and digits, an exponent; it
      stops at the first character that does not fit. Not rounded. */
  function Strtof(w: string): real {
    var s := if w != "" && IsSign(w[0]) then 1 else 0;
    var a := DigitsEnd(w, s);
    var b := if a < |w| && w[a] == '.' then DigitsEnd(w, a + 1) else a;
    var frac := if a < b then w[a + 1..b] else "";
    var magnitude := Tenth(Natural(w[s..a] + frac) as real, |frac|);
    var e := Exponent(w, b);
    var scaled := if e >= 0 then Tenfold(magnitude, e) else Tenth(magnitude, -e);
    WithSign(s == 1 && w[0] == '-', scaled)
  }

  function Sign(negative: bool): string { if negative then "-" else "" }

  function WithSign(negative: bool, y: real): real { if negative then -y else y }

  lemma NoExponent(w: string, y: real)
    ensures Exponent(w, |w|) == 0 && Tenfold(y, 0) == y && Tenth(y, 0) == y
  {
  }

  /** A number with a period in it. */
  lemma StrtofDecimal(negative: bool, whole: string, frac: string)
    requires whole != "" && AllDigits(whole) && AllDigits(frac)
    ensures Strtof(Sign(negative) + whole + "." + frac)
         == WithSign(negative, Tenth(Natural(whole + frac) as real, |frac|))
  {
    hide Strtof, Natural, Tenth, DigitsEnd;
    var w := Sign(negative) + whole + "." + frac;
    var s := |Sign(negative)|;
    var a := s + |whole|;
    assert w[s..a] == whole && w[a + 1..|w|] == frac && w[a] == '.';
    assert w[s] == whole[0] && (negative ==> w[0] == '-');
    DigitsEndIs(w, s, a);
    DigitsEndIs(w, a + 1, |w|);
    StrtofParts(w, s, a);
  }

  lemma StrtofParts(w: string, s: nat, a: nat)
    requires s == if w != "" && IsSign(w[0]) then 1 else 0
    requires s <= a < |w| && DigitsEnd(w, s) == a && w[a] == '.' && DigitsEnd(w, a + 1) == |w|
    ensures AllDigits(w[s..a] + w[a + 1..|w|])
    ensures Strtof(w) == WithSign(s == 1 && w[0] == '-', Tenth(Natural(w[s..a] + w[a + 1..|w|]) as real, |w| - (a + 1)))
  {
    hide Natural, Exponent, Tenfold, Tenth, DigitsEnd;
    NoExponent(w, Tenth(Natural(w[s..a] + w[a + 1..|w|]) as real, |w| - (a + 1)));
  }

  lemma StrtofWhole(negative: bool, whole: string)
    requires whole != "" && AllDigits(whole)
    ensures Strtof(Sign(negative) + whole) == WithSign(negative, Natural(whole) as real)
  {
    hide Natural, Exponent, Tenfold, Tenth, DigitsEnd;
    var w := Sign(negative) + whole;
    var s := |Sign(negative)|;
    assert w[s..|w|] == whole && whole + "" == whole;
    assert w[s] == whole[0] && (negative ==> w[0] == '-');
    DigitsEndIs(w, s, |w|);
    NoExponent(w, Natural(whole) as real);
  }

  // ---------------------------------------------------------------------- %f

  const DECIMALS: nat := 6
  const MAX_NUMBER_LENGTH: nat := 32

  /** The nearest integer, and the even one of two. */
  function Nearest(y: real): (n: nat)
    requires y >= 0.0
    ensures IsWhole(y) ==> n as real == y
  {
    var f := y.Floor;
    if y - f as real < 0.5 || (y - f as real == 0.5 && f % 2 == 0) then f else f + 1
  }

  function Abs(x: real): (y: real)
    ensures y >= 0.0
  {
    if x < 0.0 then -x else x
  }

  lemma {:induction false} TenfoldIsNotNegative(y: real, k: nat)
    requires y >= 0.0
    ensures Tenfold(y, k) >= 0.0
    decreases k
  {
    if k > 0 {
      TenfoldIsNotNegative(y * 10.0, k - 1);
    }
  }

  /** A number in millionths, rounded. */
  function Millionths(x: real): nat {
    TenfoldIsNotNegative(Abs(x), DECIMALS);
    Nearest(Tenfold(Abs(x), DECIMALS))
  }

  /** `%f`: the sign, the whole part, a period and six decimals. */
  function FormatF(x: real): string {
    var w := Digits(Millionths(x), DECIMALS + 1);
    Sign(x < 0.0) + w[..|w| - DECIMALS] + "." + w[|w| - DECIMALS..]
  }

  /** snprintf: as much as fits before the NUL. */
  function Clip(w: string): string {
    if |w| < MAX_NUMBER_LENGTH then w else w[..MAX_NUMBER_LENGTH - 1]
  }

  /** How many characters there are after the sign. */
  function Room(x: real): nat { MAX_NUMBER_LENGTH - 1 - |Sign(x < 0.0)| }

  /** How many decimals fit after n characters of the whole part and a period. */
  function Places(n: nat, room: nat): (k: nat)
    ensures k <= DECIMALS
  {
    if n >= room then 0 else if room - n - 1 < DECIMALS then room - n - 1 else DECIMALS
  }

  /** How many digits are lost. */
  function Lost(n: nat, room: nat): nat {
    if n > room then DECIMALS + (n - room) else DECIMALS - Places(n, room)
  }

  /** The number that is printed, worked out without its text: rounded to six decimals and
      without the digits that do not fit. */
  function Kept(x: real): real {
    var n := |Digits(Millionths(x), DECIMALS + 1)| - DECIMALS;
    WithSign(x < 0.0, Tenth(Cut(Millionths(x), Lost(n, Room(x))) as real, Places(n, Room(x))))
  }

  /** What is left of a text of n + 6 digits w. */
  lemma Clipped(sign: string, w: string, n: nat)
    requires |w| == n + DECIMALS && |sign| <= 1
    ensures var room := MAX_NUMBER_LENGTH - 1 - |sign|;
      var text := Clip(sign + w[..n] + "." + w[n..]);
      if n < room then text == sign + w[..n] + "." + w[n..|w| - Lost(n, room)]
      else text == sign + w[..|w| - Lost(n, room)]
  {
    var room := MAX_NUMBER_LENGTH - 1 - |sign|;
    var text := sign + w[..n] + "." + w[n..];
    if n < room {
      assert w[n..][..Places(n, room)] == w[n..|w| - Lost(n, room)];
      assert Clip(text) == sign + w[..n] + "." + w[n..][..Places(n, room)];
    } else {
      assert w[..n][..room] == w[..room];
      assert Clip(text) == sign + w[..n][..room];
    }
  }

  /** What strtof reads back from the printed text. */
  lemma PrintedValue(x: real)
    ensures Strtof(Clip(FormatF(x))) == Kept(x)
  {
    hide Strtof, Clip, Millionths, Digits, Cut, Natural;
    var w := Digits(Millionths(x), DECIMALS + 1);
    var n, room := |w| - DECIMALS, Room(x);
    Clipped(Sign(x < 0.0), w, n);
    NaturalOfDigits(Millionths(x), DECIMALS + 1);
    NaturalOfPrefix(w, Lost(n, room));
    if n < room {
      StrtofDecimal(x < 0.0, w[..n], w[n..|w| - Lost(n, room)]);
      assert w[..n] + w[n..|w| - Lost(n, room)] == w[..|w| - Lost(n, room)];
    } else {
      StrtofWhole(x < 0.0, w[..|w| - Lost(n, room)]);
    }
  }

  // ------------------------------------------------------ which numbers return

  /** The whole part fits, and so does every decimal the number has. */
  predicate Exact(x: real) {
    var n := |Digits(Abs(x).Floor, 1)|;
    n <= Room(x) && IsWhole(Tenfold(Abs(x), Places(n, Room(x))))
  }

  /** A number with at most k <= 6 decimals, in millionths. */
  lemma MillionthsOf(x: real, k: nat)
    requires k <= DECIMALS && IsWhole(Tenfold(Abs(x), k))
    ensures Cut(Millionths(x), DECIMALS - k) as real == Tenfold(Abs(x), k)
    ensures Cut(Millionths(x), DECIMALS) == Abs(x).Floor
    ensures |Digits(Millionths(x), DECIMALS + 1)| - DECIMALS == |Digits(Abs(x).Floor, 1)|
  {
    hide Digits, Cut, Tenfold;
    var y, m := Abs(x), Millionths(x);
    TenfoldIsNotNegative(y, k);
    TenfoldTwice(y, k, DECIMALS - k);
    WholeStaysWhole(Tenfold(y, k), DECIMALS - k);
    CutIsFloor(Tenfold(y, k), DECIMALS - k, m);
    CutIsFloor(y, DECIMALS, m);
    DigitsOfCut(m, DECIMALS);
  }

  /** A number is printed exactly if and only if its whole part fits and no decimal of it is
      lost. */
  lemma KeptIff(x: real)
    ensures Kept(x) == x <==> Exact(x)
  {
    hide Digits, Cut, Tenfold, Tenth, Millionths;
    if Exact(x) {
      var k := Places(|Digits(Abs(x).Floor, 1)|, Room(x));
      MillionthsOf(x, k);
      TenthOfTenfold(Abs(x), k);
    }
    if Kept(x) == x {
      var n := |Digits(Millionths(x), DECIMALS + 1)| - DECIMALS;
      var k, cut := Places(n, Room(x)), Cut(Millionths(x), Lost(n, Room(x)));
      assert Abs(x) == Tenth(cut as real, k) by { TenthIsNotNegative(cut as real, k); }
      TenfoldOfTenth(cut as real, k);
      MillionthsOf(x, k);
      if n > Room(x) {
        CutTwice(Millionths(x), DECIMALS, n - Room(x));
        WholeIsPositive(Abs(x).Floor);
        NothingTenfold(Abs(x));
        assert false;
      }
    }
  }

  lemma {:induction false} TenthIsNotNegative(y: real, k: nat)
    requires y >= 0.0
    ensures Tenth(y, k) >= 0.0
    decreases k
  {
    if k > 0 {
      TenthIsNotNegative(y, k - 1);
    }
  }

  lemma WholeIsPositive(n: nat)
    ensures |Digits(n, 1)| > 1 ==> n > 0
  {
  }

  lemma NothingTenfold(y: real)
    ensures Tenfold(y, 0) == y
  {
  }
}
