/**
 Where the reader of include/cerialize/cerialize.h draws the line, character by character
 (given by their code points): which strings it reads, what it lets follow a keyword, and
 which numbers it reads that RFC 8259 does not have.
 */
module JsonEdges {
  import opened JsonSyntax
  import opened JsonReading
  import opened JsonAcceptance
  import opened JsonRefusal
  import opened Rfc8259

  /** Line feed or carriage return. */
  predicate BreaksLine(c: char) { c as int == 0x0A || c as int == 0x0D }

  predicate IsOneLine(t: string) { t != "" && forall k :: 0 <= k < |t| ==> !BreaksLine(t[k]) }

  /** A text in quotes, alone in its buffer, is read if and only if it is not empty and has no
      line break in it; whatever else is in it, a NUL or a backslash too. */
  lemma StringIsReadIff(t: string)
    requires '\"' !in t
    ensures ReadValue("\"" + t + "\"" + "\0", 0) ==
      if IsOneLine(t) then Ok(Str(t), |t| + 2) else Fail
  {
    hide ReadValue, IsOneLine;
    var s := "\"" + t + "\"" + "\0";
    assert s[1..1 + |t|] == t;
    assert s[0] == '\"' && s[1 + |t|] == '\"' && s[2 + |t|] == '\0';
    QuotedIsRead(s, t);
  }

  lemma QuotedIsRead(s: string, t: string)
    requires '\"' !in t && |s| == |t| + 3
    requires s[0] == '\"' && s[1..1 + |t|] == t && s[1 + |t|] == '\"' && s[2 + |t|] == '\0'
    ensures ReadValue(s, 0) ==
      if IsOneLine(t) then Ok(Str(t), |t| + 2) else Fail
  {
    hide ReadAt, ReadValue, ReadString, IsOneLine;
    SkipNothing(s, 0);
    QuoteIsRead(s, 0);
    forall n | 0 <= n < |t| ensures s[1 + n] == t[n] {
      assert s[1 + n] == s[1..1 + |t|][n];
    }
    StringReads(s, t);
  }

  lemma QuoteIsRead(s: string, k: nat)
    requires IsBuffer(s) && k < |s| && s[k] == '\"'
    ensures ReadAt(s, k) == match ReadString(s, k) case Fail => Fail case Ok(t, next) => Ok(Str(t), next)
  {
    hide ReadString;
  }

  lemma StringReads(s: string, t: string)
    requires IsBuffer(s) && |t| + 2 < |s| && s[0] == '\"' == s[1 + |t|] && s[1..1 + |t|] == t
    requires '\"' !in t && forall n :: 0 <= n < |t| ==> s[1 + n] == t[n]
    ensures ReadString(s, 0) ==
      if IsOneLine(t) then Ok(t, |t| + 2) else Fail
  {
    forall n | 1 <= n < 1 + |t| ensures s[n] == t[n - 1] {
      assert s[1 + (n - 1)] == t[n - 1];
    }
    if b :| 0 <= b < |t| && BreaksLine(t[b]) {
      assert IsNewline(s[1 + b]);
      StopsEarly(s, 1, 1 + b);
    } else {
      StringStops(s, 1, 1 + |t|);
    }
  }

  lemma StopsEarly(s: string, i: nat, b: nat)
    requires IsBuffer(s) && i <= b < |s| - 1 && IsNewline(s[b])
    requires forall k :: i <= k <= b ==> s[k] != '\"'
    ensures s[StringEnd(s, i)] != '\"'
  {
  }

  /** NUL, a comma, a closing brace or bracket, or white space. */
  predicate EndsWord(c: char) { c as int in {0x00, 0x2C, 0x7D, 0x5D, 0x20, 0x09, 0x0A, 0x0D} }

  /** After `null`, `true` or `false` only these may come. */
  lemma KeywordIsReadIff(word: string, c: char)
    requires word in ["null", "true", "false"]
    ensures ReadValue(word + [c] + "\0", 0) ==
      if EndsWord(c) then Ok(if word == "null" then Null else Bool(word == "true"), |word|) else Fail
  {
    hide ReadValue, EndsWord;
    var s := word + [c] + "\0";
    assert s[0..|word|] == word;
    WordThen(s, word, c);
  }

  lemma WordThen(s: string, word: string, c: char)
    requires word in ["null", "true", "false"] && |s| == |word| + 2
    requires s[0..|word|] == word && s[|word|] == c && s[|word| + 1] == '\0'
    ensures ReadValue(s, 0) ==
      if EndsWord(c) then Ok(if word == "null" then Null else Bool(word == "true"), |word|) else Fail
  {
    hide ReadAt, ReadValue, KeywordEnds;
    assert s[0] == s[0..|word|][0] == word[0];
    SkipNothing(s, 0);
    WordIsRead(s, word);
    WordEnds(s, |word|);
  }

  lemma WordEnds(s: string, n: nat)
    requires IsBuffer(s) && |s| == n + 2
    ensures KeywordEnds(s, n, NULLS) <==> EndsWord(s[n])
    ensures KeywordEnds(s, n, BOOLEANS) <==> EndsWord(s[n])
  {
    if EndsWord(s[n]) {
      NoWordAfter(s, n);
    }
  }

  lemma WordIsRead(s: string, word: string)
    requires IsBuffer(s) && word in ["null", "true", "false"] && Matches(s, 0, word) && |word| < |s|
    ensures ReadAt(s, 0) ==
      if KeywordEnds(s, |word|, if word == "null" then NULLS else BOOLEANS)
      then Ok(if word == "null" then Null else Bool(word == "true"), |word|) else Fail
  {
    hide KeywordEnds, ReadItems, ReadMembers, ReadString, ReadNumber;
    assert s[0] == s[0..|word|][0];
    if word == "null" {
      assert s[0] == 'n';
    } else if word == "true" {
      assert s[0] == 't';
      NoKeyword(s, 0, "false");
    } else {
      assert s[0] == 'f';
      NoKeyword(s, 0, "true");
    }
  }

  lemma NoWordAfter(s: string, n: nat)
    requires IsBuffer(s) && |s| == n + 2 && EndsWord(s[n])
    ensures var k := Skip(s, StrLen(s), n); !Matches(s, k, "null") && !Matches(s, k, "true") && !Matches(s, k, "false")
  {
  }

  /** An exponent of RFC 8259, or none. */
  predicate IsExponent(exp: string) {
    exp != "" ==> NumberParts("", "1", "", exp).Valid()
  }

  /** A sign, plus or minus, or none; digits, with needless zeros, with a period before, after
      or between them, or without; and an exponent of RFC 8259 or none. */
  predicate IsLooseNumber(sign: string, whole: string, point: string, frac: string, exp: string) {
    && sign in ["", "-", "+"]
    && DigitRun(whole) && DigitRun(frac) && whole + frac != ""
    && (point == "." || (point == "" && frac == ""))
    && IsExponent(exp)
  }

  /** Every such number is read, with its text. */
  lemma LooseNumberIsRead(sign: string, whole: string, point: string, frac: string, exp: string)
    requires IsLooseNumber(sign, whole, point, frac, exp)
    ensures var w := sign + whole + point + frac + exp;
      ReadValue(w + "\0", 0) == Ok(Number(w), |w|)
  {
    var w := sign + whole + point + frac + exp;
    var s := w + "\0";
    LooseIsLenient(sign, whole, point, frac, exp);
    hide LenientNumber;
    assert s[0..|w|] == w && s[|w|] == '\0';
    SkipNothing(s, 0);
    ReadsNumber(s, 0, w);
  }

  lemma LooseIsLenient(sign: string, whole: string, point: string, frac: string, exp: string)
    requires IsLooseNumber(sign, whole, point, frac, exp)
    ensures var w := sign + whole + point + frac + exp;
      LenientNumber(w) && (IsNumberStart(w[0]) || w[0] == '.')
  {
    var body := whole + point + frac;
    Regrouped(sign, whole, point, frac, exp);
    CountBody(sign, body, exp, '.');
    CountBody(sign, body, exp, 'e');
    CountBody(sign, body, exp, 'E');
    BodyCounts(whole, point, frac);
    ExpCounts(exp);
    BodyHasDigit(whole, point, frac);
    hide Count, LenientNumber;
    LooseShape(sign, body, exp);
  }

  lemma Regrouped(a: string, b: string, c: string, d: string, e: string)
    ensures a + b + c + d + e == a + (b + c + d) + e
  {
  }

  lemma CountBody(sign: string, body: string, exp: string, c: char)
    requires c !in sign
    ensures Count(sign + body + exp, c) == Count(body, c) + Count(exp, c)
  {
    CountConcat(sign + body, exp, c);
    CountConcat(sign, body, c);
    CountNone(sign, c);
  }

  lemma BodyHasDigit(whole: string, point: string, frac: string)
    requires DigitRun(whole) && DigitRun(frac) && whole + frac != "" && point in ["", "."]
    ensures var body := whole + point + frac;
      && (forall k :: 0 <= k < |body| ==> IsDigit(body[k]) || body[k] == '.')
      && exists k :: 0 <= k < |body| && IsDigit(body[k])
  {
    var body := whole + point + frac;
    if whole != "" {
      assert IsDigit(body[0]);
    } else {
      assert body[|point|] == frac[0] && IsDigit(frac[0]);
    }
  }

  lemma BodyCounts(whole: string, point: string, frac: string)
    requires DigitRun(whole) && DigitRun(frac) && point in ["", "."]
    ensures var body := whole + point + frac;
      Count(body, '.') <= 1 && Count(body, 'e') == 0 && Count(body, 'E') == 0
  {
    forall c | c in ['.', 'e', 'E'] ensures Count(whole + point + frac, c) == Count(point, c) {
      CountConcat(whole + point, frac, c);
      CountConcat(whole, point, c);
      CountNone(whole, c);
      CountNone(frac, c);
    }
    CountNone("", '.');
    CountHead(".", '.');
    CountNone(point, 'e');
    CountNone(point, 'E');
  }

  lemma ExpCounts(exp: string)
    requires IsExponent(exp)
    ensures Count(exp, '.') == 0 && Count(exp, 'e') + Count(exp, 'E') <= 1
    ensures forall k :: 0 < k < |exp| ==> IsDigit(exp[k]) || IsSign(exp[k])
    ensures exp != "" ==> IsE(exp[0]) && |exp| > 1
  {
    if exp != "" {
      assert exp[1..] == [exp[1]] + exp[2..];
      CountNone(exp, '.');
      CountHead(exp, 'e');
      CountHead(exp, 'E');
    }
  }

  lemma LooseShape(sign: string, body: string, exp: string)
    requires sign in ["", "-", "+"]
    requires forall k :: 0 <= k < |body| ==> IsDigit(body[k]) || body[k] == '.'
    requires exists k :: 0 <= k < |body| && IsDigit(body[k])
    requires exp != "" ==>
               && IsE(exp[0]) && |exp| > 1
               && forall k :: 0 < k < |exp| ==> IsDigit(exp[k]) || IsSign(exp[k])
    requires Count(sign + body + exp, '.') <= 1
    requires Count(sign + body + exp, 'e') + Count(sign + body + exp, 'E') <= 1
    ensures var w := sign + body + exp;
      LenientNumber(w) && (IsNumberStart(w[0]) || w[0] == '.')
  {
    var w := sign + body + exp;
    var k :| 0 <= k < |body| && IsDigit(body[k]);
    assert w[|sign| + k] == body[k];
  }
}
