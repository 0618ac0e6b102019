/**
 What the printer's texts are, in terms of RFC 8259: the text of the value, but for the
 quotation marks, which are all left out.
 */
module JsonQuotes {
  import opened JsonSyntax
  import opened JsonNumbers
  import opened JsonPrinter
  import opened JsonPrecision
  import opened Rfc8259

  /** w without its quotation marks. */
  function Unquoted(w: string): string {
    if w == "" then "" else Unquoted(w[..|w| - 1]) + if w[|w| - 1] == '\"' then "" else [w[|w| - 1]]
  }

  /** The value with its numbers written out. */
  function Written(v: RealJson): Json
    decreases v
  {
    match v
    case Null => Null
    case Bool(b) => Bool(b)
    case Number(x) => Number(FormatF(x))
    case Str(t) => Str(t)
    case List(items) => List(WrittenItems(items))
    case Object(members) => Object(WrittenMembers(members))
  }

  function WrittenItems(items: seq<RealJson>): (r: seq<Json>)
    ensures |r| == |items|
    decreases items
  {
    if items == [] then [] else [Written(items[0])] + WrittenItems(items[1..])
  }

  function WrittenMembers(members: seq<Field<real>>): (r: seq<Field<string>>)
    ensures |r| == |members|
    decreases members
  {
    if members == [] then []
    else [Member(members[0].key, Written(members[0].value))] + WrittenMembers(members[1..])
  }

  /** Strings and names of RFC 8259 without a backslash, and numbers that fit their buffer. */
  predicate Printable(v: RealJson)
    decreases v
  {
    match v
    case Number(x) => |FormatF(x)| <= 31
    case Str(t) => IsString(t)
    case List(items) => forall k :: 0 <= k < |items| ==> Printable(items[k])
    case Object(members) => forall k :: 0 <= k < |members| ==> IsString(members[k].key) && Printable(members[k].value)
    case _ => true
  }

  lemma {:induction false} UnquotedConcat(a: string, b: string)
    ensures Unquoted(a + b) == Unquoted(a) + Unquoted(b)
  {
    if b == "" {
      assert a + b == a;
    } else {
      UnquotedConcat(a, b[..|b| - 1]);
      assert (a + b)[..|a + b| - 1] == a + b[..|b| - 1];
    }
  }

  lemma {:induction false} NothingQuoted(w: string)
    requires '\"' !in w
    ensures Unquoted(w) == w
  {
    if w != "" {
      NothingQuoted(w[..|w| - 1]);
      assert w == w[..|w| - 1] + [w[|w| - 1]];
    }
  }

  lemma QuotesGo(t: string)
    requires IsString(t)
    ensures Unquoted("\"" + t + "\"") == t && CText(t) == t
  {
    UnquotedConcat("\"" + t, "\"");
    UnquotedConcat("\"", t);
    NothingQuoted(t);
    OneQuote();
  }

  lemma OneQuote()
    ensures Unquoted("\"") == ""
  {
    assert "\""[..0] == "";
  }

  lemma NumberIsPlain(x: real)
    requires |FormatF(x)| <= 31
    ensures IsNumber(FormatF(x)) && Unquoted(FormatF(x)) == FormatF(x) == Clip(FormatF(x))
  {
    hide FormatF, Unquoted, IsNumber;
    var whole, frac := PrintedForm(x);
    DecimalHasNoQuote(if x < 0.0 then "-" else "", whole, frac);
    NothingQuoted(FormatF(x));
  }

  lemma DecimalHasNoQuote(sign: string, whole: string, frac: string)
    requires sign in ["", "-"] && AllDigits(whole) && AllDigits(frac)
    ensures '\"' !in sign + whole + "." + frac
  {
  }

  /** Three texts in a row. */
  lemma UnquotedThree(a: string, b: string, c: string)
    ensures Unquoted(a + b + c) == Unquoted(a) + Unquoted(b) + Unquoted(c)
  {
    UnquotedConcat(a + b, c);
    UnquotedConcat(a, b);
  }

  /** There is a text of RFC 8259 for the value that differs from what is printed by its
      quotation marks only. */
  lemma {:induction false} PrintsUnquoted(v: RealJson) returns (w: string)
    requires Printable(v)
    ensures Denotes(w, Written(v)) && Print(v) == Unquoted(w)
    decreases v, 0
  {
    match v
    case Null =>
      w := "null";
      NothingQuoted(w);
    case Bool(b) =>
      w := if b then "true" else "false";
      NothingQuoted(w);
    case Number(x) =>
      w := FormatF(x);
      NumberIsPlain(x);
    case Str(t) =>
      w := "\"" + t + "\"";
      QuotesGo(t);
    case List(items) =>
      var body := PrintsItems(items);
      w := "[" + body + "]";
      UnquotedThree("[", body, "]");
      NothingQuoted("[");
      NothingQuoted("]");
    case Object(members) =>
      var body := PrintsMembers(members);
      w := "{" + body + "}";
      UnquotedThree("{", body, "}");
      NothingQuoted("{");
      NothingQuoted("}");
  }

  lemma Alone(w: string, v: Json)
    requires Denotes(w, v)
    ensures Element(w, v)
  {
    assert w == "" + w + "" && Ws("");
  }

  lemma {:induction false} PrintsItems(items: seq<RealJson>) returns (body: string)
    requires forall k :: 0 <= k < |items| ==> Printable(items[k])
    ensures Elements(body, WrittenItems(items)) && PrintItems(items) == Unquoted(body)
    decreases items, 1
  {
    hide Denotes, Print, Written, Printable, Element;
    if items == [] {
      body := "";
    } else {
      var first := PrintsUnquoted(items[0]);
      Alone(first, Written(items[0]));
      var rest := PrintsItems(items[1..]);
      if |items| == 1 {
        body := first;
        assert PrintItems(items) == Print(items[0]) + "" + "";
        assert WrittenItems(items) == [Written(items[0])];
      } else {
        body := first + "," + rest;
        OneMoreElement(first, rest, Written(items[0]), WrittenItems(items[1..]));
        UnquotedThree(first, ",", rest);
        NothingQuoted(",");
      }
    }
  }

  lemma {:induction false} PrintsMember(m: Field<real>) returns (w: string)
    requires IsString(m.key) && Printable(m.value)
    ensures MemberText(w, Member(m.key, Written(m.value)))
    ensures Unquoted(w) == CText(m.key) + ":" + Print(m.value)
    decreases m, 2
  {
    hide Denotes, Print, Written, Printable, IsString, Element, MemberText, Unquoted, CText;
    var after := PrintsUnquoted(m.value);
    Alone(after, Written(m.value));
    w := "\"" + m.key + "\"" + ":" + after;
    NoSpaces(m.key, after, Written(m.value));
    MemberUnquoted(m.key, after);
  }

  lemma NoSpaces(key: string, after: string, v: Json)
    requires IsString(key) && Element(after, v)
    ensures MemberText("\"" + key + "\"" + ":" + after, Member(key, v))
  {
    hide IsString, Element;
    var w := "\"" + key + "\"" + ":" + after;
    assert w == "" + "\"" + key + "\"" + "" + ":" + after && Ws("");
  }

  lemma MemberUnquoted(key: string, after: string)
    requires IsString(key)
    ensures Unquoted("\"" + key + "\"" + ":" + after) == CText(key) + ":" + Unquoted(after)
  {
    hide IsString, Unquoted, CText;
    QuotesGo(key);
    UnquotedThree("\"" + key + "\"", ":", after);
    NothingQuoted(":");
  }

  lemma {:induction false} PrintsMembers(members: seq<Field<real>>) returns (body: string)
    requires forall k :: 0 <= k < |members| ==> IsString(members[k].key) && Printable(members[k].value)
    ensures MemberList(body, WrittenMembers(members)) && PrintMembers(members) == Unquoted(body)
    decreases members, 1
  {
    hide Denotes, Print, Written, Printable, IsString, MemberText;
    if members == [] {
      body := "";
    } else {
      var m := members[0];
      var first := PrintsMember(m);
      var rest := PrintsMembers(members[1..]);
      if |members| == 1 {
        body := first;
        assert PrintMembers(members) == CText(m.key) + ":" + Print(m.value) + "" + "";
        assert WrittenMembers(members) == [Member(m.key, Written(m.value))];
      } else {
        body := first + "," + rest;
        OneMoreMember(first, rest, Member(m.key, Written(m.value)), WrittenMembers(members[1..]));
        UnquotedThree(first, ",", rest);
        NothingQuoted(",");
      }
    }
  }
}
