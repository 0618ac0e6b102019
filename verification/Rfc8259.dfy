/**
 RFC 8259, sections 2 to 7, in its own terms: which texts there are and which value each one
 denotes. Characters are given by their code points. A string that holds a backslash is not
 among them, so there are no escapes.

 The same texts are then those of certain syntax trees (`Rfc`), through which the reader's
 grammar is compared with them.
 */
module Rfc8259 {
  import opened JsonSyntax

  // ------------------------------------------------------------ texts and values

  /** Section 2: space, horizontal tab, line feed, carriage return. */
  predicate Ws(w: string) {
    forall k :: 0 <= k < |w| ==> w[k] as int in {0x20, 0x09, 0x0A, 0x0D}
  }

  predicate DigitRun(w: string) {
    forall k :: 0 <= k < |w| ==> 0x30 <= w[k] as int <= 0x39
  }

  /** Section 6: [ minus ] int [ frac ] [ exp ]. */
  datatype NumberParts = NumberParts(minus: string, whole: string, frac: string, exp: string)
  {
    predicate Valid() {
      && (minus == "" || minus == "-")
      && whole != "" && DigitRun(whole) && (whole[0] == '0' ==> |whole| == 1)
      && (frac != "" ==> frac[0] == '.' && |frac| > 1 && DigitRun(frac[1..]))
      && (exp != "" ==>
            && (exp[0] == 'e' || exp[0] == 'E')
            && |exp| > 1
            && if exp[1] == '-' || exp[1] == '+' then |exp| > 2 && DigitRun(exp[2..]) else DigitRun(exp[1..]))
    }

    function Text(): string { minus + whole + frac + exp }
  }

  ghost predicate IsNumber(w: string) {
    exists p: NumberParts :: p.Valid() && p.Text() == w
  }

  /** Section 7: from space on, but no quotation mark and here no backslash. */
  predicate IsString(w: string) {
    forall k :: 0 <= k < |w| ==> w[k] as int >= 0x20 && w[k] as int != 0x22 && w[k] as int != 0x5C
  }

  /** Sections 3 to 7: w is the text of a value, and v is the value. */
  ghost predicate Denotes(w: string, v: Json)
    decreases v, 0
  {
    match v
    case Null => w == "null"
    case Bool(b) => w == if b then "true" else "false"
    case Number(n) => w == n && IsNumber(n)
    case Str(t) => w == "\"" + t + "\"" && IsString(t)
    case List(items) => exists body :: w == "[" + body + "]" && Elements(body, items)
    case Object(members) => exists body :: w == "{" + body + "}" && MemberList(body, members)
  }

  /** Section 5: values separated by commas. */
  ghost predicate Elements(body: string, items: seq<Json>)
    decreases items, 0
  {
    if items == [] then Ws(body)
    else if |items| == 1 then Element(body, items[0])
    else exists first, rest ::
      body == first + "," + rest && Element(first, items[0]) && Elements(rest, items[1..])
  }

  ghost predicate Element(w: string, v: Json)
    decreases v, 1
  {
    exists lead, text, trail :: w == lead + text + trail && Ws(lead) && Denotes(text, v) && Ws(trail)
  }

  /** Section 4: names and values separated by commas. */
  ghost predicate MemberList(body: string, members: seq<Field<string>>)
    decreases members, 0
  {
    if members == [] then Ws(body)
    else if |members| == 1 then MemberText(body, members[0])
    else exists first, rest ::
      body == first + "," + rest && MemberText(first, members[0]) && MemberList(rest, members[1..])
  }

  ghost predicate MemberText(w: string, m: Field<string>)
    decreases m, 1
  {
    exists lead, mid, after ::
      && w == lead + "\"" + m.key + "\"" + mid + ":" + after
      && Ws(lead) && IsString(m.key) && Ws(mid) && Element(after, m.value)
  }

  /** No string and no name in it is empty. */
  predicate NoneEmpty(v: Json)
    decreases v
  {
    match v
    case Str(text) => text != ""
    case List(items) => NoItemEmpty(items)
    case Object(members) => NoMemberEmpty(members)
    case _ => true
  }

  predicate NoItemEmpty(items: seq<Json>)
    decreases items
  {
    items != [] ==> NoneEmpty(items[0]) && NoItemEmpty(items[1..])
  }

  predicate NoMemberEmpty(members: seq<Field<string>>)
    decreases members
  {
    members != [] ==> members[0].key != "" && NoneEmpty(members[0].value) && NoMemberEmpty(members[1..])
  }

  // -------------------------------------------------------------------- as trees

  /** The trees of these texts. Without items or members the white space between the
      brackets is `space`; otherwise it belongs to the last of them. */
  ghost predicate Rfc(c: Cst)
    decreases c
  {
    match c
    case CNumber(lexeme) => IsNumber(lexeme)
    case CString(text) => IsString(text)
    case CList(items, comma, space) => Closed(|items|, comma, space) && RfcItems(items)
    case CObject(members, comma, space) => Closed(|members|, comma, space) && RfcMembers(members)
    case _ => true
  }

  predicate Closed(n: nat, comma: bool, space: string) { !comma && Ws(space) && (n > 0 ==> space == "") }

  ghost predicate RfcItems(items: seq<CItem>)
    decreases items
  {
    items != [] ==>
      && Ws(items[0].lead) && Ws(items[0].trail)
      && Rfc(items[0].value)
      && RfcItems(items[1..])
  }

  ghost predicate RfcMembers(members: seq<CMember>)
    decreases members
  {
    members != [] ==>
      var x := members[0];
      && Ws(x.lead) && Ws(x.mid) && Ws(x.pad) && Ws(x.trail)
      && IsString(x.key)
      && Rfc(x.value)
      && RfcMembers(members[1..])
  }

  /** Every text of a value has a tree. */
  lemma {:induction false} Parse(w: string, v: Json) returns (c: Cst)
    requires Denotes(w, v)
    ensures Rfc(c) && Spell(c) == w && Tree(c) == v
    decreases v, 0
  {
    hide SpellItems, SpellMembers, RfcItems, RfcMembers, TreeItems, TreeMembers, Elements, MemberList, IsNumber,
      IsString;
    match v
    case Null => c := CNull;
    case Bool(b) => c := if b then CTrue else CFalse;
    case Number(n) => c := CNumber(n);
    case Str(t) => c := CString(t);
    case List(items) =>
      var body :| w == "[" + body + "]" && Elements(body, items);
      var xs, space := ParseItems(body, items);
      c := CList(xs, false, space);
    case Object(members) =>
      var body :| w == "{" + body + "}" && MemberList(body, members);
      var xs, space := ParseMembers(body, members);
      c := CObject(xs, false, space);
  }

  lemma {:induction false} ParseItem(w: string, v: Json) returns (x: CItem)
    requires Element(w, v)
    ensures Ws(x.lead) && Ws(x.trail) && Rfc(x.value) && Tree(x.value) == v
    ensures w == x.lead + Spell(x.value) + x.trail
    decreases v, 1
  {
    var lead, text, trail :| w == lead + text + trail && Ws(lead) && Denotes(text, v) && Ws(trail);
    var c := Parse(text, v);
    x := CItem(lead, c, trail);
  }

  lemma NoTrees(space: string)
    requires Ws(space)
    ensures SpellItems([], false, space) == space + "]" && RfcItems([]) && TreeItems([]) == []
    ensures SpellMembers([], false, space) == space + "}" && RfcMembers([]) && TreeMembers([]) == []
  {
  }

  /** An item before others, or alone. */
  lemma FirstItem(x: CItem, more: seq<CItem>, space: string)
    requires Ws(x.lead) && Ws(x.trail) && Rfc(x.value) && RfcItems(more)
    ensures RfcItems([x] + more) && TreeItems([x] + more) == [Tree(x.value)] + TreeItems(more)
    ensures SpellItems([x] + more, false, space) ==
      (x.lead + Spell(x.value) + x.trail) + if more == [] then "]" else "," + SpellItems(more, false, space)
  {
    hide Spell, Rfc, Tree, Ws;
    assert ([x] + more)[1..] == more;
  }

  function AfterColon(x: CMember): string { x.pad + Spell(x.value) + x.trail }

  lemma FirstMember(x: CMember, more: seq<CMember>, space: string)
    requires Ws(x.lead) && Ws(x.mid) && Ws(x.pad) && Ws(x.trail) && IsString(x.key) && Rfc(x.value)
    requires RfcMembers(more)
    ensures RfcMembers([x] + more)
    ensures TreeMembers([x] + more) == [Member(x.key, Tree(x.value))] + TreeMembers(more)
    ensures SpellMembers([x] + more, false, space) ==
      (x.lead + "\"" + x.key + "\"" + x.mid + ":" + AfterColon(x))
      + if more == [] then "}" else "," + SpellMembers(more, false, space)
  {
    hide Spell, Rfc, Tree, Ws, IsString;
    assert ([x] + more)[1..] == more;
  }

  lemma {:induction false} ParseItems(body: string, items: seq<Json>) returns (xs: seq<CItem>, space: string)
    requires Elements(body, items)
    ensures |xs| == |items| && RfcItems(xs) && TreeItems(xs) == items && Closed(|xs|, false, space)
    ensures SpellItems(xs, false, space) == body + "]"
    decreases items, 0
  {
    hide Spell, SpellItems, Rfc, RfcItems, Tree, TreeItems, Element, Ws;
    if items == [] {
      xs, space := [], body;
      NoTrees(space);
    } else if |items| == 1 {
      var x := ParseItem(body, items[0]);
      xs, space := [x], "";
      NoSpace();
      NoTrees("");
      FirstItem(x, [], "");
      assert xs == [x] + [] && items == [items[0]] + [];
    } else {
      var first, rest :| body == first + "," + rest && Element(first, items[0]) && Elements(rest, items[1..]);
      var x := ParseItem(first, items[0]);
      var more;
      more, space := ParseItems(rest, items[1..]);
      xs := [x] + more;
      FirstItem(x, more, space);
    }
  }

  lemma NoSpace()
    ensures Ws("")
  {
  }

  lemma {:induction false} ParseMember(w: string, m: Field<string>) returns (x: CMember)
    requires MemberText(w, m)
    ensures Ws(x.lead) && Ws(x.mid) && Ws(x.pad) && Ws(x.trail) && IsString(x.key) && Rfc(x.value)
    ensures Member(x.key, Tree(x.value)) == m
    ensures w == x.lead + "\"" + x.key + "\"" + x.mid + ":" + AfterColon(x)
    decreases m, 1
  {
    var lead, mid, after :|
      && w == lead + "\"" + m.key + "\"" + mid + ":" + after
      && Ws(lead) && IsString(m.key) && Ws(mid) && Element(after, m.value);
    var item := ParseItem(after, m.value);
    x := CMember(lead, m.key, mid, item.lead, item.value, item.trail);
  }

  lemma {:induction false} ParseMembers(body: string, members: seq<Field<string>>)
      returns (xs: seq<CMember>, space: string)
    requires MemberList(body, members)
    ensures |xs| == |members| && RfcMembers(xs) && TreeMembers(xs) == members && Closed(|xs|, false, space)
    ensures SpellMembers(xs, false, space) == body + "}"
    decreases members, 0
  {
    hide Spell, SpellMembers, Rfc, RfcMembers, Tree, TreeMembers, MemberText, Ws, IsString, AfterColon;
    if members == [] {
      xs, space := [], body;
      NoTrees(space);
    } else if |members| == 1 {
      var x := ParseMember(body, members[0]);
      xs, space := [x], "";
      NoSpace();
      NoTrees("");
      FirstMember(x, [], "");
      assert xs == [x] + [] && members == [members[0]] + [];
    } else {
      var first, rest :|
        body == first + "," + rest && MemberText(first, members[0]) && MemberList(rest, members[1..]);
      var x := ParseMember(first, members[0]);
      var more;
      more, space := ParseMembers(rest, members[1..]);
      xs := [x] + more;
      FirstMember(x, more, space);
    }
  }

  /** And every such tree is that of a text. */
  lemma {:induction false} TreeIsText(c: Cst)
    requires Rfc(c)
    ensures Denotes(Spell(c), Tree(c))
    decreases c
  {
    match c
    case CList(items, _, space) =>
      var body := ItemsText(items, space);
      assert Spell(c) == "[" + body + "]";
    case CObject(members, _, space) =>
      var body := MembersText(members, space);
      assert Spell(c) == "{" + body + "}";
    case _ =>
  }

  lemma {:induction false} ItemsText(items: seq<CItem>, space: string) returns (body: string)
    requires RfcItems(items) && Closed(|items|, false, space)
    ensures SpellItems(items, false, space) == body + "]" && Elements(body, TreeItems(items))
    decreases items
  {
    hide Spell, SpellItems, Rfc, Tree, Ws, Denotes, Element;
    if items == [] {
      body := space;
      NoTrees(space);
    } else {
      var x, more := items[0], items[1..];
      assert items == [x] + more;
      TreeIsText(x.value);
      var first := x.lead + Spell(x.value) + x.trail;
      ItemText(x);
      FirstItem(x, more, space);
      if more == [] {
        body := first;
        NoTrees(space);
      } else {
        var rest := ItemsText(more, space);
        body := first + "," + rest;
        TreesOf(more);
        OneMoreElement(first, rest, Tree(x.value), TreeItems(more));
      }
    }
  }

  lemma ItemText(x: CItem)
    requires Ws(x.lead) && Ws(x.trail) && Denotes(Spell(x.value), Tree(x.value))
    ensures Element(x.lead + Spell(x.value) + x.trail, Tree(x.value))
  {
  }

  lemma OneMoreElement(first: string, rest: string, v: Json, more: seq<Json>)
    requires Element(first, v) && Elements(rest, more) && more != []
    ensures Elements(first + "," + rest, [v] + more)
  {
    hide Element;
    assert ([v] + more)[1..] == more;
  }

  lemma OneMoreMember(first: string, rest: string, m: Field<string>, more: seq<Field<string>>)
    requires MemberText(first, m) && MemberList(rest, more) && more != []
    ensures MemberList(first + "," + rest, [m] + more)
  {
    hide MemberText;
    assert ([m] + more)[1..] == more;
  }

  lemma TreesOf(items: seq<CItem>)
    requires items != []
    ensures TreeItems(items) != []
  {
  }

  lemma MembersTreesOf(members: seq<CMember>)
    requires members != []
    ensures TreeMembers(members) != []
  {
  }

  lemma {:induction false} MembersText(members: seq<CMember>, space: string) returns (body: string)
    requires RfcMembers(members) && Closed(|members|, false, space)
    ensures SpellMembers(members, false, space) == body + "}" && MemberList(body, TreeMembers(members))
    decreases members
  {
    hide Spell, SpellMembers, Rfc, Tree, Ws, Denotes, MemberText, IsString, AfterColon;
    if members == [] {
      body := space;
      NoTrees(space);
    } else {
      var x, more := members[0], members[1..];
      assert members == [x] + more;
      TreeIsText(x.value);
      var first := x.lead + "\"" + x.key + "\"" + x.mid + ":" + AfterColon(x);
      TextOfMember(x);
      FirstMember(x, more, space);
      if more == [] {
        body := first;
        NoTrees(space);
      } else {
        var rest := MembersText(more, space);
        body := first + "," + rest;
        MembersTreesOf(more);
        OneMoreMember(first, rest, Member(x.key, Tree(x.value)), TreeMembers(more));
      }
    }
  }

  lemma TextOfMember(x: CMember)
    requires Ws(x.lead) && Ws(x.mid) && Ws(x.pad) && Ws(x.trail) && IsString(x.key)
    requires Denotes(Spell(x.value), Tree(x.value))
    ensures MemberText(x.lead + "\"" + x.key + "\"" + x.mid + ":" + AfterColon(x), Member(x.key, Tree(x.value)))
  {
    ItemText(CItem(x.pad, x.value, x.trail));
  }

  /** The trees are exactly those of the texts. */
  lemma TreesAreTexts(w: string, v: Json)
    ensures Denotes(w, v) <==> exists c :: Rfc(c) && Spell(c) == w && Tree(c) == v
  {
    if Denotes(w, v) {
      var c := Parse(w, v);
    }
    forall c | Rfc(c) && Spell(c) == w && Tree(c) == v ensures Denotes(w, v) {
      TreeIsText(c);
    }
  }

  // ------------------------------------------------ they are texts of the reader's grammar

  lemma CountParts(p: NumberParts, c: char)
    ensures Count(p.Text(), c) == Count(p.minus, c) + Count(p.whole, c) + Count(p.frac, c) + Count(p.exp, c)
  {
    CountConcat(p.minus + p.whole + p.frac, p.exp, c);
    CountConcat(p.minus + p.whole, p.frac, c);
    CountConcat(p.minus, p.whole, c);
  }

  lemma NumberMarks(p: NumberParts)
    requires p.Valid()
    ensures Count(p.Text(), '.') <= 1
    ensures Count(p.Text(), 'e') + Count(p.Text(), 'E') <= 1
  {
    CountParts(p, '.');
    CountParts(p, 'e');
    CountParts(p, 'E');
    forall c | c in ['.', 'e', 'E'] ensures Count(p.minus, c) == 0 == Count(p.whole, c) {
      CountNone(p.minus, c);
      CountNone(p.whole, c);
    }
    CountNone(p.exp, '.');
    if p.frac != "" {
      CountHead(p.frac, '.');
    }
    CountNone(p.frac, 'e');
    CountNone(p.frac, 'E');
    if p.exp != "" {
      CountHead(p.exp, 'e');
      CountHead(p.exp, 'E');
    }
  }

  lemma BodyChars(p: NumberParts)
    requires p.Valid()
    ensures var body := p.minus + p.whole + p.frac;
      && body != ""
      && (forall k :: 0 <= k < |body| ==> IsDigit(body[k]) || body[k] == '.' || body[k] == '-')
      && (IsDigit(body[0]) || (body[0] == '-' && |body| > 1 && IsDigit(body[1])))
  {
    var body := p.minus + p.whole + p.frac;
    assert body[|p.minus|] == p.whole[0];
  }

  lemma ExpChars(p: NumberParts)
    requires p.Valid() && p.exp != ""
    ensures IsE(p.exp[0]) && |p.exp| > 1
    ensures forall k :: 0 < k < |p.exp| ==> IsDigit(p.exp[k]) || IsSign(p.exp[k])
  {
  }

  lemma NumberIsLenient(w: string)
    requires IsNumber(w)
    ensures LenientNumber(w) && (IsDigit(w[0]) || w[0] == '-')
  {
    var p: NumberParts :| p.Valid() && p.Text() == w;
    NumberMarks(p);
    BodyChars(p);
    if p.exp != "" {
      ExpChars(p);
    }
    NumberShape(p.minus + p.whole + p.frac, p.exp);
  }

  lemma NumberShape(body: string, exp: string)
    requires body != ""
    requires forall k :: 0 <= k < |body| ==> IsDigit(body[k]) || body[k] == '.' || body[k] == '-'
    requires IsDigit(body[0]) || (body[0] == '-' && |body| > 1 && IsDigit(body[1]))
    requires exp != "" ==>
               && IsE(exp[0]) && |exp| > 1
               && forall k :: 0 < k < |exp| ==> IsDigit(exp[k]) || IsSign(exp[k])
    requires Count(body + exp, '.') <= 1
    requires Count(body + exp, 'e') + Count(body + exp, 'E') <= 1
    ensures LenientNumber(body + exp) && (IsDigit((body + exp)[0]) || (body + exp)[0] == '-')
  {
  }

  lemma WsIsWhitespace(w: string)
    ensures Ws(w) <==> AllWhitespace(w)
  {
  }

  lemma ItemIsRfc(items: seq<CItem>)
    requires RfcItems(items) && items != []
    ensures AllWhitespace(items[0].lead) && AllWhitespace(items[0].trail)
    ensures Rfc(items[0].value) && RfcItems(items[1..])
  {
    hide Rfc;
    WsIsWhitespace(items[0].lead);
    WsIsWhitespace(items[0].trail);
  }

  lemma MemberIsRfc(members: seq<CMember>)
    requires RfcMembers(members) && members != []
    ensures var x := members[0];
      AllWhitespace(x.lead) && AllWhitespace(x.mid) && AllWhitespace(x.pad) && AllWhitespace(x.trail)
    ensures IsString(members[0].key) && Rfc(members[0].value) && RfcMembers(members[1..])
  {
    hide Rfc, IsString;
    var x := members[0];
    WsIsWhitespace(x.lead);
    WsIsWhitespace(x.mid);
    WsIsWhitespace(x.pad);
    WsIsWhitespace(x.trail);
  }

  lemma ItemsNotEmpty(items: seq<CItem>)
    requires items != []
    ensures NoItemEmpty(TreeItems(items)) <==> NoneEmpty(Tree(items[0].value)) && NoItemEmpty(TreeItems(items[1..]))
  {
    assert TreeItems(items)[1..] == TreeItems(items[1..]);
  }

  lemma MembersNotEmpty(members: seq<CMember>)
    requires members != []
    ensures NoMemberEmpty(TreeMembers(members)) <==>
      && members[0].key != "" && NoneEmpty(Tree(members[0].value))
      && NoMemberEmpty(TreeMembers(members[1..]))
  {
    assert TreeMembers(members)[1..] == TreeMembers(members[1..]);
  }

  lemma StringIsLenient(w: string)
    requires IsString(w) && w != ""
    ensures LenientString(w)
  {
  }

  /** Without empty strings and names, a tree of RFC 8259 is one the reader accepts. */
  lemma {:induction false} RfcIsLenient(c: Cst)
    requires Rfc(c) && NoneEmpty(Tree(c))
    ensures Lenient(c)
    decreases c
  {
    match c
    case CNumber(lexeme) => NumberIsLenient(lexeme);
    case CString(text) => StringIsLenient(text);
    case CList(items, _, space) =>
      WsIsWhitespace(space);
      ItemsAreLenient(items);
    case CObject(members, _, space) =>
      WsIsWhitespace(space);
      MembersAreLenient(members);
    case _ =>
  }

  lemma {:induction false} ItemsAreLenient(items: seq<CItem>)
    requires RfcItems(items) && NoItemEmpty(TreeItems(items))
    ensures LenientItems(items)
    decreases items
  {
    hide Rfc, RfcItems, Tree, TreeItems, NoneEmpty, NoItemEmpty, Lenient, AllWhitespace;
    if items != [] {
      ItemsNotEmpty(items);
      ItemIsRfc(items);
      RfcIsLenient(items[0].value);
      ItemsAreLenient(items[1..]);
    }
  }

  lemma {:induction false} MembersAreLenient(members: seq<CMember>)
    requires RfcMembers(members) && NoMemberEmpty(TreeMembers(members))
    ensures LenientMembers(members)
    decreases members
  {
    hide Rfc, RfcMembers, Tree, TreeMembers, NoneEmpty, NoMemberEmpty, Lenient, LenientString, AllWhitespace;
    if members != [] {
      var x := members[0];
      MembersNotEmpty(members);
      MemberIsRfc(members);
      StringIsLenient(x.key);
      RfcIsLenient(x.value);
      MembersAreLenient(members[1..]);
    }
  }
}
