/**
 Which texts the reader accepts and what it returns for them: exactly the texts of
 the lenient grammar of JsonSyntax, with the tree the grammar gives them.
 */
module JsonAcceptance {
  import opened JsonSyntax
  import opened JsonReading

  /** What the character after a value must be like. Only a number and the keywords
      ask for anything. */
  predicate Follows(s: string, c: Cst, j: nat)
    requires IsBuffer(s) && j < |s|
  {
    match c
    case CNull => KeywordEnds(s, j, NULLS)
    case CTrue => KeywordEnds(s, j, BOOLEANS)
    case CFalse => KeywordEnds(s, j, BOOLEANS)
    case CNumber(_) => !IsNumberChar(s[j])
    case _ => true
  }

  /** From i the buffer spells white space and then the text of c. */
  predicate Reads(s: string, i: nat, lead: string, c: Cst) {
    AllWhitespace(lead) && Matches(s, i, lead + Spell(c))
  }

  // ------------------------------------------------------- pieces of a buffer

  lemma MatchesConcat(s: string, i: nat, a: string, b: string)
    ensures Matches(s, i, a + b) <==> Matches(s, i, a) && Matches(s, i + |a|, b)
  {
    if i + |a + b| <= |s| {
      assert s[i..i + |a + b|] == s[i..i + |a|] + s[i + |a|..i + |a| + |b|];
      if s[i..i + |a + b|] == a + b {
        assert s[i..i + |a|] == (a + b)[..|a|];
        assert s[i + |a|..i + |a| + |b|] == (a + b)[|a|..];
      }
    }
  }

  lemma MatchesChar(s: string, i: nat, c: char)
    ensures Matches(s, i, [c]) <==> i < |s| && s[i] == c
  {
  }

  /** Skipping stops at the first character that is not white space. */
  lemma {:induction false} SkipsLead(s: string, i: nat, lead: string)
    requires IsBuffer(s) && AllWhitespace(lead) && Matches(s, i, lead) && i + |lead| < |s|
    requires !IsWhitespace(s[i + |lead|])
    ensures SkipAll(s, i) == i + |lead|
  {
    forall k | i <= k < i + |lead| ensures IsWhitespace(s[k]) {
      assert s[k] == s[i..i + |lead|][k - i];
    }
    SkipStops(s, |s| - 1, i, i + |lead|);
  }

  lemma SkipStops(s: string, n: nat, i: nat, j: nat)
    requires i <= j <= n < |s| && !IsWhitespace(s[j])
    requires forall k :: i <= k < j ==> IsWhitespace(s[k])
    ensures Skip(s, n, i) == j
  {
  }

  /** Whatever length it is given, skipping does not run past the white space. */
  lemma SkipBounded(s: string, n: nat, i: nat, j: nat)
    requires i <= j < |s| && n < |s| && !IsWhitespace(s[j])
    ensures Skip(s, n, i) <= j
  {
  }

  /** Inside a list or an object a value is followed by white space and one of `,`, `]`
      and `}`; then nothing more is asked. */
  lemma FollowsInside(s: string, c: Cst, j: nat, trail: string)
    requires IsBuffer(s) && AllWhitespace(trail) && Matches(s, j, trail) && j + |trail| < |s|
    requires s[j + |trail|] in [',', ']', '}', '\0']
    ensures Follows(s, c, j)
  {
    var e := j + |trail|;
    forall k | j <= k < e ensures IsWhitespace(s[k]) {
      assert s[k] == s[j..j + |trail|][k - j];
    }
    var k := Skip(s, StrLen(s), j);
    SkipBounded(s, StrLen(s), j, e);
    assert k == e || IsWhitespace(s[k]);
    NoKeyword(s, k, "null");
    NoKeyword(s, k, "true");
    NoKeyword(s, k, "false");
  }

  // ------------------------------------------------------------ completeness

  lemma StringStops(s: string, i: nat, j: nat)
    requires IsBuffer(s) && i <= j < |s| && s[j] == '\"'
    requires forall k :: i <= k < j ==> s[k] != '\"' && !IsNewline(s[k])
    ensures StringEnd(s, i) == j
  {
  }

  lemma ReadsString(s: string, i: nat, text: string)
    requires IsBuffer(s) && LenientString(text) && Matches(s, i, Quote(text))
    ensures i < |s| && ReadString(s, i) == Ok(text, i + |text| + 2)
  {
    MatchesConcat(s, i, "\"" + text, "\"");
    MatchesConcat(s, i, "\"", text);
    MatchesChar(s, i, '\"');
    var j := i + 1 + |text|;
    MatchesChar(s, j, '\"');
    forall k | i + 1 <= k < j ensures s[k] != '\"' && !IsNewline(s[k]) {
      assert s[k] == s[i + 1..i + 1 + |text|][k - i - 1];
    }
    StringStops(s, i + 1, j);
  }

  lemma NumberStops(s: string, i: nat, j: nat)
    requires IsBuffer(s) && i <= j < |s| && !IsNumberChar(s[j])
    requires forall k :: i <= k < j ==> IsNumberChar(s[k])
    ensures NumberEnd(s, i) == j
  {
  }

  lemma ReadsNumber(s: string, i: nat, w: string)
    requires IsBuffer(s) && LenientNumber(w) && Matches(s, i, w)
    requires i + |w| < |s| && !IsNumberChar(s[i + |w|])
    ensures i < |s| && ReadNumber(s, i) == Ok(w, i + |w|)
  {
    forall k | i <= k < i + |w| ensures IsNumberChar(s[k]) {
      assert s[k] == s[i..i + |w|][k - i];
    }
    NumberStops(s, i, i + |w|);
  }

  /** The first character of a value, which is what the reader branches on. */
  lemma FirstChar(c: Cst)
    requires Lenient(c)
    ensures Spell(c) != "" && !IsWhitespace(Spell(c)[0])
    ensures var h := Spell(c)[0];
      match c
      case CNull => h == 'n'
      case CTrue => h == 't'
      case CFalse => h == 'f'
      case CNumber(_) => IsNumberStart(h) || h == '.'
      case CString(_) => h == '\"'
      case CList(_, _, _) => h == '['
      case CObject(_, _, _) => h == '{'
  {
  }

  /** Every lenient text is accepted where it may end, and gets its tree. */
  lemma {:induction false} AcceptsValue(s: string, i: nat, lead: string, c: Cst)
    requires IsBuffer(s) && Lenient(c) && Reads(s, i, lead, c)
    requires var j := i + |lead + Spell(c)|; j < |s| && Follows(s, c, j)
    ensures ReadValue(s, i) == Ok(Tree(c), i + |lead + Spell(c)|)
    decreases c, 2
  {
    FirstChar(c);
    MatchesConcat(s, i, lead, Spell(c));
    var k := i + |lead|;
    assert s[k] == s[k..k + |Spell(c)|][0];
    SkipsLead(s, i, lead);
    AcceptsAt(s, k, c);
  }

  lemma {:induction false} AcceptsAt(s: string, k: nat, c: Cst)
    requires IsBuffer(s) && Lenient(c) && Matches(s, k, Spell(c))
    requires k + |Spell(c)| < |s| && Follows(s, c, k + |Spell(c)|)
    ensures ReadAt(s, k) == Ok(Tree(c), k + |Spell(c)|)
    decreases c, 1
  {
    hide ReadItems, ReadMembers, SpellItems, SpellMembers, TreeItems, TreeMembers, LenientItems, LenientMembers, Skip;
    match c
    case CNumber(lexeme) =>
      assert s[k] == s[k..k + |lexeme|][0];
      ReadsNumber(s, k, lexeme);
    case CString(text) =>
      assert s[k] == s[k..k + |Quote(text)|][0];
      ReadsString(s, k, text);
    case CList(items, comma, space) => AcceptsList(s, k, items, comma, space);
    case CObject(members, comma, space) => AcceptsObject(s, k, members, comma, space);
    case _ => AcceptsKeyword(s, k, c);
  }

  lemma {:induction false} AcceptsList(s: string, k: nat, items: seq<CItem>, comma: bool, space: string)
    requires IsBuffer(s) && LenientItems(items) && Ending(|items|, comma, space)
    requires Matches(s, k, "[" + SpellItems(items, comma, space))
    ensures k < |s| && ReadAt(s, k) == Ok(List(TreeItems(items)), k + 1 + |SpellItems(items, comma, space)|)
    decreases items, 4
  {
    hide ReadItems, ReadMembers, SpellItems, TreeItems, LenientItems, Skip;
    MatchesConcat(s, k, "[", SpellItems(items, comma, space));
    MatchesChar(s, k, '[');
    AcceptsItems(s, k + 1, items, comma, space);
  }

  lemma {:induction false} AcceptsObject(s: string, k: nat, members: seq<CMember>, comma: bool, space: string)
    requires IsBuffer(s) && LenientMembers(members) && Ending(|members|, comma, space)
    requires Matches(s, k, "{" + SpellMembers(members, comma, space))
    ensures k < |s| && ReadAt(s, k) == Ok(Object(TreeMembers(members)), k + 1 + |SpellMembers(members, comma, space)|)
    decreases members, 4
  {
    hide ReadItems, ReadMembers, SpellMembers, TreeMembers, LenientMembers, Skip;
    MatchesConcat(s, k, "{", SpellMembers(members, comma, space));
    MatchesChar(s, k, '{');
    AcceptsMembers(s, k + 1, members, comma, space);
  }

  lemma AcceptsKeyword(s: string, k: nat, c: Cst)
    requires IsBuffer(s) && Matches(s, k, Spell(c)) && (c.CNull? || c.CTrue? || c.CFalse?)
    requires k + |Spell(c)| < |s| && Follows(s, c, k + |Spell(c)|)
    ensures ReadAt(s, k) == Ok(Tree(c), k + |Spell(c)|)
  {
    hide Skip, ReadItems, ReadMembers, ReadString, ReadNumber;
    assert s[k] == s[k..k + |Spell(c)|][0];
    if c.CNull? {
      assert IsKeyword(s, k, "null", NULLS);
    } else if c.CTrue? {
      assert IsKeyword(s, k, "true", BOOLEANS);
    } else {
      NoKeyword(s, k, "true");
      assert IsKeyword(s, k, "false", BOOLEANS);
    }
  }

  /** Nothing but white space may precede the closing bracket, and with items and no
      last comma not even that. */
  predicate Ending(n: nat, comma: bool, space: string) {
    AllWhitespace(space) && (n > 0 && !comma ==> space == "")
  }

  /** A value or key starts where the white space before it ends. */
  lemma SplitLead(s: string, i: nat, lead: string, text: string, rest: string)
    requires IsBuffer(s) && AllWhitespace(lead) && text != "" && !IsWhitespace(text[0])
    requires Matches(s, i, lead + text + rest)
    ensures var k := i + |lead|;
      && k < |s| && SkipAll(s, i) == k && s[k] == text[0]
      && Matches(s, k, text) && Matches(s, k + |text|, rest)
  {
    MatchesConcat(s, i, lead + text, rest);
    MatchesConcat(s, i, lead, text);
    var k := i + |lead|;
    assert s[k] == s[k..k + |text|][0];
    SkipsLead(s, i, lead);
  }

  lemma SkipNothing(s: string, k: nat)
    requires IsBuffer(s) && k < |s| && !IsWhitespace(s[k])
    ensures SkipAll(s, k) == k && ReadValue(s, k) == ReadAt(s, k)
  {
  }

  lemma ListCloses(s: string, i: nat, space: string)
    requires IsBuffer(s) && AllWhitespace(space) && Matches(s, i, space + "]")
    ensures i < |s| && ReadItems(s, i) == Ok([], i + |space| + 1)
  {
    assert space + "]" + "" == space + "]";
    SplitLead(s, i, space, "]", "");
  }

  lemma ItemStep(s: string, i: nat, k: nat, v: Json, j: nat, m: nat)
    requires IsBuffer(s) && i < |s| && SkipAll(s, i) == k && s[k] != ']'
    requires ReadAt(s, k) == Ok(v, j) && SkipAll(s, j) == m
    ensures ReadItems(s, i) == AfterItem(s, v, m)
  {
    SkipNothing(s, k);
  }

  /** Where a piece of text, the white space after it and the rest lie. */
  lemma Pieces(s: string, i: nat, lead: string, text: string, trail: string, rest: string)
    returns (k: nat, j: nat, m: nat)
    requires IsBuffer(s) && AllWhitespace(lead) && AllWhitespace(trail)
    requires text != "" && !IsWhitespace(text[0]) && rest != "" && !IsWhitespace(rest[0])
    requires Matches(s, i, lead + text + (trail + rest))
    ensures k == i + |lead| && j == k + |text| && m == j + |trail| && m < |s|
    ensures SkipAll(s, i) == k && s[k] == text[0] && Matches(s, k, text)
    ensures Matches(s, j, trail)
    ensures SkipAll(s, j) == m && s[m] == rest[0] && Matches(s, m, rest)
  {
    SplitLead(s, i, lead, text, trail + rest);
    k, j, m := i + |lead|, i + |lead| + |text|, i + |lead| + |text| + |trail|;
    assert trail + rest == trail + rest + "";
    SplitLead(s, j, trail, rest, "");
    MatchesConcat(s, j, trail, rest);
  }

  lemma SpelledItems(items: seq<CItem>, comma: bool, space: string)
    requires items != []
    ensures var rest := Rest(IsLast(|items|, comma), "]", SpellItems(items[1..], comma, space));
      SpellItems(items, comma, space) ==
      items[0].lead + Spell(items[0].value) + (items[0].trail + rest)
  {
  }

  lemma SpelledMembers(members: seq<CMember>, comma: bool, space: string)
    requires members != []
    ensures var x := members[0];
      var rest := Rest(IsLast(|members|, comma), "}", SpellMembers(members[1..], comma, space));
      SpellMembers(members, comma, space) ==
      x.lead + Quote(x.key) + (x.mid + (":" + (x.pad + Spell(x.value) + (x.trail + rest))))
  {
  }

  /** Where the parts of the first item lie: its value from k to j, what follows it at m. */
  lemma ItemParts(s: string, i: nat, items: seq<CItem>, comma: bool, space: string)
    returns (k: nat, j: nat, m: nat)
    requires IsBuffer(s) && LenientItems(items) && Ending(|items|, comma, space) && items != []
    requires Matches(s, i, SpellItems(items, comma, space))
    ensures i <= k && j == k + |Spell(items[0].value)| && j <= m < |s|
    ensures SkipAll(s, i) == k && s[k] != ']' && SkipAll(s, j) == m
    ensures Matches(s, k, Spell(items[0].value)) && Follows(s, items[0].value, j)
    ensures var rest := Rest(IsLast(|items|, comma), "]", SpellItems(items[1..], comma, space));
      Matches(s, m, rest) && m + |rest| == i + |SpellItems(items, comma, space)|
  {
    hide Skip, SkipAll, Follows, Spell, SpellItems, Lenient;
    SpelledItems(items, comma, space);
    var x := items[0];
    var rest := Rest(IsLast(|items|, comma), "]", SpellItems(items[1..], comma, space));
    FirstChar(x.value);
    k, j, m := Pieces(s, i, x.lead, Spell(x.value), x.trail, rest);
    FollowsInside(s, x.value, j, x.trail);
  }

  lemma AfterItemEnds(s: string, v: Json, m: nat, rest: Parsed<seq<Json>>)
    requires IsBuffer(s) && m < |s|
    requires s[m] == ',' ==> ReadItems(s, m + 1) == rest
    ensures s[m] == ']' ==> AfterItem(s, v, m) == Ok([v], m + 1)
    ensures s[m] == ',' && rest.Ok? ==> AfterItem(s, v, m) == Ok([v] + rest.value, rest.next)
  {
  }

  lemma {:induction false} AcceptsItems(s: string, i: nat, items: seq<CItem>, comma: bool, space: string)
    requires IsBuffer(s) && LenientItems(items) && Ending(|items|, comma, space)
    requires Matches(s, i, SpellItems(items, comma, space))
    ensures i < |s| && ReadItems(s, i) == Ok(TreeItems(items), i + |SpellItems(items, comma, space)|)
    decreases items, 3
  {
    if items == [] {
      ListCloses(s, i, space);
    } else {
      AcceptsSomeItems(s, i, items, comma, space);
    }
  }

  /** Once the value, from k to j, is read, the reader stands behind the item, at m. */
  lemma ItemHead(s: string, i: nat, items: seq<CItem>, comma: bool, space: string)
    returns (k: nat, j: nat, m: nat)
    requires IsBuffer(s) && LenientItems(items) && Ending(|items|, comma, space) && items != []
    requires Matches(s, i, SpellItems(items, comma, space))
    ensures i <= k && j == k + |Spell(items[0].value)| && j <= m < |s|
    ensures Matches(s, k, Spell(items[0].value)) && Follows(s, items[0].value, j)
    ensures Lenient(items[0].value) && LenientItems(items[1..])
    ensures var value := Tree(items[0].value);
      ReadAt(s, k) == Ok(value, j) ==> ReadItems(s, i) == AfterItem(s, value, m)
    ensures var rest := Rest(IsLast(|items|, comma), "]", SpellItems(items[1..], comma, space));
      Matches(s, m, rest) && m + |rest| == i + |SpellItems(items, comma, space)|
  {
    hide ReadItems, AfterItem, ReadAt, Follows, Spell, Lenient, Tree, Skip, SpellItems;
    k, j, m := ItemParts(s, i, items, comma, space);
    if ReadAt(s, k) == Ok(Tree(items[0].value), j) {
      ItemStep(s, i, k, Tree(items[0].value), j, m);
    }
  }

  lemma {:induction false} AcceptsSomeItems(s: string, i: nat, items: seq<CItem>, comma: bool, space: string)
    requires IsBuffer(s) && LenientItems(items) && Ending(|items|, comma, space) && items != []
    requires Matches(s, i, SpellItems(items, comma, space))
    ensures i < |s| && ReadItems(s, i) == Ok(TreeItems(items), i + |SpellItems(items, comma, space)|)
    decreases items, 2
  {
    hide ReadItems, ReadAt, AfterItem, Follows, Spell, Lenient, Tree, Skip, SpellItems, LenientItems, Rest, IsLast,
      Matches;
    var k, j, m := ItemHead(s, i, items, comma, space);
    AcceptsAt(s, k, items[0].value);
    AcceptsMoreItems(s, m, Tree(items[0].value), items[1..], comma, space);
  }

  /** What follows an item: the closing bracket, or a comma and more items. */
  lemma {:induction false} AcceptsMoreItems(s: string, m: nat, v: Json, items: seq<CItem>, comma: bool, space: string)
    requires IsBuffer(s) && LenientItems(items) && Ending(1 + |items|, comma, space) && m < |s|
    requires Matches(s, m, Rest(IsLast(1 + |items|, comma), "]", SpellItems(items, comma, space)))
    ensures AfterItem(s, v, m) ==
            Ok([v] + TreeItems(items), m + |Rest(IsLast(1 + |items|, comma), "]", SpellItems(items, comma, space))|)
    decreases items, 5
  {
    hide ReadItems, AfterItem, SpellItems, LenientItems;
    if IsLast(1 + |items|, comma) {
      MatchesChar(s, m, ']');
      AfterItemEnds(s, v, m, Fail);
      assert [v] + TreeItems(items) == [v];
    } else {
      MatchesConcat(s, m, ",", SpellItems(items, comma, space));
      MatchesChar(s, m, ',');
      AcceptsItems(s, m + 1, items, comma, space);
      AfterItemEnds(s, v, m, ReadItems(s, m + 1));
    }
  }

  lemma MemberStep(s: string, i: nat, k: nat, key: string, e: nat, c: nat, v: Json, j: nat, m: nat)
    requires IsBuffer(s) && i < |s| && SkipAll(s, i) == k && s[k] != '}'
    requires ReadString(s, k) == Ok(key, e) && SkipAll(s, e) == c && s[c] == ':'
    requires ReadValue(s, c + 1) == Ok(v, j) && SkipAll(s, j) == m
    ensures ReadMembers(s, i) == AfterMember(s, Member(key, v), m)
  {
  }

  lemma QuoteStarts(text: string)
    ensures |Quote(text)| == |text| + 2 && Quote(text)[0] == '\"'
  {
  }

  /** Where the parts of the first member lie: its key from k to e, the colon at c, its
      value from v to j, what follows it at m. */
  lemma MemberParts(s: string, i: nat, members: seq<CMember>, comma: bool, space: string)
    returns (k: nat, e: nat, c: nat, v: nat, j: nat, m: nat)
    requires IsBuffer(s) && LenientMembers(members) && Ending(|members|, comma, space) && members != []
    requires Matches(s, i, SpellMembers(members, comma, space))
    ensures i <= k < e <= c < v && j == v + |Spell(members[0].value)| && j <= m < |s|
    ensures SkipAll(s, i) == k && s[k] != '}' && SkipAll(s, e) == c && s[c] == ':'
    ensures ReadString(s, k) == Ok(members[0].key, e)
    ensures SkipAll(s, c + 1) == v && SkipAll(s, j) == m
    ensures Matches(s, v, Spell(members[0].value)) && Follows(s, members[0].value, j)
    ensures Lenient(members[0].value) && LenientMembers(members[1..])
    ensures var rest := Rest(IsLast(|members|, comma), "}", SpellMembers(members[1..], comma, space));
      Matches(s, m, rest) && m + |rest| == i + |SpellMembers(members, comma, space)|
  {
    hide Skip, SkipAll, Follows, Spell, SpellMembers, Lenient, ReadString, Quote, IsBuffer, Matches, LenientString;
    QuoteStarts(members[0].key);
    SpelledMembers(members, comma, space);
    var x := members[0];
    var rest := Rest(IsLast(|members|, comma), "}", SpellMembers(members[1..], comma, space));
    var value := x.pad + Spell(x.value) + (x.trail + rest);
    k, e, c := Pieces(s, i, x.lead, Quote(x.key), x.mid, ":" + value);
    ReadsString(s, k, x.key);
    MatchesConcat(s, c, ":", value);
    FirstChar(x.value);
    v, j, m := Pieces(s, c + 1, x.pad, Spell(x.value), x.trail, rest);
    FollowsInside(s, x.value, j, x.trail);
  }

  lemma ObjectCloses(s: string, i: nat, space: string)
    requires IsBuffer(s) && AllWhitespace(space) && Matches(s, i, space + "}")
    ensures i < |s| && ReadMembers(s, i) == Ok([], i + |space| + 1)
  {
    assert space + "}" + "" == space + "}";
    SplitLead(s, i, space, "}", "");
  }

  lemma AfterMemberEnds(s: string, x: Field<string>, m: nat, rest: Parsed<seq<Field<string>>>)
    requires IsBuffer(s) && m < |s|
    requires s[m] == ',' ==> ReadMembers(s, m + 1) == rest
    ensures s[m] == '}' ==> AfterMember(s, x, m) == Ok([x], m + 1)
    ensures s[m] == ',' && rest.Ok? ==> AfterMember(s, x, m) == Ok([x] + rest.value, rest.next)
  {
  }

  lemma {:induction false} AcceptsMembers(s: string, i: nat, members: seq<CMember>, comma: bool, space: string)
    requires IsBuffer(s) && LenientMembers(members) && Ending(|members|, comma, space)
    requires Matches(s, i, SpellMembers(members, comma, space))
    ensures i < |s| && ReadMembers(s, i) == Ok(TreeMembers(members), i + |SpellMembers(members, comma, space)|)
    decreases members, 3
  {
    if members == [] {
      ObjectCloses(s, i, space);
    } else {
      AcceptsSomeMembers(s, i, members, comma, space);
    }
  }

  /** Once the value, from v to j, is read, the reader stands behind the member, at m. */
  lemma MemberHead(s: string, i: nat, members: seq<CMember>, comma: bool, space: string)
    returns (v: nat, j: nat, m: nat)
    requires IsBuffer(s) && LenientMembers(members) && Ending(|members|, comma, space) && members != []
    requires Matches(s, i, SpellMembers(members, comma, space))
    ensures i < v && j == v + |Spell(members[0].value)| && j <= m < |s|
    ensures Matches(s, v, Spell(members[0].value)) && Follows(s, members[0].value, j)
    ensures Lenient(members[0].value) && LenientMembers(members[1..])
    ensures var value := Tree(members[0].value);
      ReadAt(s, v) == Ok(value, j) ==> ReadMembers(s, i) == AfterMember(s, Member(members[0].key, value), m)
    ensures var rest := Rest(IsLast(|members|, comma), "}", SpellMembers(members[1..], comma, space));
      Matches(s, m, rest) && m + |rest| == i + |SpellMembers(members, comma, space)|
  {
    hide ReadMembers, AfterMember, ReadAt, Follows, Spell, Lenient, Tree, Skip, ReadString, SpellMembers,
      LenientMembers;
    var k, e, c;
    k, e, c, v, j, m := MemberParts(s, i, members, comma, space);
    if ReadAt(s, v) == Ok(Tree(members[0].value), j) {
      MemberStep(s, i, k, members[0].key, e, c, Tree(members[0].value), j, m);
    }
  }

  lemma {:induction false} AcceptsSomeMembers(s: string, i: nat, members: seq<CMember>, comma: bool, space: string)
    requires IsBuffer(s) && LenientMembers(members) && Ending(|members|, comma, space) && members != []
    requires Matches(s, i, SpellMembers(members, comma, space))
    ensures i < |s| && ReadMembers(s, i) == Ok(TreeMembers(members), i + |SpellMembers(members, comma, space)|)
    decreases members, 2
  {
    hide ReadMembers, ReadAt, AfterMember, Follows, Spell, Lenient, Tree, Skip, LenientMembers, SpellMembers, Rest,
      IsLast, Matches;
    var v, j, m := MemberHead(s, i, members, comma, space);
    AcceptsAt(s, v, members[0].value);
    AcceptsMoreMembers(s, m, Member(members[0].key, Tree(members[0].value)), members[1..], comma, space);
  }

  /** What follows a member: the closing brace, or a comma and more members. */
  lemma {:induction false} AcceptsMoreMembers(s: string, m: nat, x: Field<string>, members: seq<CMember>,
                                              comma: bool, space: string)
    requires IsBuffer(s) && LenientMembers(members) && Ending(1 + |members|, comma, space) && m < |s|
    requires Matches(s, m, Rest(IsLast(1 + |members|, comma), "}", SpellMembers(members, comma, space)))
    ensures AfterMember(s, x, m) ==
            Ok([x] + TreeMembers(members),
               m + |Rest(IsLast(1 + |members|, comma), "}", SpellMembers(members, comma, space))|)
    decreases members, 5
  {
    hide ReadMembers, AfterMember, SpellMembers, LenientMembers;
    if IsLast(1 + |members|, comma) {
      MatchesChar(s, m, '}');
      AfterMemberEnds(s, x, m, Fail);
      assert [x] + TreeMembers(members) == [x];
    } else {
      MatchesConcat(s, m, ",", SpellMembers(members, comma, space));
      MatchesChar(s, m, ',');
      AcceptsMembers(s, m + 1, members, comma, space);
      AfterMemberEnds(s, x, m, ReadMembers(s, m + 1));
    }
  }
}
