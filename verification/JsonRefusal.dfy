/**
 Which texts of RFC 8259 the reader refuses: of those without a backslash, exactly the ones
 that hold an empty string or an empty name.
 */
module JsonRefusal {
  import opened JsonSyntax
  import opened JsonReading
  import opened JsonAcceptance
  import opened JsonSoundness
  import opened Rfc8259

  /** How a value starts, with an empty string somewhere or not. */
  lemma Starts(c: Cst)
    requires Rfc(c)
    ensures Spell(c) != "" && !IsWhitespace(Spell(c)[0]) && Spell(c)[0] != ']' && Spell(c)[0] != '}'
  {
    match c
    case CNumber(lexeme) => NumberIsLenient(lexeme);
    case CString(text) => QuoteStarts(text);
    case _ =>
  }

  /** A value without empty strings is read, inside a list or an object. */
  lemma ReadsInside(s: string, k: nat, c: Cst, trail: string)
    requires IsBuffer(s) && Rfc(c) && NoneEmpty(Tree(c)) && Matches(s, k, Spell(c)) && AllWhitespace(trail)
    requires var j := k + |Spell(c)|;
      Matches(s, j, trail) && j + |trail| < |s| && s[j + |trail|] in [',', ']', '}']
    ensures ReadAt(s, k) == Ok(Tree(c), k + |Spell(c)|)
  {
    hide Rfc, NoneEmpty, Tree, Spell, Lenient, ReadAt, Follows;
    RfcIsLenient(c);
    FollowsInside(s, c, k + |Spell(c)|, trail);
    AcceptsAt(s, k, c);
  }

  /** An empty string is refused in any buffer, as a name and as a value. */
  lemma RefusesString(s: string, k: nat)
    requires IsBuffer(s) && Matches(s, k, Quote(""))
    ensures k < |s| && ReadString(s, k) == Fail && ReadAt(s, k) == Fail && ReadValue(s, k) == Fail
  {
    assert Quote("") == "\"\"" && s[k..k + 2] == "\"\"";
    assert s[k] == s[k..k + 2][0] && s[k + 1] == s[k..k + 2][1];
  }

  lemma {:induction false} RefusesAt(s: string, k: nat, c: Cst)
    requires IsBuffer(s) && Rfc(c) && !NoneEmpty(Tree(c)) && Matches(s, k, Spell(c))
    ensures k < |s| && ReadAt(s, k) == Fail
    decreases c, 1
  {
    hide ReadAt, ReadItems, ReadMembers, SpellItems, SpellMembers, RfcItems, RfcMembers, NoItemEmpty, NoMemberEmpty,
      Matches;
    match c
    case CString(_) => RefusesString(s, k);
    case CList(items, comma, space) =>
      MatchesConcat(s, k, "[", SpellItems(items, comma, space));
      RefusesItems(s, k + 1, items, space);
      ListRefused(s, k);
    case CObject(members, comma, space) =>
      MatchesConcat(s, k, "{", SpellMembers(members, comma, space));
      RefusesMembers(s, k + 1, members, space);
      ObjectRefused(s, k);
  }

  lemma ListRefused(s: string, k: nat)
    requires IsBuffer(s) && Matches(s, k, "[") && k + 1 < |s| && ReadItems(s, k + 1) == Fail
    ensures ReadAt(s, k) == Fail
  {
    MatchesChar(s, k, '[');
  }

  lemma ObjectRefused(s: string, k: nat)
    requires IsBuffer(s) && Matches(s, k, "{") && k + 1 < |s| && ReadMembers(s, k + 1) == Fail
    ensures ReadAt(s, k) == Fail
  {
    MatchesChar(s, k, '{');
  }

  /** What lies where when the first item is read: its value from k to j, and at m a comma
      with more items, or the closing bracket. */
  lemma ItemLies(s: string, i: nat, items: seq<CItem>, space: string) returns (k: nat, j: nat, m: nat)
    requires IsBuffer(s) && RfcItems(items) && items != [] && Matches(s, i, SpellItems(items, false, space))
    ensures i < |s| && SkipAll(s, i) == k < |s| && s[k] != ']'
    ensures Matches(s, k, Spell(items[0].value)) && j == k + |Spell(items[0].value)| < |s|
    ensures SkipAll(s, j) == m == j + |items[0].trail| < |s| && Matches(s, j, items[0].trail) && s[m] in [',', ']', '}']
    ensures |items| > 1 ==> s[m] == ',' && Matches(s, m + 1, SpellItems(items[1..], false, space))
  {
    var x, more := items[0], SpellItems(items[1..], false, space);
    var last := IsLast(|items|, false);
    SpelledItems(items, false, space);
    ItemIsRfc(items);
    hide Spell, SpellItems, Rfc, RfcItems, AllWhitespace, Skip, SkipAll, Matches, Rest;
    Starts(x.value);
    RestStarts(last, "]", more);
    k, j, m := Pieces(s, i, x.lead, Spell(x.value), x.trail, Rest(last, "]", more));
    if |items| > 1 {
      CommaLies(s, m, "]", more);
    }
  }

  /** What follows an item or a member starts with a comma or a bracket. */
  lemma RestStarts(last: bool, bracket: string, more: string)
    requires bracket == "]" || bracket == "}"
    ensures var rest := Rest(last, bracket, more); rest != "" && !IsWhitespace(rest[0]) && rest[0] in [',', ']', '}']
  {
  }

  lemma CommaLies(s: string, m: nat, bracket: string, more: string)
    requires Matches(s, m, Rest(false, bracket, more))
    ensures m < |s| && s[m] == ',' && Matches(s, m + 1, more)
  {
    MatchesConcat(s, m, ",", more);
    MatchesChar(s, m, ',');
  }

  lemma SomeItem(items: seq<CItem>)
    requires !NoItemEmpty(TreeItems(items))
    ensures items != []
  {
  }

  lemma SomeMember(members: seq<CMember>)
    requires !NoMemberEmpty(TreeMembers(members))
    ensures members != []
  {
  }

  lemma MoreItems(items: seq<CItem>)
    requires items != [] && !NoItemEmpty(TreeItems(items[1..]))
    ensures |items| > 1
  {
    SomeItem(items[1..]);
  }

  lemma MoreMembers(members: seq<CMember>)
    requires members != [] && !NoMemberEmpty(TreeMembers(members[1..]))
    ensures |members| > 1
  {
    SomeMember(members[1..]);
  }

  lemma {:induction false} RefusesItems(s: string, i: nat, items: seq<CItem>, space: string)
    requires IsBuffer(s) && RfcItems(items) && !NoItemEmpty(TreeItems(items))
    requires Matches(s, i, SpellItems(items, false, space))
    ensures i < |s| && ReadItems(s, i) == Fail
    decreases items, 2
  {
    hide Spell, SpellItems, ReadAt, ReadItems, ReadValue, AfterItem, Rfc, RfcItems, NoneEmpty, NoItemEmpty, Tree,
      TreeItems, Skip, SkipAll, AllWhitespace, Matches;
    SomeItem(items);
    ItemIsRfc(items);
    ItemsNotEmpty(items);
    var x := items[0];
    var k, j, m := ItemLies(s, i, items, space);
    if NoneEmpty(Tree(x.value)) {
      ReadsInside(s, k, x.value, x.trail);
      ItemStep(s, i, k, Tree(x.value), j, m);
      MoreItems(items);
      RefusesItems(s, m + 1, items[1..], space);
      ItemRefused(s, Tree(x.value), m);
    } else {
      RefusesAt(s, k, x.value);
      FirstRefused(s, i, k);
    }
  }

  lemma ItemRefused(s: string, v: Json, m: nat)
    requires IsBuffer(s) && m + 1 < |s| && s[m] == ',' && ReadItems(s, m + 1) == Fail
    ensures AfterItem(s, v, m) == Fail
  {
  }

  lemma FirstRefused(s: string, i: nat, k: nat)
    requires IsBuffer(s) && i < |s| && SkipAll(s, i) == k && s[k] != ']' && ReadAt(s, k) == Fail
    ensures ReadItems(s, i) == Fail
  {
    SkipNothing(s, k);
  }

  /** What lies where when the first member is read: its name from k to e, and the colon at c. */
  lemma NameLies(s: string, i: nat, members: seq<CMember>, space: string) returns (k: nat, e: nat, c: nat)
    requires IsBuffer(s) && RfcMembers(members) && members != [] && Matches(s, i, SpellMembers(members, false, space))
    ensures i < |s| && SkipAll(s, i) == k < |s| && s[k] != '}'
    ensures Matches(s, k, Quote(members[0].key)) && e == k + |members[0].key| + 2 < |s|
    ensures SkipAll(s, e) == c && s[c] == ':' && Matches(s, c + 1, FromColon(members, space))
  {
    var x := members[0];
    MemberIsRfc(members);
    SpelledFromColon(members, space);
    QuoteLength(x.key);
    hide Spell, SpellMembers, Rfc, RfcMembers, AllWhitespace, Skip, SkipAll, Matches, Quote, IsString, FromColon;
    QuoteStarts(x.key);
    k, e, c := Pieces(s, i, x.lead, Quote(x.key), x.mid, ":" + FromColon(members, space));
    MatchesConcat(s, c, ":", FromColon(members, space));
  }

  lemma QuoteLength(w: string)
    ensures |Quote(w)| == |w| + 2
  {
  }

  function FromColon(members: seq<CMember>, space: string): string
    requires members != []
  {
    var x := members[0];
    x.pad + Spell(x.value) + (x.trail + Rest(IsLast(|members|, false), "}", SpellMembers(members[1..], false, space)))
  }

  lemma SpelledFromColon(members: seq<CMember>, space: string)
    requires members != []
    ensures var x := members[0];
      SpellMembers(members, false, space) == x.lead + Quote(x.key) + (x.mid + (":" + FromColon(members, space)))
  {
    SpelledMembers(members, false, space);
  }

  lemma {:induction false} RefusesMembers(s: string, i: nat, members: seq<CMember>, space: string)
    requires IsBuffer(s) && RfcMembers(members) && !NoMemberEmpty(TreeMembers(members))
    requires Matches(s, i, SpellMembers(members, false, space))
    ensures i < |s| && ReadMembers(s, i) == Fail
    decreases members, 2
  {
    hide SpellMembers, ReadAt, ReadMembers, Rfc, RfcMembers, TreeMembers, NoneEmpty, NoMemberEmpty, Skip, SkipAll,
      Matches, ReadString, IsString, FromColon, Quote;
    SomeMember(members);
    MemberIsRfc(members);
    var x := members[0];
    var k, e, c := NameLies(s, i, members, space);
    if x.key == "" {
      RefusesString(s, k);
      NameRefused(s, i, k);
    } else {
      StringIsLenient(x.key);
      ReadsString(s, k, x.key);
      RefusesValue(s, i, k, e, c, members, space);
    }
  }

  lemma NameRefused(s: string, i: nat, k: nat)
    requires IsBuffer(s) && i < |s| && SkipAll(s, i) == k && s[k] != '}' && ReadString(s, k) == Fail
    ensures ReadMembers(s, i) == Fail
  {
  }

  /** And then its value, from v to j, and at m a comma with more members, or the brace. */
  lemma ValueLies(s: string, i: nat, members: seq<CMember>, space: string) returns (v: nat, j: nat, m: nat)
    requires IsBuffer(s) && RfcMembers(members) && members != [] && Matches(s, i, FromColon(members, space))
    ensures i < |s| && SkipAll(s, i) == v < |s|
    ensures Matches(s, v, Spell(members[0].value)) && j == v + |Spell(members[0].value)| < |s|
    ensures SkipAll(s, j) == m == j + |members[0].trail| < |s| && Matches(s, j, members[0].trail)
    ensures s[m] in [',', ']', '}']
    ensures |members| > 1 ==> s[m] == ',' && Matches(s, m + 1, SpellMembers(members[1..], false, space))
  {
    var x, more := members[0], SpellMembers(members[1..], false, space);
    var last := IsLast(|members|, false);
    MemberIsRfc(members);
    hide Spell, SpellMembers, Rfc, RfcMembers, AllWhitespace, Skip, SkipAll, Matches, IsString, Rest;
    Starts(x.value);
    RestStarts(last, "}", more);
    v, j, m := Pieces(s, i, x.pad, Spell(x.value), x.trail, Rest(last, "}", more));
    if |members| > 1 {
      CommaLies(s, m, "}", more);
    }
  }

  /** A member whose name was read: its value or what follows is refused. */
  lemma {:induction false} RefusesValue(s: string, i: nat, k: nat, e: nat, c: nat, members: seq<CMember>, space: string)
    requires IsBuffer(s) && RfcMembers(members) && members != []
    requires !NoMemberEmpty(TreeMembers(members)) && members[0].key != ""
    requires i < |s| && SkipAll(s, i) == k && s[k] != '}' && ReadString(s, k) == Ok(members[0].key, e)
    requires SkipAll(s, e) == c && s[c] == ':' && Matches(s, c + 1, FromColon(members, space))
    ensures ReadMembers(s, i) == Fail
    decreases members, 1
  {
    hide Spell, SpellMembers, ReadAt, ReadMembers, ReadValue, AfterMember, Rfc, RfcMembers, NoneEmpty, NoMemberEmpty,
      Tree, TreeMembers, Skip, SkipAll, ReadString, IsString, FromColon, AllWhitespace, Matches;
    MemberIsRfc(members);
    MembersNotEmpty(members);
    var x := members[0];
    var v, j, m := ValueLies(s, c + 1, members, space);
    ReadsFrom(s, c + 1, v);
    if NoneEmpty(Tree(x.value)) {
      ReadsInside(s, v, x.value, x.trail);
      MemberStep(s, i, k, x.key, e, c, Tree(x.value), j, m);
      MoreMembers(members);
      RefusesMembers(s, m + 1, members[1..], space);
      MemberRefused(s, Member(x.key, Tree(x.value)), m);
    } else {
      RefusesAt(s, v, x.value);
      ValueRefused(s, i, k, x.key, e, c);
    }
  }

  lemma ReadsFrom(s: string, i: nat, k: nat)
    requires IsBuffer(s) && i < |s| && SkipAll(s, i) == k
    ensures ReadValue(s, i) == ReadAt(s, k)
  {
  }

  lemma MemberRefused(s: string, x: Field<string>, m: nat)
    requires IsBuffer(s) && m + 1 < |s| && s[m] == ',' && ReadMembers(s, m + 1) == Fail
    ensures AfterMember(s, x, m) == Fail
  {
  }

  lemma ValueRefused(s: string, i: nat, k: nat, key: string, e: nat, c: nat)
    requires IsBuffer(s) && i < |s| && SkipAll(s, i) == k && s[k] != '}' && ReadString(s, k) == Ok(key, e)
    requires SkipAll(s, e) == c && s[c] == ':' && ReadValue(s, c + 1) == Fail
    ensures ReadMembers(s, i) == Fail
  {
  }

  /** A text of RFC 8259 without a backslash is accepted if and only if no string and no name
      in it is empty. */
  lemma AcceptsUnlessEmpty(lead: string, w: string, v: Json, trail: string)
    requires Ws(lead) && Denotes(w, v) && Ws(trail)
    ensures ReadValue(lead + w + trail + "\0", 0) == if NoneEmpty(v) then Ok(v, |lead + w|) else Fail
  {
    hide ReadAt, ReadValue, Denotes, Rfc, NoneEmpty, Spell, Tree, Skip, SkipAll, Ws;
    if NoneEmpty(v) {
      AcceptsRfc8259(lead, w, v, trail);
    } else {
      var c := Parse(w, v);
      var s := lead + w + trail + "\0";
      Starts(c);
      WsIsWhitespace(lead);
      assert s[0..|lead + w|] == lead + w;
      MatchesConcat(s, 0, lead, w);
      assert s[|lead|] == w[0];
      SkipsLead(s, 0, lead);
      RefusesAt(s, |lead|, c);
      ReadsFrom(s, 0, |lead|);
    }
  }
}
