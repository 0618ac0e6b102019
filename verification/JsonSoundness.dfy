/**
 Every successful parse read a text of the lenient grammar; with JsonAcceptance, the
 exact description of what the reader accepts, and the promise for RFC 8259 texts.
 */
module JsonSoundness {
  import opened JsonSyntax
  import opened JsonReading
  import opened JsonAcceptance
  import opened Rfc8259

  lemma MatchesSlice(s: string, i: nat, j: nat)
    requires i <= j <= |s|
    ensures Matches(s, i, s[i..j])
  {
  }

  /** Pieces that lie one after the other spell their concatenation. */
  lemma Join(s: string, i: nat, lead: string, text: string, trail: string, rest: string)
    requires Matches(s, i, lead) && Matches(s, i + |lead|, text)
    requires Matches(s, i + |lead| + |text|, trail)
    requires Matches(s, i + |lead| + |text| + |trail|, rest)
    ensures Matches(s, i, lead + text + (trail + rest))
  {
  }

  lemma StringRead(s: string, i: nat)
    requires IsBuffer(s) && i < |s| && ReadString(s, i).Ok?
    ensures var r := ReadString(s, i);
      && LenientString(r.value)
      && Matches(s, i, Quote(r.value))
      && r.next == i + |Quote(r.value)|
  {
  }

  /** The text of a value that was read, as a tree of the grammar. */
  lemma {:induction false} SoundAt(s: string, k: nat) returns (c: Cst)
    requires IsBuffer(s) && k < |s| && ReadAt(s, k).Ok?
    ensures Lenient(c) && Tree(c) == ReadAt(s, k).value
    ensures Matches(s, k, Spell(c)) && ReadAt(s, k).next == k + |Spell(c)|
    ensures Follows(s, c, ReadAt(s, k).next)
    decreases |s| - k, 1
  {
    hide ReadItems, ReadMembers, SpellItems, SpellMembers, TreeItems, TreeMembers, LenientItems, LenientMembers, Skip;
    if s[k] == '[' {
      var items, comma, space := SoundItems(s, k + 1);
      c := CList(items, comma, space);
      MatchesConcat(s, k, "[", SpellItems(items, comma, space));
    } else if s[k] == '{' {
      var members, comma, space := SoundMembers(s, k + 1);
      c := CObject(members, comma, space);
      MatchesConcat(s, k, "{", SpellMembers(members, comma, space));
    } else {
      c := SoundScalar(s, k);
    }
  }

  lemma SoundScalar(s: string, k: nat) returns (c: Cst)
    requires IsBuffer(s) && k < |s| && ReadAt(s, k).Ok? && s[k] != '[' && s[k] != '{'
    ensures Lenient(c) && Tree(c) == ReadAt(s, k).value
    ensures Matches(s, k, Spell(c)) && ReadAt(s, k).next == k + |Spell(c)|
    ensures Follows(s, c, ReadAt(s, k).next)
  {
    hide ReadItems, ReadMembers, Skip;
    if s[k] == '\"' {
      StringRead(s, k);
      c := CString(ReadString(s, k).value);
    } else if IsNumberStart(s[k]) || s[k] == '.' {
      c := CNumber(s[k..NumberEnd(s, k)]);
    } else if s[k] == 'n' {
      c := CNull;
    } else {
      c := if ReadBoolean(s, k).value == Bool(true) then CTrue else CFalse;
    }
  }

  lemma {:induction false} SoundItems(s: string, i: nat) returns (items: seq<CItem>, comma: bool, space: string)
    requires IsBuffer(s) && i < |s| && ReadItems(s, i).Ok?
    ensures Closing(|items|, comma, space) && LenientItems(items)
    ensures TreeItems(items) == ReadItems(s, i).value
    ensures Matches(s, i, SpellItems(items, comma, space))
    ensures ReadItems(s, i).next == i + |SpellItems(items, comma, space)|
    decreases |s| - i, 3
  {
    var k := SkipAll(s, i);
    if s[k] == ']' {
      items, comma, space := [], false, s[i..k];
      MatchesConcat(s, i, space, "]");
    } else {
      items, comma, space := SoundSomeItems(s, i, k);
    }
  }

  /** What reading an item says of its value, from k to j, and of what follows at m. */
  lemma ItemWasRead(s: string, i: nat, k: nat) returns (v: Json, j: nat, m: nat)
    requires IsBuffer(s) && i < |s| && ReadItems(s, i).Ok?
    requires k == SkipAll(s, i) && s[k] != ']'
    ensures ReadAt(s, k) == Ok(v, j) && k < j <= m < |s| && m == SkipAll(s, j)
    ensures s[m] == ']' ==> ReadItems(s, i) == Ok([v], m + 1)
    ensures s[m] != ']' ==>
              && s[m] == ',' && m + 1 < |s| && ReadItems(s, m + 1).Ok?
              && ReadItems(s, i) == Ok([v] + ReadItems(s, m + 1).value, ReadItems(s, m + 1).next)
  {
    SkipNothing(s, k);
    v, j := ReadAt(s, k).value, ReadAt(s, k).next;
    m := SkipAll(s, j);
  }

  /** An item put before others, with the text it was read from. */
  lemma ConsItems(s: string, i: nat, x: CItem, rest: seq<CItem>, comma: bool, space: string)
    requires AllWhitespace(x.lead) && AllWhitespace(x.trail) && Lenient(x.value)
    requires Closing(1 + |rest|, comma, space) && LenientItems(rest)
    requires Matches(s, i, x.lead) && Matches(s, i + |x.lead|, Spell(x.value))
    requires var j := i + |x.lead| + |Spell(x.value)|;
      && Matches(s, j, x.trail)
      && Matches(s, j + |x.trail|, Rest(IsLast(1 + |rest|, comma), "]", SpellItems(rest, comma, space)))
    ensures var items := [x] + rest;
      && LenientItems(items)
      && TreeItems(items) == [Tree(x.value)] + TreeItems(rest)
      && Matches(s, i, SpellItems(items, comma, space))
      && |SpellItems(items, comma, space)| == |x.lead| + |Spell(x.value)| + |x.trail|
         + |Rest(IsLast(1 + |rest|, comma), "]", SpellItems(rest, comma, space))|
  {
    hide Spell, SpellItems;
    var items := [x] + rest;
    assert items[1..] == rest;
    Join(s, i, x.lead, Spell(x.value), x.trail, Rest(IsLast(|items|, comma), "]", SpellItems(rest, comma, space)));
    SpelledItems(items, comma, space);
  }

  /** With nothing before the closing bracket a last comma changes nothing. */
  lemma NoItems(comma: bool, space: string)
    ensures SpellItems([], comma, space) == SpellItems([], true, space)
    ensures SpellMembers([], comma, space) == SpellMembers([], true, space)
  {
  }

  lemma {:induction false} SoundSomeItems(s: string, i: nat, k: nat)
    returns (items: seq<CItem>, comma: bool, space: string)
    requires IsBuffer(s) && i < |s| && ReadItems(s, i).Ok?
    requires k == SkipAll(s, i) && s[k] != ']'
    ensures Closing(|items|, comma, space) && LenientItems(items)
    ensures TreeItems(items) == ReadItems(s, i).value
    ensures Matches(s, i, SpellItems(items, comma, space))
    ensures ReadItems(s, i).next == i + |SpellItems(items, comma, space)|
    decreases |s| - i, 2
  {
    hide ReadItems, ReadAt, AfterItem, Follows, Spell, Lenient, Tree, Skip, SpellItems, LenientItems, Matches;
    var v, j, m := ItemWasRead(s, i, k);
    var c := SoundAt(s, k);
    var x := CItem(s[i..k], c, s[j..m]);
    MatchesSlice(s, i, k);
    MatchesSlice(s, j, m);
    var rest;
    rest, comma, space := SoundMoreItems(s, m);
    ConsItems(s, i, x, rest, comma, space);
    items := [x] + rest;
  }

  /** What was read after an item, from its comma or the closing bracket on. */
  lemma {:induction false} SoundMoreItems(s: string, m: nat)
    returns (items: seq<CItem>, comma: bool, space: string)
    requires IsBuffer(s) && m < |s| && (s[m] == ']' || (s[m] == ',' && m + 1 < |s| && ReadItems(s, m + 1).Ok?))
    ensures LenientItems(items) && Closing(1 + |items|, comma, space)
    ensures s[m] == ']' ==> TreeItems(items) == []
    ensures s[m] == ',' ==> TreeItems(items) == ReadItems(s, m + 1).value
    ensures var rest := Rest(IsLast(1 + |items|, comma), "]", SpellItems(items, comma, space));
      && Matches(s, m, rest)
      && m + |rest| == if s[m] == ']' then m + 1 else ReadItems(s, m + 1).next
    decreases |s| - m, 0
  {
    hide ReadItems, SpellItems, LenientItems;
    if s[m] == ']' {
      items, comma, space := [], false, "";
      NoMore();
    } else {
      items, comma, space := SoundItems(s, m + 1);
      if items == [] {
        NoItems(comma, space);
        comma := true;
      }
      MatchesConcat(s, m, ",", SpellItems(items, comma, space));
    }
  }

  lemma NoMore()
    ensures LenientItems([]) && TreeItems([]) == [] && LenientMembers([]) && TreeMembers([]) == []
  {
  }

  lemma {:induction false} SoundMembers(s: string, i: nat) returns (members: seq<CMember>, comma: bool, space: string)
    requires IsBuffer(s) && i < |s| && ReadMembers(s, i).Ok?
    ensures Closing(|members|, comma, space) && LenientMembers(members)
    ensures TreeMembers(members) == ReadMembers(s, i).value
    ensures Matches(s, i, SpellMembers(members, comma, space))
    ensures ReadMembers(s, i).next == i + |SpellMembers(members, comma, space)|
    decreases |s| - i, 3
  {
    var k := SkipAll(s, i);
    if s[k] == '}' {
      members, comma, space := [], false, s[i..k];
      MatchesConcat(s, i, space, "}");
    } else {
      members, comma, space := SoundSomeMembers(s, i, k);
    }
  }

  /** What reading a member says of its key, from k to e, the colon at n, its value, from
      u to j, and of what follows at m. */
  lemma MemberWasRead(s: string, i: nat, k: nat)
    returns (key: string, e: nat, n: nat, u: nat, v: Json, j: nat, m: nat)
    requires IsBuffer(s) && i < |s| && ReadMembers(s, i).Ok?
    requires k == SkipAll(s, i) && s[k] != '}'
    ensures k < e <= n < u < j <= m < |s|
    ensures ReadString(s, k) == Ok(key, e) && n == SkipAll(s, e) && s[n] == ':' && u == SkipAll(s, n + 1)
    ensures ReadAt(s, u) == Ok(v, j) && m == SkipAll(s, j)
    ensures s[m] == '}' ==> ReadMembers(s, i) == Ok([Member(key, v)], m + 1)
    ensures s[m] != '}' ==>
              && s[m] == ',' && m + 1 < |s| && ReadMembers(s, m + 1).Ok?
              && ReadMembers(s, i) ==
                 Ok([Member(key, v)] + ReadMembers(s, m + 1).value, ReadMembers(s, m + 1).next)
  {
    hide ReadAt, ReadValue, ReadMembers, AfterKey, AfterMember, Skip;
    key, e := KeyWasRead(s, i, k);
    n := SkipAll(s, e);
    ValueWasRead(s, key, n);
    u := SkipAll(s, n + 1);
    v, j := ReadAt(s, u).value, ReadAt(s, u).next;
    m := SkipAll(s, j);
    RestWasRead(s, Member(key, v), m);
  }

  lemma KeyWasRead(s: string, i: nat, k: nat) returns (key: string, e: nat)
    requires IsBuffer(s) && i < |s| && ReadMembers(s, i).Ok?
    requires k == SkipAll(s, i) && s[k] != '}'
    ensures ReadString(s, k) == Ok(key, e)
    ensures ReadMembers(s, i) == AfterKey(s, key, SkipAll(s, e))
  {
    key, e := ReadString(s, k).value, ReadString(s, k).next;
  }

  lemma RestWasRead(s: string, x: Field<string>, m: nat)
    requires IsBuffer(s) && m < |s| && AfterMember(s, x, m).Ok?
    ensures s[m] == '}' ==> AfterMember(s, x, m) == Ok([x], m + 1)
    ensures s[m] != '}' ==>
              && s[m] == ',' && m + 1 < |s| && ReadMembers(s, m + 1).Ok?
              && AfterMember(s, x, m) == Ok([x] + ReadMembers(s, m + 1).value, ReadMembers(s, m + 1).next)
  {
  }

  lemma ValueWasRead(s: string, key: string, n: nat)
    requires IsBuffer(s) && n < |s| && AfterKey(s, key, n).Ok?
    ensures s[n] == ':' && ReadAt(s, SkipAll(s, n + 1)).Ok?
    ensures var r := ReadAt(s, SkipAll(s, n + 1));
      AfterKey(s, key, n) == AfterMember(s, Member(key, r.value), SkipAll(s, r.next))
  {
  }

  /** A member put before others, with the text it was read from. */
  lemma ConsMembers(s: string, i: nat, x: CMember, rest: seq<CMember>, comma: bool, space: string)
    requires AllWhitespace(x.lead) && AllWhitespace(x.mid) && AllWhitespace(x.pad) && AllWhitespace(x.trail)
    requires LenientString(x.key) && Lenient(x.value)
    requires Closing(1 + |rest|, comma, space) && LenientMembers(rest)
    requires Matches(s, i, x.lead + Quote(x.key) + (x.mid + (":" + (x.pad + Spell(x.value) + (x.trail
               + Rest(IsLast(1 + |rest|, comma), "}", SpellMembers(rest, comma, space)))))))
    ensures var members := [x] + rest;
      && LenientMembers(members)
      && TreeMembers(members) == [Member(x.key, Tree(x.value))] + TreeMembers(rest)
      && Matches(s, i, SpellMembers(members, comma, space))
      && |SpellMembers(members, comma, space)| ==
         |x.lead| + |Quote(x.key)| + |x.mid| + 1 + |x.pad| + |Spell(x.value)| + |x.trail|
         + |Rest(IsLast(1 + |rest|, comma), "}", SpellMembers(rest, comma, space))|
  {
  }

  lemma {:induction false} SoundSomeMembers(s: string, i: nat, k: nat)
    returns (members: seq<CMember>, comma: bool, space: string)
    requires IsBuffer(s) && i < |s| && ReadMembers(s, i).Ok?
    requires k == SkipAll(s, i) && s[k] != '}'
    ensures Closing(|members|, comma, space) && LenientMembers(members)
    ensures TreeMembers(members) == ReadMembers(s, i).value
    ensures Matches(s, i, SpellMembers(members, comma, space))
    ensures ReadMembers(s, i).next == i + |SpellMembers(members, comma, space)|
    decreases |s| - i, 2
  {
    hide ReadMembers, ReadAt, AfterMember, Follows, Spell, Lenient, Tree, Skip, SpellMembers, LenientMembers,
      ReadString, Quote, Matches, LenientString, TreeMembers, SkipAll, Closing, Rest, IsLast;
    var key, e, n, u, v, j, m := MemberWasRead(s, i, k);
    StringRead(s, k);
    var c := SoundAt(s, u);
    var x := CMember(s[i..k], key, s[e..n], s[n + 1..u], c, s[j..m]);
    MatchesSlice(s, i, k);
    MatchesSlice(s, e, n);
    MatchesSlice(s, n + 1, u);
    MatchesSlice(s, j, m);
    Colon(s, n);
    var rest;
    rest, comma, space := SoundMoreMembers(s, m);
    JoinMember(s, i, x, Rest(IsLast(1 + |rest|, comma), "}", SpellMembers(rest, comma, space)));
    ConsMembers(s, i, x, rest, comma, space);
    members := [x] + rest;
  }

  lemma Colon(s: string, n: nat)
    requires n < |s| && s[n] == ':'
    ensures Matches(s, n, ":")
  {
  }

  /** What was read after a member, from its comma or the closing brace on. */
  lemma {:induction false} SoundMoreMembers(s: string, m: nat)
    returns (members: seq<CMember>, comma: bool, space: string)
    requires IsBuffer(s) && m < |s| && (s[m] == '}' || (s[m] == ',' && m + 1 < |s| && ReadMembers(s, m + 1).Ok?))
    ensures LenientMembers(members) && Closing(1 + |members|, comma, space)
    ensures s[m] == '}' ==> TreeMembers(members) == []
    ensures s[m] == ',' ==> TreeMembers(members) == ReadMembers(s, m + 1).value
    ensures var rest := Rest(IsLast(1 + |members|, comma), "}", SpellMembers(members, comma, space));
      && Matches(s, m, rest)
      && m + |rest| == if s[m] == '}' then m + 1 else ReadMembers(s, m + 1).next
    decreases |s| - m, 0
  {
    hide ReadMembers, SpellMembers, LenientMembers;
    if s[m] == '}' {
      members, comma, space := [], false, "";
      NoMore();
    } else {
      members, comma, space := SoundMembers(s, m + 1);
      if members == [] {
        NoItems(comma, space);
        comma := true;
      }
      MatchesConcat(s, m, ",", SpellMembers(members, comma, space));
    }
  }

  lemma JoinMember(s: string, i: nat, x: CMember, rest: string)
    requires Matches(s, i, x.lead) && Matches(s, i + |x.lead|, Quote(x.key))
    requires var e := i + |x.lead| + |Quote(x.key)|;
      && Matches(s, e, x.mid)
      && var n := e + |x.mid|;
         && Matches(s, n, ":") && Matches(s, n + 1, x.pad)
         && var u := n + 1 + |x.pad|;
            && Matches(s, u, Spell(x.value))
            && Matches(s, u + |Spell(x.value)|, x.trail)
            && Matches(s, u + |Spell(x.value)| + |x.trail|, rest)
    ensures Matches(s, i, x.lead + Quote(x.key) + (x.mid + (":" + (x.pad + Spell(x.value) + (x.trail + rest)))))
  {
    hide Spell, Quote, Matches;
    var n := i + |x.lead| + |Quote(x.key)| + |x.mid|;
    var value := x.pad + Spell(x.value) + (x.trail + rest);
    Join(s, n + 1, x.pad, Spell(x.value), x.trail, rest);
    MatchesConcat(s, n, ":", value);
    Join(s, i, x.lead, Quote(x.key), x.mid, ":" + value);
  }

  // -------------------------------------------------------- the main theorems

  /** From i to j the buffer holds white space and a lenient text, followed as that text
      demands. */
  ghost predicate Derives(s: string, i: nat, j: nat, lead: string, c: Cst)
    requires IsBuffer(s)
  {
    && Lenient(c) && Reads(s, i, lead, c)
    && j == i + |lead + Spell(c)| && j < |s| && Follows(s, c, j)
  }

  /** The reader succeeds exactly on the texts of the lenient grammar; it stops where the
      text ends and returns the tree the grammar gives it. What comes after is not read. */
  lemma ReaderIsExact(s: string, i: nat, v: Json, j: nat)
    requires IsBuffer(s) && i < |s|
    ensures ReadValue(s, i) == Ok(v, j) <==> exists lead, c :: Derives(s, i, j, lead, c) && Tree(c) == v
  {
    hide ReadAt, ReadValue, Lenient, Spell, Tree, Follows;
    if ReadValue(s, i) == Ok(v, j) {
      var lead, c := Derivation(s, i);
    }
    forall lead, c | Derives(s, i, j, lead, c) ensures ReadValue(s, i) == Ok(Tree(c), j) {
      AcceptsValue(s, i, lead, c);
    }
  }

  lemma Derivation(s: string, i: nat) returns (lead: string, c: Cst)
    requires IsBuffer(s) && i < |s| && ReadValue(s, i).Ok?
    ensures Derives(s, i, ReadValue(s, i).next, lead, c) && Tree(c) == ReadValue(s, i).value
  {
    hide ReadAt, Lenient, Spell, Tree, Follows;
    var k := SkipAll(s, i);
    c := SoundAt(s, k);
    lead := s[i..k];
    MatchesConcat(s, i, lead, Spell(c));
  }

  /** Every text of RFC 8259 whose strings and names are not empty and hold no backslash
      is accepted, with members and elements in order and each number's own text. */
  lemma AcceptsRfc8259(lead: string, w: string, v: Json, trail: string)
    requires Ws(lead) && Denotes(w, v) && NoneEmpty(v) && Ws(trail)
    ensures ReadValue(lead + w + trail + "\0", 0) == Ok(v, |lead + w|)
  {
    hide ReadAt, ReadValue, Spell, Tree, Denotes, NoneEmpty, Rfc, Lenient, Follows, Ws;
    var text := lead + w;
    var s := text + trail + "\0";
    var c := Parse(w, v);
    RfcIsLenient(c);
    WsIsWhitespace(lead);
    WsIsWhitespace(trail);
    assert s[0..|text|] == text;
    assert s[|text|..|text| + |trail|] == trail;
    FollowsInside(s, c, |text|, trail);
    AcceptsValue(s, 0, lead, c);
  }

  /** The reader is looser than RFC 8259, which has no comma before a closing bracket: every
      lenient list or object that is not empty may end with one, and is read as without it. */
  lemma AcceptsLastComma(s: string, i: nat, lead: string, c: Cst)
    requires IsBuffer(s) && (c.CList? || c.CObject?) && Lenient(c) && c.comma && Reads(s, i, lead, c)
    ensures !Rfc(c)
    ensures i < |s| && ReadValue(s, i) == Ok(Tree(c), i + |lead + Spell(c)|)
    ensures var trimmed := c.(comma := false, space := ""); Lenient(trimmed) && Tree(trimmed) == Tree(c)
  {
    hide ReadAt, RfcItems, RfcMembers, LenientItems, LenientMembers, Spell;
    MatchesConcat(s, i, lead, Spell(c));
    AcceptsBrackets(s, i + |lead|, c);
    SkipsLead(s, i, lead);
  }

  lemma AcceptsBrackets(s: string, k: nat, c: Cst)
    requires IsBuffer(s) && (c.CList? || c.CObject?) && Lenient(c) && Matches(s, k, Spell(c))
    ensures k < |s| && !IsWhitespace(s[k]) && ReadAt(s, k) == Ok(Tree(c), k + |Spell(c)|)
  {
    hide ReadAt, LenientItems, LenientMembers, SpellItems, SpellMembers, TreeItems, TreeMembers;
    match c
    case CList(items, comma, space) =>
      MatchesConcat(s, k, "[", SpellItems(items, comma, space));
      MatchesChar(s, k, '[');
      AcceptsList(s, k, items, comma, space);
    case CObject(members, comma, space) =>
      MatchesConcat(s, k, "{", SpellMembers(members, comma, space));
      MatchesChar(s, k, '{');
      AcceptsObject(s, k, members, comma, space);
  }
}
