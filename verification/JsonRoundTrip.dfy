/**
 For which values printing and parsing are inverse to each other.

 `near` is how strtof rounds a decimal to a float; the numbers a program can hold are its
 fixed points.
 */
module JsonRoundTrip {
  import opened JsonSyntax
  import opened JsonReading
  import opened JsonAcceptance
  import opened JsonSoundness
  import opened JsonNumbers
  import opened JsonPrinter

  /** A parsed value as a program holds it. */
  function Held(near: real -> real, v: Json): RealJson
    decreases v
  {
    match v
    case Null => Null
    case Bool(b) => Bool(b)
    case Number(w) => Number(near(Strtof(w)))
    case Str(t) => Str(t)
    case List(items) => List(HeldItems(near, items))
    case Object(members) => Object(HeldMembers(near, members))
  }

  function HeldItems(near: real -> real, items: seq<Json>): (r: seq<RealJson>)
    ensures |r| == |items|
    decreases items
  {
    if items == [] then [] else [Held(near, items[0])] + HeldItems(near, items[1..])
  }

  function HeldMembers(near: real -> real, members: seq<Field<string>>): (r: seq<Field<real>>)
    ensures |r| == |members|
    decreases members
  {
    if members == [] then []
    else [Member(members[0].key, Held(near, members[0].value))] + HeldMembers(near, members[1..])
  }

  /** Parsing the printed text succeeds, reads all of it and gives the value back. */
  predicate RoundTrips(near: real -> real, v: RealJson) {
    var text := Print(v);
    var r := ReadValue(text + "\0", 0);
    r.Ok? && r.next == |text| && Held(near, r.value) == v
  }

  /** No string, and no object with a member. */
  predicate Plain(v: RealJson)
    decreases v
  {
    match v
    case Str(_) => false
    case List(items) => PlainItems(items)
    case Object(members) => members == []
    case _ => true
  }

  predicate PlainItems(items: seq<RealJson>)
    decreases items
  {
    items != [] ==> Plain(items[0]) && PlainItems(items[1..])
  }

  /** Every number comes back from its printed decimals. */
  predicate NumbersReturn(near: real -> real, v: RealJson)
    decreases v
  {
    match v
    case Number(x) => near(Kept(x)) == x
    case List(items) => ItemsReturn(near, items)
    case _ => true
  }

  predicate ItemsReturn(near: real -> real, items: seq<RealJson>)
    decreases items
  {
    items != [] ==> NumbersReturn(near, items[0]) && ItemsReturn(near, items[1..])
  }

  // ------------------------------------------------ plain values are read back

  lemma DecimalIsLenient(sign: string, whole: string, frac: string)
    requires sign == "" || sign == "-"
    requires whole != "" && AllDigits(whole) && AllDigits(frac)
    ensures LenientNumber(sign + whole + "." + frac) && LenientNumber(sign + whole)
    ensures var c := (sign + whole)[0]; IsNumberStart(c)
  {
    var head := sign + whole;
    assert head[0] == if sign == "" then whole[0] else '-';
    assert forall k :: 0 <= k < |head| && IsSign(head[k]) ==> k == 0;
    assert IsDigit(head[|head| - 1]) by { assert head[|head| - 1] == whole[|whole| - 1]; }
    CountNone(head, '.');
    CountNone(head, 'e');
    CountNone(head, 'E');
    PointMarks(head, frac);
  }

  lemma PointMarks(head: string, frac: string)
    requires head != "" && IsDigit(head[|head| - 1]) && AllDigits(frac)
    requires forall k :: 0 <= k < |head| ==> IsDigit(head[k]) || IsSign(head[k])
    requires forall k :: 0 <= k < |head| && IsSign(head[k]) ==> k == 0
    ensures LenientNumber(head + "." + frac)
  {
    CountNone(head, '.');
    CountNone(head, 'e');
    CountNone(head, 'E');
    CountNone(frac, '.');
    CountNone(frac, 'e');
    CountNone(frac, 'E');
    CountConcat(head + ".", frac, '.');
    CountConcat(head + ".", frac, 'e');
    CountConcat(head + ".", frac, 'E');
    CountConcat(head, ".", '.');
    CountConcat(head, ".", 'e');
    CountConcat(head, ".", 'E');
    CountHead(".", '.');
    CountHead(".", 'e');
    CountHead(".", 'E');
    hide Count;
    var w := head + "." + frac;
    assert IsDigit(w[|head| - 1]);
  }

  /** What is printed of a number is one the parser accepts, even where it was cut off. */
  lemma PrintedNumberIsLenient(x: real)
    ensures var w := Clip(FormatF(x)); LenientNumber(w) && IsNumberStart(w[0])
  {
    hide Clip, Digits, Millionths, LenientNumber;
    var w := Digits(Millionths(x), DECIMALS + 1);
    var n, room := |w| - DECIMALS, Room(x);
    var sign := Sign(x < 0.0);
    Clipped(sign, w, n);
    if n < room {
      DecimalIsLenient(sign, w[..n], w[n..|w| - Lost(n, room)]);
    } else {
      DecimalIsLenient(sign, w[..|w| - Lost(n, room)], "");
    }
  }

  /** The tree of a printed text. */
  function PrintedTree(v: RealJson): Cst
    requires Plain(v)
    decreases v
  {
    match v
    case Null => CNull
    case Bool(b) => if b then CTrue else CFalse
    case Number(x) => CNumber(Clip(FormatF(x)))
    case List(items) => CList(PrintedItems(items), false, "")
    case Object(_) => CObject([], false, "")
  }

  function PrintedItems(items: seq<RealJson>): (r: seq<CItem>)
    requires PlainItems(items)
    ensures |r| == |items|
    decreases items
  {
    if items == [] then []
    else [CItem("", PrintedTree(items[0]), "")] + PrintedItems(items[1..])
  }

  lemma {:induction false} PrintedTreeSpells(v: RealJson)
    requires Plain(v)
    ensures Spell(PrintedTree(v)) == Print(v) && Lenient(PrintedTree(v))
    decreases v
  {
    hide Clip, FormatF, LenientNumber;
    match v
    case Number(x) => PrintedNumberIsLenient(x);
    case List(items) => PrintedItemsSpell(items);
    case Object(_) => assert SpellMembers([], false, "") == "}";
    case _ =>
  }

  lemma {:induction false} PrintedItemsSpell(items: seq<RealJson>)
    requires PlainItems(items)
    ensures SpellItems(PrintedItems(items), false, "") == PrintItems(items) + "]"
    ensures LenientItems(PrintedItems(items))
    decreases items
  {
    if items != [] {
      PrintedTreeSpells(items[0]);
      PrintedItemsSpell(items[1..]);
      FirstItemSpells(items);
    }
  }

  lemma FirstItemSpells(items: seq<RealJson>)
    requires PlainItems(items) && items != []
    requires Spell(PrintedTree(items[0])) == Print(items[0])
    requires SpellItems(PrintedItems(items[1..]), false, "") == PrintItems(items[1..]) + "]"
    ensures SpellItems(PrintedItems(items), false, "") == PrintItems(items) + "]"
  {
    FirstOf(items);
    hide Spell, Print, PrintedTree, PrintedItems, SpellItems, PrintItems;
    SpelledItems(PrintedItems(items), false, "");
    Joined(Print(items[0]), PrintItems(items[1..]));
  }

  lemma FirstOf(items: seq<RealJson>)
    requires PlainItems(items) && items != []
    ensures PrintedItems(items)[0] == CItem("", PrintedTree(items[0]), "")
    ensures PrintedItems(items)[1..] == PrintedItems(items[1..])
    ensures PrintItems(items) == Print(items[0]) + (if |items| > 1 then "," else "") + PrintItems(items[1..])
    ensures |items| == 1 ==> PrintItems(items[1..]) == ""
  {
  }

  lemma Joined(p: string, more: string)
    ensures "" + p + ("" + "]") == p + "" + "" + "]"
    ensures "" + p + ("" + ("," + (more + "]"))) == p + "," + more + "]"
  {
  }

  /** A plain value's text is read whole, number for number. */
  lemma PlainIsRead(v: RealJson)
    requires Plain(v)
    ensures ReadValue(Print(v) + "\0", 0) == Ok(Tree(PrintedTree(v)), |Print(v)|)
  {
    hide Print, ReadAt, ReadValue, Spell, Tree, Lenient, Follows;
    var text, c := Print(v), PrintedTree(v);
    var s := text + "\0";
    PrintedTreeSpells(v);
    assert "" + text == text && s[0..|text|] == text && s[|text|..|text|] == "";
    FollowsInside(s, c, |text|, "");
    AcceptsValue(s, 0, "", c);
  }

  lemma {:induction false} HeldPrinted(near: real -> real, v: RealJson)
    requires Plain(v)
    ensures Held(near, Tree(PrintedTree(v))) == v <==> NumbersReturn(near, v)
    decreases v
  {
    hide Strtof, Kept, Clip, FormatF;
    match v
    case Number(x) => PrintedValue(x);
    case List(items) => HeldPrintedItems(near, items);
    case _ =>
  }

  lemma {:induction false} HeldPrintedItems(near: real -> real, items: seq<RealJson>)
    requires PlainItems(items)
    ensures HeldItems(near, TreeItems(PrintedItems(items))) == items <==> ItemsReturn(near, items)
    decreases items
  {
    if items != [] {
      HeldPrinted(near, items[0]);
      HeldPrintedItems(near, items[1..]);
      var trees := PrintedItems(items);
      assert trees[1..] == PrintedItems(items[1..]);
      var held := HeldItems(near, TreeItems(trees));
      assert held[0] == Held(near, Tree(PrintedTree(items[0])));
      assert held[1..] == HeldItems(near, TreeItems(trees[1..]));
      assert held == items <==> held[0] == items[0] && held[1..] == items[1..];
    }
  }

  // -------------------------------------- values with strings never come back

  /** Strings and names without a quote, as the parser returns them. */
  predicate QuoteFree(v: RealJson)
    decreases v
  {
    match v
    case Str(t) => '\"' !in t
    case List(items) => QuoteFreeItems(items)
    case Object(members) => QuoteFreeMembers(members)
    case _ => true
  }

  predicate QuoteFreeItems(items: seq<RealJson>)
    decreases items
  {
    items != [] ==> QuoteFree(items[0]) && QuoteFreeItems(items[1..])
  }

  predicate QuoteFreeMembers(members: seq<Field<real>>)
    decreases members
  {
    members != [] ==>
      '\"' !in members[0].key && QuoteFree(members[0].value) && QuoteFreeMembers(members[1..])
  }

  lemma {:induction false} ParsedIsQuoteFree(near: real -> real, c: Cst)
    requires Lenient(c)
    ensures QuoteFree(Held(near, Tree(c)))
    decreases c
  {
    match c
    case CList(items, _, _) => ParsedItemsAreQuoteFree(near, items);
    case CObject(members, _, _) => ParsedMembersAreQuoteFree(near, members);
    case _ =>
  }

  lemma {:induction false} ParsedItemsAreQuoteFree(near: real -> real, items: seq<CItem>)
    requires LenientItems(items)
    ensures QuoteFreeItems(HeldItems(near, TreeItems(items)))
    decreases items
  {
    if items != [] {
      ParsedIsQuoteFree(near, items[0].value);
      ParsedItemsAreQuoteFree(near, items[1..]);
      assert TreeItems(items)[1..] == TreeItems(items[1..]);
      assert HeldItems(near, TreeItems(items))[1..] == HeldItems(near, TreeItems(items[1..]));
    }
  }

  lemma {:induction false} ParsedMembersAreQuoteFree(near: real -> real, members: seq<CMember>)
    requires LenientMembers(members)
    ensures QuoteFreeMembers(HeldMembers(near, TreeMembers(members)))
    decreases members
  {
    if members != [] {
      ParsedIsQuoteFree(near, members[0].value);
      ParsedMembersAreQuoteFree(near, members[1..]);
      assert TreeMembers(members)[1..] == TreeMembers(members[1..]);
      assert HeldMembers(near, TreeMembers(members))[1..] == HeldMembers(near, TreeMembers(members[1..]));
    }
  }

  lemma PrintedNumberHasNoQuote(x: real)
    ensures '\"' !in Clip(FormatF(x))
  {
    hide Clip, FormatF;
    PrintedNumberIsLenient(x);
  }

  lemma {:induction false} PrintHasNoQuote(v: RealJson)
    requires QuoteFree(v)
    ensures '\"' !in Print(v)
    decreases v
  {
    hide Clip, FormatF;
    match v
    case Number(x) => PrintedNumberHasNoQuote(x);
    case List(items) => PrintItemsHaveNoQuote(items);
    case Object(members) => PrintMembersHaveNoQuote(members);
    case _ =>
  }

  lemma {:induction false} PrintItemsHaveNoQuote(items: seq<RealJson>)
    requires QuoteFreeItems(items)
    ensures '\"' !in PrintItems(items)
    decreases items
  {
    if items != [] {
      PrintHasNoQuote(items[0]);
      PrintItemsHaveNoQuote(items[1..]);
    }
  }

  lemma {:induction false} PrintMembersHaveNoQuote(members: seq<Field<real>>)
    requires QuoteFreeMembers(members)
    ensures '\"' !in PrintMembers(members)
    decreases members
  {
    if members != [] {
      PrintHasNoQuote(members[0].value);
      PrintMembersHaveNoQuote(members[1..]);
    }
  }

  /** A text that is read as anything but a plain value holds a quote. */
  lemma {:induction false} SpellHasQuote(near: real -> real, c: Cst)
    requires !Plain(Held(near, Tree(c)))
    ensures '\"' in Spell(c)
    decreases c
  {
    match c
    case CString(text) => assert Spell(c)[0] == '\"';
    case CList(items, comma, space) =>
      SpellItemsHaveQuote(near, items, comma, space);
      assert Spell(c)[1..] == SpellItems(items, comma, space);
    case CObject(members, comma, space) =>
      assert Quote(members[0].key)[0] == '\"';
      SpelledMembers(members, comma, space);
    case _ =>
  }

  lemma {:induction false} SpellItemsHaveQuote(near: real -> real, items: seq<CItem>, comma: bool, space: string)
    requires !PlainItems(HeldItems(near, TreeItems(items)))
    ensures '\"' in SpellItems(items, comma, space)
    decreases items
  {
    var held := HeldItems(near, TreeItems(items));
    assert TreeItems(items)[1..] == TreeItems(items[1..]);
    assert held[0] == Held(near, Tree(items[0].value));
    assert held[1..] == HeldItems(near, TreeItems(items[1..]));
    if !Plain(held[0]) {
      SpellHasQuote(near, items[0].value);
    } else {
      SpellItemsHaveQuote(near, items[1..], comma, space);
      assert items[1..] != [];
    }
  }

  lemma OnlyPlainIsRead(near: real -> real, v: RealJson)
    requires RoundTrips(near, v)
    ensures Plain(v)
  {
    hide Plain, QuoteFree, Held, Print, Spell, Tree, Lenient, Follows, ReadAt;
    var text := Print(v);
    var s := text + "\0";
    var k := SkipAll(s, 0);
    var c := SoundAt(s, k);
    ParsedIsQuoteFree(near, c);
    PrintHasNoQuote(v);
    NoQuoteInside(s, k, Spell(c));
    NoQuoteIsPlain(near, c);
  }

  lemma NoQuoteInside(s: string, k: nat, w: string)
    requires Matches(s, k, w) && '\"' !in s
    ensures '\"' !in w
  {
  }

  lemma NoQuoteIsPlain(near: real -> real, c: Cst)
    requires '\"' !in Spell(c)
    ensures Plain(Held(near, Tree(c)))
  {
    if !Plain(Held(near, Tree(c))) {
      SpellHasQuote(near, c);
    }
  }

  // -------------------------------------------------------- the main theorems

  /** Parsing what was printed gives the value back exactly when it holds no string and no
      object with a member, and each of its numbers comes back from the decimals that are
      printed of it. */
  lemma RoundTripsIff(near: real -> real, v: RealJson)
    ensures RoundTrips(near, v) <==> Plain(v) && NumbersReturn(near, v)
  {
    hide Plain, Held, Print, ReadValue, NumbersReturn, Tree;
    if RoundTrips(near, v) {
      OnlyPlainIsRead(near, v);
    }
    if Plain(v) {
      PlainIsRead(v);
      HeldPrinted(near, v);
    }
  }

  /** Every number of v is printed without loss. */
  predicate ExactNumbers(v: RealJson)
    decreases v
  {
    match v
    case Number(x) => Exact(x)
    case List(items) => ExactItems(items)
    case _ => true
  }

  predicate ExactItems(items: seq<RealJson>)
    decreases items
  {
    items != [] ==> ExactNumbers(items[0]) && ExactItems(items[1..])
  }

  /** Without rounding: exactly when, besides, its numbers are multiples of 10^-6 short
      enough for the printer's buffer. */
  lemma RoundTripsExactly(v: RealJson)
    ensures RoundTrips(x => x, v) <==> Plain(v) && ExactNumbers(v)
  {
    RoundTripsIff(x => x, v);
    ReturnIsExact(v);
  }

  lemma {:induction false} ReturnIsExact(v: RealJson)
    ensures NumbersReturn(x => x, v) <==> ExactNumbers(v)
    decreases v
  {
    match v
    case Number(x) => KeptIff(x);
    case List(items) => ItemsReturnIsExact(items);
    case _ =>
  }

  lemma {:induction false} ItemsReturnIsExact(items: seq<RealJson>)
    ensures ItemsReturn(x => x, items) <==> ExactItems(items)
    decreases items
  {
    if items != [] {
      ReturnIsExact(items[0]);
      ItemsReturnIsExact(items[1..]);
    }
  }

  /** So the law fails for the simplest string, however numbers are rounded. */
  lemma StringDoesNotRoundTrip(near: real -> real)
    ensures !RoundTrips(near, Str("a"))
  {
    RoundTripsIff(near, Str("a"));
  }

  /** And for a number below half a millionth, which is printed as zero. */
  lemma SmallNumberDoesNotRoundTrip(near: real -> real)
    requires near(0.0) == 0.0
    ensures !RoundTrips(near, Number(0.0000001))
  {
    var x := 0.0000001;
    assert Tenfold(x, DECIMALS) == 0.1 by { SixTimesTenfold(x); }
    assert Millionths(x) == 0;
    NothingCut(Lost(1, Room(x)), Places(1, Room(x)));
    assert |Digits(0, DECIMALS + 1)| == DECIMALS + 1 by { DigitsOfCut(0, DECIMALS); NothingCut(DECIMALS, 0); }
    RoundTripsIff(near, Number(x));
  }

  lemma SixTimesTenfold(x: real)
    ensures Tenfold(x, DECIMALS) == x * 1_000_000.0
  {
    TenfoldTwice(x, 3, 3);
    assert Tenfold(x, 3) == Tenfold(x * 10.0, 2) == Tenfold(x * 100.0, 1) == x * 1000.0;
    var y := x * 1000.0;
    assert Tenfold(y, 3) == Tenfold(y * 10.0, 2) == Tenfold(y * 100.0, 1) == y * 1000.0;
  }

  lemma {:induction false} NothingCut(c: nat, k: nat)
    ensures Cut(0, c) == 0 && Tenth(0.0, k) == 0.0
    decreases c + k
  {
    if c > 0 {
      NothingCut(c - 1, k);
    } else if k > 0 {
      NothingCut(0, k - 1);
    }
  }
}
