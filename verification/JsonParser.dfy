/**
 The recursive-descent parser of include/cerialize/cerialize.h, with its cursor and
 its failure flag, proved against the functions of JsonReading.
 */
module JsonParser {
  import opened Prelude
  import opened JsonSyntax
  import opened JsonReading
  import opened JsonAcceptance
  import opened JsonSoundness

  class Parser {
    const s: string
    const length: nat
    var i: nat
    var failure: bool

    /** The cursor never passes the NUL at index `length`. */
    predicate Valid()
      reads this
    {
      IsBuffer(s) && length == |s| - 1 && i <= length
    }

    /** deserialize_json: a fresh cursor at the start of the text. */
    constructor (s: string)
      requires IsBuffer(s)
      ensures Valid() && this.s == s && i == 0 && !failure
    {
      this.s, length, i, failure := s, |s| - 1, 0, false;
    }

    /** How a routine leaves the parser: on success just past what it read, on failure
        with the flag set and the cursor still inside the buffer. */
    twostate predicate Did<T>(new r: Parsed<T>)
      reads this
    {
      && Valid()
      && old(i) <= i
      && match r
         case Ok(_, next) => i == next && failure == old(failure)
         case Fail => failure
    }

    method SkipWhitespace(n: nat, start: nat) returns (r: nat)
      requires Valid() && start <= length && n <= length
      ensures r == Skip(s, n, start)
    {
      r := start;
      while IsWhitespace(s[r]) && r < n
        invariant start <= r <= length
        invariant Skip(s, n, start) == Skip(s, n, r)
        decreases length - r
      {
        r := r + 1;
      }
    }

    method ParseString() returns (text: Option<string>)
      requires Valid()
      modifies this
      ensures Did(ReadString(s, old(i)))
      ensures text == match ReadString(s, old(i)) case Ok(t, _) => Some(t) case Fail => None
    {
      if s[i] != '\"' {
        failure := true;
        return None;
      }
      i := i + 1;
      var size, foundEnd, foundNewline := 0, false, false;
      var j := i;
      while !foundEnd && !foundNewline
        invariant i == old(i) + 1 && i <= j <= length && failure == old(failure)
        invariant size == j - i
        invariant foundEnd ==> s[j] == '\"'
        invariant foundNewline ==> IsNewline(s[j])
        invariant StringEnd(s, i) == StringEnd(s, j)
        decreases length - j, !foundEnd && !foundNewline
      {
        if j >= length {
          failure := true;
          return None;
        }
        if IsNewline(s[j]) {
          foundNewline := true;
        } else if s[j] == '\"' {
          foundEnd := true;
        } else {
          size := size + 1;
          j := j + 1;
        }
      }
      if size == 0 || foundNewline {
        failure := true;
        return None;
      }
      text := Some(s[i..i + size]);
      i := i + size + 1;
    }

    method ParseNull()
      requires Valid()
      modifies this
      ensures Did(ReadNull(s, old(i)))
    {
      if !Matches(s, i, "null") {
        failure := true;
        return;
      }
      if !IsDelimiter(s[i + 4]) {
        failure := true;
        return;
      }
      i := i + 4;
      var n := StrLen(s);
      var j := SkipWhitespace(n, i);
      assert NULLS[0] == "null";
      if Matches(s, j, "null") {
        failure := true;
      }
    }

    /** The result is what the source returns; only `failure` tells whether it counts. */
    method ParseBoolean() returns (value: bool)
      requires Valid()
      modifies this
      ensures Did(ReadBoolean(s, old(i)))
      ensures ReadBoolean(s, old(i)).Ok? ==> ReadBoolean(s, old(i)).value == Bool(value)
    {
      hide Skip, StrLen, ReadBoolean, Matches;
      BooleanIs(s, i);
      value := false;
      if Matches(s, i, "true") {
        if !IsDelimiter(s[i + 4]) {
          failure := true;
          return;
        }
        i := i + 4;
        value := true;
      } else if Matches(s, i, "false") {
        if !IsDelimiter(s[i + 5]) {
          failure := true;
          return;
        }
        i := i + 5;
      } else {
        failure := true;
        return;
      }
      var n := StrLen(s);
      var j := SkipWhitespace(n, i);
      if Matches(s, j, "true") || Matches(s, j, "false") {
        failure := true;
        value := false;
      }
    }

    /** The scan loop's checks on one character. */
    method ScanChar(c: char, periods0: nat, es0: nat, afterE0: bool)
      returns (ok: bool, periods: nat, es: nat, afterE: bool)
      requires IsNumberChar(c) && periods0 <= 1 && es0 <= 1
      ensures ok <==>
        && periods0 + (if c == '.' then 1 else 0) <= 1
        && es0 + (if IsE(c) then 1 else 0) <= 1
        && !(afterE0 && c == '.')
      ensures ok ==> periods == periods0 + if c == '.' then 1 else 0
      ensures ok ==> es == es0 + if IsE(c) then 1 else 0
      ensures ok ==> afterE == IsE(c)
    {
      ok, periods, es, afterE := true, periods0, es0, afterE0;
      if IsDigit(c) {
        afterE := false;
      }
      if c == '.' {
        periods := periods + 1;
        if periods > 1 {
          ok := false;
          return;
        }
      }
      if IsE(c) {
        es := es + 1;
        afterE := true;
        if es > 1 {
          ok := false;
          return;
        }
      }
      if afterE && !IsE(c) {
        if !(IsDigit(c) || IsSign(c)) {
          ok := false;
          return;
        }
        afterE := false;
      }
    }

    /** The scan loop, from the character at `from` on; a sign may precede it. */
    method ScanNumber(start: nat, from: nat) returns (ok: bool, j: nat, foundDigit: bool)
      requires Valid() && start <= from <= start + 1 && from <= length
      requires IsSign(s[start]) <==> from > start
      requires !IsSign(s[from])
      ensures j <= length
      ensures !ok ==> ReadNumber(s, start) == Fail
      ensures ok ==> j == NumberEnd(s, start) && NumberPrefix(s[start..j])
      ensures ok ==> (foundDigit <==> exists k :: 0 <= k < |s[start..j]| && IsDigit(s[start..j][k]))
    {
      hide NumberPrefix, LenientNumber, Count, ReadNumber, Scanned, NumberEnd;
      var periods, es, afterE := 0, 0, false;
      foundDigit, j := false, from;
      NothingScanned();
      if from > start {
        SignScanned(s[start]);
        assert s[start..from] == [s[start]];
      } else {
        assert s[start..from] == "";
      }
      while j < length && IsNumberChar(s[j])
        invariant from <= j <= NumberEnd(s, start)
        invariant Scanned(s[start..j], foundDigit, periods, es, afterE)
        invariant j == start + 1 && IsSign(s[start]) ==> !IsSign(s[j])
        decreases length - j
      {
        var c := s[j];
        assert s[start..j + 1] == s[start..j] + [c];
        ScannedStep(s[start..j], c, foundDigit, periods, es, afterE);
        ok, periods, es, afterE := ScanChar(c, periods, es, afterE);
        if !ok {
          RefusedEarly(s, start, j);
          return;
        }
        foundDigit := foundDigit || IsDigit(c);
        j := j + 1;
      }
      ScannedAll(s[start..j], foundDigit, periods, es, afterE);
      ok := true;
    }

    /** The float itself is left out; the result is the text that was scanned. The source
        hands strtof the rest of the buffer: where `0` is followed by `x` and hexadecimal
        digits, which only happens at the root, the float comes from more than this text. */
    method ParseNumber() returns (lexeme: string)
      requires Valid()
      modifies this
      ensures Did(ReadNumber(s, old(i)))
      ensures ReadNumber(s, old(i)).Ok? ==> ReadNumber(s, old(i)).value == lexeme
    {
      var start := i;
      lexeme := "";
      if i < length && IsSign(s[i]) {
        i := i + 1;
        if i < length && IsSign(s[i]) {
          TwoSigns(s, start);
          failure := true;
          return;
        }
      }
      var ok, j, foundDigit := ScanNumber(start, i);
      i := if j < i then i else j;
      if !ok || !foundDigit {
        failure := true;
        return;
      }
      if i > start && IsE(s[i - 1]) {
        assert s[start..i][|s[start..i]| - 1] == s[i - 1];
        failure := true;
        return;
      }
      lexeme := s[start..i];
    }

    /** parse_json_object. On failure the value is of no use; the caller must look at
        `failure`. */
    method ParseValue() returns (value: Json)
      requires Valid() && !failure
      modifies this
      ensures Did(ReadValue(s, old(i)))
      ensures ReadValue(s, old(i)).Ok? ==> ReadValue(s, old(i)).value == value
      decreases length - i, 2
    {
      hide ReadItems, ReadMembers, ReadNumber, ReadString, ReadNull, ReadBoolean;
      i := SkipWhitespace(length, i);
      var c := s[i];
      if c == '\"' {
        var text := ParseString();
        return Str(if text.Some? then text.value else "");
      }
      if IsNumberStart(c) || c == '.' {
        var lexeme := ParseNumber();
        return Number(lexeme);
      }
      if c == 'n' {
        ParseNull();
        NullValue(s, old(i));
        return Null;
      }
      if c == 't' || c == 'f' {
        var b := ParseBoolean();
        return Bool(b);
      }
      if c == '[' {
        SkipNothing(s, i);
        var items := ParseList();
        return List(items);
      }
      if c != '{' {
        failure := true;
        return Object([]);
      }
      var members := ParseObject();
      return Object(members);
    }

    /** json_parse_list. */
    method ParseList() returns (list: seq<Json>)
      requires Valid() && !failure
      modifies this
      ensures Did(ReadList(s, old(i)))
      ensures ReadList(s, old(i)).Ok? ==> ReadList(s, old(i)).value == list
      decreases length - i, 1
    {
      hide ReadItems, Skip;
      list := [];
      i := SkipWhitespace(length, i);
      if s[i] != '[' {
        failure := true;
        return;
      }
      i := i + 1;
      ghost var start := i;
      PrependTwice([], [], ReadItems(s, i));
      while i < length
        invariant Valid() && !failure && start <= i
        invariant ReadItems(s, start) == Prepend(list, ReadItems(s, i))
        decreases length - i
      {
        var items, closed := ListTurn();
        if failure {
          return [];
        }
        PrependTwice(list, items, ReadItems(s, i));
        list := list + items;
        if closed {
          return;
        }
      }
      NothingAtEnd(s);
      failure := true;
      list := [];
    }

    /** One turn of its loop: the item read, if any, and whether the list was closed. */
    method ListTurn() returns (items: seq<Json>, closed: bool)
      requires Valid() && !failure && i < length
      modifies this
      ensures Valid() && old(i) <= i && (!failure ==> old(i) < i)
      ensures failure ==> ReadItems(s, old(i)) == Fail
      ensures !failure ==>
                ReadItems(s, old(i)) == if closed then Ok(items, i) else Prepend(items, ReadItems(s, i))
      decreases length - i, 3
    {
      hide ReadItems, ReadValue, AfterItem, Skip;
      closed, items := false, [];
      ListHead(s, i);
      SkipTwice(s, i);
      i := SkipWhitespace(length, i);
      if s[i] == ']' {
        i, closed := i + 1, true;
        return;
      }
      ghost var k := i;
      var value := ParseValue();
      if failure {
        return;
      }
      ListStep(s, k, value, i);
      items := [value];
      closed := ListDelimiter(value);
    }

    /** What follows an item: its comma or the closing bracket. */
    method ListDelimiter(ghost v: Json) returns (closed: bool)
      requires Valid() && !failure
      modifies this
      ensures Valid() && old(i) <= i
      ensures var r := AfterItem(s, v, SkipAll(s, old(i)));
        if failure then r == Fail
        else r == if closed then Ok([v], i) else Prepend([v], ReadItems(s, i))
    {
      hide ReadItems, ReadValue, ReadAt, Skip;
      closed := false;
      i := SkipWhitespace(length, i);
      if s[i] != ',' && s[i] != ']' && i != length {
        failure := true;
        return;
      }
      if s[i] == ',' {
        i := i + 1;
        if s[i] == ']' {
          SkipNothing(s, i);
          ListHead(s, i);
          assert [v] + [] == [v];
        }
      }
      if s[i] == ']' {
        i, closed := i + 1, true;
        return;
      }
      NothingAtEnd(s);
      SkipTwice(s, i);
      i := SkipWhitespace(length, i);
    }

    /** parse_json_object from its opening brace on. */
    method ParseObject() returns (members: seq<Field<string>>)
      requires Valid() && !failure && s[i] == '{'
      modifies this
      ensures Did(ReadMembers(s, old(i) + 1))
      ensures ReadMembers(s, old(i) + 1).Ok? ==> ReadMembers(s, old(i) + 1).value == members
      decreases length - i, 1
    {
      hide ReadMembers;
      i := i + 1;
      members := [];
      ghost var start := i;
      SkipTwice(s, i);
      i := SkipWhitespace(length, i);
      PrependTwice([], [], ReadMembers(s, i));
      while i < length
        invariant Valid() && !failure && start <= i
        invariant ReadMembers(s, start) == Prepend(members, ReadMembers(s, i))
        decreases length - i
      {
        var more, closed := ObjectTurn();
        if failure {
          return [];
        }
        PrependTwice(members, more, ReadMembers(s, i));
        members := members + more;
        if closed {
          return;
        }
      }
      NothingAtEnd(s);
      failure := true;
      members := [];
    }

    /** One turn of its loop: the member read, if any, and whether the object was closed. */
    method ObjectTurn() returns (members: seq<Field<string>>, closed: bool)
      requires Valid() && !failure && i < length
      modifies this
      ensures Valid() && old(i) <= i && (!failure ==> old(i) < i)
      ensures failure ==> ReadMembers(s, old(i)) == Fail
      ensures !failure ==>
                ReadMembers(s, old(i)) == if closed then Ok(members, i) else Prepend(members, ReadMembers(s, i))
      decreases length - i, 3
    {
      hide ReadMembers, ReadValue, ReadString, AfterMember, Skip;
      closed, members := false, [];
      ObjectHead(s, i);
      SkipTwice(s, i);
      i := SkipWhitespace(length, i);
      if s[i] == '}' {
        i, closed := i + 1, true;
        return;
      }
      ghost var k := i;
      var key := ParseKey();
      if key.None? {
        return;
      }
      KeyStep(s, k, key.value, i);
      var value := ParseValue();
      if failure {
        return;
      }
      members := [Member(key.value, value)];
      closed := ObjectDelimiter(members[0]);
    }

    /** What follows a member: its comma or the closing brace. A bracket passes here and
        is refused as the next key. */
    method ObjectDelimiter(ghost x: Field<string>) returns (closed: bool)
      requires Valid() && !failure
      modifies this
      ensures Valid() && old(i) <= i
      ensures var r := AfterMember(s, x, SkipAll(s, old(i)));
        if failure then r == Fail
        else r == if closed then Ok([x], i) else Prepend([x], ReadMembers(s, i))
    {
      hide ReadMembers, AfterMember, ReadValue, ReadAt, Skip;
      closed := false;
      i := SkipWhitespace(length, i);
      MemberFollows(s, x, i);
      if !(s[i] == ',' || s[i] == '}' || s[i] == ']' || i == length) {
        failure := true;
        return;
      }
      if s[i] == '}' {
        i, closed := i + 1, true;
        return;
      }
      SkipNothing(s, i);
      i := SkipWhitespace(length, i);
      if s[i] == ',' {
        i := i + 1;
      }
      SkipTwice(s, i);
      i := SkipWhitespace(length, i);
    }

    /** A member's key, its colon and the white space around them; NULL and the flag set
        if there is none. */
    method ParseKey() returns (key: Option<string>)
      requires Valid() && !failure
      modifies this
      ensures Valid() && old(i) <= i
      ensures key.None? ==>
                failure && (ReadString(s, old(i)) == Fail || s[SkipAll(s, ReadString(s, old(i)).next)] != ':')
      ensures key.Some? ==> !failure && KeyRead(s, old(i), key.value, i)
    {
      key := ParseString();
      if key.None? {
        return;
      }
      i := SkipWhitespace(length, i);
      if s[i] != ':' {
        failure := true;
        return None;
      }
      i := i + 1;
      i := SkipWhitespace(length, i);
    }
  }

  /** A key starts at k, and v is where its value starts. */
  predicate KeyRead(s: string, k: nat, key: string, v: nat)
    requires IsBuffer(s) && k < |s|
  {
    && ReadString(s, k).Ok?
    && ReadString(s, k).value == key
    && var c := SkipAll(s, ReadString(s, k).next);
       s[c] == ':' && v == SkipAll(s, c + 1)
  }

  /** deserialize_json: the root value and whether parsing failed. It succeeds exactly
      when the buffer starts with white space and a lenient text, and then returns that
      text's tree; what follows the root is not looked at. */
  method Deserialize(s: string) returns (root: Json, failure: bool)
    requires IsBuffer(s)
    ensures !failure <==> exists j, lead, c :: Derives(s, 0, j, lead, c)
    ensures forall j, lead, c :: Derives(s, 0, j, lead, c) ==> root == Tree(c)
  {
    hide ReadValue, Derives;
    var parser := new Parser(s);
    root := parser.ParseValue();
    failure := parser.failure;
    forall j, lead, c | Derives(s, 0, j, lead, c) ensures ReadValue(s, 0) == Ok(Tree(c), j) {
      ReaderIsExact(s, 0, Tree(c), j);
    }
    if ReadValue(s, 0).Ok? {
      ReaderIsExact(s, 0, ReadValue(s, 0).value, ReadValue(s, 0).next);
    }
  }

  // -------------------------------------------------- one turn of a loop

  lemma SkipTwice(s: string, i: nat)
    requires IsBuffer(s) && i < |s|
    ensures SkipAll(s, SkipAll(s, i)) == SkipAll(s, i)
    ensures ReadItems(s, SkipAll(s, i)) == ReadItems(s, i)
    ensures ReadMembers(s, SkipAll(s, i)) == ReadMembers(s, i)
    ensures ReadValue(s, SkipAll(s, i)) == ReadValue(s, i)
  {
  }

  lemma NothingAtEnd(s: string)
    requires IsBuffer(s)
    ensures ReadItems(s, |s| - 1) == Fail && ReadMembers(s, |s| - 1) == Fail
  {
  }

  lemma ListHead(s: string, i: nat)
    requires IsBuffer(s) && i < |s|
    ensures var k := SkipAll(s, i);
      if s[k] == ']' then ReadItems(s, i) == Ok([], k + 1)
      else ReadValue(s, k) == Fail ==> ReadItems(s, i) == Fail
  {
  }

  lemma ListStep(s: string, k: nat, v: Json, j: nat)
    requires IsBuffer(s) && k < |s| && SkipAll(s, k) == k && s[k] != ']' && ReadValue(s, k) == Ok(v, j)
    ensures ReadItems(s, k) == AfterItem(s, v, SkipAll(s, j))
  {
  }

  lemma ObjectHead(s: string, i: nat)
    requires IsBuffer(s) && i < |s|
    ensures var k := SkipAll(s, i);
      if s[k] == '}' then ReadMembers(s, i) == Ok([], k + 1)
      else ReadString(s, k) == Fail || s[SkipAll(s, ReadString(s, k).next)] != ':' ==>
             ReadMembers(s, i) == Fail
  {
  }

  lemma KeyStep(s: string, k: nat, key: string, v: nat)
    requires IsBuffer(s) && k < |s| && SkipAll(s, k) == k && s[k] != '}' && v < |s|
    requires KeyRead(s, k, key, v)
    ensures ReadMembers(s, k) ==
      match ReadValue(s, v)
      case Fail => Fail
      case Ok(x, j) => AfterMember(s, Member(key, x), SkipAll(s, j))
  {
    hide ReadAt, ReadString, Skip;
    SkipTwice(s, SkipAll(s, ReadString(s, k).next) + 1);
  }

  lemma MemberFollows(s: string, x: Field<string>, m: nat)
    requires IsBuffer(s) && m < |s|
    ensures AfterMember(s, x, m) ==
      if s[m] == '}' then Ok([x], m + 1)
      else if s[m] == ',' then Prepend([x], ReadMembers(s, m + 1))
      else Fail
    ensures s[m] == ']' ==> ReadMembers(s, m) == Fail
    ensures m == |s| - 1 ==> ReadMembers(s, m) == Fail
  {
  }

  /** A boolean is read, at j, if a delimiter follows and no second boolean. */
  predicate BooleanEnds(s: string, j: nat)
    requires IsBuffer(s) && j < |s|
  {
    && IsDelimiter(s[j])
    && var k := Skip(s, StrLen(s), j);
       !Matches(s, k, "true") && !Matches(s, k, "false")
  }

  lemma BooleanIs(s: string, i: nat)
    requires IsBuffer(s) && i < |s|
    ensures Matches(s, i, "true") ==> i + 4 < |s|
    ensures Matches(s, i, "false") ==> i + 5 < |s|
    ensures ReadBoolean(s, i) ==
      if Matches(s, i, "true") then if BooleanEnds(s, i + 4) then Ok(Bool(true), i + 4) else Fail
      else if Matches(s, i, "false") then if BooleanEnds(s, i + 5) then Ok(Bool(false), i + 5) else Fail
      else Fail
  {
    hide Skip, StrLen;
    if Matches(s, i, "true") {
      KeywordInside(s, i, "true");
    }
    if Matches(s, i, "false") {
      KeywordInside(s, i, "false");
    }
    assert BOOLEANS[0] == "true" && BOOLEANS[1] == "false";
    if Matches(s, i, "true") {
      assert s[i] == s[i..i + 4][0];
      NoKeyword(s, i, "false");
    }
  }

  /** A keyword ends before the NUL. */
  lemma KeywordInside(s: string, i: nat, w: string)
    requires IsBuffer(s) && Matches(s, i, w) && w != "" && w[|w| - 1] != '\0'
    ensures i + |w| < |s|
  {
    assert s[i + |w| - 1] == s[i..i + |w|][|w| - 1];
  }

  lemma NullValue(s: string, i: nat)
    requires IsBuffer(s) && i < |s| && s[SkipAll(s, i)] == 'n'
    ensures ReadValue(s, i) == ReadNull(s, SkipAll(s, i))
    ensures ReadValue(s, i).Ok? ==> ReadValue(s, i).value == Null
  {
  }

  function Prepend<T>(xs: seq<T>, r: Parsed<seq<T>>): Parsed<seq<T>> {
    match r
    case Fail => Fail
    case Ok(ys, next) => Ok(xs + ys, next)
  }

  lemma PrependTwice<T>(xs: seq<T>, ys: seq<T>, r: Parsed<seq<T>>)
    ensures Prepend([], r) == r
    ensures Prepend(xs, Prepend(ys, r)) == Prepend(xs + ys, r)
  {
    if r.Ok? {
      assert [] + r.value == r.value;
      assert xs + (ys + r.value) == (xs + ys) + r.value;
    }
  }

  /** What the scan loop's variables say about the characters it has passed. */
  predicate Scanned(w: string, foundDigit: bool, periods: nat, es: nat, afterE: bool) {
    && NumberPrefix(w)
    && (foundDigit <==> exists k :: 0 <= k < |w| && IsDigit(w[k]))
    && periods == Count(w, '.') <= 1
    && es == Count(w, 'e') + Count(w, 'E') <= 1
    && (afterE <==> w != "" && IsE(w[|w| - 1]))
  }

  lemma NothingScanned()
    ensures Scanned("", false, 0, 0, false)
  {
  }

  lemma SignScanned(c: char)
    requires IsSign(c)
    ensures Scanned([c], false, 0, 0, false)
  {
  }

  lemma TwoSigns(s: string, start: nat)
    requires IsBuffer(s) && start + 1 < |s| && IsSign(s[start]) && IsSign(s[start + 1])
    ensures ReadNumber(s, start) == Fail
  {
    var w := s[start..NumberEnd(s, start)];
    assert w[0] == s[start] && w[1] == s[start + 1];
  }

  lemma ScannedAll(w: string, foundDigit: bool, periods: nat, es: nat, afterE: bool)
    requires Scanned(w, foundDigit, periods, es, afterE)
    ensures NumberPrefix(w) && (foundDigit <==> exists k :: 0 <= k < |w| && IsDigit(w[k]))
  {
  }

  /** One more character is scanned, or the run is refused, as the counts say. */
  lemma ScannedStep(w: string, c: char, foundDigit: bool, periods: nat, es: nat, afterE: bool)
    requires Scanned(w, foundDigit, periods, es, afterE)
    requires IsNumberChar(c) && !(|w| == 1 && IsSign(w[0]) && IsSign(c))
    ensures periods <= 1 && es <= 1
    ensures var periods', es' := periods + (if c == '.' then 1 else 0), es + if IsE(c) then 1 else 0;
      if periods' <= 1 && es' <= 1 && !(afterE && c == '.')
      then Scanned(w + [c], foundDigit || IsDigit(c), periods', es', IsE(c))
      else !NumberPrefix(w + [c])
  {
    PrefixGrows(w, c);
    hide NumberPrefix, Count;
    DigitFound(w, c);
  }

  lemma DigitFound(w: string, c: char)
    ensures (exists k :: 0 <= k < |w + [c]| && IsDigit((w + [c])[k])) <==>
      IsDigit(c) || exists k :: 0 <= k < |w| && IsDigit(w[k])
  {
    var v := w + [c];
    if k :| 0 <= k < |w| && IsDigit(w[k]) {
      assert v[k] == w[k];
    }
    if k :| 0 <= k < |v| && IsDigit(v[k]) {
      assert if k < |w| then v[k] == w[k] else v[k] == c;
    }
    assert v[|w|] == c;
  }

  lemma CountGrows(w: string, c: char, d: char)
    ensures Count(w + [c], d) == Count(w, d) + if c == d then 1 else 0
  {
    assert (w + [c])[..|w|] == w;
  }

  /** When one more character can be scanned. */
  lemma PrefixGrows(w: string, c: char)
    requires NumberPrefix(w)
    ensures NumberPrefix(w + [c]) <==>
      && IsNumberChar(c)
      && Count(w, '.') + (if c == '.' then 1 else 0) <= 1
      && Count(w, 'e') + Count(w, 'E') + (if IsE(c) then 1 else 0) <= 1
      && !(w != "" && IsE(w[|w| - 1]) && c == '.')
      && !(|w| == 1 && IsSign(w[0]) && IsSign(c))
    ensures Count(w + [c], '.') == Count(w, '.') + if c == '.' then 1 else 0
    ensures Count(w + [c], 'e') + Count(w + [c], 'E') == Count(w, 'e') + Count(w, 'E') + if IsE(c) then 1 else 0
  {
    hide Count;
    var v := w + [c];
    CountGrows(w, c, '.');
    CountGrows(w, c, 'e');
    CountGrows(w, c, 'E');
    assert v[|w|] == c && forall k :: 0 <= k < |w| ==> v[k] == w[k];
    hide Count;
    if NumberPrefix(v) {
      assert IsNumberChar(v[|w|]);
      assert w != "" && IsE(w[|w| - 1]) ==> v[|w| - 1 + 1] != '.';
      assert |w| == 1 && IsSign(w[0]) ==> !IsSign(v[1]);
    }
  }

  /** What is refused stays refused however the run goes on. */
  lemma PrefixClosed(a: string, b: string)
    requires NumberPrefix(a + b)
    ensures NumberPrefix(a)
  {
    CountConcat(a, b, '.');
    CountConcat(a, b, 'e');
    CountConcat(a, b, 'E');
    forall k | 0 <= k < |a| ensures IsNumberChar(a[k]) {
      assert (a + b)[k] == a[k];
    }
    forall k | 0 <= k < |a| - 1 && IsE(a[k]) ensures a[k + 1] != '.' {
      assert (a + b)[k] == a[k] && (a + b)[k + 1] == a[k + 1];
    }
    if |a| > 1 {
      assert (a + b)[0] == a[0] && (a + b)[1] == a[1];
    }
  }

  /** Refusing at i is refusing the whole run. */
  lemma RefusedEarly(s: string, start: nat, i: nat)
    requires IsBuffer(s) && start <= i < |s| && i < NumberEnd(s, start)
    requires !NumberPrefix(s[start..i] + [s[i]])
    ensures ReadNumber(s, start) == Fail
  {
    var end := NumberEnd(s, start);
    assert s[start..end] == (s[start..i] + [s[i]]) + s[i + 1..end];
    if NumberPrefix(s[start..end]) {
      PrefixClosed(s[start..i] + [s[i]], s[i + 1..end]);
    }
  }
}
