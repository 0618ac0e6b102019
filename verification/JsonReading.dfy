/**
 What each parsing routine of include/cerialize/cerialize.h computes, as functions
 of a buffer and a cursor.

 The buffer holds the text and, at index `Length`, the NUL that ends it; the text
 itself may hold further NULs. A string that is read keeps them, as the block does that
 the source allocates for it; that a C program takes such a string to end at the first
 is not modelled. Every character is read through an index the
 functions show to be at most `Length`.
 */
module JsonReading {
  import opened JsonSyntax

  datatype Parsed<T> = Fail | Ok(value: T, next: nat)

  predicate IsBuffer(s: string) { |s| > 0 && s[|s| - 1] == '\0' }

  function Length(s: string): int { |s| - 1 }

  /** skip_whitespace, with the length it is given. */
  function Skip(s: string, n: nat, i: nat): (r: nat)
    requires i < |s| && n < |s|
    ensures i <= r < |s|
    ensures AllWhitespace(s[i..r])
    ensures r < n ==> !IsWhitespace(s[r])
    decreases |s| - i
  {
    if i < n && IsWhitespace(s[i]) then Skip(s, n, i + 1) else i
  }

  function SkipAll(s: string, i: nat): (r: nat)
    requires IsBuffer(s) && i < |s|
    ensures i <= r < |s| && AllWhitespace(s[i..r]) && !IsWhitespace(s[r])
  {
    Skip(s, |s| - 1, i)
  }

  /** strlen. */
  function StrLen(s: string): (n: nat)
    requires IsBuffer(s)
    ensures n < |s| && s[n] == '\0' && '\0' !in s[..n]
  {
    if s[0] == '\0' then 0 else
    assert s[1..][|s[1..]| - 1] == s[|s| - 1];
    var n := 1 + StrLen(s[1..]);
    assert s[..n] == [s[0]] + s[1..][..n - 1];
    n
  }

  /** strncmp(&s[i], w, |w|) == 0, for a word w without a NUL. */
  predicate Matches(s: string, i: nat, w: string) { i + |w| <= |s| && s[i..i + |w|] == w }

  lemma NoKeyword(s: string, k: nat, w: string)
    requires k < |s| && w != "" && s[k] != w[0]
    ensures !Matches(s, k, w)
  {
  }

  // ---------------------------------------------------------------- strings

  /** The first quote, line break or end of the text. */
  function StringEnd(s: string, i: nat): (r: nat)
    requires IsBuffer(s) && i < |s|
    ensures i <= r < |s|
    ensures forall k :: i <= k < r ==> s[k] != '\"' && !IsNewline(s[k])
    ensures r == |s| - 1 || s[r] == '\"' || IsNewline(s[r])
    decreases |s| - i
  {
    if i == |s| - 1 || s[i] == '\"' || IsNewline(s[i]) then i else StringEnd(s, i + 1)
  }

  function ReadString(s: string, i: nat): (r: Parsed<string>)
    requires IsBuffer(s) && i < |s|
    ensures r.Ok? ==> i < r.next < |s|
  {
    if s[i] != '\"' then Fail else
    var j := StringEnd(s, i + 1);
    if s[j] != '\"' || j == i + 1 then Fail else Ok(s[i + 1..j], j + 1)
  }

  // ---------------------------------------------------------------- numbers

  function NumberEnd(s: string, i: nat): (r: nat)
    requires IsBuffer(s) && i < |s|
    ensures i <= r < |s| && !IsNumberChar(s[r])
    ensures forall k :: i <= k < r ==> IsNumberChar(s[k])
    decreases |s| - i
  {
    if IsNumberChar(s[i]) then NumberEnd(s, i + 1) else i
  }

  function ReadNumber(s: string, i: nat): (r: Parsed<string>)
    requires IsBuffer(s) && i < |s|
    ensures r.Ok? ==> i < r.next < |s|
  {
    var e := NumberEnd(s, i);
    if LenientNumber(s[i..e]) then Ok(s[i..e], e) else Fail
  }

  // --------------------------------------------------------------- keywords

  /** What follows a keyword: a delimiter, and no white space with one of `others`. */
  predicate KeywordEnds(s: string, j: nat, others: seq<string>)
    requires IsBuffer(s) && j < |s|
  {
    && IsDelimiter(s[j])
    && var k := Skip(s, StrLen(s), j);
       forall n :: 0 <= n < |others| ==> !Matches(s, k, others[n])
  }

  predicate IsKeyword(s: string, i: nat, w: string, others: seq<string>)
    requires IsBuffer(s)
  {
    Matches(s, i, w) && i + |w| < |s| && KeywordEnds(s, i + |w|, others)
  }

  const NULLS: seq<string> := ["null"]
  const BOOLEANS: seq<string> := ["true", "false"]

  function ReadNull(s: string, i: nat): (r: Parsed<Json>)
    requires IsBuffer(s) && i < |s|
    ensures r.Ok? ==> i < r.next < |s|
  {
    if IsKeyword(s, i, "null", NULLS) then Ok(Null, i + 4) else Fail
  }

  function ReadBoolean(s: string, i: nat): (r: Parsed<Json>)
    requires IsBuffer(s) && i < |s|
    ensures r.Ok? ==> i < r.next < |s|
  {
    if IsKeyword(s, i, "true", BOOLEANS) then Ok(Bool(true), i + 4)
    else if IsKeyword(s, i, "false", BOOLEANS) then Ok(Bool(false), i + 5)
    else Fail
  }

  // ----------------------------------------------------------------- values

  function Map<T, U>(r: Parsed<T>, f: T -> U): Parsed<U> {
    match r
    case Fail => Fail
    case Ok(v, next) => Ok(f(v), next)
  }

  /** parse_json_object. */
  function ReadValue(s: string, i: nat): (r: Parsed<Json>)
    requires IsBuffer(s) && i < |s|
    ensures r.Ok? ==> i < r.next < |s|
    decreases |s| - i, 2
  {
    ReadAt(s, SkipAll(s, i))
  }

  /** The same, past the white space. */
  function ReadAt(s: string, k: nat): (r: Parsed<Json>)
    requires IsBuffer(s) && k < |s|
    ensures r.Ok? ==> k < r.next < |s|
    decreases |s| - k, 1
  {
    var c := s[k];
    if c == '\"' then Map(ReadString(s, k), t => Str(t))
    else if IsNumberStart(c) || c == '.' then Map(ReadNumber(s, k), w => Number(w))
    else if c == 'n' then ReadNull(s, k)
    else if c == 't' || c == 'f' then ReadBoolean(s, k)
    else if c == '[' then Map(ReadItems(s, k + 1), items => List(items))
    else if c == '{' then Map(ReadMembers(s, k + 1), members => Object(members))
    else Fail
  }

  /** json_parse_list. */
  function ReadList(s: string, i: nat): (r: Parsed<seq<Json>>)
    requires IsBuffer(s) && i < |s|
    ensures r.Ok? ==> i < r.next < |s|
  {
    var k := SkipAll(s, i);
    if s[k] == '[' then ReadItems(s, k + 1) else Fail
  }

  /** The loop of json_parse_list, from its head on. */
  function ReadItems(s: string, i: nat): (r: Parsed<seq<Json>>)
    requires IsBuffer(s) && i < |s|
    ensures r.Ok? ==> i < r.next < |s|
    decreases |s| - i, 3
  {
    var k := SkipAll(s, i);
    if s[k] == ']' then Ok([], k + 1) else
    match ReadValue(s, k)
    case Fail => Fail
    case Ok(v, j) => AfterItem(s, v, SkipAll(s, j))
  }

  /** The rest of that loop once it has read a value. */
  function AfterItem(s: string, v: Json, m: nat): (r: Parsed<seq<Json>>)
    requires IsBuffer(s) && m < |s|
    ensures r.Ok? ==> m < r.next < |s|
    decreases |s| - m, 0
  {
    if s[m] == ']' then Ok([v], m + 1)
    else if s[m] == ',' then
      match ReadItems(s, m + 1)
      case Fail => Fail
      case Ok(rest, next) => Ok([v] + rest, next)
    else Fail
  }

  /** The loop of parse_json_object over the members, from its head on. */
  function ReadMembers(s: string, i: nat): (r: Parsed<seq<Field<string>>>)
    requires IsBuffer(s) && i < |s|
    ensures r.Ok? ==> i < r.next < |s|
    decreases |s| - i, 3
  {
    var k := SkipAll(s, i);
    if s[k] == '}' then Ok([], k + 1) else
    match ReadString(s, k)
    case Fail => Fail
    case Ok(key, e) => AfterKey(s, key, SkipAll(s, e))
  }

  function AfterKey(s: string, key: string, m: nat): (r: Parsed<seq<Field<string>>>)
    requires IsBuffer(s) && m < |s|
    ensures r.Ok? ==> m < r.next < |s|
    decreases |s| - m, 0
  {
    if s[m] != ':' then Fail else
    match ReadValue(s, m + 1)
    case Fail => Fail
    case Ok(v, j) => AfterMember(s, Member(key, v), SkipAll(s, j))
  }

  function AfterMember(s: string, x: Field<string>, m: nat): (r: Parsed<seq<Field<string>>>)
    requires IsBuffer(s) && m < |s|
    ensures r.Ok? ==> m < r.next < |s|
    decreases |s| - m, 0
  {
    if s[m] == '}' then Ok([x], m + 1)
    else if s[m] == ',' then
      match ReadMembers(s, m + 1)
      case Fail => Fail
      case Ok(rest, next) => Ok([x] + rest, next)
    else Fail
  }
}
