/**
 The texts the JSON reader of include/cerialize/cerialize.h accepts, as a grammar.

 A syntax tree (`Cst`) keeps every character: `Spell` gives its text and `Tree`
 the value the reader returns for it. `Lenient` says which trees the reader
 accepts.
 */
module JsonSyntax {

  /** A value, whose numbers are of type N. */
  datatype Value<N> =
    | Null
    | Bool(value: bool)
    | Number(number: N)
    | Str(text: string)
    | List(items: seq<Value<N>>)
    | Object(members: seq<Field<N>>)

  datatype Field<N> = Member(key: string, value: Value<N>)

  /** A parsed value. A number keeps its text in place of the float it denotes. */
  type Json = Value<string>

  // ------------------------------------------------------------- characters

  predicate IsWhitespace(c: char) { c == ' ' || c == '\t' || c == '\n' || c == '\r' }

  predicate IsDigit(c: char) { '0' <= c <= '9' }

  predicate IsSign(c: char) { c == '-' || c == '+' }

  predicate IsE(c: char) { c == 'e' || c == 'E' }

  predicate IsNumberStart(c: char) { IsSign(c) || IsDigit(c) }

  /** The characters the number scanner runs over. */
  predicate IsNumberChar(c: char) { IsDigit(c) || c == '.' || IsE(c) || IsSign(c) }

  predicate IsNewline(c: char) { c == '\n' || c == '\r' }

  /** What may follow `null`, `true` or `false`. */
  predicate IsDelimiter(c: char) {
    c == '\0' || c == ',' || c == '}' || c == ']' || IsWhitespace(c)
  }

  predicate AllWhitespace(w: string) { forall k :: 0 <= k < |w| ==> IsWhitespace(w[k]) }

  predicate AllDigits(w: string) { forall k :: 0 <= k < |w| ==> IsDigit(w[k]) }

  function Count(w: string, c: char): nat {
    if w == [] then 0 else Count(w[..|w| - 1], c) + if w[|w| - 1] == c then 1 else 0
  }

  // ---------------------------------------------------------------- grammar

  /** What the number scanner has not yet refused: number characters with at most one
      period and one exponent mark, no period right after that mark, and not two signs
      at the start. */
  predicate NumberPrefix(w: string) {
    && (forall k :: 0 <= k < |w| ==> IsNumberChar(w[k]))
    && Count(w, '.') <= 1
    && Count(w, 'e') + Count(w, 'E') <= 1
    && (forall k :: 0 <= k < |w| - 1 && IsE(w[k]) ==> w[k + 1] != '.')
    && (|w| > 1 && IsSign(w[0]) ==> !IsSign(w[1]))
  }

  /** What it accepts: such a run with a digit in it and no exponent mark at its end. */
  predicate LenientNumber(w: string) {
    && NumberPrefix(w)
    && (exists k :: 0 <= k < |w| && IsDigit(w[k]))
    && !IsE(w[|w| - 1])
  }

  /** Strings hold no quote and no line break and are not empty; a backslash is a
      character like any other. */
  predicate LenientString(w: string) {
    w != "" && forall k :: 0 <= k < |w| ==> w[k] != '\"' && !IsNewline(w[k])
  }

  datatype Cst =
    | CNull
    | CTrue
    | CFalse
    | CNumber(lexeme: string)
    | CString(text: string)
      // [ items ] and { members }: `comma` is a comma after the last of them, and
      // `space` is the white space before the closing bracket
    | CList(items: seq<CItem>, comma: bool, space: string)
    | CObject(members: seq<CMember>, comma: bool, space: string)

  datatype CItem = CItem(lead: string, value: Cst, trail: string)

  /** lead "key" mid : pad value trail */
  datatype CMember = CMember(lead: string, key: string, mid: string, pad: string, value: Cst, trail: string)

  function Quote(text: string): string { "\"" + text + "\"" }

  function Spell(c: Cst): string
    decreases c
  {
    match c
    case CNull => "null"
    case CTrue => "true"
    case CFalse => "false"
    case CNumber(lexeme) => lexeme
    case CString(text) => Quote(text)
    case CList(items, comma, space) => "[" + SpellItems(items, comma, space)
    case CObject(members, comma, space) => "{" + SpellMembers(members, comma, space)
  }

  /** From the comma after an item or a member, or else from the closing bracket, on. */
  function Rest(last: bool, bracket: string, more: string): string {
    if last then bracket else "," + more
  }

  predicate IsLast(n: nat, comma: bool) { n == 1 && !comma }

  /** Everything after the opening bracket. */
  function SpellItems(items: seq<CItem>, comma: bool, space: string): string
    decreases items
  {
    if items == [] then space + "]"
    else
      var x := items[0];
      x.lead + Spell(x.value)
      + (x.trail + Rest(IsLast(|items|, comma), "]", SpellItems(items[1..], comma, space)))
  }

  function SpellMembers(members: seq<CMember>, comma: bool, space: string): string
    decreases members
  {
    if members == [] then space + "}"
    else
      var x := members[0];
      x.lead + Quote(x.key)
      + (x.mid + (":" + (x.pad + Spell(x.value)
         + (x.trail + Rest(IsLast(|members|, comma), "}", SpellMembers(members[1..], comma, space))))))
  }

  function Tree(c: Cst): Json
    decreases c
  {
    match c
    case CNull => Null
    case CTrue => Bool(true)
    case CFalse => Bool(false)
    case CNumber(lexeme) => Number(lexeme)
    case CString(text) => Str(text)
    case CList(items, _, _) => List(TreeItems(items))
    case CObject(members, _, _) => Object(TreeMembers(members))
  }

  function TreeItems(items: seq<CItem>): seq<Json>
    decreases items
  {
    if items == [] then [] else [Tree(items[0].value)] + TreeItems(items[1..])
  }

  function TreeMembers(members: seq<CMember>): seq<Field<string>>
    decreases members
  {
    if members == [] then []
    else [Member(members[0].key, Tree(members[0].value))] + TreeMembers(members[1..])
  }

  /** The trees the reader accepts. Without a last comma the white space before the
      closing bracket belongs to the last item. */
  predicate Lenient(c: Cst)
    decreases c
  {
    match c
    case CNumber(lexeme) => LenientNumber(lexeme) && (IsNumberStart(lexeme[0]) || lexeme[0] == '.')
    case CString(text) => LenientString(text)
    case CList(items, comma, space) => Closing(|items|, comma, space) && LenientItems(items)
    case CObject(members, comma, space) => Closing(|members|, comma, space) && LenientMembers(members)
    case _ => true
  }

  predicate Closing(n: nat, comma: bool, space: string) {
    AllWhitespace(space) && (comma ==> n > 0) && (n > 0 && !comma ==> space == "")
  }

  predicate LenientItems(items: seq<CItem>)
    decreases items
  {
    items != [] ==>
      && AllWhitespace(items[0].lead) && AllWhitespace(items[0].trail)
      && Lenient(items[0].value)
      && LenientItems(items[1..])
  }

  predicate LenientMembers(members: seq<CMember>)
    decreases members
  {
    members != [] ==>
      var x := members[0];
      && AllWhitespace(x.lead) && AllWhitespace(x.mid) && AllWhitespace(x.pad) && AllWhitespace(x.trail)
      && LenientString(x.key)
      && Lenient(x.value)
      && LenientMembers(members[1..])
  }

  // ------------------------------------------------------------------ counting

  lemma {:induction false} CountConcat(a: string, b: string, c: char)
    ensures Count(a + b, c) == Count(a, c) + Count(b, c)
  {
    if b == "" {
      assert a + b == a;
    } else {
      CountConcat(a, b[..|b| - 1], c);
      assert (a + b)[..|a + b| - 1] == a + b[..|b| - 1];
    }
  }

  lemma {:induction false} CountNone(w: string, c: char)
    requires c !in w
    ensures Count(w, c) == 0
  {
    if w != "" {
      CountNone(w[..|w| - 1], c);
    }
  }

  lemma CountHead(w: string, c: char)
    requires w != "" && c !in w[1..]
    ensures Count(w, c) == if w[0] == c then 1 else 0
  {
  }
}
