/**
 The printer of include/cerialize/cerialize.h, with the buffers it appends to.
 */
module JsonPrinter {
  import opened JsonSyntax
  import opened JsonNumbers

  /** A value as a program holds it. */
  type RealJson = Value<real>

  const MAX_STRING_LENGTH: nat := 1024  // the buffer of a list or an object

  /** strcpy: up to the first NUL. */
  function CText(t: string): (r: string)
    ensures |r| <= |t| && r <= t
    ensures '\0' !in r && (|r| < |t| ==> t[|r|] == '\0')
  {
    if t == "" || t[0] == '\0' then "" else [t[0]] + CText(t[1..])
  }

  /** serialize_json: no quotes around strings and names. */
  function Print(v: RealJson): string
    decreases v
  {
    match v
    case Null => "null"
    case Bool(b) => if b then "true" else "false"
    case Number(x) => Clip(FormatF(x))
    case Str(t) => CText(t)
    case List(items) => "[" + PrintItems(items) + "]"
    case Object(members) => "{" + PrintMembers(members) + "}"
  }

  function PrintItems(items: seq<RealJson>): string
    decreases items
  {
    if items == [] then ""
    else Print(items[0]) + (if |items| > 1 then "," else "") + PrintItems(items[1..])
  }

  function PrintMembers(members: seq<Field<real>>): string
    decreases members
  {
    if members == [] then ""
    else
      CText(members[0].key) + ":" + Print(members[0].value)
      + (if |members| > 1 then "," else "") + PrintMembers(members[1..])
  }

  /** Every list and object in v prints to a text its buffer can hold. */
  predicate Fits(v: RealJson)
    decreases v
  {
    match v
    case List(items) =>
      |Print(v)| < MAX_STRING_LENGTH && forall k :: 0 <= k < |items| ==> Fits(items[k])
    case Object(members) =>
      |Print(v)| < MAX_STRING_LENGTH && forall k :: 0 <= k < |members| ==> Fits(members[k].value)
    case _ => true
  }

  /** strcat into a buffer of 1024 characters, and whether it stays inside, the NUL
      included. The source does not look. */
  method Strcat(text: string, more: string) returns (inside: bool, result: string)
    ensures inside <==> |text + more| < MAX_STRING_LENGTH
    ensures result == text + more
  {
    result := text + more;
    inside := |result| + 1 <= MAX_STRING_LENGTH;
  }

  /** The text, if every write on the way stays inside its buffer. */
  method Serialize(v: RealJson) returns (inside: bool, text: string)
    ensures inside <==> Fits(v)
    ensures inside ==> text == Print(v)
    decreases v, 0
  {
    inside := true;
    match v
    case Null => text := "null";
    case Bool(b) => text := if b then "true" else "false";
    case Number(x) => text := Clip(FormatF(x));
    case Str(t) => text := CText(t);
    case List(items) => inside, text := SerializeList(v);
    case Object(members) => inside, text := SerializeObject(v);
  }

  function Separator(i: nat, n: nat): string { if i + 1 < n then "," else "" }

  lemma NextItem(items: seq<RealJson>, i: nat)
    requires i < |items|
    ensures PrintItems(items[i..]) == Print(items[i]) + Separator(i, |items|) + PrintItems(items[i + 1..])
  {
    assert items[i..][1..] == items[i + 1..];
  }

  lemma NextMember(members: seq<Field<real>>, i: nat)
    requires i < |members|
    ensures PrintMembers(members[i..]) ==
      CText(members[i].key) + ":" + Print(members[i].value) + Separator(i, |members|) + PrintMembers(members[i + 1..])
  {
    assert members[i..][1..] == members[i + 1..];
  }

  lemma Ends(items: seq<RealJson>, members: seq<Field<real>>)
    ensures PrintItems(items[0..]) == PrintItems(items) && PrintItems(items[|items|..]) == ""
    ensures PrintMembers(members[0..]) == PrintMembers(members) && PrintMembers(members[|members|..]) == ""
  {
    assert items[0..] == items && members[0..] == members;
  }

  lemma FitsParts(v: RealJson)
    ensures v.List? ==>
      (Fits(v) <==> |PrintItems(v.items)| + 2 < MAX_STRING_LENGTH
                    && forall k :: 0 <= k < |v.items| ==> Fits(v.items[k]))
    ensures v.Object? ==>
      (Fits(v) <==> |PrintMembers(v.members)| + 2 < MAX_STRING_LENGTH
                    && forall k :: 0 <= k < |v.members| ==> Fits(v.members[k].value))
    ensures v.Object? && v.members == [] ==> Print(v) == "{}"
  {
  }

  method SerializeList(v: RealJson) returns (inside: bool, text: string)
    requires v.List?
    ensures inside <==> Fits(v)
    ensures inside ==> text == Print(v)
    decreases v.items
  {
    FitsParts(v);
    hide PrintItems, Fits;
    var items := v.items;
    inside, text := true, "[";
    Ends(items, []);
    for i := 0 to |items|
      invariant inside && |text| < MAX_STRING_LENGTH
      invariant text + PrintItems(items[i..]) == "[" + PrintItems(items)
      invariant forall k :: 0 <= k < i ==> Fits(items[k])
    {
      var fits, item := Serialize(items[i]);
      if !fits {
        return false, "";
      }
      NextItem(items, i);
      inside, text := Strcat(text, item);
      if !inside {
        return;
      }
      if i < |items| - 1 {
        inside, text := Strcat(text, ",");
        if !inside {
          return;
        }
      }
    }
    inside, text := Strcat(text, "]");
  }

  /** The three appends of a member. */
  method AppendMember(text: string, key: string, value: string) returns (inside: bool, result: string)
    ensures inside <==> |text + key + ":" + value| < MAX_STRING_LENGTH
    ensures inside ==> result == text + (key + ":" + value)
  {
    inside, result := Strcat(text, key);
    if !inside {
      return;
    }
    inside, result := Strcat(result, ":");
    if !inside {
      return;
    }
    inside, result := Strcat(result, value);
  }

  method SerializeObject(v: RealJson) returns (inside: bool, text: string)
    requires v.Object?
    ensures inside <==> Fits(v)
    ensures inside ==> text == Print(v)
    decreases v.members
  {
    FitsParts(v);
    hide PrintMembers, Fits, CText;
    var members := v.members;
    Ends([], members);
    if |members| == 0 {
      assert members[0..] == members;
      return true, "{}";
    }
    inside, text := true, "{";
    for i := 0 to |members|
      invariant inside && |text| < MAX_STRING_LENGTH
      invariant text + PrintMembers(members[i..]) == "{" + PrintMembers(members)
      invariant forall k :: 0 <= k < i ==> Fits(members[k].value)
    {
      var fits, value := Serialize(members[i].value);
      if !fits {
        return false, "";
      }
      NextMember(members, i);
      inside, text := AppendMember(text, CText(members[i].key), value);
      if !inside {
        return;
      }
      if i < |members| - 1 {
        inside, text := Strcat(text, ",");
        if !inside {
          return;
        }
      }
    }
    inside, text := Strcat(text, "}");
  }

  lemma {:induction false} CTextIsAll(t: string)
    requires '\0' !in t
    ensures CText(t) == t
  {
    if t != "" {
      CTextIsAll(t[1..]);
    }
  }

  /** A list that holds one string of n letters overruns its buffer from 1022 letters on. */
  lemma LongString(n: nat)
    ensures Fits(List([Str(seq(n, _ => 'a'))])) <==> n < 1022
  {
    var t: string := seq(n, _ => 'a');
    CTextIsAll(t);
    assert PrintItems([Str(t)]) == Print(Str(t)) + "" + PrintItems([]);
  }
}
