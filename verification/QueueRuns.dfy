/**
 The work queue over whole runs, against a reference that has no order of its own: a
 set of waiting items, each with the step at which its kind began to wait.
 */
module QueueRuns {
  import opened Prelude
  import opened Queue

  datatype Op<T> = PushOp(item: T) | PopOp | RemoveOp(item: T)

  /** What the queue holds after the operations, last one last. */
  function Contents<T>(eq: (T, T) -> bool, ops: seq<Op<T>>): seq<T> {
    if ops == [] then [] else
    var s := Contents(eq, ops[..|ops| - 1]);
    match ops[|ops| - 1]
    case PushOp(x) => Push(eq, s, x)
    case PopOp => Pop(s)
    case RemoveOp(x) => Remove(eq, s, x)
  }

  lemma {:induction false} ContentsDistinct<T(!new)>(eq: (T, T) -> bool, ops: seq<Op<T>>)
    requires Equivalence(eq)
    ensures Distinct(eq, Contents(eq, ops))
  {
    if ops != [] {
      var before := ops[..|ops| - 1];
      ContentsDistinct(eq, before);
      match ops[|ops| - 1]
      case PushOp(x) => PushStaysDistinct(eq, Contents(eq, before), x);
      case PopOp =>
      case RemoveOp(x) => RemoveStaysDistinct(eq, Contents(eq, before), x);
    }
  }

  // ------------------------------------------------------------- the reference

  /** An item that waits, and since which step its kind has been waiting. */
  datatype Entry<T> = Entry(since: nat, item: T)

  ghost predicate IsWaiting<T>(eq: (T, T) -> bool, w: set<Entry<T>>, x: T) {
    exists e :: e in w && eq(e.item, x)
  }

  /** A kind that waits keeps its turn and takes the new item; another one joins. */
  ghost function RefPush<T>(eq: (T, T) -> bool, w: set<Entry<T>>, x: T, now: nat): set<Entry<T>> {
    (set e | e in w :: if eq(e.item, x) then Entry(e.since, x) else e)
    + (if IsWaiting(eq, w, x) then {} else {Entry(now, x)})
  }

  ghost predicate IsOldest<T>(w: set<Entry<T>>, e: Entry<T>) {
    e in w && forall f :: f in w ==> e.since <= f.since
  }

  /** The kind that has waited longest leaves. */
  ghost predicate RefPop<T(!new)>(w: set<Entry<T>>, w': set<Entry<T>>, out: Option<T>) {
    if w == {} then w' == {} && out == None
    else exists e :: IsOldest(w, e) && w' == w - {e} && out == Some(e.item)
  }

  ghost function RefRemove<T>(eq: (T, T) -> bool, w: set<Entry<T>>, x: T): set<Entry<T>> {
    set e | e in w && !eq(e.item, x)
  }

  // ----------------------------------------------- the queue with its history

  function StampPush<T>(eq: (T, T) -> bool, q: seq<Entry<T>>, x: T, now: nat): seq<Entry<T>> {
    var i := IndexOf(eq, Items(q), x);
    if i < |q| then q[i := Entry(q[i].since, x)] else q + [Entry(now, x)]
  }

  function StampRemove<T>(eq: (T, T) -> bool, q: seq<Entry<T>>, x: T): seq<Entry<T>> {
    var i := IndexOf(eq, Items(q), x);
    if i < |q| then Without(q, i) else q
  }

  /** The queue's items in order, each with the step since which its kind waits. */
  function Stamped<T>(eq: (T, T) -> bool, ops: seq<Op<T>>): seq<Entry<T>> {
    if ops == [] then [] else
    var q := Stamped(eq, ops[..|ops| - 1]);
    match ops[|ops| - 1]
    case PushOp(x) => StampPush(eq, q, x, |ops| - 1)
    case PopOp => Pop(q)
    case RemoveOp(x) => StampRemove(eq, q, x)
  }

  function Items<T>(q: seq<Entry<T>>): (s: seq<T>)
    ensures |s| == |q| && forall i :: 0 <= i < |q| ==> s[i] == q[i].item
  {
    seq(|q|, i requires 0 <= i < |q| => q[i].item)
  }

  ghost function AsSet<T>(q: seq<Entry<T>>): set<Entry<T>> { set e | e in q }

  /** The stamps add nothing to what the queue does. */
  lemma {:induction false} StampedItems<T>(eq: (T, T) -> bool, ops: seq<Op<T>>)
    ensures Items(Stamped(eq, ops)) == Contents(eq, ops)
  {
    if ops != [] {
      StampedItems(eq, ops[..|ops| - 1]);
    }
  }

  /** Items stand in the order in which their kinds began to wait, all before `now`. */
  ghost predicate InOrder<T>(q: seq<Entry<T>>, now: nat) {
    && (forall i :: 0 <= i < |q| ==> q[i].since < now)
    && (forall i, j :: 0 <= i < j < |q| ==> q[i].since < q[j].since)
  }

  lemma PushStaysInOrder<T>(eq: (T, T) -> bool, q: seq<Entry<T>>, x: T, now: nat)
    requires InOrder(q, now)
    ensures InOrder(StampPush(eq, q, x, now), now + 1)
  {
    hide IndexOf;
    var i, q' := IndexOf(eq, Items(q), x), StampPush(eq, q, x, now);
    assert forall k :: 0 <= k < |q| ==> q'[k].since == q[k].since;
  }

  lemma RemoveStaysInOrder<T>(eq: (T, T) -> bool, q: seq<Entry<T>>, x: T, now: nat)
    requires InOrder(q, now)
    ensures InOrder(StampRemove(eq, q, x), now + 1)
  {
    hide IndexOf;
    var i, q' := IndexOf(eq, Items(q), x), StampRemove(eq, q, x);
    assert forall k :: 0 <= k < |q'| ==> q'[k] == q[if k < i then k else k + 1];
  }

  lemma {:induction false} StampedOrder<T>(eq: (T, T) -> bool, ops: seq<Op<T>>)
    ensures InOrder(Stamped(eq, ops), |ops|)
  {
    if ops != [] {
      var before := ops[..|ops| - 1];
      StampedOrder(eq, before);
      var q := Stamped(eq, before);
      match ops[|ops| - 1]
      case PushOp(x) => PushStaysInOrder(eq, q, x, |before|);
      case PopOp => assert InOrder(Pop(q), |ops|);
      case RemoveOp(x) => RemoveStaysInOrder(eq, q, x, |before|);
    }
  }

  // -------------------------------------------------------------- refinement

  /** One operation of the reference: before it `now` operations were done. */
  ghost predicate RefStep<T(!new)>(eq: (T, T) -> bool, w: set<Entry<T>>, op: Op<T>, now: nat,
                             w': set<Entry<T>>, out: Option<T>) {
    match op
    case PushOp(x) => w' == RefPush(eq, w, x, now)
    case PopOp => RefPop(w, w', out)
    case RemoveOp(x) => w' == RefRemove(eq, w, x)
  }

  /** In every run every operation of the list is that operation of the reference: a
      repeated push keeps its turn and replaces the item, a pop returns the kind that
      has waited longest, a removal takes out that kind and no other. */
  lemma QueueRefinesReference<T(!new)>(eq: (T, T) -> bool, ops: seq<Op<T>>, op: Op<T>)
    requires Equivalence(eq)
    ensures RefStep(eq, AsSet(Stamped(eq, ops)), op, |ops|, AsSet(Stamped(eq, ops + [op])),
                    Front(Contents(eq, ops)))
  {
    hide RefPush, RefPop, RefRemove, AsSet, StampPush, StampRemove, Contents, Distinct, Equivalence, InOrder;
    var q := Stamped(eq, ops);
    assert (ops + [op])[..|ops|] == ops;
    ContentsDistinct(eq, ops);
    StampedItems(eq, ops);
    StampedOrder(eq, ops);
    match op
    case PushOp(x) => PushRefines(eq, q, x, |ops|);
    case PopOp => PopRefines(q);
    case RemoveOp(x) => RemoveRefines(eq, q, x);
  }

  lemma OnlyOneEquals<T(!new)>(eq: (T, T) -> bool, s: seq<T>, x: T, k: nat)
    requires Equivalence(eq) && Distinct(eq, s) && k < |s|
    ensures eq(s[k], x) <==> k == IndexOf(eq, s, x)
  {
    var i := IndexOf(eq, s, x);
    if i < k {
      assert eq(s[i], x) && !eq(s[i], s[k]);
    }
  }

  lemma PushRefines<T(!new)>(eq: (T, T) -> bool, q: seq<Entry<T>>, x: T, now: nat)
    requires Equivalence(eq) && Distinct(eq, Items(q))
    ensures AsSet(StampPush(eq, q, x, now)) == RefPush(eq, AsSet(q), x, now)
  {
    var i := IndexOf(eq, Items(q), x);
    var q' := StampPush(eq, q, x, now);
    var w := AsSet(q);
    forall k | 0 <= k < |q| ensures eq(q[k].item, x) <==> k == i {
      OnlyOneEquals(eq, Items(q), x, k);
    }
    if i < |q| {
      assert q[i] in w;
    }
    assert IsWaiting(eq, w, x) <==> i < |q|;
    forall e | e in q' ensures e in RefPush(eq, w, x, now) {
      var k :| 0 <= k < |q'| && q'[k] == e;
      if k < |q| {
        assert q[k] in w;
      }
    }
    forall e | e in RefPush(eq, w, x, now) ensures e in q' {
      if e != Entry(now, x) || i < |q| {
        var f :| f in w && e == if eq(f.item, x) then Entry(f.since, x) else f;
        var k :| 0 <= k < |q| && q[k] == f;
        assert q'[k] == e;
      } else {
        assert q'[|q|] == e;
      }
    }
  }

  lemma PopRefines<T(!new)>(q: seq<Entry<T>>)
    requires exists now :: InOrder(q, now)
    ensures RefPop(AsSet(q), AsSet(Pop(q)), Front(Items(q)))
  {
    var w := AsSet(q);
    if q == [] {
      assert w == {};
    } else {
      assert q[0] in w;
      assert IsOldest(w, q[0]);
      forall e ensures e in AsSet(Pop(q)) <==> e in w - {q[0]} {
        if e in w - {q[0]} {
          var k :| 0 <= k < |q| && q[k] == e;
          assert Pop(q)[k - 1] == e;
        }
      }
      assert AsSet(Pop(q)) == w - {q[0]};
    }
  }

  lemma RemoveRefines<T(!new)>(eq: (T, T) -> bool, q: seq<Entry<T>>, x: T)
    requires Equivalence(eq) && Distinct(eq, Items(q))
    ensures AsSet(StampRemove(eq, q, x)) == RefRemove(eq, AsSet(q), x)
  {
    var i := IndexOf(eq, Items(q), x);
    var q' := StampRemove(eq, q, x);
    hide IndexOf, Distinct, Equivalence;
    forall k | 0 <= k < |q| ensures eq(q[k].item, x) <==> k == i {
      OnlyOneEquals(eq, Items(q), x, k);
    }
    forall e | e in RefRemove(eq, AsSet(q), x) ensures e in q' {
      var k :| 0 <= k < |q| && q[k] == e;
      assert if k < i then q'[k] == e else q'[k - 1] == e;
    }
    forall e | e in q' ensures e in RefRemove(eq, AsSet(q), x) {
      var k :| 0 <= k < |q'| && q'[k] == e;
      assert e == q[if k < i then k else k + 1];
    }
  }

  // ------------------------------------------------------------ conservation

  /** The items pushed, in order. */
  function Pushed<T>(ops: seq<Op<T>>): seq<T> {
    if ops == [] then [] else
    var before, op := Pushed(ops[..|ops| - 1]), ops[|ops| - 1];
    if op.PushOp? then before + [op.item] else before
  }

  /** The items the pops return, in order; a pop of an empty queue returns none. */
  function Popped<T>(eq: (T, T) -> bool, ops: seq<Op<T>>): seq<T> {
    if ops == [] then [] else
    var before, s := Popped(eq, ops[..|ops| - 1]), Contents(eq, ops[..|ops| - 1]);
    if ops[|ops| - 1].PopOp? && s != [] then before + [s[0]] else before
  }

  /** The items the removals take out. */
  function Removed<T>(eq: (T, T) -> bool, ops: seq<Op<T>>): seq<T> {
    if ops == [] then [] else
    var before, s, op := Removed(eq, ops[..|ops| - 1]), Contents(eq, ops[..|ops| - 1]), ops[|ops| - 1];
    if op.RemoveOp? && Waiting(eq, s, op.item) then before + [s[IndexOf(eq, s, op.item)]] else before
  }

  /** A waiting item and the one pushed in its place. */
  datatype Replacement<T> = Replacement(before: T, after: T)

  function Replaced<T>(eq: (T, T) -> bool, ops: seq<Op<T>>): seq<Replacement<T>> {
    if ops == [] then [] else
    var before, s, op := Replaced(eq, ops[..|ops| - 1]), Contents(eq, ops[..|ops| - 1]), ops[|ops| - 1];
    if op.PushOp? && Waiting(eq, s, op.item)
    then before + [Replacement(s[IndexOf(eq, s, op.item)], op.item)] else before
  }

  function Befores<T>(rs: seq<Replacement<T>>): (s: seq<T>)
    ensures |s| == |rs| && forall i :: 0 <= i < |rs| ==> s[i] == rs[i].before
  {
    seq(|rs|, i requires 0 <= i < |rs| => rs[i].before)
  }

  lemma BeforesAppend<T>(rs: seq<Replacement<T>>, r: Replacement<T>)
    ensures Befores(rs + [r]) == Befores(rs) + [r.before]
  {
  }

  lemma PutInPlace<T>(s: seq<T>, i: nat, x: T)
    requires i < |s|
    ensures multiset(s[i := x]) + multiset{s[i]} == multiset(s) + multiset{x}
  {
  }

  lemma TakenOut<T>(s: seq<T>, i: nat)
    requires i < |s|
    ensures multiset(Without(s, i)) + multiset{s[i]} == multiset(s)
  {
    hide Without;
    assert Without(s, i) == s[..i] + s[i + 1..];
    assert s == s[..i] + [s[i]] + s[i + 1..];
    assert multiset(s) == multiset(s[..i] + [s[i]]) + multiset(s[i + 1..]);
  }

  lemma FirstTaken<T>(s: seq<T>)
    requires s != []
    ensures multiset(Pop(s)) + multiset{s[0]} == multiset(s)
  {
    assert s == [s[0]] + s[1..];
  }

  /** Where the pushed items are: replaced, popped, removed or waiting. */
  ghost function Account<T>(eq: (T, T) -> bool, ops: seq<Op<T>>): multiset<T> {
    multiset(Befores(Replaced(eq, ops))) + multiset(Popped(eq, ops))
    + multiset(Removed(eq, ops)) + multiset(Contents(eq, ops))
  }

  lemma PushAccount<T>(eq: (T, T) -> bool, before: seq<Op<T>>, x: T)
    ensures Account(eq, before + [PushOp(x)]) == Account(eq, before) + multiset{x}
  {
    var ops, s := before + [PushOp(x)], Contents(eq, before);
    var i := IndexOf(eq, s, x);
    assert ops[..|ops| - 1] == before;
    assert Popped(eq, ops) == Popped(eq, before) && Removed(eq, ops) == Removed(eq, before);
    if i < |s| {
      PutInPlace(s, i, x);
      BeforesAppend(Replaced(eq, before), Replacement(s[i], x));
      Exchange(multiset(Befores(Replaced(eq, before))), multiset(Popped(eq, before)), multiset(Removed(eq, before)),
               multiset(s), multiset(s[i := x]), multiset{s[i]}, multiset{x});
    } else {
      assert Contents(eq, ops) == s + [x];
    }
  }

  /** What leaves d for a. */
  lemma Exchange<T>(a: multiset<T>, b: multiset<T>, c: multiset<T>, d: multiset<T>, d': multiset<T>,
                    leaves: multiset<T>, comes: multiset<T>)
    requires d' + leaves == d + comes
    ensures (a + leaves) + b + c + d' == a + b + c + d + comes
    ensures a + (b + leaves) + c + d' == a + b + c + d + comes
    ensures a + b + (c + leaves) + d' == a + b + c + d + comes
  {
    assert (a + leaves) + b + c + d' == a + b + c + (d' + leaves);
    assert a + (b + leaves) + c + d' == a + b + c + (d' + leaves);
    assert a + b + (c + leaves) + d' == a + b + c + (d' + leaves);
  }

  lemma PopAccount<T>(eq: (T, T) -> bool, before: seq<Op<T>>)
    ensures Account(eq, before + [PopOp]) == Account(eq, before)
  {
    var ops, s := before + [PopOp], Contents(eq, before);
    assert ops[..|ops| - 1] == before;
    assert Replaced(eq, ops) == Replaced(eq, before) && Removed(eq, ops) == Removed(eq, before);
    if s != [] {
      FirstTaken(s);
      Exchange(multiset(Befores(Replaced(eq, before))), multiset(Popped(eq, before)), multiset(Removed(eq, before)),
               multiset(s), multiset(Pop(s)), multiset{s[0]}, multiset{});
    }
  }

  lemma RemoveAccount<T>(eq: (T, T) -> bool, before: seq<Op<T>>, x: T)
    ensures Account(eq, before + [RemoveOp(x)]) == Account(eq, before)
  {
    var ops, s := before + [RemoveOp(x)], Contents(eq, before);
    var i := IndexOf(eq, s, x);
    assert ops[..|ops| - 1] == before;
    assert Replaced(eq, ops) == Replaced(eq, before) && Popped(eq, ops) == Popped(eq, before);
    if i < |s| {
      TakenOut(s, i);
      Exchange(multiset(Befores(Replaced(eq, before))), multiset(Popped(eq, before)), multiset(Removed(eq, before)),
               multiset(s), multiset(Without(s, i)), multiset{s[i]}, multiset{});
    }
  }

  /** Over any run every pushed item, as often as it was pushed, was replaced, popped or
      removed, or still waits; and nothing else was or does. */
  lemma PushesAreConserved<T>(eq: (T, T) -> bool, ops: seq<Op<T>>)
    ensures multiset(Pushed(ops)) == multiset(Befores(Replaced(eq, ops))) + multiset(Popped(eq, ops))
                                     + multiset(Removed(eq, ops)) + multiset(Contents(eq, ops))
    ensures |Pushed(ops)| == |Replaced(eq, ops)| + |Popped(eq, ops)| + |Removed(eq, ops)| + |Contents(eq, ops)|
  {
    AllAccounted(eq, ops);
    Sizes(Pushed(ops), Befores(Replaced(eq, ops)), Popped(eq, ops), Removed(eq, ops), Contents(eq, ops));
  }

  lemma {:induction false} AllAccounted<T>(eq: (T, T) -> bool, ops: seq<Op<T>>)
    ensures multiset(Pushed(ops)) == Account(eq, ops)
  {
    hide Account;
    if ops == [] {
      NothingAccounted(eq);
    } else {
      var before, op := ops[..|ops| - 1], ops[|ops| - 1];
      AllAccounted(eq, before);
      assert ops == before + [op];
      match op
      case PushOp(x) => PushAccount(eq, before, x);
      case PopOp => PopAccount(eq, before);
      case RemoveOp(x) => RemoveAccount(eq, before, x);
    }
  }

  lemma NothingAccounted<T>(eq: (T, T) -> bool)
    ensures Account(eq, []) == multiset{}
  {
  }

  lemma Sizes<T>(p: seq<T>, a: seq<T>, b: seq<T>, c: seq<T>, d: seq<T>)
    requires multiset(p) == multiset(a) + multiset(b) + multiset(c) + multiset(d)
    ensures |p| == |a| + |b| + |c| + |d|
  {
    assert |multiset(p)| == |p|;
  }

  /** Items are replaced only by equal ones that were pushed. */
  lemma {:induction false} ReplacedByEqual<T>(eq: (T, T) -> bool, ops: seq<Op<T>>)
    ensures forall r :: r in Replaced(eq, ops) ==> eq(r.before, r.after) && r.after in Pushed(ops)
  {
    if ops != [] {
      ReplacedByEqual(eq, ops[..|ops| - 1]);
    }
  }

  /** x has left the queue by a pop or a removal, or waits. */
  ghost predicate Served<T>(eq: (T, T) -> bool, ops: seq<Op<T>>, x: T) {
    x in Popped(eq, ops) || x in Removed(eq, ops) || x in Contents(eq, ops)
  }

  /** No kind is lost with the items that are replaced: of every pushed item one that equals it
      is popped or removed, or waits. */
  lemma {:induction false} EqualOneIsServed<T(!new)>(eq: (T, T) -> bool, ops: seq<Op<T>>, x: T) returns (y: T)
    requires Equivalence(eq) && x in Pushed(ops)
    ensures eq(x, y) && Served(eq, ops, y)
  {
    var before, op := ops[..|ops| - 1], ops[|ops| - 1];
    var s := Contents(eq, before);
    if x in Pushed(before) {
      y := EqualOneIsServed(eq, before, x);
      if y in s {
        y := StaysServed(eq, before, op, y);
      }
    } else {
      y := x;
      assert Push(eq, s, x)[IndexOf(eq, s, x)] == x;
    }
  }

  lemma StaysServed<T(!new)>(eq: (T, T) -> bool, before: seq<Op<T>>, op: Op<T>, y: T) returns (z: T)
    requires Equivalence(eq) && y in Contents(eq, before)
    ensures forall x :: eq(x, y) ==> eq(x, z)
    ensures Served(eq, before + [op], z)
  {
    var s, ops := Contents(eq, before), before + [op];
    assert ops[..|ops| - 1] == before;
    var k :| 0 <= k < |s| && s[k] == y;
    z := y;
    match op
    case PushOp(x) =>
      if IndexOf(eq, s, x) == k {
        z := x;
      }
      assert Push(eq, s, x)[k] == z;
    case PopOp =>
      if k > 0 {
        assert Pop(s)[k - 1] == y;
      }
    case RemoveOp(x) =>
      var i := IndexOf(eq, s, x);
      if k != i && i < |s| {
        assert Without(s, i)[if k < i then k else k - 1] == y;
      }
  }
}
