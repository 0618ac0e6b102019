/**
 What a hash map stands for: which addresses hold entries, with which keys and values.
 Keys are compared by a function of the user's; an entry's address is that of its
 value cell, which `get` hands out.
 */
module HashTable {
  import opened Prelude

  type Ptr = nat
  const NULL: Ptr := 0

  /** How `hash_func` must fit `equals_func`. */
  ghost predicate Compatible<K(!new)>(eq: (K, K) -> bool, hash: K -> nat) {
    forall x, y :: eq(x, y) ==> hash(x) == hash(y)
  }

  datatype Pair<K, V> = Pair(key: K, value: V)

  type Table<K, V> = map<Ptr, Pair<K, V>>

  /** No two entries have equal keys. */
  ghost predicate Proper<K, V>(eq: (K, K) -> bool, t: Table<K, V>) {
    forall p, q :: p in t && q in t && eq(t[p].key, t[q].key) ==> p == q
  }

  ghost predicate Holds<K, V>(eq: (K, K) -> bool, t: Table<K, V>, k: K, p: Ptr) {
    p in t && eq(t[p].key, k)
  }

  /** The cell of a key. */
  ghost function Cell<K, V>(eq: (K, K) -> bool, t: Table<K, V>, k: K): (c: Option<Ptr>)
    ensures c.Some? ==> Holds(eq, t, k, c.value)
    ensures c.None? ==> forall p :: !Holds(eq, t, k, p)
  {
    if p :| Holds(eq, t, k, p) then Some(p) else None
  }

  /** The finite map: a key's value. */
  ghost function Lookup<K, V>(eq: (K, K) -> bool, t: Table<K, V>, k: K): Option<V> {
    match Cell(eq, t, k)
    case None => None
    case Some(p) => Some(t[p].value)
  }

  /** A key that is there is written through its cell; another one takes the new block. */
  ghost function Insert<K, V>(eq: (K, K) -> bool, t: Table<K, V>, k: K, v: V, block: Ptr): Table<K, V> {
    match Cell(eq, t, k)
    case None => t[block := Pair(k, v)]
    case Some(p) => t[p := Pair(t[p].key, v)]
  }

  /** The value written through the cell of the key, if it has one. */
  ghost function Write<K, V>(eq: (K, K) -> bool, t: Table<K, V>, k: K, v: V): Table<K, V> {
    match Cell(eq, t, k)
    case None => t
    case Some(p) => t[p := Pair(t[p].key, v)]
  }

  ghost function Remove<K, V>(eq: (K, K) -> bool, t: Table<K, V>, k: K): Table<K, V> {
    match Cell(eq, t, k)
    case None => t
    case Some(p) => t - {p}
  }

  lemma CellIs<K(!new), V>(eq: (K, K) -> bool, t: Table<K, V>, k: K, p: Ptr)
    requires Equivalence(eq) && Proper(eq, t) && Holds(eq, t, k, p)
    ensures Cell(eq, t, k) == Some(p)
  {
  }

  lemma CellIsNot<K(!new), V>(eq: (K, K) -> bool, t: Table<K, V>, k: K)
    requires forall p :: !Holds(eq, t, k, p)
    ensures Cell(eq, t, k) == None
  {
  }

  /** Equal keys have the same cell. */
  lemma CellOfEqual<K(!new), V>(eq: (K, K) -> bool, t: Table<K, V>, j: K, k: K)
    requires Equivalence(eq) && Proper(eq, t) && eq(j, k)
    ensures Cell(eq, t, j) == Cell(eq, t, k)
  {
    assert eq(k, j);
    match Cell(eq, t, k)
    case Some(p) => CellIs(eq, t, j, p);
    case None =>
      forall p ensures !Holds(eq, t, j, p) {
        assert !Holds(eq, t, k, p);
      }
  }

  /** What an insertion does to every key: equal keys see the value, others see nothing;
      no key's cell changes, except that a new key gets the block. */
  lemma InsertMeans<K(!new), V>(eq: (K, K) -> bool, t: Table<K, V>, k: K, v: V, block: Ptr, j: K)
    requires Equivalence(eq) && Proper(eq, t) && (Cell(eq, t, k).None? ==> block !in t)
    ensures var t' := Insert(eq, t, k, v, block);
      && Proper(eq, t')
      && Lookup(eq, t', j) == (if eq(k, j) then Some(v) else Lookup(eq, t, j))
      && Cell(eq, t', j) == (if eq(k, j) && Cell(eq, t, k).None? then Some(block) else Cell(eq, t, j))
      && |t'| == |t| + if Cell(eq, t, k).None? then 1 else 0
  {
    var t' := Insert(eq, t, k, v, block);
    var p := match Cell(eq, t, k) case None => block case Some(p) => p;
    InsertIsProper(eq, t, k, v, block);
    assert t'.Keys == t.Keys + {p};
    assert Holds(eq, t', k, p);
    if eq(k, j) {
      CellOfEqual(eq, t, k, j);
      CellOfEqual(eq, t', k, j);
      CellIs(eq, t', k, p);
    } else {
      OtherCell(eq, t, t', p, j);
      assert !Holds(eq, t, j, p) && !Holds(eq, t', j, p) by {
        NotBoth(eq, t'[p].key, k, j);
      }
    }
  }

  lemma NotBoth<K(!new)>(eq: (K, K) -> bool, x: K, k: K, j: K)
    requires Equivalence(eq) && eq(x, k) && !eq(k, j)
    ensures !eq(x, j)
  {
    assert eq(k, x);
  }

  /** Two tables that differ at most at p have the same cell for a key p is not of. */
  lemma OtherCell<K(!new), V>(eq: (K, K) -> bool, t: Table<K, V>, t': Table<K, V>, p: Ptr, j: K)
    requires Equivalence(eq) && Proper(eq, t) && Proper(eq, t')
    requires forall q :: q != p ==> (q in t <==> q in t') && (q in t ==> t'[q] == t[q])
    ensures !Holds(eq, t, j, p) && !Holds(eq, t', j, p) ==>
              Cell(eq, t', j) == Cell(eq, t, j) && Lookup(eq, t', j) == Lookup(eq, t, j)
  {
    if !Holds(eq, t, j, p) && !Holds(eq, t', j, p) {
      match Cell(eq, t, j)
      case Some(q) => assert q != p; CellIs(eq, t', j, q);
      case None =>
        forall q ensures !Holds(eq, t', j, q) {
          if q != p { assert !Holds(eq, t, j, q); }
        }
    }
  }

  lemma InsertIsProper<K(!new), V>(eq: (K, K) -> bool, t: Table<K, V>, k: K, v: V, block: Ptr)
    requires Equivalence(eq) && Proper(eq, t) && (Cell(eq, t, k).None? ==> block !in t)
    ensures Proper(eq, Insert(eq, t, k, v, block))
  {
    if Cell(eq, t, k).None? {
      forall q | q in t ensures !eq(t[q].key, k) && !eq(k, t[q].key) {
        assert !Holds(eq, t, k, q);
      }
    }
  }

  /** What a write through a key's cell does to every key: equal keys see the value if they
      were there, and nothing else changes. */
  lemma WriteMeans<K(!new), V>(eq: (K, K) -> bool, t: Table<K, V>, k: K, v: V, j: K)
    requires Equivalence(eq) && Proper(eq, t)
    ensures var t' := Write(eq, t, k, v);
      && Proper(eq, t')
      && Lookup(eq, t', j) == (if eq(k, j) && Lookup(eq, t, k).Some? then Some(v) else Lookup(eq, t, j))
      && Cell(eq, t', j) == Cell(eq, t, j)
      && |t'| == |t|
  {
    if Cell(eq, t, k).Some? {
      InsertMeans(eq, t, k, v, NULL, j);
      if eq(k, j) {
        CellOfEqual(eq, t, k, j);
      }
    }
  }

  /** What a removal does to every key. */
  lemma RemoveMeans<K(!new), V>(eq: (K, K) -> bool, t: Table<K, V>, k: K, j: K)
    requires Equivalence(eq) && Proper(eq, t)
    ensures var t' := Remove(eq, t, k);
      && Proper(eq, t')
      && Lookup(eq, t', j) == (if eq(k, j) then None else Lookup(eq, t, j))
      && Cell(eq, t', j) == (if eq(k, j) then None else Cell(eq, t, j))
      && |t'| == |t| - if Cell(eq, t, k).None? then 0 else 1
  {
    var t' := Remove(eq, t, k);
    match Cell(eq, t, k) {
      case None =>
        if eq(k, j) {
          CellOfEqual(eq, t, k, j);
        }
      case Some(p) =>
        assert t'.Keys == t.Keys - {p};
        if eq(k, j) {
          forall q ensures !Holds(eq, t', j, q) {
            CellOfEqual(eq, t, k, j);
            if Holds(eq, t', j, q) {
              CellIs(eq, t, j, q);
            }
          }
        } else {
          NotBoth(eq, t[p].key, k, j);
          OtherCell(eq, t, t', p, j);
        }
    }
  }

  // ---------------------------------------------------------------- over runs

  /** An insertion with the block malloc would return, a write through the cell that a get
      for the key returns, or a removal. */
  datatype Op<K, V> =
    | InsertOp(key: K, value: V, block: Ptr)
    | WriteOp(key: K, value: V)
    | RemoveOp(key: K)

  ghost function Apply<K, V>(eq: (K, K) -> bool, t: Table<K, V>, op: Op<K, V>): Table<K, V> {
    match op
    case InsertOp(k, v, block) => Insert(eq, t, k, v, block)
    case WriteOp(k, v) => Write(eq, t, k, v)
    case RemoveOp(k) => Remove(eq, t, k)
  }

  ghost function After<K, V>(eq: (K, K) -> bool, ops: seq<Op<K, V>>): Table<K, V> {
    if ops == [] then map[] else Apply(eq, After(eq, ops[..|ops| - 1]), ops[|ops| - 1])
  }

  /** malloc returns no block that is in use. It may return one that was freed. */
  ghost predicate IsRun<K, V>(eq: (K, K) -> bool, ops: seq<Op<K, V>>) {
    forall i :: 0 <= i < |ops| && ops[i].InsertOp? ==> ops[i].block !in After(eq, ops[..i])
  }

  /** The value last inserted for a key, or written since through its cell, unless it was
      removed since. */
  function LastWrite<K, V>(eq: (K, K) -> bool, ops: seq<Op<K, V>>, k: K): Option<V> {
    if ops == [] then None else
    var before := LastWrite(eq, ops[..|ops| - 1], k);
    var op := ops[|ops| - 1];
    if !eq(op.key, k) then before else
    match op
    case InsertOp(_, v, _) => Some(v)
    case WriteOp(_, v) => if before.Some? then Some(v) else None
    case RemoveOp(_) => None
  }

  lemma Prefix<K, V>(eq: (K, K) -> bool, ops: seq<Op<K, V>>, n: nat)
    requires IsRun(eq, ops) && n <= |ops|
    ensures IsRun(eq, ops[..n])
  {
    forall i | 0 <= i < n && ops[..n][i].InsertOp? ensures ops[..n][i].block !in After(eq, ops[..n][..i]) {
      assert ops[..n][..i] == ops[..i];
    }
  }

  /** Any run of insertions, writes and removals answers every lookup with what was last written
      under an equal key. */
  lemma {:induction false} RunsLikeAMap<K(!new), V>(eq: (K, K) -> bool, ops: seq<Op<K, V>>, k: K)
    requires Equivalence(eq) && IsRun(eq, ops)
    ensures Proper(eq, After(eq, ops))
    ensures Lookup(eq, After(eq, ops), k) == LastWrite(eq, ops, k)
  {
    if ops == [] {
      CellIsNot(eq, After(eq, ops), k);
    } else {
      var n := |ops| - 1;
      Prefix(eq, ops, n);
      RunsLikeAMap(eq, ops[..n], k);
      var t := After(eq, ops[..n]);
      match ops[n]
      case InsertOp(j, v, block) => InsertMeans(eq, t, j, v, block, k);
      case WriteOp(j, v) =>
        WriteMeans(eq, t, j, v, k);
        if eq(j, k) {
          CellOfEqual(eq, t, j, k);
        }
      case RemoveOp(j) => RemoveMeans(eq, t, j, k);
    }
  }

  /** The cell that a key has after i operations is its cell as long as no equal key is
      removed, whatever is inserted and whatever else is removed. */
  lemma {:induction false} CellIsStable<K(!new), V>(eq: (K, K) -> bool, ops: seq<Op<K, V>>, i: nat, k: K)
    requires Equivalence(eq) && IsRun(eq, ops) && i <= |ops|
    requires Cell(eq, After(eq, ops[..i]), k).Some?
    requires forall m :: i <= m < |ops| && ops[m].RemoveOp? ==> !eq(ops[m].key, k)
    ensures Cell(eq, After(eq, ops), k) == Cell(eq, After(eq, ops[..i]), k)
  {
    hide Equivalence, Proper, Holds, Cell, Apply;
    if i == |ops| {
      assert ops[..i] == ops;
    } else {
      var n := |ops| - 1;
      Prefix(eq, ops, n);
      assert ops[..n][..i] == ops[..i];
      CellIsStable(eq, ops[..n], i, k);
      RunsLikeAMap(eq, ops[..n], k);
      CellIsKept(eq, After(eq, ops[..n]), ops[n], k);
    }
  }

  lemma CellIsKept<K(!new), V>(eq: (K, K) -> bool, t: Table<K, V>, op: Op<K, V>, k: K)
    requires Equivalence(eq) && Proper(eq, t) && Cell(eq, t, k).Some?
    requires op.InsertOp? ==> op.block !in t
    requires op.RemoveOp? ==> !eq(op.key, k)
    ensures Cell(eq, Apply(eq, t, op), k) == Cell(eq, t, k)
  {
    match op
    case InsertOp(j, v, block) =>
      InsertMeans(eq, t, j, v, block, k);
      if eq(j, k) {
        CellOfEqual(eq, t, j, k);
      }
    case WriteOp(j, v) => WriteMeans(eq, t, j, v, k);
    case RemoveOp(j) => RemoveMeans(eq, t, j, k);
  }
}
