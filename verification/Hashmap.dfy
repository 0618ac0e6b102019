/**
 The chained hash map that include/hashmap.h defines by macro: an array of buckets,
 each a singly linked list of entries.

 Entries live in an explicit memory of addresses, so that an entry that has been freed
 cannot be read. The block malloc returns is a parameter of insertion.
 */
module Hashmap {
  import opened Prelude
  import opened HashTable

  datatype Record<K, V> = Record(key: K, value: V, next: Ptr)

  type Memory<K, V> = map<Ptr, Record<K, V>>

  function View<K, V>(mem: Memory<K, V>): Table<K, V> {
    map p | p in mem :: Pair(mem[p].key, mem[p].value)
  }

  function At(chain: seq<Ptr>, i: nat): Ptr {
    if i < |chain| then chain[i] else NULL
  }

  /** From `head` the entries of `chain`, all different, hang one after the other, and
      then NULL: no cycle. */
  predicate Linked<K, V>(mem: Memory<K, V>, head: Ptr, chain: seq<Ptr>) {
    && head == At(chain, 0)
    && (forall i :: 0 <= i < |chain| ==>
          chain[i] != NULL && chain[i] in mem && mem[chain[i]].next == At(chain, i + 1))
    && (forall i, j :: 0 <= i < j < |chain| ==> chain[i] != chain[j])
  }

  function Index<K>(hash: K -> nat, n: nat, k: K): (b: nat)
    requires n > 0
    ensures b < n
  {
    hash(k) % n
  }

  /** Every entry is in the list of its hash's bucket, and in no other. */
  predicate Sorted<K, V>(hash: K -> nat, mem: Memory<K, V>, chains: seq<seq<Ptr>>)
    requires |chains| > 0
  {
    Own(hash, mem, chains) && Listed(hash, mem, chains)
  }

  predicate Own<K, V>(hash: K -> nat, mem: Memory<K, V>, chains: seq<seq<Ptr>>)
    requires |chains| > 0
  {
    forall b, i :: 0 <= b < |chains| && 0 <= i < |chains[b]| ==>
      chains[b][i] in mem && Index(hash, |chains|, mem[chains[b][i]].key) == b
  }

  predicate Listed<K, V>(hash: K -> nat, mem: Memory<K, V>, chains: seq<seq<Ptr>>)
    requires |chains| > 0
  {
    forall p :: p in mem ==> p in chains[Index(hash, |chains|, mem[p].key)]
  }

  predicate AllLinked<K, V>(mem: Memory<K, V>, heads: seq<Ptr>, chains: seq<seq<Ptr>>)
    requires |heads| == |chains|
  {
    forall b :: 0 <= b < |chains| ==> Linked(mem, heads[b], chains[b])
  }

  class Map<K(!new), V> {
    const hash: K -> nat
    const eq: (K, K) -> bool
    const buckets: array<Ptr>
    var memory: Memory<K, V>
    var size: nat
    ghost var released: bool         // the bucket array has been freed
    ghost var chains: seq<seq<Ptr>>

    ghost predicate Valid()
      reads this, buckets
    {
      && |chains| == buckets.Length > 0 && !released
      && Equivalence(eq) && Compatible(eq, hash)
      && AllLinked(memory, buckets[..], chains)
      && Sorted(hash, memory, chains)
      && Proper(eq, View(memory))
      && size == |memory|
    }

    /** name_init. A map without buckets can only be freed. */
    constructor (capacity: nat, hash: K -> nat, eq: (K, K) -> bool)
      requires Equivalence(eq) && Compatible(eq, hash)
      ensures capacity > 0 ==> Valid()
      ensures fresh(buckets) && buckets.Length == capacity && memory == map[] && size == 0 && !released
      ensures this.hash == hash && this.eq == eq
    {
      this.hash, this.eq := hash, eq;
      buckets := new Ptr[capacity](_ => NULL);
      memory, size, released, chains := map[], 0, false, seq(capacity, _ => []);
    }

    /** The walk insert, get and remove make along the key's bucket: to the entry with an
        equal key, or to the end. */
    method Walk(key: K) returns (prev: Ptr, cur: Ptr, ghost b: nat, ghost i: nat)
      requires Valid()
      ensures b == Index(hash, buckets.Length, key)
      ensures i <= |chains[b]| && cur == At(chains[b], i)
      ensures prev == if i == 0 then NULL else chains[b][i - 1]
      ensures Cell(eq, View(memory), key) == if cur == NULL then None else Some(cur)
    {
      hide AllLinked, Sorted, Linked, Proper, Equivalence, Compatible, View;
      b := Index(hash, buckets.Length, key);
      ghost var chain := chains[b];
      prev, cur, i := NULL, buckets[Index(hash, buckets.Length, key)], 0;
      BucketLinked(memory, buckets[..], chains, b);
      InChain(memory, cur, chain);
      while cur != NULL
        invariant i <= |chain| && cur == At(chain, i)
        invariant prev == if i == 0 then NULL else chain[i - 1]
        invariant forall j :: 0 <= j < i ==> !eq(memory[chain[j]].key, key)
        decreases |chain| - i
      {
        if eq(memory[cur].key, key) {
          CellFound(eq, memory, key, cur);
          return;
        }
        prev, cur, i := cur, memory[cur].next, i + 1;
      }
      NotInChain(hash, eq, memory, chains, key);
    }

    /** name_get: the address of the key's value, or NULL. */
    method Get(key: K) returns (cell: Ptr)
      requires Valid()
      ensures Cell(eq, View(memory), key) == if cell == NULL then None else Some(cell)
    {
      var prev, cur, b, i := Walk(key);
      cell := cur;
    }

    /** name_insert. */
    method InsertPair(key: K, value: V, block: Ptr)
      requires Valid() && block != NULL && block !in memory
      modifies this, buckets
      ensures Valid()
      ensures View(memory) == Insert(eq, old(View(memory)), key, value, block)
    {
      hide AllLinked, Sorted, Linked, Proper, Equivalence, Compatible;
      var prev, cur, b, i := Walk(key);
      InsertMeans(eq, View(memory), key, value, block, key);
      if cur != NULL {
        Write(cur, value);
      } else {
        Prepend(key, value, block);
      }
    }

    /** The lists and their buckets are in order, whatever the keys are. */
    ghost predicate ListsOk()
      reads this, buckets
    {
      && |chains| == buckets.Length > 0
      && AllLinked(memory, buckets[..], chains)
      && Sorted(hash, memory, chains)
      && size == |memory|
    }

    /** A caller's write through the cell that get returned. */
    method WriteCell(cell: Ptr, value: V)
      requires Valid() && cell in memory
      modifies this`memory
      ensures Valid()
      ensures View(memory) == old(View(memory))[cell := Pair(old(memory)[cell].key, value)]
      ensures forall key :: Cell(eq, old(View(memory)), key) == Some(cell) ==>
                View(memory) == HashTable.Write(eq, old(View(memory)), key, value)
    {
      hide AllLinked, Sorted, Linked, Equivalence, Compatible, Proper;
      CellWritten(eq, View(memory), cell, value);
      Write(cell, value);
    }

    method Write(cur: Ptr, value: V)
      requires ListsOk() && cur in memory
      modifies this`memory
      ensures ListsOk()
      ensures View(memory) == old(View(memory))[cur := Pair(old(memory)[cur].key, value)]
    {
      hide AllLinked, Sorted;
      WrittenValid(hash, memory, buckets[..], chains, cur, value);
      memory := memory[cur := memory[cur].(value := value)];
    }

    method Prepend(key: K, value: V, block: Ptr)
      requires ListsOk() && block != NULL && block !in memory
      modifies this`memory, this`size, this`chains, buckets
      ensures ListsOk()
      ensures View(memory) == old(View(memory))[block := Pair(key, value)]
    {
      hide AllLinked, Sorted;
      ghost var b := Index(hash, buckets.Length, key);
      var entry := Record(key, value, buckets[Index(hash, buckets.Length, key)]);
      PrependedValid(hash, memory, buckets[..], chains, b, block, entry);
      memory := memory[block := entry];
      buckets[Index(hash, buckets.Length, key)] := block;
      chains := chains[b := [block] + chains[b]];
      size := size + 1;
      assert buckets[..] == old(buckets[..])[b := block];
    }

    /** name_remove: whether the key was there. */
    method RemoveKey(key: K) returns (removed: bool)
      requires Valid()
      modifies this, buckets
      ensures Valid()
      ensures removed == Cell(eq, old(View(memory)), key).Some?
      ensures View(memory) == Remove(eq, old(View(memory)), key)
    {
      hide AllLinked, Sorted, Linked, Proper, Equivalence, Compatible;
      var prev, cur, b, i := Walk(key);
      RemoveMeans(eq, View(memory), key, key);
      removed := cur != NULL;
      if removed {
        Unlink(Index(hash, buckets.Length, key), prev, cur, i);
      }
    }

    method Unlink(b: nat, prev: Ptr, cur: Ptr, ghost i: nat)
      requires ListsOk() && b < buckets.Length && i < |chains[b]| && cur == chains[b][i]
      requires prev == if i == 0 then NULL else chains[b][i - 1]
      modifies this`memory, this`size, this`chains, buckets
      ensures ListsOk()
      ensures View(memory) == old(View(memory)) - {cur}
    {
      hide AllLinked, Sorted, Without;
      UnlinkedValid(hash, memory, buckets[..], chains, b, i);
      var next := memory[cur].next;
      if prev != NULL {
        memory := memory[prev := memory[prev].(next := next)];
      } else {
        buckets[b] := next;
      }
      assert buckets[..] == if i == 0 then old(buckets[..])[b := next] else old(buckets[..]);
      assert memory.Keys == old(memory).Keys;
      memory := memory - {cur};
      assert memory.Keys == old(memory).Keys - {cur};
      chains := chains[b := Without(chains[b], i)];
      size := size - 1;
    }

    /** name_free: every entry of every bucket is freed, each while it is still allocated
        and so exactly once; nothing is left. Then the bucket array is freed, and the map is
        not to be used afterwards. */
    method FreeAll() returns (freed: seq<Ptr>)
      requires Valid() || (buckets.Length == 0 && memory == map[] && !released)
      modifies this`memory, this`released
      ensures memory == map[] && released
      ensures forall p :: p in freed <==> p in old(memory)
      ensures forall i, j :: 0 <= i < j < |freed| ==> freed[i] != freed[j]
    {
      hide AllLinked, Sorted, Proper, Equivalence, Compatible;
      ghost var mem := memory;
      freed := [];
      var b := 0;
      while b < buckets.Length
        invariant b <= buckets.Length
        invariant buckets.Length > 0 ==> FreedBelow(hash, mem, memory, buckets.Length, b)
        invariant buckets.Length == 0 ==> memory == mem
        invariant forall p :: p in freed <==> p in mem && p !in memory
        invariant forall i, j :: 0 <= i < j < |freed| ==> freed[i] != freed[j]
      {
        BucketLeft(hash, mem, memory, buckets[..], chains, b);
        freed := FreeList(b, freed);
        b := b + 1;
      }
      released := true;
    }

    /** One bucket of name_free. */
    method FreeList(b: nat, freed0: seq<Ptr>) returns (freed: seq<Ptr>)
      requires b < buckets.Length == |chains| && Linked(memory, buckets[b], chains[b])
      requires forall p :: p in memory ==> p !in freed0
      requires forall i, j :: 0 <= i < j < |freed0| ==> freed0[i] != freed0[j]
      modifies this`memory
      ensures forall p :: p in memory <==> p in old(memory) && p !in chains[b]
      ensures forall p :: p in memory ==> memory[p] == old(memory)[p]
      ensures freed == freed0 + chains[b]
      ensures forall i, j :: 0 <= i < j < |freed| ==> freed[i] != freed[j]
    {
      ghost var chain, mem := chains[b], memory;
      var current := buckets[b];
      ghost var i := 0;
      freed := freed0;
      while current != NULL
        invariant i <= |chain| && current == At(chain, i)
        invariant freed == freed0 + chain[..i]
        invariant memory == WithoutFirst(mem, chain, i)
        decreases |chain| - i
      {
        FreeStep(mem, buckets[b], chain, i);
        var temp := current;
        current := memory[current].next;
        memory := memory - {temp};
        freed := freed + [temp];
        i := i + 1;
      }
      assert chain[..i] == chain;
      FreedDistinct(mem, buckets[b], chain, freed0);
    }
  }

  /** The memory once the first i entries of a list are freed. */
  ghost function WithoutFirst<K, V>(mem: Memory<K, V>, chain: seq<Ptr>, i: nat): Memory<K, V>
    requires i <= |chain|
  {
    map p | p in mem && p !in chain[..i] :: mem[p]
  }

  lemma FreeStep<K, V>(mem: Memory<K, V>, head: Ptr, chain: seq<Ptr>, i: nat)
    requires Linked(mem, head, chain) && i < |chain|
    ensures var left := WithoutFirst(mem, chain, i);
      && chain[i] in left && left[chain[i]].next == At(chain, i + 1)
      && left - {chain[i]} == WithoutFirst(mem, chain, i + 1)
      && chain[..i] + [chain[i]] == chain[..i + 1]
  {
  }

  lemma FreedDistinct<K, V>(mem: Memory<K, V>, head: Ptr, chain: seq<Ptr>, freed0: seq<Ptr>)
    requires Linked(mem, head, chain)
    requires forall p :: p in mem ==> p !in freed0
    requires forall i, j :: 0 <= i < j < |freed0| ==> freed0[i] != freed0[j]
    ensures var freed := freed0 + chain;
      forall i, j :: 0 <= i < j < |freed| ==> freed[i] != freed[j]
  {
  }

  /** What is left when the buckets below b have been freed. */
  ghost predicate FreedBelow<K, V>(hash: K -> nat, mem: Memory<K, V>, left: Memory<K, V>, n: nat, b: nat)
    requires n > 0
  {
    && (forall p :: p in left <==> p in mem && Index(hash, n, mem[p].key) >= b)
    && (forall p :: p in left ==> left[p] == mem[p])
  }

  lemma BucketLeft<K, V>(hash: K -> nat, mem: Memory<K, V>, left: Memory<K, V>, heads: seq<Ptr>,
                         chains: seq<seq<Ptr>>, b: nat)
    requires |heads| == |chains| > b && AllLinked(mem, heads, chains) && Sorted(hash, mem, chains)
    requires FreedBelow(hash, mem, left, |chains|, b)
    ensures Linked(left, heads[b], chains[b])
    ensures forall p :: p in chains[b] <==> p in mem && Index(hash, |chains|, mem[p].key) == b
  {
    assert Linked(mem, heads[b], chains[b]);
  }

  lemma BucketLinked<K, V>(mem: Memory<K, V>, heads: seq<Ptr>, chains: seq<seq<Ptr>>, b: nat)
    requires |heads| == |chains| > b && AllLinked(mem, heads, chains)
    ensures Linked(mem, heads[b], chains[b])
  {
  }

  lemma InChain<K, V>(mem: Memory<K, V>, head: Ptr, chain: seq<Ptr>)
    requires Linked(mem, head, chain)
    ensures head == At(chain, 0)
    ensures forall i :: 0 <= i < |chain| ==>
              chain[i] != NULL && chain[i] in mem && mem[chain[i]].next == At(chain, i + 1)
  {
  }

  lemma CellFound<K(!new), V>(eq: (K, K) -> bool, mem: Memory<K, V>, key: K, p: Ptr)
    requires Equivalence(eq) && Proper(eq, View(mem)) && p in mem && eq(mem[p].key, key)
    ensures Cell(eq, View(mem), key) == Some(p)
  {
    CellIs(eq, View(mem), key, p);
  }

  /** An entry with an equal key could only be in the key's bucket. */
  lemma NotInChain<K(!new), V>(hash: K -> nat, eq: (K, K) -> bool, mem: Memory<K, V>, chains: seq<seq<Ptr>>, key: K)
    requires |chains| > 0 && Compatible(eq, hash) && Sorted(hash, mem, chains)
    requires var chain := chains[Index(hash, |chains|, key)];
      forall j :: 0 <= j < |chain| ==> !eq(mem[chain[j]].key, key)
    ensures Cell(eq, View(mem), key) == None
  {
    forall p ensures !Holds(eq, View(mem), key, p) {
      if p in mem && Index(hash, |chains|, mem[p].key) == Index(hash, |chains|, key) {
        assert p in chains[Index(hash, |chains|, mem[p].key)];
      }
    }
  }

  lemma CellWritten<K(!new), V>(eq: (K, K) -> bool, t: Table<K, V>, p: Ptr, v: V)
    requires Equivalence(eq) && Proper(eq, t) && p in t
    ensures var t' := t[p := Pair(t[p].key, v)];
      Proper(eq, t') && forall k :: Cell(eq, t, k) == Some(p) ==> t' == HashTable.Write(eq, t, k, v)
  {
  }

  // -------------------------------------------- the three changes to the lists

  lemma WrittenValid<K, V>(hash: K -> nat, mem: Memory<K, V>, heads: seq<Ptr>, chains: seq<seq<Ptr>>,
                           p: Ptr, value: V)
    requires |heads| == |chains| > 0 && AllLinked(mem, heads, chains) && Sorted(hash, mem, chains) && p in mem
    ensures var mem' := mem[p := mem[p].(value := value)];
      AllLinked(mem', heads, chains) && Sorted(hash, mem', chains)
  {
    var mem' := mem[p := mem[p].(value := value)];
    SameKeys(hash, mem, mem', chains);
    hide Sorted, Linked;
    forall b | 0 <= b < |chains| ensures Linked(mem', heads[b], chains[b]) {
      assert Linked(mem, heads[b], chains[b]);
      WrittenLinked(mem, heads[b], chains[b], p, value);
    }
  }

  lemma WrittenLinked<K, V>(mem: Memory<K, V>, head: Ptr, chain: seq<Ptr>, p: Ptr, value: V)
    requires Linked(mem, head, chain) && p in mem
    ensures Linked(mem[p := mem[p].(value := value)], head, chain)
  {
  }

  lemma SameKeys<K, V>(hash: K -> nat, mem: Memory<K, V>, mem': Memory<K, V>, chains: seq<seq<Ptr>>)
    requires |chains| > 0 && Sorted(hash, mem, chains)
    requires forall p :: p in mem' <==> p in mem
    requires forall p :: p in mem ==> mem'[p].key == mem[p].key
    ensures Sorted(hash, mem', chains)
  {
  }

  /** A list is not affected by changes elsewhere. */
  lemma LinkedFrame<K, V>(mem: Memory<K, V>, mem': Memory<K, V>, head: Ptr, chain: seq<Ptr>)
    requires Linked(mem, head, chain)
    requires forall i :: 0 <= i < |chain| ==> chain[i] in mem' && mem'[chain[i]].next == mem[chain[i]].next
    ensures Linked(mem', head, chain)
  {
  }

  lemma PrependedChain<K, V>(mem: Memory<K, V>, head: Ptr, chain: seq<Ptr>, block: Ptr, entry: Record<K, V>)
    requires Linked(mem, head, chain) && block != NULL && block !in mem && entry.next == head
    ensures Linked(mem[block := entry], block, [block] + chain)
  {
    var chain' := [block] + chain;
    forall i | 0 <= i < |chain'| ensures At(chain', i + 1) == At(chain, i) {
    }
  }

  lemma PrependedValid<K, V>(hash: K -> nat, mem: Memory<K, V>, heads: seq<Ptr>, chains: seq<seq<Ptr>>,
                             b: nat, block: Ptr, entry: Record<K, V>)
    requires |heads| == |chains| > b && AllLinked(mem, heads, chains) && Sorted(hash, mem, chains)
    requires block != NULL && block !in mem
    requires entry.next == heads[b] && Index(hash, |chains|, entry.key) == b
    ensures var mem', chains' := mem[block := entry], chains[b := [block] + chains[b]];
      AllLinked(mem', heads[b := block], chains') && Sorted(hash, mem', chains')
  {
    hide Linked;
    var mem', chains' := mem[block := entry], chains[b := [block] + chains[b]];
    forall c | 0 <= c < |chains| ensures Linked(mem', heads[b := block][c], chains'[c]) {
      assert Linked(mem, heads[c], chains[c]);
      if c == b {
        PrependedChain(mem, heads[b], chains[b], block, entry);
      } else {
        LinkedFrame(mem, mem', heads[c], chains[c]);
      }
    }
    PrependedSorted(hash, mem, chains, b, block, entry);
  }

  lemma PrependedSorted<K, V>(hash: K -> nat, mem: Memory<K, V>, chains: seq<seq<Ptr>>,
                              b: nat, block: Ptr, entry: Record<K, V>)
    requires |chains| > b && Sorted(hash, mem, chains)
    requires block !in mem && Index(hash, |chains|, entry.key) == b
    ensures Sorted(hash, mem[block := entry], chains[b := [block] + chains[b]])
  {
  }

  /** The memory once the i-th entry of a list is unlinked and freed. */
  function Unlinked<K, V>(mem: Memory<K, V>, chain: seq<Ptr>, i: nat): Memory<K, V>
    requires i < |chain| && chain[i] in mem && (i > 0 ==> chain[i - 1] in mem)
  {
    var next := mem[chain[i]].next;
    (if i == 0 then mem else mem[chain[i - 1] := mem[chain[i - 1]].(next := next)]) - {chain[i]}
  }

  lemma UnlinkedHead<K, V>(mem: Memory<K, V>, head: Ptr, chain: seq<Ptr>)
    requires Linked(mem, head, chain) && chain != []
    ensures Linked(Unlinked(mem, chain, 0), mem[chain[0]].next, chain[1..])
  {
    var mem' := Unlinked(mem, chain, 0);
    forall k | 0 <= k < |chain[1..]|
      ensures chain[1..][k] in mem' && mem'[chain[1..][k]].next == At(chain[1..], k + 1)
    {
      assert chain[1..][k] == chain[k + 1] && chain[k + 1] != chain[0];
      assert At(chain[1..], k + 1) == At(chain, k + 2);
    }
  }

  /** Where an entry of the list leads once the i-th is unlinked. */
  lemma UnlinkedNext<K, V>(mem: Memory<K, V>, head: Ptr, chain: seq<Ptr>, i: nat, j: nat)
    requires Linked(mem, head, chain) && 0 < i < |chain| && j < |chain| && j != i
    ensures var mem' := Unlinked(mem, chain, i);
      && chain[j] != NULL && chain[j] in mem'
      && mem'[chain[j]].next == At(chain, if j == i - 1 then i + 1 else j + 1)
  {
  }

  lemma UnlinkedInside<K, V>(mem: Memory<K, V>, head: Ptr, chain: seq<Ptr>, i: nat)
    requires Linked(mem, head, chain) && 0 < i < |chain|
    ensures Linked(Unlinked(mem, chain, i), head, Without(chain, i))
  {
    var r, mem' := Without(chain, i), Unlinked(mem, chain, i);
    LinkedApart(mem, head, chain);
    hide Linked, Without, Unlinked;
    forall k | 0 <= k < |r| ensures r[k] != NULL && r[k] in mem' && mem'[r[k]].next == At(r, k + 1) {
      UnlinkedNext(mem, head, chain, i, if k < i then k else k + 1);
    }
    IsLinked(mem', head, r);
  }

  lemma LinkedApart<K, V>(mem: Memory<K, V>, head: Ptr, chain: seq<Ptr>)
    requires Linked(mem, head, chain)
    ensures head == At(chain, 0) && forall i, j :: 0 <= i < j < |chain| ==> chain[i] != chain[j]
  {
  }

  lemma IsLinked<K, V>(mem: Memory<K, V>, head: Ptr, chain: seq<Ptr>)
    requires head == At(chain, 0)
    requires forall i :: 0 <= i < |chain| ==>
               chain[i] != NULL && chain[i] in mem && mem[chain[i]].next == At(chain, i + 1)
    requires forall i, j :: 0 <= i < j < |chain| ==> chain[i] != chain[j]
    ensures Linked(mem, head, chain)
  {
  }

  lemma UnlinkedChain<K, V>(mem: Memory<K, V>, head: Ptr, chain: seq<Ptr>, i: nat)
    requires Linked(mem, head, chain) && i < |chain|
    ensures Linked(Unlinked(mem, chain, i), if i == 0 then mem[chain[0]].next else head, Without(chain, i))
  {
    if i == 0 {
      UnlinkedHead(mem, head, chain);
      assert Without(chain, 0) == chain[1..];
    } else {
      UnlinkedInside(mem, head, chain, i);
    }
  }

  lemma UnlinkedValid<K, V>(hash: K -> nat, mem: Memory<K, V>, heads: seq<Ptr>, chains: seq<seq<Ptr>>,
                            b: nat, i: nat)
    requires |heads| == |chains| > b && AllLinked(mem, heads, chains) && Sorted(hash, mem, chains)
    requires i < |chains[b]|
    ensures chains[b][i] in mem && chains[b][i] != NULL
    ensures i > 0 ==> chains[b][i - 1] in mem && chains[b][i - 1] != NULL
    ensures var mem' := Unlinked(mem, chains[b], i);
      var heads' := if i == 0 then heads[b := mem[chains[b][0]].next] else heads;
      var chains' := chains[b := Without(chains[b], i)];
      AllLinked(mem', heads', chains') && Sorted(hash, mem', chains')
  {
    hide Without, Index, Linked, Sorted;
    UnlinkedElsewhere(hash, mem, heads, chains, b, i, b);
    var mem' := Unlinked(mem, chains[b], i);
    forall c | 0 <= c < |chains| && c != b ensures Linked(mem', heads[c], chains[c]) {
      UnlinkedElsewhere(hash, mem, heads, chains, b, i, c);
    }
    UnlinkedChain(mem, heads[b], chains[b], i);
    UnlinkedSorted(hash, mem, heads[b], chains, b, i);
  }

  /** The lists of the other buckets do not notice. */
  lemma UnlinkedElsewhere<K, V>(hash: K -> nat, mem: Memory<K, V>, heads: seq<Ptr>, chains: seq<seq<Ptr>>,
                                b: nat, i: nat, c: nat)
    requires |heads| == |chains| > b && AllLinked(mem, heads, chains) && Sorted(hash, mem, chains)
    requires i < |chains[b]| && c < |chains|
    ensures Linked(mem, heads[b], chains[b])
    ensures chains[b][i] in mem && chains[b][i] != NULL
    ensures i > 0 ==> chains[b][i - 1] in mem && chains[b][i - 1] != NULL
    ensures c != b ==> Linked(Unlinked(mem, chains[b], i), heads[c], chains[c])
  {
    hide Index;
    assert Linked(mem, heads[b], chains[b]);
    assert Linked(mem, heads[c], chains[c]);
    if c != b {
      hide Linked;
      LinkedFrame(mem, Unlinked(mem, chains[b], i), heads[c], chains[c]);
    }
  }

  lemma UnlinkedSorted<K, V>(hash: K -> nat, mem: Memory<K, V>, head: Ptr, chains: seq<seq<Ptr>>, b: nat, i: nat)
    requires |chains| > b && Sorted(hash, mem, chains) && i < |chains[b]| && Linked(mem, head, chains[b])
    ensures Sorted(hash, Unlinked(mem, chains[b], i), chains[b := Without(chains[b], i)])
  {
    hide Own, Listed, Without, Index;
    UnlinkedMemory(hash, mem, head, chains, b, i);
    UnlinkedOwn(hash, mem, Unlinked(mem, chains[b], i), head, chains, b, i);
    UnlinkedListed(hash, mem, Unlinked(mem, chains[b], i), chains, b, i);
  }

  lemma UnlinkedMemory<K, V>(hash: K -> nat, mem: Memory<K, V>, head: Ptr, chains: seq<seq<Ptr>>, b: nat, i: nat)
    requires |chains| > b && i < |chains[b]| && Linked(mem, head, chains[b])
    ensures KeepsKeys(mem, Unlinked(mem, chains[b], i), chains[b][i])
  {
  }

  /** The memory without one entry, the others' keys unchanged. */
  ghost predicate KeepsKeys<K, V>(mem: Memory<K, V>, mem': Memory<K, V>, gone: Ptr) {
    && (forall p :: p in mem' <==> p in mem && p != gone)
    && (forall p :: p in mem' ==> mem'[p].key == mem[p].key)
  }

  lemma UnlinkedOwn<K, V>(hash: K -> nat, mem: Memory<K, V>, mem': Memory<K, V>, head: Ptr, chains: seq<seq<Ptr>>,
                          b: nat, i: nat)
    requires |chains| > b && Own(hash, mem, chains) && i < |chains[b]| && Linked(mem, head, chains[b])
    requires KeepsKeys(mem, mem', chains[b][i])
    ensures Own(hash, mem', chains[b := Without(chains[b], i)])
  {
    hide Without, Index;
    var chains' := chains[b := Without(chains[b], i)];
    forall c, k | 0 <= c < |chains'| && 0 <= k < |chains'[c]|
      ensures chains'[c][k] in mem' && Index(hash, |chains'|, mem'[chains'[c][k]].key) == c
    {
      var j := if c == b && k >= i then k + 1 else k;
      assert chains'[c][k] == chains[c][j];
      assert chains[c][j] != chains[b][i];
    }
  }

  lemma UnlinkedListed<K, V>(hash: K -> nat, mem: Memory<K, V>, mem': Memory<K, V>, chains: seq<seq<Ptr>>,
                             b: nat, i: nat)
    requires |chains| > b && Listed(hash, mem, chains) && i < |chains[b]|
    requires KeepsKeys(mem, mem', chains[b][i])
    ensures Listed(hash, mem', chains[b := Without(chains[b], i)])
  {
    hide Without, Index;
    var chains' := chains[b := Without(chains[b], i)];
    forall p | p in mem' ensures p in chains'[Index(hash, |chains'|, mem'[p].key)] {
      StaysInChain(chains, Index(hash, |chains|, mem[p].key), b, i, p);
    }
  }

  lemma StaysInChain(chains: seq<seq<Ptr>>, c: nat, b: nat, i: nat, p: Ptr)
    requires b < |chains| && c < |chains| && i < |chains[b]| && p in chains[c] && p != chains[b][i]
    ensures p in chains[b := Without(chains[b], i)][c]
  {
  }
}
