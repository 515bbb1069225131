/** upstream/nfq/uthash.h: a hash table whose elements are also kept in the order they were added. */
module Uthash {
  import opened BitArith

  /** An element, with its UT_hash_handle: the links, the key, its hash, and the rest of the element. */
  class Handle<E> {
    var prev: Handle?<E> // in application order
    var next: Handle?<E>
    var hhPrev: Handle?<E> // in the bucket
    var hhNext: Handle?<E>
    const key: seq<nat>
    var hashv: nat
    var elem: E

    constructor (key: seq<nat>, elem: E)
      ensures this.key == key && this.elem == elem
    {
      this.key, this.elem, hashv := key, elem, 0;
      prev, next, hhPrev, hhNext := null, null, null, null;
    }
  }

  /** UT_hash_bucket */
  datatype Bucket<E> = Bucket(hhHead: Handle?<E>, count: nat, expandMult: nat)

  /** The handles of each bucket. */
  datatype Chains<E> = Chains(c: seq<seq<Handle<E>>>)

  const INITIAL_NUM_BUCKETS_LOG2 := 5
  const BKT_CAPACITY_THRESH := 10

  ghost function At<E>(c: seq<Handle<E>>, i: int): Handle?<E> {
    if 0 <= i < |c| then c[i] else null
  }

  ghost predicate Distinct<E>(c: seq<Handle<E>>) {
    forall i, j | 0 <= i < j < |c| :: c[i] != c[j]
  }

  // ----- buckets -----

  /** The chain of a bucket, doubly linked. */
  ghost predicate Linked<E>(c: seq<Handle<E>>)
    reads c
  {
    && Distinct(c)
    && forall i {:trigger c[i].hhNext} {:trigger c[i].hhPrev} | 0 <= i < |c| ::
         c[i].hhNext == At(c, i + 1) && c[i].hhPrev == At(c, i - 1)
  }

  /** HASH_TO_BKT */
  function ToBkt(hashv: nat, numBuckets: nat): (bkt: nat)
    requires numBuckets > 0
    ensures bkt < numBuckets
  {
    AndBelow(hashv, numBuckets - 1);
    And(hashv, numBuckets - 1)
  }

  lemma {:induction false} AndBelow(x: nat, y: nat)
    ensures And(x, y) <= y
  {
    if x != 0 && y != 0 { AndBelow(x / 2, y / 2); }
  }

  ghost predicate IsChain<E>(b: Bucket<E>, c: seq<Handle<E>>)
    reads c
  {
    b.hhHead == At(c, 0) && b.count == |c| && Linked(c)
  }

  /** The handles of a chain are those of s that belong to its bucket. */
  ghost predicate InBucket<E>(c: seq<Handle<E>>, b: nat, n: nat, s: set<Handle<E>>)
    requires n > 0
    reads s
  {
    && (forall h | h in c :: h in s && ToBkt(h.hashv, n) == b)
    && forall h | h in s && ToBkt(h.hashv, n) == b :: h in c
  }

  /** The buckets hold exactly the handles of s, each in the bucket given by its hash; the counts are exact. */
  ghost predicate Filled<E>(buckets: seq<Bucket<E>>, chains: seq<seq<Handle<E>>>, s: set<Handle<E>>)
    reads s
  {
    match Chains(chains)
    case Chains(c) =>
      && |buckets| == |c| > 0
      && forall b | 0 <= b < |c| :: InBucket(c[b], b, |buckets|, s) && IsChain(buckets[b], c[b])
  }

  /** The list operations of HASH_ADD_TO_BKT on one chain. */
  method PushFront<E>(b: Bucket<E>, h: Handle<E>, ghost c: seq<Handle<E>>) returns (b': Bucket<E>)
    requires IsChain(b, c) && h !in c
    modifies h`hhNext, h`hhPrev, c`hhPrev
    ensures b'.expandMult == b.expandMult && IsChain(b', [h] + c)
  {
    h.hhNext, h.hhPrev := b.hhHead, null;
    if b.hhHead != null {
      b.hhHead.hhPrev := h;
    }
    b' := Bucket(h, b.count + 1, b.expandMult);
    ghost var d := [h] + c;
    forall i | 0 <= i < |d| ensures d[i].hhNext == At(d, i + 1) && d[i].hhPrev == At(d, i - 1) {
      if i > 0 { assert d[i] == c[i - 1]; }
    }
  }

  /** HASH_ADD_TO_BKT without the expansion. */
  method AddToBkt<E>(buckets0: seq<Bucket<E>>, ghost chains0: seq<seq<Handle<E>>>, ghost s: set<Handle<E>>,
                     h: Handle<E>)
    returns (buckets: seq<Bucket<E>>, ghost chains: seq<seq<Handle<E>>>)
    requires Filled(buckets0, chains0, s) && h !in s
    modifies h`hhNext, h`hhPrev, s`hhPrev
    ensures Filled(buckets, chains, s + {h}) && |buckets| == |buckets0|
    ensures var b := ToBkt(h.hashv, |buckets0|);
      buckets[b].expandMult == buckets0[b].expandMult && buckets[b].count == |chains0[b]| + 1
  {
    var bkt := ToBkt(h.hashv, |buckets0|);
    ghost var c := chains0[bkt];
    var b := PushFront(buckets0[bkt], h, c);
    buckets, chains := buckets0[bkt := b], chains0[bkt := [h] + c];
    forall i | 0 <= i < |chains| ensures InBucket(chains[i], i, |buckets|, s + {h}) && IsChain(buckets[i], chains[i]) {
      assert InBucket(chains0[i], i, |buckets|, s);
      if i != bkt {
        KeptChain(buckets[i], chains[i], c);
      }
    }
  }

  /** Writing to one chain leaves the others alone. */
  twostate lemma KeptChain<E>(b: Bucket<E>, new c: seq<Handle<E>>, new d: seq<Handle<E>>)
    requires old(allocated(c)) && old(allocated(d)) && old(IsChain(b, c))
    requires forall h | h in c :: h !in d
    requires forall h | h in c && h !in d :: h.hhNext == old(h.hhNext) && h.hhPrev == old(h.hhPrev)
    ensures IsChain(b, c)
  {
  }

  // ----- bucket expansion -----

  ghost predicate NextLinked<E>(c: seq<Handle<E>>, k: int)
    reads c
  {
    forall i {:trigger c[i].hhNext} | k <= i < |c| && 0 <= i :: c[i].hhNext == At(c, i + 1)
  }

  /** One step of the inner loop of HASH_EXPAND_BUCKETS. */
  method MoveOne<E>(thh: Handle<E>, nb0: seq<Bucket<E>>, ghost nc0: seq<seq<Handle<E>>>, ghost s: set<Handle<E>>,
                    ideal: nat, nonideal0: nat)
    returns (nb: seq<Bucket<E>>, ghost nc: seq<seq<Handle<E>>>, nonideal: nat)
    requires Filled(nb0, nc0, s) && thh !in s
    modifies thh`hhNext, thh`hhPrev, s`hhPrev
    ensures Filled(nb, nc, s + {thh}) && |nb| == |nb0|
  {
    nonideal := nonideal0;
    var bkt := ToBkt(thh.hashv, |nb0|);
    nb, nc := AddToBkt(nb0, nc0, s, thh);
    if nb[bkt].count > ideal {
      nonideal := nonideal + 1;
      if nb[bkt].count > nb[bkt].expandMult * ideal {
        nb := nb[bkt := nb[bkt].(expandMult := nb[bkt].expandMult + 1)];
      }
    }
  }

  ghost function SetOf<E>(c: seq<Handle<E>>): set<Handle<E>> {
    set h | h in c
  }

  lemma SetOfTake<E>(c: seq<Handle<E>>, k: nat)
    requires Distinct(c) && k < |c|
    ensures c[k] !in SetOf(c[..k]) && SetOf(c[..k + 1]) == SetOf(c[..k]) + {c[k]}
  {
    assert c[..k + 1] == c[..k] + [c[k]];
    assert forall i | 0 <= i < k :: c[..k][i] == c[i];
  }

  /** The inner loop of HASH_EXPAND_BUCKETS: the handles of one old chain go to the new buckets. */
  method MoveChain<E>(thh0: Handle?<E>, ghost c: seq<Handle<E>>, nb0: seq<Bucket<E>>, ghost nc0: seq<seq<Handle<E>>>,
                   ghost s0: set<Handle<E>>, ideal: nat, nonideal0: nat)
    returns (nb: seq<Bucket<E>>, ghost nc: seq<seq<Handle<E>>>, nonideal: nat)
    requires Filled(nb0, nc0, s0) && Linked(c) && thh0 == At(c, 0) && forall h | h in c :: h !in s0
    modifies c`hhNext, c`hhPrev, s0`hhPrev
    ensures Filled(nb, nc, s0 + SetOf(c)) && |nb| == |nb0|
  {
    var thh := thh0;
    ghost var k := 0;
    nb, nc, nonideal := nb0, nc0, nonideal0;
    assert s0 + SetOf(c[..0]) == s0;
    while thh != null
      invariant 0 <= k <= |c| && thh == At(c, k) && NextLinked(c, k)
      invariant |nb| == |nb0| && Filled(nb, nc, s0 + SetOf(c[..k]))
      decreases |c| - k
    {
      var nxt := thh.hhNext;
      SetOfTake(c, k);
      nb, nc, nonideal := MoveOne(thh, nb, nc, s0 + SetOf(c[..k]), ideal, nonideal);
      assert s0 + SetOf(c[..k + 1]) == s0 + SetOf(c[..k]) + {thh};
      thh, k := nxt, k + 1;
    }
    assert c[..|c|] == c;
  }

  ghost predicate OldBuckets<E>(buckets: seq<Bucket<E>>, chains: seq<seq<Handle<E>>>, s: set<Handle<E>>, k: int)
    reads s
  {
    && |buckets| == |chains| > 0
    && forall b | 0 <= b < |chains| ::
         InBucket(chains[b], b, |buckets|, s) && (k <= b ==> IsChain(buckets[b], chains[b]))
  }

  ghost function Below<E>(s: set<Handle<E>>, n: nat, k: int): set<Handle<E>>
    requires n > 0
    reads s
  {
    set h | h in s && ToBkt(h.hashv, n) < k
  }

  /** HASH_EXPAND_BUCKETS: twice as many buckets hold the same handles. */
  method ExpandBuckets<E>(buckets: seq<Bucket<E>>, ghost chains: seq<seq<Handle<E>>>, ghost s: set<Handle<E>>,
                          ideal: nat)
    returns (nb: seq<Bucket<E>>, ghost nc: seq<seq<Handle<E>>>, nonideal: nat)
    requires Filled(buckets, chains, s)
    modifies s`hhNext, s`hhPrev
    ensures Filled(nb, nc, s) && |nb| == 2 * |buckets|
  {
    var n := |buckets|;
    nb, nc, nonideal := seq(2 * n, _ => Bucket(null, 0, 0)), seq(2 * n, _ => []), 0;
    var i := 0;
    while i < n
      invariant 0 <= i <= n && |nb| == 2 * n && Filled(nb, nc, Below(s, n, i)) && OldBuckets(buckets, chains, s, i)
    {
      ghost var c := chains[i];
      label before:
      nb, nc, nonideal := MoveChain(buckets[i].hhHead, c, nb, nc, Below(s, n, i), ideal, nonideal);
      assert Below(s, n, i + 1) == Below(s, n, i) + SetOf(c);
      forall b | i < b < n ensures IsChain(buckets[b], chains[b]) {
        UntouchedChain@before(buckets[b], chains[b]);
      }
      i := i + 1;
    }
    assert Below(s, n, n) == s;
  }

  twostate lemma UntouchedChain<E>(b: Bucket<E>, new c: seq<Handle<E>>)
    requires old(allocated(c)) && old(IsChain(b, c))
    requires forall h | h in c :: h.hhNext == old(h.hhNext) && h.hhPrev == old(h.hhPrev)
    ensures IsChain(b, c)
  {
  }

  // ----- removal from a bucket -----

  ghost function Without<E>(c: seq<Handle<E>>, k: nat): seq<Handle<E>>
    requires k < |c|
  {
    c[..k] + c[k + 1..]
  }

  lemma WithoutAt<E>(c: seq<Handle<E>>, k: nat, i: int)
    requires k < |c|
    ensures At(Without(c, k), i) == if i < k then At(c, i) else At(c, i + 1)
  {
  }

  lemma WithoutMembers<E>(c: seq<Handle<E>>, k: nat)
    requires k < |c| && Distinct(c)
    ensures Distinct(Without(c, k)) && forall h :: h in Without(c, k) <==> h in c && h != c[k]
  {
    var d := Without(c, k);
    forall h | h in c && h != c[k] ensures h in d {
      var j :| 0 <= j < |c| && c[j] == h;
      assert d[if j < k then j else j - 1] == h;
    }
  }

  /** The list operations of HASH_DEL_IN_BKT on one chain. */
  method Unlink<E>(b: Bucket<E>, h: Handle<E>, ghost c: seq<Handle<E>>, ghost k: nat) returns (b': Bucket<E>)
    requires IsChain(b, c) && k < |c| && c[k] == h
    modifies c`hhNext, c`hhPrev
    ensures IsChain(b', Without(c, k))
  {
    assert h.hhNext == At(c, k + 1) && h.hhPrev == At(c, k - 1);
    b' := Bucket(if b.hhHead == h then h.hhNext else b.hhHead, b.count - 1, b.expandMult);
    if h.hhPrev != null {
      h.hhPrev.hhNext := h.hhNext;
    }
    if h.hhNext != null {
      h.hhNext.hhPrev := h.hhPrev;
    }
    ghost var d := Without(c, k);
    WithoutMembers(c, k);
    forall i | 0 <= i < |d| ensures d[i].hhNext == At(d, i + 1) && d[i].hhPrev == At(d, i - 1) {
      WithoutAt(c, k, i);
      WithoutAt(c, k, i + 1);
      WithoutAt(c, k, i - 1);
    }
    WithoutAt(c, k, 0);
  }

  /** HASH_DEL_IN_BKT */
  method DelInBkt<E>(buckets0: seq<Bucket<E>>, ghost chains0: seq<seq<Handle<E>>>, ghost s: set<Handle<E>>,
                     h: Handle<E>)
    returns (buckets: seq<Bucket<E>>, ghost chains: seq<seq<Handle<E>>>)
    requires Filled(buckets0, chains0, s) && h in s
    modifies s`hhNext, s`hhPrev
    ensures Filled(buckets, chains, s - {h}) && |buckets| == |buckets0|
  {
    var bkt := ToBkt(h.hashv, |buckets0|);
    ghost var c := chains0[bkt];
    assert InBucket(c, bkt, |buckets0|, s);
    ghost var k :| 0 <= k < |c| && c[k] == h;
    var b := Unlink(buckets0[bkt], h, c, k);
    WithoutMembers(c, k);
    buckets, chains := buckets0[bkt := b], chains0[bkt := Without(c, k)];
    forall i | 0 <= i < |chains| ensures InBucket(chains[i], i, |buckets|, s - {h}) && IsChain(buckets[i], chains[i]) {
      assert InBucket(chains0[i], i, |buckets|, s);
      if i != bkt {
        KeptChain(buckets[i], chains[i], c);
      }
    }
  }

  // ----- search -----

  /** HASH_FIND_IN_BKT */
  method FindInBkt<E>(b: Bucket<E>, key: seq<nat>, hashv: nat, ghost c: seq<Handle<E>>) returns (out: Handle?<E>)
    requires IsChain(b, c)
    ensures out != null ==> out in c && out.hashv == hashv && out.key == key
    ensures out == null ==> forall h | h in c :: !(h.hashv == hashv && h.key == key)
  {
    out := b.hhHead;
    ghost var k := 0;
    while out != null
      invariant 0 <= k <= |c| && out == At(c, k)
      invariant forall i | 0 <= i < k :: !(c[i].hashv == hashv && c[i].key == key)
      decreases |c| - k
    {
      if out.hashv == hashv && out.key == key {
        return;
      }
      out, k := out.hhNext, k + 1;
    }
  }

  // ----- the list in application order -----

  ghost predicate InOrder<E>(head: Handle?<E>, tail: Handle?<E>, order: seq<Handle<E>>)
    reads order
  {
    && Distinct(order) && head == At(order, 0) && tail == At(order, |order| - 1)
    && forall i {:trigger order[i].next} {:trigger order[i].prev} | 0 <= i < |order| ::
         order[i].next == At(order, i + 1) && order[i].prev == At(order, i - 1)
  }

  /** HASH_APPEND_LIST; the tail is new afterwards. */
  method AppendList<E>(tail: Handle<E>, add: Handle<E>, ghost head: Handle<E>, ghost order: seq<Handle<E>>)
    requires InOrder(head, tail, order) && add !in order
    modifies add`next, add`prev, tail`next
    ensures InOrder(head, add, order + [add])
  {
    add.next, add.prev := null, tail;
    tail.next := add;
    ghost var d := order + [add];
    forall i | 0 <= i < |d| ensures d[i].next == At(d, i + 1) && d[i].prev == At(d, i - 1) {
      if i < |order| { assert d[i] == order[i]; }
    }
  }

  /** The patch-up of the list in HASH_DELETE_HH. */
  method RemoveFromList<E>(head0: Handle?<E>, tail0: Handle?<E>, h: Handle<E>, ghost order: seq<Handle<E>>,
                           ghost k: nat)
    returns (head: Handle?<E>, tail: Handle?<E>)
    requires InOrder(head0, tail0, order) && k < |order| && order[k] == h && |order| > 1
    modifies order`next, order`prev
    ensures InOrder(head, tail, Without(order, k)) && head != null && tail != null
  {
    assert h.next == At(order, k + 1) && h.prev == At(order, k - 1);
    head, tail := head0, if h == tail0 then h.prev else tail0;
    if h.prev != null {
      h.prev.next := h.next;
    } else {
      head := h.next;
    }
    if h.next != null {
      h.next.prev := h.prev;
    }
    ghost var d := Without(order, k);
    WithoutMembers(order, k);
    WithoutAt(order, k, 0);
    WithoutAt(order, k, |d| - 1);
    forall i | 0 <= i < |d| ensures d[i].next == At(d, i + 1) && d[i].prev == At(d, i - 1) {
      WithoutAt(order, k, i);
      WithoutAt(order, k, i + 1);
      WithoutAt(order, k, i - 1);
    }
  }

  // ----- the table -----

  /** No two elements have the same key. */
  ghost predicate Keyed<E>(order: seq<Handle<E>>) {
    forall g, h | g in order && h in order && g.key == h.key :: g == h
  }

  /** The finite map from keys to elements. */
  ghost function MapOf<E>(order: seq<Handle<E>>): (m: map<seq<nat>, Handle<E>>)
    requires Keyed(order)
  {
    map h | h in order :: h.key := h
  }

  lemma MapAppend<E>(order: seq<Handle<E>>, h: Handle<E>)
    requires Keyed(order) && forall x | x in order :: x.key != h.key
    ensures Keyed(order + [h]) && MapOf(order + [h]) == MapOf(order)[h.key := h]
  {
  }

  lemma MapWithout<E>(order: seq<Handle<E>>, k: nat)
    requires Keyed(order) && Distinct(order) && k < |order|
    ensures Keyed(Without(order, k)) && MapOf(Without(order, k)) == MapOf(order) - {order[k].key}
    ensures forall h | h in Without(order, k) :: h in order
  {
    WithoutMembers(order, k);
  }

  lemma Position<E>(c: seq<Handle<E>>, h: Handle<E>) returns (k: nat)
    requires h in c
    ensures k < |c| && c[k] == h
  {
    k :| 0 <= k < |c| && c[k] == h;
  }

  lemma OnlyOne<E>(head: Handle?<E>, tail: Handle?<E>, order: seq<Handle<E>>, k: nat)
    requires InOrder(head, tail, order) && k < |order|
    ensures order[k].prev == null && order[k].next == null <==> |order| == 1
    ensures |order| == 1 ==> Without(order, k) == []
  {
  }

  lemma SetOfAppend<E>(order: seq<Handle<E>>, h: Handle<E>)
    ensures SetOf(order + [h]) == SetOf(order) + {h} && forall x | x in order + [h] :: x in order || x == h
  {
  }

  lemma SetOfWithout<E>(order: seq<Handle<E>>, k: nat)
    requires Distinct(order) && k < |order|
    ensures SetOf(Without(order, k)) == SetOf(order) - {order[k]}
  {
    WithoutMembers(order, k);
  }

  /** The head pointer of a hash and its UT_hash_table, which exists while the head is not null. */
  class HashTable<E> {
    const hash: seq<nat> -> nat
    var head: Handle?<E>
    var buckets: seq<Bucket<E>>
    var log2NumBuckets: nat
    var numItems: nat
    var tail: Handle?<E>
    var idealChainMaxlen: nat
    var nonidealItems: nat
    var ineffExpands: nat
    var noexpand: bool
    ghost var order: seq<Handle<E>>
    ghost var chains: seq<seq<Handle<E>>>

    ghost predicate Valid()
      reads this, order
    {
      && InOrder(head, if head == null then null else tail, order) && Keyed(order)
      && (forall h | h in order :: h.hashv == hash(h.key))
      && (head != null ==>
            && numItems == |order| && |buckets| == Pow2(log2NumBuckets)
            && Filled(buckets, chains, SetOf(order)))
    }

    constructor (hash: seq<nat> -> nat)
      ensures Valid() && order == [] && this.hash == hash
    {
      this.hash := hash;
      head, order, tail := null, [], null;
    }

    /** HASH_MAKE_TABLE */
    method MakeTable()
      modifies this
      ensures numItems == 0 && |buckets| == Pow2(log2NumBuckets) && Filled(buckets, chains, {})
      ensures head == old(head) && order == old(order)
    {
      log2NumBuckets, numItems := INITIAL_NUM_BUCKETS_LOG2, 0;
      buckets := seq(Pow2(INITIAL_NUM_BUCKETS_LOG2), _ => Bucket(null, 0, 0));
      chains := seq(Pow2(INITIAL_NUM_BUCKETS_LOG2), _ => []);
      idealChainMaxlen, nonidealItems, ineffExpands, noexpand := 0, 0, 0, false;
    }

    /** HASH_EXPAND_BUCKETS */
    method Expand(ghost s: set<Handle<E>>)
      requires |buckets| == Pow2(log2NumBuckets) && Filled(buckets, chains, s)
      modifies this`buckets, this`chains, this`log2NumBuckets, this`idealChainMaxlen, this`nonidealItems
      modifies this`ineffExpands, this`noexpand, s`hhNext, s`hhPrev
      ensures |buckets| == Pow2(log2NumBuckets) == 2 * |old(buckets)| && Filled(buckets, chains, s)
    {
      idealChainMaxlen := Shr(numItems, log2NumBuckets + 1)
        + (if And(numItems, 2 * |buckets| - 1) != 0 then 1 else 0);
      buckets, chains, nonidealItems := ExpandBuckets(buckets, chains, s, idealChainMaxlen);
      log2NumBuckets := log2NumBuckets + 1;
      ineffExpands := if nonidealItems > numItems / 2 then ineffExpands + 1 else 0;
      if ineffExpands > 1 {
        noexpand := true;
      }
    }

    /** HASH_ADD_TO_TABLE */
    method AddToTable(h: Handle<E>, ghost s: set<Handle<E>>, ghost s': set<Handle<E>>)
      requires |buckets| == Pow2(log2NumBuckets) && Filled(buckets, chains, s) && h !in s && s' == s + {h}
      modifies this`buckets, this`chains, this`log2NumBuckets, this`idealChainMaxlen, this`nonidealItems
      modifies this`ineffExpands, this`noexpand, this`numItems, s`hhNext, s`hhPrev, h`hhNext, h`hhPrev
      ensures |buckets| == Pow2(log2NumBuckets) && Filled(buckets, chains, s') && numItems == old(numItems) + 1
      ensures var b := ToBkt(h.hashv, |old(buckets)|);
        |buckets| == if |old(chains)[b]| + 1 >= 10 * (old(buckets)[b].expandMult + 1) && !old(noexpand)
                     then 2 * |old(buckets)| else |old(buckets)|
    {
      numItems := numItems + 1;
      var bkt := ToBkt(h.hashv, |buckets|);
      buckets, chains := AddToBkt(buckets, chains, s, h);
      if buckets[bkt].count >= (buckets[bkt].expandMult + 1) * BKT_CAPACITY_THRESH && !noexpand {
        Expand(s');
      }
    }

    /** The application-order part of HASH_ADD_KEYPTR_BYHASHVALUE. */
    method AddToList(add: Handle<E>)
      requires InOrder(head, if head == null then null else tail, order) && add !in order
      requires head != null ==>
                 numItems == |order| && |buckets| == Pow2(log2NumBuckets) && Filled(buckets, chains, SetOf(order))
      modifies this, add`prev, add`next, order`next
      ensures InOrder(head, tail, order) && order == old(order) + [add] && head != null
      ensures |buckets| == Pow2(log2NumBuckets) && Filled(buckets, chains, SetOf(old(order)))
      ensures numItems == |old(order)|
    {
      ghost var s := SetOf(order);
      if head == null {
        assert s == {};
        add.next, add.prev := null, null;
        MakeTable();
        tail, head := add, add;
        order := [add];
      } else {
        AppendList(tail, add, head, order);
        FilledKept(buckets, chains, s);
        tail, order := add, order + [add];
      }
    }

    /** HASH_ADD_KEYPTR_BYHASHVALUE, with the hash value in the new element. */
    method AddByHashValue(add: Handle<E>)
      requires InOrder(head, if head == null then null else tail, order) && add !in order
      requires head != null ==>
                 numItems == |order| && |buckets| == Pow2(log2NumBuckets) && Filled(buckets, chains, SetOf(order))
      modifies this, add`prev, add`next, add`hhPrev, add`hhNext, order`next, order`hhPrev, order`hhNext
      ensures InOrder(head, tail, order) && head != null && order == old(order) + [add] && numItems == |order|
      ensures |buckets| == Pow2(log2NumBuckets) && Filled(buckets, chains, SetOf(order))
    {
      ghost var order0 := order;
      AddToList(add);
      SetOfAppend(order0, add);
      AddToTable(add, SetOf(order0), SetOf(order));
    }

    /** HASH_ADD: the new element is the last one in order. The caller's part: neither it nor its key is in the
        table. */
    method Add(add: Handle<E>)
      requires Valid() && add !in order && forall h | h in order :: h.key != add.key
      modifies this, add`prev, add`next, add`hhPrev, add`hhNext, add`hashv
      modifies order`next, order`hhPrev, order`hhNext
      ensures Valid() && order == old(order) + [add] && MapOf(order) == old(MapOf(order))[add.key := add]
    {
      MapAppend(order, add);
      add.hashv := hash(add.key);
      AddByHashValue(add);
    }

    /** HASH_FIND */
    method Find(key: seq<nat>) returns (out: Handle?<E>)
      requires Valid()
      ensures out == if key in MapOf(order) then MapOf(order)[key] else null
    {
      out := null;
      if head != null {
        var hashv := hash(key);
        var bkt := ToBkt(hashv, |buckets|);
        out := FindInBkt(buckets[bkt], key, hashv, chains[bkt]);
        assert InBucket(chains[bkt], bkt, |buckets|, SetOf(order));
      }
    }

    /** HASH_DEL_IN_BKT and the count of elements in HASH_DELETE_HH. */
    method DeleteFromTable(h: Handle<E>, ghost s: set<Handle<E>>, ghost left: seq<Handle<E>>)
      requires |buckets| == Pow2(log2NumBuckets) && Filled(buckets, chains, s) && h in s && numItems > 0
      requires SetOf(left) == s - {h}
      modifies this`buckets, this`chains, this`numItems, this`order, s`hhPrev, s`hhNext
      ensures |buckets| == Pow2(log2NumBuckets) && Filled(buckets, chains, SetOf(left))
      ensures numItems == old(numItems) - 1 && order == left
    {
      numItems, order := numItems - 1, left;
      buckets, chains := DelInBkt(buckets, chains, s, h);
    }

    /** HASH_DELETE_HH when other elements remain. */
    method DeleteOne(h: Handle<E>, ghost k: nat)
      requires InOrder(head, tail, order) && k < |order| && order[k] == h && |order| > 1
      requires numItems == |order| && |buckets| == Pow2(log2NumBuckets) && Filled(buckets, chains, SetOf(order))
      modifies this`head, this`tail, this`buckets, this`chains, this`numItems, this`order
      modifies order`prev, order`next, order`hhPrev, order`hhNext
      ensures order == Without(old(order), k) && InOrder(head, tail, order) && head != null
      ensures |buckets| == Pow2(log2NumBuckets) && Filled(buckets, chains, SetOf(order))
      ensures numItems == |order|
    {
      ghost var s, left := SetOf(order), Without(order, k);
      SetOfWithout(order, k);
      head, tail := RemoveFromList(head, tail, h, order, k);
      label removed:
      FilledKept(buckets, chains, s);
      DeleteFromTable(h, s, left);
      ListKept@removed(head, tail, left);
    }

    /** HASH_DELETE: the last element takes the table with it. */
    method Delete(h: Handle<E>) returns (ghost k: nat)
      requires Valid() && h in order
      modifies this, order`prev, order`next, order`hhPrev, order`hhNext
      ensures Valid() && k < |old(order)| && old(order)[k] == h && order == Without(old(order), k)
      ensures MapOf(order) == old(MapOf(order)) - {h.key}
    {
      k := Position(order, h);
      MapWithout(order, k);
      OnlyOne(head, tail, order, k);
      if h.prev == null && h.next == null {
        head, order := null, [];
      } else {
        DeleteOne(h, k);
      }
    }
  }

  // The two lists use different fields.

  twostate lemma FilledKept<E>(buckets: seq<Bucket<E>>, new chains: seq<seq<Handle<E>>>, new s: set<Handle<E>>)
    requires old(allocated(s)) && old(allocated(chains)) && old(Filled(buckets, chains, s))
    requires forall h | h in s :: h.hhNext == old(h.hhNext) && h.hhPrev == old(h.hhPrev) && h.hashv == old(h.hashv)
    ensures Filled(buckets, chains, s)
  {
    forall b | 0 <= b < |chains| ensures InBucket(chains[b], b, |buckets|, s) && IsChain(buckets[b], chains[b]) {
      assert old(InBucket(chains[b], b, |buckets|, s) && IsChain(buckets[b], chains[b]));
    }
  }

  /** Only the elements changed, so the table is as good as before. */
  twostate lemma TableKept<E>(t: HashTable<E>)
    requires old(t.Valid()) && unchanged(t)
    requires forall h | h in t.order ::
               h.hhNext == old(h.hhNext) && h.hhPrev == old(h.hhPrev) && h.hashv == old(h.hashv)
    requires forall h | h in t.order :: h.next == old(h.next) && h.prev == old(h.prev)
    ensures t.Valid()
  {
    if t.head != null {
      ListKept(t.head, t.tail, t.order);
      FilledKept(t.buckets, t.chains, SetOf(t.order));
    }
  }

  twostate lemma ListKept<E>(new head: Handle?<E>, new tail: Handle?<E>, new order: seq<Handle<E>>)
    requires old(allocated(order)) && old(allocated(head)) && old(allocated(tail)) && old(InOrder(head, tail, order))
    requires forall h | h in order :: h.next == old(h.next) && h.prev == old(h.prev)
    ensures InOrder(head, tail, order)
  {
  }
}
