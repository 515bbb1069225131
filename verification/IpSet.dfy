/** The CIDR index of upstream/nfq/pools.c: a prefix-free set of bit strings kept in a kavl tree,
    and why looking an address up in it answers "does some added block contain this address?". */
module IpSet {
  import opened Wire
  import opened BitArith
  import opened BitKeys
  import opened AvlTree
  import opened AvlSearch
  import opened KavlMemory
  import opened Kavl

  // ----- prefix-free sets -----

  ghost predicate PrefixFree(s: set<seq<bool>>) {
    forall a, b | a in s && b in s && a <= b :: a == b
  }

  /** Some block of s contains a. */
  ghost predicate Covers(s: set<seq<bool>>, a: seq<bool>) {
    exists k | k in s :: k <= a
  }

  /** Some block of s meets the block a. */
  ghost predicate Overlaps(s: set<seq<bool>>, a: seq<bool>) {
    exists k | k in s :: Related(k, a)
  }

  /** Adding block b: nothing when it is covered already, otherwise it replaces the blocks inside it. */
  ghost function AddBlock(s: set<seq<bool>>, b: seq<bool>): set<seq<bool>> {
    if Covers(s, b) then s else (set k | k in s && !(b <= k)) + {b}
  }

  lemma PrefixesOfOne(a: seq<bool>, b: seq<bool>, c: seq<bool>)
    requires a <= c && b <= c
    ensures Related(a, b)
  {
    if |a| <= |b| { assert a == c[..|a|] == c[..|b|][..|a|]; } else { assert b == c[..|b|] == c[..|a|][..|b|]; }
  }

  lemma PrefixTransitive(a: seq<bool>, b: seq<bool>, c: seq<bool>)
    requires a <= b && b <= c
    ensures a <= c
  {
    assert a == b[..|a|] == c[..|b|][..|a|] == c[..|a|];
  }

  /** The covered set changes by exactly the new block, however many entries it evicts. */
  lemma AddBlockCovers(s: set<seq<bool>>, b: seq<bool>, a: seq<bool>)
    ensures Covers(AddBlock(s, b), a) <==> Covers(s, a) || b <= a
  {
    var t := AddBlock(s, b);
    if Covers(s, a) {
      var k :| k in s && k <= a;
      if k !in t { PrefixTransitive(b, k, a); assert b in t; }
    }
    if b <= a {
      if Covers(s, b) {
        var k :| k in s && k <= b;
        PrefixTransitive(k, b, a);
      } else {
        assert b in t;
      }
    }
  }

  lemma AddBlockPrefixFree(s: set<seq<bool>>, b: seq<bool>)
    requires PrefixFree(s)
    ensures PrefixFree(AddBlock(s, b))
  {
  }

  /** The entries after a run of additions to an empty set. */
  ghost function AddAll(blocks: seq<seq<bool>>): set<seq<bool>> {
    if blocks == [] then {} else AddBlock(AddAll(blocks[..|blocks| - 1]), blocks[|blocks| - 1])
  }

  /** After any run the entries are prefix-free and cover exactly what the added blocks cover. */
  lemma {:induction false} AddAllMeaning(blocks: seq<seq<bool>>, a: seq<bool>)
    ensures PrefixFree(AddAll(blocks))
    ensures Covers(AddAll(blocks), a) <==> exists i | 0 <= i < |blocks| :: blocks[i] <= a
  {
    if blocks != [] {
      var n := |blocks| - 1;
      AddAllMeaning(blocks[..n], a);
      AddBlockPrefixFree(AddAll(blocks[..n]), blocks[n]);
      AddBlockCovers(AddAll(blocks[..n]), blocks[n], a);
      assert forall i | 0 <= i < n :: blocks[..n][i] == blocks[i];
    }
  }

  /** Sets of blocks that cover the same addresses meet the same blocks, when one is part of the other. */
  lemma SameCoverSameOverlap(s: set<seq<bool>>, t: set<seq<bool>>, a: seq<bool>)
    requires s <= t && forall x :: Covers(s, x) <==> Covers(t, x)
    ensures Overlaps(s, a) <==> Overlaps(t, a)
  {
    if Overlaps(t, a) {
      var k :| k in t && Related(k, a);
      assert Covers(t, k) by { assert k <= k; }
      var m :| m in s && m <= k;
      if k <= a { PrefixTransitive(m, k, a); } else { PrefixesOfOne(m, a, k); }
      assert Related(m, a);
    }
  }

  // ----- the keys of a tree -----

  ghost function KeysOf(s: seq<Node>): set<seq<bool>> {
    set n | n in s :: Bits(n.key)
  }

  ghost function Keys(t: Tree): set<seq<bool>> {
    KeysOf(Inorder(t))
  }

  lemma BeforeUnrelated(a: seq<bool>, b: seq<bool>)
    requires Before(a, b)
    ensures !Related(a, b)
  {
    var d: nat :| DiffersAt(a, b, d);
  }

  lemma {:induction false} RelatedSame(t: Tree, m: Node, n: Node)
    requires Sorted(Inorder(t)) && m in Inorder(t) && n in Inorder(t) && Related(Bits(m.key), Bits(n.key))
    ensures m == n
  {
    var s := Inorder(t);
    var i :| 0 <= i < |s| && s[i] == m;
    var j :| 0 <= j < |s| && s[j] == n;
    if i < j { BeforeUnrelated(Bits(m.key), Bits(n.key)); }
    if j < i { BeforeUnrelated(Bits(n.key), Bits(m.key)); }
  }

  lemma {:induction false} KeysPrefixFree(t: Tree)
    requires Sorted(Inorder(t))
    ensures PrefixFree(Keys(t))
  {
    forall a, b | a in Keys(t) && b in Keys(t) && a <= b ensures a == b {
      var m :| m in Inorder(t) && Bits(m.key) == a;
      var n :| n in Inorder(t) && Bits(n.key) == b;
      RelatedSame(t, m, n);
    }
  }

  lemma InsertAtMembers(s: seq<Node>, i: nat, x: Node, n: Node)
    requires i <= |s|
    ensures n in InsertAt(s, i, x) <==> n in s || n == x
  {
    var u := InsertAt(s, i, x);
    assert s == s[..i] + s[i..];
    assert u[i] == x;
    if n in s {
      var k :| 0 <= k < |s| && s[k] == n;
      assert u[if k < i then k else k + 1] == n;
    }
  }

  lemma RemoveAtMembers(s: seq<Node>, i: nat, n: Node)
    requires NoDuplicates(s) && i < |s|
    ensures n in RemoveAt(s, i) <==> n in s && n != s[i]
  {
    var u := RemoveAt(s, i);
    if n in u {
      var j :| 0 <= j < |u| && u[j] == n;
      assert s[if j < i then j else j + 1] == n;
    }
    if n in s && n != s[i] {
      var k :| 0 <= k < |s| && s[k] == n;
      assert u[if k < i then k else k - 1] == n;
    }
  }

  lemma InsertAtKeys(s: seq<Node>, i: nat, x: Node)
    requires i <= |s|
    ensures KeysOf(InsertAt(s, i, x)) == KeysOf(s) + {Bits(x.key)}
  {
    forall n ensures n in InsertAt(s, i, x) <==> n in s || n == x { InsertAtMembers(s, i, x, n); }
  }

  lemma {:induction false} InsKeys(t: Tree, x: Node)
    ensures Keys(Ins(t, x).t) == Keys(t) + {Bits(x.key)}
  {
    InsInorder(t, x);
    InsertAtKeys(Inorder(t), Pos(t, x.key), x);
  }

  lemma {:induction false} DelKeys(t: Tree, g: Target)
    requires Sorted(Inorder(t)) && Hits(t, g)
    ensures Keys(Del(t, g).t) == Keys(t) - {Bits(HitNode(t, g).key)}
  {
    DelInorder(t, g);
    HitNodeAtPos(t, g);
    SortedNoDuplicates(Inorder(t));
    var s, i := Inorder(t), HitPos(t, g);
    forall n | n in s && Bits(n.key) == Bits(s[i].key) ensures n == s[i] { RelatedSame(t, n, s[i]); }
    RemoveAtKeys(s, i);
  }

  lemma RemoveAtKeys(s: seq<Node>, i: nat)
    requires NoDuplicates(s) && i < |s| && forall n | n in s && Bits(n.key) == Bits(s[i].key) :: n == s[i]
    ensures KeysOf(RemoveAt(s, i)) == KeysOf(s) - {Bits(s[i].key)}
  {
    forall n ensures n in RemoveAt(s, i) <==> n in s && n != s[i] { RemoveAtMembers(s, i, n); }
  }

  // ----- one step of the loop in kavl_bit_add -----

  /** What remains of the old entries `s` while the loop evicts longer ones that start with b. */
  ghost predicate Evicting(s: set<seq<bool>>, b: seq<bool>, now: set<seq<bool>>) {
    now <= s && forall k | k in s && k !in now :: b <= k && b != k
  }

  lemma {:induction false} HitRelated(t: Tree, x: Key)
    requires Hits(t, ByKey(x))
    ensures var v := HitNode(t, ByKey(x));
      v in Inorder(t) && Bits(v.key) in Keys(t) && Related(Bits(x), Bits(v.key))
  {
    HitFinds(t, ByKey(x));
    HitNodeAtPos(t, ByKey(x));
    CmpMeaning(x, HitNode(t, ByKey(x)).key);
  }

  /** Erasing by an entry's own key removes that entry. */
  lemma {:induction false} EraseSelf(t: Tree, v: Node)
    requires Sorted(Inorder(t)) && v in Inorder(t)
    ensures Hits(t, ByKey(v.key)) && HitNode(t, ByKey(v.key)) == v
    ensures Keys(Del(t, ByKey(v.key)).t) == Keys(t) - {Bits(v.key)}
  {
    assert Related(Bits(v.key), Bits(v.key));
    HitsMeaning(t, v.key);
    HitRelated(t, v.key);
    RelatedSame(t, HitNode(t, ByKey(v.key)), v);
    DelKeys(t, ByKey(v.key));
  }

  /** The loop ends on an entry that covers b: then nothing was evicted. */
  lemma AddFoundCover(s: set<seq<bool>>, b: seq<bool>, now: set<seq<bool>>, k: seq<bool>)
    requires PrefixFree(s) && Evicting(s, b, now) && k in now && k <= b
    ensures now == AddBlock(s, b)
  {
    forall m | m in s && m !in now ensures false { PrefixTransitive(k, b, m); }
  }

  /** The loop ends with b inserted: then exactly the entries inside b were evicted. */
  lemma AddInserted(s: set<seq<bool>>, b: seq<bool>, now: set<seq<bool>>)
    requires Evicting(s, b, now) && !Overlaps(now, b)
    ensures now + {b} == AddBlock(s, b)
  {
    assert !Covers(s, b) by {
      if Covers(s, b) {
        var k :| k in s && k <= b;
        assert Related(k, b);
      }
    }
    forall k | k in now ensures !(b <= k) { assert !Related(k, b); }
  }

  lemma {:induction false} MissOverlaps(t: Tree, x: Key)
    requires Sorted(Inorder(t))
    ensures Hits(t, ByKey(x)) <==> Overlaps(Keys(t), Bits(x))
  {
    HitsMeaning(t, x);
    if Overlaps(Keys(t), Bits(x)) {
      var k :| k in Keys(t) && Related(k, Bits(x));
      var n :| n in Inorder(t) && Bits(n.key) == k;
      assert Related(Bits(x), Bits(n.key));
    }
    if Hits(t, ByKey(x)) {
      HitRelated(t, x);
    }
  }

  // ----- the code -----

  /** kavl_bit_delete */
  method BitDelete(h: KavlTree, key: Key)
    requires h.Valid()
    modifies h, Nodes(h.tree)
    ensures h.Valid()
    ensures var t := old(h.tree); h.tree == if Hits(t, ByKey(key)) then Del(t, ByKey(key)).t else t
  {
    var p, cnt := h.Erase(ByKey(key));
  }

  lemma {:induction false} DelNodes(t: Tree, g: Target)
    requires Hits(t, g)
    ensures Nodes(Del(t, g).t) <= Nodes(t) && Count(Del(t, g).t) == Count(t) - 1
  {
    DelInorder(t, g);
    NodesAreInorder(t);
    NodesAreInorder(Del(t, g).t);
    CountIsLength(t);
    CountIsLength(Del(t, g).t);
  }

  lemma {:induction false} InsNodes(t: Tree, x: Node)
    ensures Nodes(Ins(t, x).t) == Nodes(t) + {x} && Count(Ins(t, x).t) == Count(t) + 1
  {
    InsInorder(t, x);
    NodesAreInorder(t);
    NodesAreInorder(Ins(t, x).t);
    CountIsLength(t);
    CountIsLength(Ins(t, x).t);
    forall n ensures n in InsertAt(Inorder(t), Pos(t, x.key), x) <==> n in Inorder(t) || n == x {
      InsertAtMembers(Inorder(t), Pos(t, x.key), x, n);
    }
  }

  /** v is what inserting e into t gave. */
  ghost predicate Inserted(t: Tree, e: Node, v: Node, t': Tree) {
    && Sorted(Inorder(t)) && e !in Nodes(t)
    && if Hits(t, ByKey(e.key)) then v == HitNode(t, ByKey(e.key)) && t' == t else v == e && t' == Ins(t, e).t
  }

  ghost predicate Tried(h: KavlTree, t: Tree, e: Node, v: Node)
    reads h, Nodes(h.tree)
  {
    h.Valid() && Inserted(t, e, v, h.tree)
  }

  /** The body of the loop: kavl_bit_delete of the longer entry v. */
  method Evict(h: KavlTree, ghost t: Tree, e: Node, v: Node) returns (ghost t': Tree)
    requires Tried(h, t, e, v) && e != v && e.key.bitlen < v.key.bitlen
    modifies h, Nodes(h.tree)
    ensures h.Valid() && h.tree == t' && e !in Nodes(t')
    ensures Nodes(t') <= Nodes(t) && Count(t') == Count(t) - 1
    ensures Bits(e.key) <= Bits(v.key) && Bits(e.key) != Bits(v.key) && Keys(t') == Keys(t) - {Bits(v.key)}
  {
    HitRelated(t, e.key);
    EraseSelf(t, v);
    DelNodes(t, ByKey(v.key));
    BitDelete(h, v.key);
    t' := h.tree;
  }

  lemma {:induction false} BitAddDone(s: set<seq<bool>>, key: Key, t: Tree, e: Node, v: Node, t': Tree)
    requires PrefixFree(s) && Evicting(s, Bits(key), Keys(t)) && e.key == key && Inserted(t, e, v, t')
    requires e == v || e.key.bitlen >= v.key.bitlen
    ensures Keys(t') == AddBlock(s, Bits(key)) && Nodes(t') <= Nodes(t) + {e} && Count(t') <= Count(t) + 1
    ensures v in Inorder(t') && Bits(v.key) <= Bits(key)
  {
    MissOverlaps(t, key);
    if Hits(t, ByKey(key)) {
      HitRelated(t, key);
      NodesAreInorder(t);
      AddFoundCover(s, Bits(key), Keys(t), Bits(v.key));
    } else {
      InsKeys(t, e);
      InsNodes(t, e);
      NodesAreInorder(t');
      AddInserted(s, Bits(key), Keys(t));
    }
  }

  /** kavl_bit_add */
  method BitAdd(h: KavlTree, key: Key) returns (v: Node)
    requires h.Valid() && Count(h.tree) + 1 < MAX_NODES
    modifies h, Nodes(h.tree)
    ensures h.Valid() && fresh(Nodes(h.tree) - old(Nodes(h.tree)))
    ensures Keys(h.tree) == AddBlock(old(Keys(h.tree)), Bits(key))
    ensures Count(h.tree) <= old(Count(h.tree)) + 1
    ensures v in Inorder(h.tree) && Bits(v.key) <= Bits(key)
  {
    ghost var oldNodes := Nodes(h.tree);
    assert allocated(oldNodes);
    var e := new Node(key);
    assert e !in oldNodes;
    ghost var t, s, b := h.tree, Keys(h.tree), Bits(key); // the tree just before the insertion that gave v
    KeysPrefixFree(t);
    var cnt;
    v, cnt := h.Insert(e);
    while e != v && e.key.bitlen < v.key.bitlen
      invariant Tried(h, t, e, v) && Evicting(s, b, Keys(t))
      invariant Nodes(t) <= oldNodes && Count(t) <= old(Count(h.tree))
      decreases Count(t)
    {
      t := Evict(h, t, e, v);
      v, cnt := h.Insert(e);
    }
    BitAddDone(s, key, t, e, v, h.tree);
  }

  lemma BitsOfPrefix(a: seq<Byte>, preflen: nat)
    requires preflen <= 8 * |a|
    ensures (preflen + 7) / 8 <= |a| && preflen <= 8 * ((preflen + 7) / 8)
    ensures Bits(Key(preflen, a[..(preflen + 7) / 8])) == Bits(Key(preflen, a))
  {
  }

  lemma AddedBlock(s: set<seq<bool>>, blocks: set<seq<bool>>, b: seq<bool>)
    requires s <= blocks && forall a :: Covers(s, a) <==> Covers(blocks, a)
    ensures AddBlock(s, b) <= blocks + {b}
    ensures forall a :: Covers(AddBlock(s, b), a) <==> Covers(blocks + {b}, a)
  {
    forall a ensures Covers(AddBlock(s, b), a) <==> Covers(blocks + {b}, a) {
      AddBlockCovers(s, b, a);
      if b <= a { assert b in blocks + {b}; }
      if Covers(blocks, a) {
        var k :| k in blocks && k <= a;
        assert k in blocks + {b};
      }
    }
  }

  /** The blocks are those of the keys, which hold whole addresses of the width. */
  ghost predicate BlocksOf(blocks: set<seq<bool>>, keys: set<Key>, width: nat) {
    && (forall k | k in keys :: 8 * |k.data| == width && Bits(k) in blocks)
    && forall b | b in blocks :: exists k | k in keys :: Bits(k) == b
  }

  /** The network the key stands for and the first n bits of the address x, in w bits, have an address in common. */
  ghost predicate Meets(k: Key, x: nat, n: nat, w: nat)
    requires k.bitlen <= w && n <= w
  {
    SameNet(BigEndian(k.data), x, w, if k.bitlen <= n then k.bitlen else n)
  }

  lemma {:induction false} OverlapIsMeeting(blocks: set<seq<bool>>, keys: set<Key>, width: nat, a: seq<Byte>, n: nat)
    requires BlocksOf(blocks, keys, width) && 8 * |a| == width && n <= width
    ensures Overlaps(blocks, Bits(Key(n, a))) <==> exists k | k in keys :: Meets(k, BigEndian(a), n, width)
  {
    forall k | k in keys ensures Meets(k, BigEndian(a), n, width) <==> Related(Bits(k), Bits(Key(n, a))) {
      RelatedIsNet(k.data, k.bitlen, a, n);
    }
    if Overlaps(blocks, Bits(Key(n, a))) {
      var b :| b in blocks && Related(b, Bits(Key(n, a)));
      var k :| k in keys && Bits(k) == b;
      assert Meets(k, BigEndian(a), n, width);
    }
  }

  /** One half of struct ipset: the IPv4 blocks (width 32) or the IPv6 blocks (width 128). */
  class AddrSet {
    const width: nat
    const index: KavlTree
    ghost var added: set<Key>          // every address and prefix length ever added
    ghost var blocks: set<seq<bool>>   // their bit strings

    ghost predicate Valid()
      reads this, index, Nodes(index.tree)
    {
      && index.Valid() && Keys(index.tree) <= blocks && width % 8 == 0
      && (forall a :: Covers(Keys(index.tree), a) <==> Covers(blocks, a))
      && BlocksOf(blocks, added, width)
    }

    constructor (width: nat)
      requires width == 32 || width == 128
      ensures Valid() && added == {} && this.width == width && fresh(index)
    {
      this.width := width;
      var t := new KavlTree();
      index, added, blocks := t, {}, {};
    }

    /** ipset4Add, ipset6Add */
    method Add(a: seq<Byte>, preflen: nat) returns (ok: bool)
      requires Valid() && 8 * |a| == width && preflen < 256 && Count(index.tree) + 1 < MAX_NODES
      modifies this, index, Nodes(index.tree)
      ensures Valid() && ok == (preflen <= width)
      ensures added == if preflen <= width then old(added) + {Key(preflen, a)} else old(added)
      ensures ok ==> Keys(index.tree) == AddBlock(old(Keys(index.tree)), Bits(Key(preflen, a)))
    {
      if preflen > width { return false; }
      var bytelen := (preflen + 7) / 8;
      BitsOfPrefix(a, preflen);
      AddedBlock(Keys(index.tree), blocks, Bits(Key(preflen, a)));
      added, blocks := added + {Key(preflen, a)}, blocks + {Bits(Key(preflen, a))};
      var v := BitAdd(index, Key(preflen, a[..bytelen]));
      ok := true;
    }

    /** ipset4Check, ipset6Check; callers pass full-length addresses, and learn if some network added holds them. */
    method Check(a: seq<Byte>, preflen: nat) returns (r: bool)
      requires Valid() && 8 * |a| == width && preflen <= width
      ensures r <==> exists k | k in added :: Meets(k, BigEndian(a), preflen, width)
      ensures preflen == width ==>
                (r <==> exists k | k in added ::
                          BigEndian(a) / Pow2(width - k.bitlen) == BigEndian(k.data) / Pow2(width - k.bitlen))
    {
      OverlapIsMeeting(blocks, added, width, a, preflen);
      MissOverlaps(index.tree, Key(preflen, a));
      SameCoverSameOverlap(Keys(index.tree), blocks, Bits(Key(preflen, a)));
      var p, cnt := index.Find(Key(preflen, a));
      r := p != null;
      assert preflen == width ==> forall k | k in added ::
            Meets(k, BigEndian(a), preflen, width) <==>
            BigEndian(a) / Pow2(width - k.bitlen) == BigEndian(k.data) / Pow2(width - k.bitlen);
    }
  }
}
