/** What the search path of an AVL tree finds, how deep it can be, and what order insertion and
    deletion keep. */
module AvlSearch {
  import opened BitKeys
  import opened AvlTree

  // ----- order -----

  /** Keys strictly increase; for bit keys this also says that no key is a prefix of another. */
  ghost predicate Sorted(s: seq<Node>) {
    forall i, j | 0 <= i < j < |s| :: Before(Bits(s[i].key), Bits(s[j].key))
  }

  /** Every key of a sorted sequence is on a definite side of x: first those below it, then those tied
      with it, then those above. */
  lemma SignsMonotone(s: seq<Node>, x: Key, i: nat, j: nat)
    requires Sorted(s) && i < j < |s|
    ensures Cmp(x, s[j].key) > 0 ==> Cmp(x, s[i].key) > 0
    ensures Cmp(x, s[j].key) == 0 ==> Cmp(x, s[i].key) >= 0
    ensures Cmp(x, s[i].key) < 0 ==> Cmp(x, s[j].key) < 0
  {
    CmpMeaning(x, s[i].key);
    CmpMeaning(x, s[j].key);
    BeforeMonotone(Bits(s[i].key), Bits(s[j].key), Bits(x));
  }

  lemma SortedParts(a: seq<Node>, m: Node, b: seq<Node>)
    requires Sorted(a + [m] + b)
    ensures Sorted(a) && Sorted(b)
  {
    var s := a + [m] + b;
    assert forall i | 0 <= i < |b| :: b[i] == s[|a| + 1 + i];
    assert forall i | 0 <= i < |a| :: a[i] == s[i];
  }

  /** A search that does not hit ends exactly between the smaller and the larger keys. */
  lemma {:induction false} MissSplits(t: Tree, x: Key, k: nat)
    requires Sorted(Inorder(t)) && !Hits(t, ByKey(x)) && k < |Inorder(t)|
    ensures if k < Pos(t, x) then Cmp(x, Inorder(t)[k].key) > 0 else Cmp(x, Inorder(t)[k].key) < 0
  {
    var s, n := Inorder(t), |Inorder(t.l)|;
    SortedParts(Inorder(t.l), t.at, Inorder(t.r));
    assert s[n] == t.at;
    if Cmp(x, t.at.key) > 0 {
      if k < n { SignsMonotone(s, x, k, n); }
      if k > n { assert s[k] == Inorder(t.r)[k - n - 1]; MissSplits(t.r, x, k - n - 1); }
    } else {
      if k > n { SignsMonotone(s, x, n, k); }
      if k < n { assert s[k] == Inorder(t.l)[k]; MissSplits(t.l, x, k); }
    }
  }

  lemma {:induction false} HitFinds(t: Tree, g: Target)
    requires Hits(t, g)
    ensures g.ByKey? ==> Cmp(g.key, Inorder(t)[HitPos(t, g)].key) == 0
    ensures g.First? ==> HitPos(t, g) == 0
  {
    if Steer(g, t) != 0 { HitFinds(Kid(t, Steer(g, t) > 0), g); }
  }

  lemma {:induction false} FirstHits(t: Tree)
    requires t.Bin?
    ensures Hits(t, First)
  {
    if t.l.Bin? { FirstHits(t.l); }
  }

  /** The search finds a tied key exactly when there is one. */
  lemma {:induction false} HitsMeaning(t: Tree, x: Key)
    requires Sorted(Inorder(t))
    ensures Hits(t, ByKey(x)) <==> exists n :: n in Inorder(t) && Related(Bits(x), Bits(n.key))
  {
    if Hits(t, ByKey(x)) {
      HitFinds(t, ByKey(x));
      var n := Inorder(t)[HitPos(t, ByKey(x))];
      CmpMeaning(x, n.key);
      assert n in Inorder(t);
    } else {
      forall n | n in Inorder(t) ensures !Related(Bits(x), Bits(n.key)) {
        var k :| 0 <= k < |Inorder(t)| && Inorder(t)[k] == n;
        MissSplits(t, x, k);
        CmpMeaning(x, n.key);
      }
    }
  }

  /** Inserting a key that ties with none keeps the order. */
  lemma {:induction false} InsSorted(t: Tree, x: Node)
    requires Sorted(Inorder(t)) && !Hits(t, ByKey(x.key))
    ensures Sorted(Inorder(Ins(t, x).t))
  {
    InsInorder(t, x);
    var s, p := Inorder(t), Pos(t, x.key);
    forall k | 0 <= k < |s|
      ensures k < p ==> Before(Bits(s[k].key), Bits(x.key))
      ensures k >= p ==> Before(Bits(x.key), Bits(s[k].key))
    {
      MissSplits(t, x.key, k);
      CmpMeaning(x.key, s[k].key);
    }
  }

  lemma {:induction false} DelSorted(t: Tree, g: Target)
    requires Sorted(Inorder(t)) && Hits(t, g)
    ensures Sorted(Inorder(Del(t, g).t))
  {
    DelInorder(t, g);
  }

  // ----- depth -----

  /** (F(n), F(n+1)) */
  function FibPair(n: nat): (nat, nat) {
    if n == 0 then (0, 1) else
    var p := FibPair(n - 1);
    (p.1, p.0 + p.1)
  }

  function Fib(n: nat): nat {
    FibPair(n).0
  }

  lemma {:induction false} FibMonotone(m: nat, n: nat)
    requires m <= n
    ensures Fib(m) <= Fib(n)
    decreases n
  {
    if m < n {
      FibMonotone(m, n - 1);
      if n >= 2 { assert Fib(n) == Fib(n - 1) + Fib(n - 2); }
    }
  }

  lemma FibFourLater(n: nat)
    ensures var (a, b) := FibPair(n); FibPair(n + 4) == (2 * a + 3 * b, 3 * a + 5 * b)
  {
    assert FibPair(n + 2).0 == FibPair(n).0 + FibPair(n).1;
  }

  lemma FibTwelveLater(n: nat)
    ensures var (a, b) := FibPair(n); FibPair(n + 12) == (89 * a + 144 * b, 144 * a + 233 * b)
  {
    FibFourLater(n);
    FibFourLater(n + 4);
    FibFourLater(n + 8);
  }

  lemma {:induction false} Fib48Later(n: nat)
    ensures Fib(n + 48) == 2971215073 * FibPair(n).0 + 4807526976 * FibPair(n).1
  {
    FibTwelveLater(n);
    FibTwelveLater(n + 12);
    FibTwelveLater(n + 24);
    FibTwelveLater(n + 36);
  }

  /** An AVL tree of height h has at least F(h+2) - 1 nodes. */
  lemma {:induction false} AvlMinCount(t: Tree)
    requires Avl(t)
    ensures Count(t) + 1 >= Fib(Height(t) + 2)
  {
    if t.Leaf? {
      assert Fib(2) == 1;
    } else {
      KidsOk(t, false);
      AvlMinCount(t.l);
      AvlMinCount(t.r);
      var h := Height(t);
      assert Fib(h + 2) == Fib(h + 1) + Fib(h);
      FibMonotone(h, Height(t.l) + 2);
      FibMonotone(h, Height(t.r) + 2);
    }
  }

  const MAX_NODES := 0x1_0000_0000

  /** With sizes that fit an unsigned int, no path is longer than 45. */
  lemma {:induction false} DepthBound(t: Tree)
    requires Avl(t) && Count(t) < MAX_NODES
    ensures Height(t) <= 45
  {
    AvlMinCount(t);
    if Height(t) >= 46 {
      FibMonotone(48, Height(t) + 2);
      Fib48Later(0);
    }
  }
}
