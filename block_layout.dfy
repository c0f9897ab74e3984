/** The owning function's linear block order and the two layout moves a
    block offers, moveBefore and moveAfter. Blocks are named by index. */
module BlockLayout {
  import opened Seqs

  /** `order` lists blocks of an arena of `n` blocks, none of them twice. */
  ghost predicate IsBlockOrder(order: seq<nat>, n: nat)
  {
    NoDups(order) && forall i :: i in order ==> i < n
  }

  /** Rearranging a block order gives a block order. */
  lemma PermutedOrder(order: seq<nat>, order': seq<nat>, n: nat)
    requires IsBlockOrder(order, n) && multiset(order') == multiset(order)
    ensures IsBlockOrder(order', n)
  {
    forall i | i in order' ensures i < n {
      assert multiset(order')[i] > 0;
      assert i in order;
    }
  }

  /** The order after moving block `b` to just before block `t`
      (b.moveBefore(t)); moving a block before itself changes nothing. */
  function MovedBefore(order: seq<nat>, b: nat, t: nat): seq<nat>
    requires b in order && t in order
  {
    if b == t then order
    else
      var rest: seq<nat> := RemoveFirst(order, b);
      assert multiset(rest)[t] == multiset(order)[t];
      var k := IndexOf(rest, t);
      rest[..k] + [b] + rest[k..]
  }

  /** The order after moving block `b` to just after block `t`
      (b.moveAfter(t)); moving a block after itself changes nothing. */
  function MovedAfter(order: seq<nat>, b: nat, t: nat): seq<nat>
    requires b in order && t in order
  {
    if b == t then order
    else
      var rest: seq<nat> := RemoveFirst(order, b);
      assert multiset(rest)[t] == multiset(order)[t];
      var k := IndexOf(rest, t) + 1;
      rest[..k] + [b] + rest[k..]
  }

  /** `x` comes immediately before `y` somewhere in `s`. */
  ghost predicate Adjacent(s: seq<nat>, x: nat, y: nat)
  {
    exists k :: 0 <= k < |s| - 1 && s[k] == x && s[k + 1] == y
  }

  /** Inserting one value adds exactly that value. */
  lemma InsertedBag(rest: seq<nat>, b: nat, k: nat)
    requires k <= |rest|
    ensures multiset(rest[..k] + [b] + rest[k..]) == multiset(rest) + multiset{b}
  {
    assert rest == rest[..k] + rest[k..];
  }

  /** Putting back a value that was taken out restores the multiset. */
  lemma BagRestore(m: multiset<nat>, x: nat)
    requires x in m
    ensures (m - multiset{x}) + multiset{x} == m
  {
  }

  /** Removing the first `b` from an order where `b` occurs only at `k`
      undoes inserting it at `k`. */
  lemma RemoveInserted(rest: seq<nat>, b: nat, k: nat)
    requires k <= |rest| && b !in rest
    ensures RemoveFirst(rest[..k] + [b] + rest[k..], b) == rest
  {
    var r := rest[..k] + [b] + rest[k..];
    forall j | 0 <= j < k ensures r[j] != b {
      assert r[j] == rest[j];
    }
    assert IndexOf(r, b) == k;
    assert RemoveAt(r, k) == rest;
  }

  /** Taking `b` out of a duplicate-free order and re-inserting it at
      position `k` of what is left: the result holds the same blocks, none
      twice, `b` sits at `k` between the neighbours `k` gives it, and taking
      `b` out again gives the other blocks back in their old order. */
  lemma ReinsertedAt(order: seq<nat>, b: nat, k: nat)
    requires NoDups(order) && b in order && k <= |order| - 1
    ensures var rest := RemoveFirst(order, b);
            var r := rest[..k] + [b] + rest[k..];
            multiset(r) == multiset(order) && NoDups(r) && |r| == |order| &&
            r[k] == b && (k < |rest| ==> r[k + 1] == rest[k]) && (0 < k ==> r[k - 1] == rest[k - 1]) &&
            RemoveFirst(r, b) == rest
  {
    var rest: seq<nat> := RemoveFirst(order, b);
    RemoveFirstMembership(order, b, b);
    InsertedBag(rest, b, k);
    BagRestore(multiset(order), b);
    RemoveInserted(rest, b, k);
  }

  /** moveBefore is a permutation of the block order that places `b`
      immediately before `t` and keeps every other block in its old relative
      order. */
  lemma MovedBeforeSpec(order: seq<nat>, b: nat, t: nat)
    requires NoDups(order) && b in order && t in order
    ensures multiset(MovedBefore(order, b, t)) == multiset(order)
    ensures NoDups(MovedBefore(order, b, t))
    ensures RemoveFirst(MovedBefore(order, b, t), b) == RemoveFirst(order, b)
    ensures b != t ==> Adjacent(MovedBefore(order, b, t), b, t)
  {
    if b != t {
      var rest: seq<nat> := RemoveFirst(order, b);
      RemoveFirstMembership(order, b, t);
      var k := IndexOf(rest, t);
      ReinsertedAt(order, b, k);
      var r := rest[..k] + [b] + rest[k..];
      assert r[k] == b && r[k + 1] == t;
    }
  }

  /** moveAfter is a permutation of the block order that places `b`
      immediately after `t` and keeps every other block in its old relative
      order. */
  lemma MovedAfterSpec(order: seq<nat>, b: nat, t: nat)
    requires NoDups(order) && b in order && t in order
    ensures multiset(MovedAfter(order, b, t)) == multiset(order)
    ensures NoDups(MovedAfter(order, b, t))
    ensures RemoveFirst(MovedAfter(order, b, t), b) == RemoveFirst(order, b)
    ensures b != t ==> Adjacent(MovedAfter(order, b, t), t, b)
  {
    if b != t {
      var rest: seq<nat> := RemoveFirst(order, b);
      RemoveFirstMembership(order, b, t);
      var k := IndexOf(rest, t) + 1;
      ReinsertedAt(order, b, k);
      var r := rest[..k] + [b] + rest[k..];
      assert r[k - 1] == t && r[k] == b;
    }
  }
}
