/** Sequence helpers shared by the instruction list, the CFG edge lists, the
    live-in list and the function's block order. They play the part of
    std::find and vector::erase in the original. */
module Seqs {

  /** Position of the first occurrence of `x` in `s`, or `|s|` (the end
      position) when `x` does not occur. */
  function IndexOf<T(==)>(s: seq<T>, x: T): (i: nat)
    ensures i <= |s|
    ensures i < |s| ==> s[i] == x
    ensures forall j :: 0 <= j < i ==> s[j] != x
    ensures i == |s| <==> x !in s
  {
    if s == [] then 0
    else if s[0] == x then 0
    else 1 + IndexOf(s[1..], x)
  }

  /** `s` without its element at position `i`; the elements after it move
      down by one place. */
  function RemoveAt<T>(s: seq<T>, i: nat): (r: seq<T>)
    requires i < |s|
    ensures |r| == |s| - 1
    ensures multiset(r) == multiset(s) - multiset{s[i]}
    ensures forall j :: 0 <= j < i ==> r[j] == s[j]
    ensures forall j :: i <= j < |r| ==> r[j] == s[j + 1]
  {
    assert s == s[..i] + [s[i]] + s[i + 1..];
    s[..i] + s[i + 1..]
  }

  /** `s` without the first occurrence of `x`; `s` itself when `x` is absent. */
  function RemoveFirst<T(==)>(s: seq<T>, x: T): (r: seq<T>)
    ensures multiset(r) == multiset(s) - multiset{x}
    ensures x in s ==> |r| == |s| - 1
    ensures x !in s ==> r == s
  {
    var i := IndexOf(s, x);
    if i == |s| then s else RemoveAt(s, i)
  }

  /** `s` with every occurrence of `x` taken out, the others in order. */
  function RemoveAll(s: seq<nat>, x: nat): (r: seq<nat>)
    ensures x !in r
    ensures x !in s ==> r == s
  {
    if s == [] then []
    else
      assert s == [s[0]] + s[1..];
      (if s[0] == x then [] else [s[0]]) + RemoveAll(s[1..], x)
  }

  /** Removing the first occurrence of a present `x` cuts it out at its
      position. */
  lemma RemoveFirstSplit(s: seq<nat>, x: nat)
    requires x in s
    ensures IndexOf(s, x) < |s|
    ensures RemoveFirst(s, x) == s[..IndexOf(s, x)] + s[IndexOf(s, x) + 1..]
  {
  }

  /** Taking out every `x` distributes over concatenation. */
  lemma {:induction false} RemoveAllAppend(a: seq<nat>, b: seq<nat>, x: nat)
    ensures RemoveAll(a + b, x) == RemoveAll(a, x) + RemoveAll(b, x)
  {
    if a == [] {
      assert a + b == b;
    } else {
      assert (a + b)[0] == a[0] && (a + b)[1..] == a[1..] + b;
      RemoveAllAppend(a[1..], b, x);
    }
  }

  /** Taking out every `x` ignores one more `x` in the middle. */
  lemma RemoveAllAround(pre: seq<nat>, post: seq<nat>, x: nat)
    ensures RemoveAll(pre + ([x] + post), x) == RemoveAll(pre + post, x)
  {
    RemoveAllAppend(pre, post, x);
    RemoveAllAppend(pre, [x] + post, x);
    RemoveAllAppend([x], post, x);
    assert RemoveAll([x], x) == [];
    assert [] + RemoveAll(post, x) == RemoveAll(post, x);
  }

  /** Taking out every `x` after taking out the first is taking out every
      `x`. */
  lemma RemoveAllRemoveFirst(s: seq<nat>, x: nat)
    ensures RemoveAll(RemoveFirst(s, x), x) == RemoveAll(s, x)
  {
    if x in s {
      var i := IndexOf(s, x);
      RemoveFirstSplit(s, x);
      assert s == s[..i] + ([x] + s[i + 1..]);
      RemoveAllAround(s[..i], s[i + 1..], x);
    }
  }

  /** Removing the element right after a prefix `kept` of `kept + rest`. */
  lemma RemoveAfterPrefix<T>(kept: seq<T>, rest: seq<T>)
    requires rest != []
    ensures (kept + rest)[|kept|] == rest[0]
    ensures RemoveAt(kept + rest, |kept|) == kept + rest[1..]
    ensures kept + rest == (kept + [rest[0]]) + rest[1..]
  {
    assert (kept + rest)[|kept| + 1..] == rest[1..];
  }

  /** A prefix grown by one element. */
  lemma TakeOneMore<T>(pre: seq<T>, s: seq<T>, i: nat)
    requires i < |s|
    ensures pre + s[..i + 1] == (pre + s[..i]) + [s[i]] && s[i] in s
  {
    assert s[..i + 1] == s[..i] + [s[i]];
  }

  /** A prefix that has grown to the whole sequence. */
  lemma TakeAll<T>(pre: seq<T>, s: seq<T>, i: nat)
    requires i == |s|
    ensures pre + s[..i] == pre + s
  {
    assert s[..i] == s;
  }

  /** No value occurs twice in `s`. */
  ghost predicate NoDups(s: seq<nat>)
  {
    forall x :: multiset(s)[x] <= 1
  }

  /** `s` is in strictly increasing order (hence also free of duplicates). */
  ghost predicate StrictlySorted(s: seq<nat>)
  {
    forall i, j :: 0 <= i < j < |s| ==> s[i] < s[j]
  }

  /** On a duplicate-free sequence, removing the first occurrence of `x`
      removes `x` altogether and nothing else. */
  lemma RemoveFirstMembership(s: seq<nat>, x: nat, y: nat)
    requires NoDups(s)
    ensures NoDups(RemoveFirst(s, x))
    ensures y in RemoveFirst(s, x) <==> y in s && y != x
  {
    assert multiset(s)[y] <= 1;
  }

  /** Appending an absent value keeps a sequence free of duplicates. */
  lemma AppendFreshNoDups(s: seq<nat>, x: nat)
    requires NoDups(s) && x !in s
    ensures NoDups(s + [x])
  {
    assert multiset(s + [x]) == multiset(s) + multiset{x};
    forall y ensures multiset(s + [x])[y] <= 1 {
      assert multiset(s)[y] <= 1;
    }
  }

  /** Linear search, as std::find does it: the position of the first
      occurrence of `x`, or `|s|` when there is none. */
  method Find<T(==)>(s: seq<T>, x: T) returns (i: nat)
    ensures i == IndexOf(s, x)
  {
    i := 0;
    while i < |s| && s[i] != x
      invariant i <= |s|
      invariant forall j :: 0 <= j < i ==> s[j] != x
    {
      i := i + 1;
    }
  }
}
