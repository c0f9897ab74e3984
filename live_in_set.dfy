/** The live-in register list of a block, as values: a list that addLiveIn
    appends to and removeLiveIn removes from, and the set it stands for. */
module LiveInSet {
  import opened Seqs

  /** One edit of a block's live-in list. */
  datatype LiveInEdit = Add(reg: nat) | Remove(reg: nat)

  /** The list after one edit: addLiveIn appends, removeLiveIn removes the
      register (and leaves the list alone when it is absent). */
  function Apply(s: seq<nat>, e: LiveInEdit): seq<nat>
  {
    match e
    case Add(r) => s + [r]
    case Remove(r) => RemoveFirst(s, r)
  }

  /** The list after a whole history of edits, oldest first. */
  function Replay(s: seq<nat>, es: seq<LiveInEdit>): seq<nat>
    decreases |es|
  {
    if es == [] then s else Replay(Apply(s, es[0]), es[1..])
  }

  /** The history keeps addLiveIn's caller contract: no register is added
      while it is already live-in. */
  ghost predicate AddsFresh(s: seq<nat>, es: seq<LiveInEdit>)
    decreases |es|
  {
    es == [] ||
    ((es[0].Add? ==> es[0].reg !in s) && AddsFresh(Apply(s, es[0]), es[1..]))
  }

  /** Whether `r` should be live-in after the history `es`, given whether it
      was live-in before: the last edit that names `r` decides, and when no
      edit names it the previous answer stands. */
  function LiveAfter(es: seq<LiveInEdit>, r: nat, before: bool): bool
    decreases |es|
  {
    if es == [] then before
    else LiveAfter(es[1..], r, if es[0].reg == r then es[0].Add? else before)
  }

  /** isLiveIn(r) holds exactly when `r` was added and not removed since, and
      the list stays free of duplicates, for every history that respects the
      no-double-add contract. */
  lemma {:induction false} ReplayMembership(s: seq<nat>, es: seq<LiveInEdit>, r: nat)
    requires NoDups(s) && AddsFresh(s, es)
    ensures NoDups(Replay(s, es))
    ensures r in Replay(s, es) <==> LiveAfter(es, r, r in s)
    decreases |es|
  {
    if es != [] {
      var next, x := Apply(s, es[0]), es[0].reg;
      if es[0].Add? {
        assert multiset(next) == multiset(s) + multiset{x};
        forall y ensures multiset(next)[y] <= 1 {
          assert multiset(s)[y] <= 1;
        }
        assert r in next <==> r in s || r == x;
      } else {
        RemoveFirstMembership(s, x, r);
      }
      ReplayMembership(next, es[1..], r);
    }
  }

  /** A strictly sorted list has no duplicates. */
  lemma {:induction false} SortedHasNoDups(s: seq<nat>)
    requires StrictlySorted(s)
    ensures NoDups(s)
  {
    if s != [] {
      SortedHasNoDups(s[1..]);
      assert s == [s[0]] + s[1..];
      assert s[0] !in s[1..];
    }
  }

  /** Removing a register keeps the list sorted. */
  lemma RemoveKeepsSorted(s: seq<nat>, r: nat)
    requires StrictlySorted(s)
    ensures StrictlySorted(RemoveFirst(s, r))
  {
    var t := RemoveFirst(s, r);
    if r in s {
      var i := IndexOf(s, r);
      forall a, b | 0 <= a < b < |t| ensures t[a] < t[b] {
        var a', b' := if a < i then a else a + 1, if b < i then b else b + 1;
        assert t[a] == s[a'] && t[b] == s[b'];
      }
    }
  }

  /** addLiveIn appends, so a sorted list stays sorted exactly when the
      register added is above every register already there. */
  lemma AddKeepsSortedWhenLargest(s: seq<nat>, r: nat)
    requires StrictlySorted(s)
    ensures StrictlySorted(s + [r]) <==> forall x :: x in s ==> x < r
  {
    if forall x :: x in s ==> x < r {
      forall i, j | 0 <= i < j < |s + [r]| ensures (s + [r])[i] < (s + [r])[j] {
        assert s[i] in s;
      }
    }
    if StrictlySorted(s + [r]) {
      forall x | x in s ensures x < r {
        var i :| 0 <= i < |s| && s[i] == x;
        assert (s + [r])[i] == x && (s + [r])[|s|] == r;
      }
    }
  }

  /** Appending out of order breaks sortedness: adding 3 after 5. */
  lemma AddOutOfOrderUnsorts()
    ensures StrictlySorted([5]) && !StrictlySorted(Apply([5], Add(3)))
  {
    assert Apply([5], Add(3)) == [5, 3];
    assert !([5, 3][0] < [5, 3][1]);
  }
}
