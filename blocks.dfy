/** The state of one machine basic block, the invariants that tie the blocks
    of one arena together, its read-only accessors, and the edge filter that
    CorrectExtraCFGEdges applies. Blocks refer to each other by their index
    in the arena. */
module Blocks {
  import opened Seqs
  import opened InstrList

  /** A possibly absent block reference (a null MachineBasicBlock pointer). */
  datatype Option<T> = None | Some(value: T)

  /** The fields of a MachineBasicBlock that this model keeps: the
      instruction list, the predecessor and successor lists, the live-in
      registers, the number (-1 until the owning function assigns one), the
      alignment (0 for none) and the landing-pad flag. */
  datatype Block = Block(
    insts: seq<Instr>,
    preds: seq<nat>,
    succs: seq<nat>,
    liveIns: seq<nat>,
    number: int,
    alignment: nat,
    isLandingPad: bool)

  // ---------------------------------------------------------------- accessors

  /** size(): the number of instructions, each counted as often as it
      occurs. */
  function Size(b: Block): (r: nat)
    ensures r == |multiset(b.insts)|
  {
    |b.insts|
  }

  /** empty(): the block holds no instruction. */
  function Empty(b: Block): (r: bool)
    ensures r <==> Size(b) == 0
  {
    b.insts == []
  }

  /** front(): the first instruction, which pop_front removes. */
  function Front(b: Block): (m: Instr)
    requires !Empty(b)
    ensures [m] + b.insts[1..] == b.insts
  {
    b.insts[0]
  }

  /** back(): the last instruction, which pop_back removes. */
  function Back(b: Block): (m: Instr)
    requires !Empty(b)
    ensures b.insts[..Size(b) - 1] + [m] == b.insts
  {
    b.insts[|b.insts| - 1]
  }

  /** pred_size(): the number of predecessor edges, duplicates counted. */
  function PredSize(b: Block): (r: nat)
    ensures r == |multiset(b.preds)|
  {
    |b.preds|
  }

  /** succ_size(): the number of successor edges, duplicates counted. */
  function SuccSize(b: Block): (r: nat)
    ensures r == |multiset(b.succs)|
  {
    |b.succs|
  }

  /** pred_empty(): no block is a predecessor. */
  function PredEmpty(b: Block): (r: bool)
    ensures r <==> PredSize(b) == 0
    ensures r <==> forall p :: p !in b.preds
  {
    assert b.preds != [] ==> b.preds[0] in b.preds;
    b.preds == []
  }

  /** succ_empty(): no block is a successor. */
  function SuccEmpty(b: Block): (r: bool)
    ensures r <==> SuccSize(b) == 0
    ensures r <==> forall s :: s !in b.succs
  {
    assert b.succs != [] ==> b.succs[0] in b.succs;
    b.succs == []
  }

  /** livein_empty(): no register is live on entry. */
  function LiveInEmpty(b: Block): (r: bool)
    ensures r <==> forall reg :: reg !in b.liveIns
  {
    assert b.liveIns != [] ==> b.liveIns[0] in b.liveIns;
    b.liveIns == []
  }

  // --------------------------------------------------------- arena invariants

  /** Every successor and predecessor names a block of the arena. */
  ghost predicate EdgesInRange(bs: seq<Block>)
  {
    (forall a, c :: 0 <= a < |bs| && c in bs[a].succs ==> c < |bs|) &&
    (forall a, c :: 0 <= a < |bs| && c in bs[a].preds ==> c < |bs|)
  }

  /** Edge symmetry, counting duplicate edges: `c` occurs in `a`'s successor
      list exactly as often as `a` occurs in `c`'s predecessor list. */
  ghost predicate EdgesSymmetric(bs: seq<Block>)
  {
    forall a, c :: 0 <= a < |bs| && 0 <= c < |bs| ==>
      multiset(bs[a].succs)[c] == multiset(bs[c].preds)[a]
  }

  /** No block lists a live-in register twice. */
  ghost predicate LiveInsUnique(bs: seq<Block>)
  {
    forall a :: 0 <= a < |bs| ==> NoDups(bs[a].liveIns)
  }

  /** The identities of every instruction of every block, with multiplicity. */
  ghost function ArenaIds(bs: seq<Block>): multiset<nat>
  {
    if bs == [] then multiset{}
    else ArenaIds(bs[..|bs| - 1]) + IdBag(bs[|bs| - 1].insts)
  }

  /** An instruction belongs to at most one block, and occurs there once. */
  ghost predicate InstrsOwnedOnce(bs: seq<Block>)
  {
    forall id :: ArenaIds(bs)[id] <= 1
  }

  ghost predicate WellFormed(bs: seq<Block>)
  {
    EdgesInRange(bs) && EdgesSymmetric(bs) && LiveInsUnique(bs) && InstrsOwnedOnce(bs)
  }

  /** `b1` differs from `b0` at most in predecessor and successor lists. */
  ghost predicate OnlyEdgesChanged(b0: seq<Block>, b1: seq<Block>)
  {
    |b0| == |b1| &&
    forall i :: 0 <= i < |b0| ==>
      b1[i].insts == b0[i].insts && b1[i].liveIns == b0[i].liveIns &&
      b1[i].number == b0[i].number && b1[i].alignment == b0[i].alignment &&
      b1[i].isLandingPad == b0[i].isLandingPad
  }

  /** `b1` differs from `b0` at most in edge lists, and no block other than
      `a` has a different successor list. */
  ghost predicate SuccsChangedOnlyAt(b0: seq<Block>, b1: seq<Block>, a: nat)
  {
    OnlyEdgesChanged(b0, b1) &&
    forall x :: 0 <= x < |b0| && x != a ==> b1[x].succs == b0[x].succs
  }

  lemma SuccsChangedOnlyAtTrans(b0: seq<Block>, b1: seq<Block>, b2: seq<Block>, a: nat)
    requires SuccsChangedOnlyAt(b0, b1, a) && SuccsChangedOnlyAt(b1, b2, a)
    ensures SuccsChangedOnlyAt(b0, b2, a)
  {
  }

  lemma ArenaIdsUpdateLast(bs: seq<Block>, x: Block)
    requires |bs| > 0
    ensures ArenaIds(bs[|bs| - 1 := x]) + IdBag(bs[|bs| - 1].insts) == ArenaIds(bs) + IdBag(x.insts)
  {
    var n := |bs| - 1;
    var updated := bs[n := x];
    assert updated[..n] == bs[..n];
    assert ArenaIds(updated) == ArenaIds(bs[..n]) + IdBag(x.insts);
    assert ArenaIds(bs) == ArenaIds(bs[..n]) + IdBag(bs[n].insts);
  }

  /** Multiset bookkeeping for ArenaIdsUpdateInner. */
  lemma BagShift(m: multiset<nat>, a: multiset<nat>, b: multiset<nat>, c: multiset<nat>, e: multiset<nat>)
    requires m + b == a + c
    ensures (m + e) + b == (a + e) + c
  {
    assert (m + e) + b == (m + b) + e;
    assert (a + e) + c == (a + c) + e;
  }

  lemma ArenaIdsUpdateInner(bs: seq<Block>, i: nat, x: Block)
    requires i < |bs| - 1
    requires ArenaIds(bs[..|bs| - 1][i := x]) + IdBag(bs[i].insts) == ArenaIds(bs[..|bs| - 1]) + IdBag(x.insts)
    ensures ArenaIds(bs[i := x]) + IdBag(bs[i].insts) == ArenaIds(bs) + IdBag(x.insts)
  {
    var n := |bs| - 1;
    var updated := bs[i := x];
    var prefix := bs[..n];
    assert updated[..n] == prefix[i := x];
    assert ArenaIds(updated) == ArenaIds(prefix[i := x]) + IdBag(bs[n].insts);
    assert ArenaIds(bs) == ArenaIds(prefix) + IdBag(bs[n].insts);
    BagShift(ArenaIds(prefix[i := x]), ArenaIds(prefix), IdBag(bs[i].insts), IdBag(x.insts), IdBag(bs[n].insts));
  }

  /** Replacing one block changes the arena's instructions by exactly the
      difference between the old and the new block's instructions. */
  lemma {:induction false} ArenaIdsUpdate(bs: seq<Block>, i: nat, x: Block)
    requires i < |bs|
    ensures ArenaIds(bs[i := x]) + IdBag(bs[i].insts) == ArenaIds(bs) + IdBag(x.insts)
    decreases |bs|
  {
    if i == |bs| - 1 {
      ArenaIdsUpdateLast(bs, x);
    } else {
      ArenaIdsUpdate(bs[..|bs| - 1], i, x);
      ArenaIdsUpdateInner(bs, i, x);
    }
  }

  /** One block's instructions are among the arena's. */
  lemma {:induction false} BlockIdsInArena(bs: seq<Block>, i: nat, id: nat)
    requires i < |bs|
    ensures IdBag(bs[i].insts)[id] <= ArenaIds(bs)[id]
    decreases |bs|
  {
    if i < |bs| - 1 {
      BlockIdsInArena(bs[..|bs| - 1], i, id);
    }
  }

  /** The arena's instructions depend on the instruction lists alone. */
  lemma {:induction false} ArenaIdsSameInsts(b0: seq<Block>, b1: seq<Block>)
    requires |b0| == |b1|
    requires forall i :: 0 <= i < |b0| ==> b1[i].insts == b0[i].insts
    ensures ArenaIds(b1) == ArenaIds(b0)
    decreases |b0|
  {
    if b0 != [] {
      ArenaIdsSameInsts(b0[..|b0| - 1], b1[..|b1| - 1]);
    }
  }

  /** An edit of edges alone keeps the live-in and ownership invariants. */
  lemma EdgeEditKeepsRest(b0: seq<Block>, b1: seq<Block>)
    requires LiveInsUnique(b0) && InstrsOwnedOnce(b0) && OnlyEdgesChanged(b0, b1)
    ensures LiveInsUnique(b1) && InstrsOwnedOnce(b1)
  {
    ArenaIdsSameInsts(b0, b1);
  }

  /** Replacing a block by one with the same edge lists keeps the edge
      invariants. */
  lemma EdgesKept(bs: seq<Block>, i: nat, x: Block)
    requires i < |bs| && x.preds == bs[i].preds && x.succs == bs[i].succs
    requires EdgesInRange(bs) && EdgesSymmetric(bs)
    ensures EdgesInRange(bs[i := x]) && EdgesSymmetric(bs[i := x])
  {
    var nbs := bs[i := x];
    forall a | 0 <= a < |nbs|
      ensures nbs[a].succs == bs[a].succs && nbs[a].preds == bs[a].preds
    {
    }
  }

  /** Replacing a block by one with a duplicate-free live-in list keeps
      every live-in list duplicate-free. */
  lemma LiveInsKept(bs: seq<Block>, i: nat, x: Block)
    requires i < |bs| && LiveInsUnique(bs) && NoDups(x.liveIns)
    ensures LiveInsUnique(bs[i := x])
  {
    var nbs := bs[i := x];
    forall a | 0 <= a < |nbs| ensures NoDups(nbs[a].liveIns) {
      if a != i {
        assert nbs[a] == bs[a];
      }
    }
  }

  /** Replacing a block by one with the same instructions keeps the
      arena's instructions. */
  lemma InstrsKept(bs: seq<Block>, i: nat, x: Block)
    requires i < |bs| && x.insts == bs[i].insts
    ensures ArenaIds(bs[i := x]) == ArenaIds(bs)
  {
    var nbs := bs[i := x];
    forall a | 0 <= a < |bs| ensures nbs[a].insts == bs[a].insts {
    }
    ArenaIdsSameInsts(bs, nbs);
  }

  /** An edit of one block's instruction list keeps the edge and live-in
      invariants, and changes the arena's instructions by exactly the
      difference between the old and the new list. */
  lemma InstrEdit(bs: seq<Block>, i: nat, s: seq<Instr>)
    requires i < |bs| && EdgesInRange(bs) && EdgesSymmetric(bs) && LiveInsUnique(bs)
    ensures EdgesInRange(bs[i := bs[i].(insts := s)])
    ensures EdgesSymmetric(bs[i := bs[i].(insts := s)])
    ensures LiveInsUnique(bs[i := bs[i].(insts := s)])
    ensures ArenaIds(bs[i := bs[i].(insts := s)]) + IdBag(bs[i].insts) == ArenaIds(bs) + IdBag(s)
  {
    var x := bs[i].(insts := s);
    EdgesKept(bs, i, x);
    assert NoDups(bs[i].liveIns);
    LiveInsKept(bs, i, x);
    ArenaIdsUpdate(bs, i, x);
  }

  /** A block with no instructions, edges or live-ins can join the arena. */
  lemma AppendBareBlock(bs: seq<Block>, x: Block)
    requires WellFormed(bs)
    requires x.insts == [] && x.preds == [] && x.succs == [] && x.liveIns == []
    ensures WellFormed(bs + [x]) && (bs + [x])[..|bs|] == bs
  {
    var nbs := bs + [x];
    assert nbs[..|bs|] == bs;
    assert ArenaIds(nbs) == ArenaIds(bs) + IdBag([]);
    forall a | 0 <= a < |nbs| ensures NoDups(nbs[a].liveIns) {
      if a < |bs| {
        assert nbs[a] == bs[a];
      }
    }
    forall a, c | 0 <= a < |nbs| && c in nbs[a].succs ensures c < |nbs| {
      assert a < |bs| && c in bs[a].succs;
    }
    forall a, c | 0 <= a < |nbs| && c in nbs[a].preds ensures c < |nbs| {
      assert a < |bs| && c in bs[a].preds;
    }
    forall a, c | 0 <= a < |nbs| && 0 <= c < |nbs|
      ensures multiset(nbs[a].succs)[c] == multiset(nbs[c].preds)[a]
    {
      if a < |bs| && c < |bs| {
        assert multiset(bs[a].succs)[c] == multiset(bs[c].preds)[a];
      } else if a < |bs| {
        assert c !in bs[a].succs;
      } else if c < |bs| {
        assert a !in bs[c].preds;
      }
    }
  }

  /** Changing a block's number, alignment or landing-pad flag keeps the
      arena well formed. */
  lemma AttributeEdit(bs: seq<Block>, i: nat, x: Block)
    requires WellFormed(bs) && i < |bs|
    requires x.insts == bs[i].insts && x.preds == bs[i].preds && x.succs == bs[i].succs
    requires x.liveIns == bs[i].liveIns
    ensures WellFormed(bs[i := x])
  {
    EdgesKept(bs, i, x);
    assert NoDups(bs[i].liveIns);
    LiveInsKept(bs, i, x);
    InstrsKept(bs, i, x);
  }

  /** Replacing a block's live-in list by a duplicate-free one keeps the
      arena well formed. */
  lemma LiveInsReplaced(bs: seq<Block>, i: nat, s: seq<nat>)
    requires WellFormed(bs) && i < |bs| && NoDups(s)
    ensures WellFormed(bs[i := bs[i].(liveIns := s)])
  {
    var x := bs[i].(liveIns := s);
    EdgesKept(bs, i, x);
    LiveInsKept(bs, i, x);
    InstrsKept(bs, i, x);
  }

  /** removeLiveIn keeps the arena well formed; when the register is absent
      the arena is unchanged, and otherwise it is erased at its first
      position. */
  lemma LiveInRemoved(bs: seq<Block>, i: nat, reg: nat)
    requires WellFormed(bs) && i < |bs|
    ensures WellFormed(bs[i := bs[i].(liveIns := RemoveFirst(bs[i].liveIns, reg))])
    ensures reg !in bs[i].liveIns ==> bs[i := bs[i].(liveIns := RemoveFirst(bs[i].liveIns, reg))] == bs
    ensures reg in bs[i].liveIns ==>
              RemoveFirst(bs[i].liveIns, reg) == RemoveAt(bs[i].liveIns, IndexOf(bs[i].liveIns, reg))
  {
    assert NoDups(bs[i].liveIns);
    RemoveFirstMembership(bs[i].liveIns, reg, reg);
    LiveInsReplaced(bs, i, RemoveFirst(bs[i].liveIns, reg));
    if reg !in bs[i].liveIns {
      assert bs[i].(liveIns := bs[i].liveIns) == bs[i];
    }
  }

  /** The successor list after ReplaceUsesOfBlockWith(old, new): one edge to
      `old` is dropped and an edge to `new` is added unless one is already
      there. Afterwards `new` is a successor, every other successor keeps
      its edge count, and `old` is gone when it was a single edge. */
  function ReplacedSuccs(succs: seq<nat>, oldB: nat, newB: nat): (r: seq<nat>)
    ensures newB in r
    ensures oldB != newB && multiset(succs)[oldB] <= 1 ==> oldB !in r
    ensures forall x :: x != oldB && x != newB ==> multiset(r)[x] == multiset(succs)[x]
  {
    var rest := RemoveFirst(succs, oldB);
    assert multiset(rest)[oldB] == 0 ==> oldB !in rest;
    if newB in rest then rest
    else
      assert multiset(rest + [newB]) == multiset(rest) + multiset{newB};
      rest + [newB]
  }

  /** `nbs` has the edge lists of `bs`, except that `a` has one more or one
      fewer successor edge to `c` (one more when `add`) and `c` one more or
      one fewer predecessor edge from `a`. */
  ghost predicate OneEdgeChanged(bs: seq<Block>, nbs: seq<Block>, a: nat, c: nat, add: bool)
  {
    OnlyEdgesChanged(bs, nbs) && a < |bs| && c < |bs| &&
    (forall x :: 0 <= x < |bs| ==>
       multiset(nbs[x].succs) ==
         if x != a then multiset(bs[x].succs)
         else if add then multiset(bs[x].succs) + multiset{c}
         else multiset(bs[x].succs) - multiset{c}) &&
    (forall x :: 0 <= x < |bs| ==>
       multiset(nbs[x].preds) ==
         if x != c then multiset(bs[x].preds)
         else if add then multiset(bs[x].preds) + multiset{a}
         else multiset(bs[x].preds) - multiset{a})
  }

  lemma OneEdgeSuccsInRange(bs: seq<Block>, nbs: seq<Block>, a: nat, c: nat, add: bool)
    requires EdgesInRange(bs) && OneEdgeChanged(bs, nbs, a, c, add)
    ensures forall x, y :: 0 <= x < |nbs| && y in nbs[x].succs ==> y < |nbs|
  {
    forall x, y | 0 <= x < |nbs| && y in nbs[x].succs ensures y < |nbs| {
      assert multiset(nbs[x].succs)[y] > 0;
      assert y in bs[x].succs || y == c;
    }
  }

  lemma OneEdgePredsInRange(bs: seq<Block>, nbs: seq<Block>, a: nat, c: nat, add: bool)
    requires EdgesInRange(bs) && OneEdgeChanged(bs, nbs, a, c, add)
    ensures forall x, y :: 0 <= x < |nbs| && y in nbs[x].preds ==> y < |nbs|
  {
    forall x, y | 0 <= x < |nbs| && y in nbs[x].preds ensures y < |nbs| {
      assert multiset(nbs[x].preds)[y] > 0;
      assert y in bs[x].preds || y == a;
    }
  }

  /** The count argument behind OneEdgeSymmetric, for one pair of blocks
      `x`, `y`: `os`/`ns` count `x`'s successors before and after, `op`/`np`
      count `y`'s predecessors before and after. */
  lemma PairCount(os: multiset<nat>, ns: multiset<nat>, op: multiset<nat>, np: multiset<nat>,
                  x: nat, y: nat, a: nat, c: nat, add: bool)
    requires os[y] == op[x]
    requires ns == if x != a then os else if add then os + multiset{c} else os - multiset{c}
    requires np == if y != c then op else if add then op + multiset{a} else op - multiset{a}
    requires !add && x == a && y == c ==> os[c] > 0
    ensures ns[y] == np[x]
  {
  }

  lemma OneEdgeSymmetric(bs: seq<Block>, nbs: seq<Block>, a: nat, c: nat, add: bool)
    requires EdgesSymmetric(bs) && OneEdgeChanged(bs, nbs, a, c, add)
    requires !add ==> c in bs[a].succs
    ensures EdgesSymmetric(nbs)
  {
    forall x, y | 0 <= x < |nbs| && 0 <= y < |nbs|
      ensures multiset(nbs[x].succs)[y] == multiset(nbs[y].preds)[x]
    {
      PairCount(multiset(bs[x].succs), multiset(nbs[x].succs), multiset(bs[y].preds), multiset(nbs[y].preds),
                x, y, a, c, add);
    }
  }

  /** Adding an edge, or removing one that exists, on both of its sides
      keeps the arena well formed. */
  lemma OneEdgeEdit(bs: seq<Block>, nbs: seq<Block>, a: nat, c: nat, add: bool)
    requires WellFormed(bs) && OneEdgeChanged(bs, nbs, a, c, add)
    requires !add ==> c in bs[a].succs
    ensures WellFormed(nbs)
  {
    EdgeEditKeepsRest(bs, nbs);
    OneEdgeSuccsInRange(bs, nbs, a, c, add);
    OneEdgePredsInRange(bs, nbs, a, c, add);
    OneEdgeSymmetric(bs, nbs, a, c, add);
  }

  /** The arena after addSuccessor(c) on block `a`: the edge is appended to
      `a`'s successors and to `c`'s predecessors. */
  function WithEdge(bs: seq<Block>, a: nat, c: nat): seq<Block>
    requires a < |bs| && c < |bs|
  {
    var b1 := bs[a := bs[a].(succs := bs[a].succs + [c])];
    b1[c := b1[c].(preds := b1[c].preds + [a])]
  }

  /** addSuccessor keeps the arena well formed, and changes only the two
      edge lists it appends to. */
  lemma WithEdgeSpec(bs: seq<Block>, a: nat, c: nat)
    requires WellFormed(bs) && a < |bs| && c < |bs|
    ensures WellFormed(WithEdge(bs, a, c)) && SuccsChangedOnlyAt(bs, WithEdge(bs, a, c), a)
    ensures forall x :: 0 <= x < |bs| ==>
              WithEdge(bs, a, c)[x].succs == if x == a then bs[x].succs + [c] else bs[x].succs
    ensures forall x :: 0 <= x < |bs| ==>
              WithEdge(bs, a, c)[x].preds == if x == c then bs[x].preds + [a] else bs[x].preds
  {
    var b1 := bs[a := bs[a].(succs := bs[a].succs + [c])];
    var nbs := b1[c := b1[c].(preds := b1[c].preds + [a])];
    assert nbs == WithEdge(bs, a, c);
    forall x | 0 <= x < |bs|
      ensures nbs[x].succs == if x == a then bs[x].succs + [c] else bs[x].succs
      ensures nbs[x].preds == if x == c then bs[x].preds + [a] else bs[x].preds
      ensures nbs[x].insts == bs[x].insts && nbs[x].liveIns == bs[x].liveIns
      ensures nbs[x].number == bs[x].number && nbs[x].alignment == bs[x].alignment
      ensures nbs[x].isLandingPad == bs[x].isLandingPad
    {
    }
    assert OneEdgeChanged(bs, nbs, a, c, true);
    OneEdgeEdit(bs, nbs, a, c, true);
  }

  /** What a caller of addSuccessor needs from WithEdgeSpec. It exists so
      that a method calling it sees three facts, not the per-block
      quantifiers, which keeps the method's proof small. */
  lemma WithEdgeKeeps(bs: seq<Block>, a: nat, c: nat)
    requires WellFormed(bs) && a < |bs| && c < |bs|
    ensures WellFormed(WithEdge(bs, a, c)) && SuccsChangedOnlyAt(bs, WithEdge(bs, a, c), a)
    ensures WithEdge(bs, a, c)[a].succs == bs[a].succs + [c]
  {
    WithEdgeSpec(bs, a, c);
  }

  /** The arena after removing the `i`th successor edge of block `a`: it is
      taken out of `a`'s successors by position and out of its target's
      predecessors at the first occurrence of `a`. */
  function WithoutEdgeAt(bs: seq<Block>, a: nat, i: nat): seq<Block>
    requires a < |bs| && i < |bs[a].succs| && bs[a].succs[i] < |bs|
  {
    var c := bs[a].succs[i];
    var b1 := bs[c := bs[c].(preds := RemoveFirst(bs[c].preds, a))];
    b1[a := b1[a].(succs := RemoveAt(b1[a].succs, i))]
  }

  /** Removing one successor edge by position keeps the arena well formed,
      and changes only the two edge lists it removes from. */
  lemma WithoutEdgeAtSpec(bs: seq<Block>, a: nat, i: nat)
    requires WellFormed(bs) && a < |bs| && i < |bs[a].succs|
    ensures bs[a].succs[i] < |bs|
    ensures WellFormed(WithoutEdgeAt(bs, a, i)) && SuccsChangedOnlyAt(bs, WithoutEdgeAt(bs, a, i), a)
    ensures forall x :: 0 <= x < |bs| ==>
              WithoutEdgeAt(bs, a, i)[x].succs == if x == a then RemoveAt(bs[x].succs, i) else bs[x].succs
    ensures forall x :: 0 <= x < |bs| ==>
              WithoutEdgeAt(bs, a, i)[x].preds ==
                if x == bs[a].succs[i] then RemoveFirst(bs[x].preds, a) else bs[x].preds
  {
    var c := bs[a].succs[i];
    assert c in bs[a].succs;
    var b1 := bs[c := bs[c].(preds := RemoveFirst(bs[c].preds, a))];
    var nbs := b1[a := b1[a].(succs := RemoveAt(b1[a].succs, i))];
    assert nbs == WithoutEdgeAt(bs, a, i);
    assert b1[a].succs == bs[a].succs;
    forall x | 0 <= x < |bs|
      ensures nbs[x].succs == if x == a then RemoveAt(bs[x].succs, i) else bs[x].succs
      ensures nbs[x].preds == if x == c then RemoveFirst(bs[x].preds, a) else bs[x].preds
      ensures nbs[x].insts == bs[x].insts && nbs[x].liveIns == bs[x].liveIns
      ensures nbs[x].number == bs[x].number && nbs[x].alignment == bs[x].alignment
      ensures nbs[x].isLandingPad == bs[x].isLandingPad
    {
    }
    assert OneEdgeChanged(bs, nbs, a, c, false);
    assert c in bs[a].succs;
    OneEdgeEdit(bs, nbs, a, c, false);
  }

  /** What a caller of removeSuccessor by position needs from
      WithoutEdgeAtSpec; like WithEdgeKeeps, it keeps the calling method's
      proof context small. */
  lemma WithoutEdgeAtKeeps(bs: seq<Block>, a: nat, i: nat)
    requires WellFormed(bs) && a < |bs| && i < |bs[a].succs|
    ensures bs[a].succs[i] < |bs|
    ensures WellFormed(WithoutEdgeAt(bs, a, i)) && SuccsChangedOnlyAt(bs, WithoutEdgeAt(bs, a, i), a)
    ensures WithoutEdgeAt(bs, a, i)[a].succs == RemoveAt(bs[a].succs, i)
  {
    WithoutEdgeAtSpec(bs, a, i);
  }

  /** Removing an edge by position touches one predecessor list, its
      target's, where the first occurrence of `a` goes. Like
      WithEdgeKeeps, it keeps the calling method's proof context small. */
  lemma WithoutEdgeAtPreds(bs: seq<Block>, a: nat, i: nat)
    requires a < |bs| && i < |bs[a].succs| && bs[a].succs[i] < |bs|
    ensures OnePredRemoved(bs, WithoutEdgeAt(bs, a, i), bs[a].succs[i], a)
  {
  }

  /** `b1`'s predecessor lists are `b0`'s, except that block `c` has lost
      the first occurrence of `a`. */
  ghost predicate OnePredRemoved(b0: seq<Block>, b1: seq<Block>, c: nat, a: nat)
  {
    |b1| == |b0| &&
    forall x :: 0 <= x < |b0| ==>
      b1[x].preds == if x == c then RemoveFirst(b0[x].preds, a) else b0[x].preds
  }

  /** What the pruning loop of CorrectExtraCFGEdges on block `a` keeps of
      the predecessor lists of `b0`: every list is the same once the
      occurrences of `a` are taken out, and the lists of retained blocks are
      untouched. */
  ghost predicate PredsPruned(b0: seq<Block>, b1: seq<Block>, a: nat,
                              destA: Option<nat>, destB: Option<nat>, pads: set<nat>)
  {
    |b1| == |b0| &&
    (forall m :: 0 <= m < |b0| ==> RemoveAll(b1[m].preds, a) == RemoveAll(b0[m].preds, a)) &&
    (forall m :: 0 <= m < |b0| && Retained(m, destA, destB, pads) ==> b1[m].preds == b0[m].preds)
  }

  /** One removal of a non-retained edge keeps PredsPruned. */
  lemma PredsPrunedStep(b0: seq<Block>, b1: seq<Block>, b2: seq<Block>, a: nat, c: nat,
                        destA: Option<nat>, destB: Option<nat>, pads: set<nat>)
    requires PredsPruned(b0, b1, a, destA, destB, pads)
    requires OnePredRemoved(b1, b2, c, a) && !Retained(c, destA, destB, pads)
    ensures PredsPruned(b0, b2, a, destA, destB, pads)
  {
    forall m | 0 <= m < |b0|
      ensures RemoveAll(b2[m].preds, a) == RemoveAll(b0[m].preds, a)
    {
      RemoveAllRemoveFirst(b1[m].preds, a);
    }
  }

  /** At the end of the pruning loop, when `a`'s successors are the retained
      ones and the arena is well formed, a pruned block's predecessor list
      is its old one with every occurrence of `a` taken out. */
  lemma PredsPrunedDone(b0: seq<Block>, b1: seq<Block>, a: nat,
                        destA: Option<nat>, destB: Option<nat>)
    requires WellFormed(b1) && a < |b1|
    requires PredsPruned(b0, b1, a, destA, destB, LandingPads(b0))
    requires b1[a].succs == KeptEdges(b0[a].succs, destA, destB, LandingPads(b0))
    ensures forall m :: 0 <= m < |b1| ==>
              b1[m].preds == if Retained(m, destA, destB, LandingPads(b0)) then b0[m].preds
                             else RemoveAll(b0[m].preds, a)
  {
    forall m | 0 <= m < |b1| && !Retained(m, destA, destB, LandingPads(b0))
      ensures b1[m].preds == RemoveAll(b0[m].preds, a)
    {
      KeptEdgesCount(b0[a].succs, destA, destB, LandingPads(b0), m);
      SymmetricCount(b1, a, m);
      assert a !in b1[m].preds;
    }
  }

  /** The arena after removeSuccessor(c) on block `a`: one edge to `c` is
      removed from both sides, and nothing changes when there is none. */
  function WithoutEdge(bs: seq<Block>, a: nat, c: nat): seq<Block>
    requires a < |bs| && EdgesInRange(bs)
  {
    var i := IndexOf(bs[a].succs, c);
    if i == |bs[a].succs| then bs
    else
      assert bs[a].succs[i] in bs[a].succs;
      WithoutEdgeAt(bs, a, i)
  }

  /** removeSuccessor keeps the arena well formed; it removes `c` from `a`'s
      successors and `a` from `c`'s predecessors (each at most once) and
      changes nothing else. */
  lemma WithoutEdgeSpec(bs: seq<Block>, a: nat, c: nat)
    requires WellFormed(bs) && a < |bs| && c < |bs|
    ensures WellFormed(WithoutEdge(bs, a, c)) && SuccsChangedOnlyAt(bs, WithoutEdge(bs, a, c), a)
    ensures forall x :: 0 <= x < |bs| ==>
              WithoutEdge(bs, a, c)[x].succs == if x == a then RemoveFirst(bs[x].succs, c) else bs[x].succs
    ensures forall x :: 0 <= x < |bs| ==>
              WithoutEdge(bs, a, c)[x].preds == if x == c then RemoveFirst(bs[x].preds, a) else bs[x].preds
  {
    var i := IndexOf(bs[a].succs, c);
    if i == |bs[a].succs| {
      SymmetryByMembership(bs, a, c);
      assert RemoveFirst(bs[c].preds, a) == bs[c].preds;
    } else {
      WithoutEdgeAtSpec(bs, a, i);
    }
  }

  /** What a caller of removeSuccessor needs from WithoutEdgeSpec; like
      WithEdgeKeeps, it keeps the calling method's proof context small. */
  lemma WithoutEdgeKeeps(bs: seq<Block>, a: nat, c: nat)
    requires WellFormed(bs) && a < |bs| && c < |bs|
    ensures WellFormed(WithoutEdge(bs, a, c)) && SuccsChangedOnlyAt(bs, WithoutEdge(bs, a, c), a)
    ensures WithoutEdge(bs, a, c)[a].succs == RemoveFirst(bs[a].succs, c)
  {
    WithoutEdgeSpec(bs, a, c);
  }

  /** The arena after ReplaceUsesOfBlockWith(oldB, newB) on block `a`, on
      the CFG side: one edge to `oldB` is removed, then an edge to `newB`
      is added unless `a` already has one. */
  function ReplacedEdges(bs: seq<Block>, a: nat, oldB: nat, newB: nat): seq<Block>
    requires EdgesInRange(bs) && a < |bs| && newB < |bs|
  {
    var mid := WithoutEdge(bs, a, oldB);
    if newB in mid[a].succs then mid else WithEdge(mid, a, newB)
  }

  /** ReplaceUsesOfBlockWith keeps the arena well formed, changes only edge
      lists and no successor list but `a`'s, and leaves `a` with the
      successors ReplacedSuccs describes. */
  lemma ReplacedEdgesSpec(bs: seq<Block>, a: nat, oldB: nat, newB: nat)
    requires WellFormed(bs) && a < |bs| && oldB < |bs| && newB < |bs|
    ensures WellFormed(ReplacedEdges(bs, a, oldB, newB))
    ensures SuccsChangedOnlyAt(bs, ReplacedEdges(bs, a, oldB, newB), a)
    ensures ReplacedEdges(bs, a, oldB, newB)[a].succs == ReplacedSuccs(bs[a].succs, oldB, newB)
  {
    var mid := WithoutEdge(bs, a, oldB);
    WithoutEdgeKeeps(bs, a, oldB);
    assert ReplacedEdges(bs, a, oldB, newB) == if newB in mid[a].succs then mid else WithEdge(mid, a, newB);
    EdgeAddedUnlessPresent(bs, mid, a, newB);
    ReplacedSuccsShape(bs[a].succs, oldB, newB);
  }

  /** The second half of ReplaceUsesOfBlockWith, after the edge to the old
      block is gone from `mid`: adding `newB` unless present keeps the
      arena well formed and changes no successor list but `a`'s. */
  lemma EdgeAddedUnlessPresent(bs: seq<Block>, mid: seq<Block>, a: nat, newB: nat)
    requires WellFormed(mid) && SuccsChangedOnlyAt(bs, mid, a) && a < |mid| && newB < |mid|
    ensures var r := if newB in mid[a].succs then mid else WithEdge(mid, a, newB);
            WellFormed(r) && SuccsChangedOnlyAt(bs, r, a) &&
            r[a].succs == if newB in mid[a].succs then mid[a].succs else mid[a].succs + [newB]
  {
    if newB !in mid[a].succs {
      WithEdgeKeeps(mid, a, newB);
      SuccsChangedOnlyAtTrans(bs, mid, WithEdge(mid, a, newB), a);
    }
  }

  /** ReplacedSuccs, step by step: drop one `oldB`, then append `newB`
      unless it is still there. */
  lemma ReplacedSuccsShape(succs: seq<nat>, oldB: nat, newB: nat)
    ensures var rest := RemoveFirst(succs, oldB);
            ReplacedSuccs(succs, oldB, newB) == if newB in rest then rest else rest + [newB]
  {
  }

  lemma OnlyEdgesChangedTrans(b0: seq<Block>, b1: seq<Block>, b2: seq<Block>)
    requires OnlyEdgesChanged(b0, b1) && OnlyEdgesChanged(b1, b2)
    ensures OnlyEdgesChanged(b0, b2)
  {
  }

  /** Every successor of a block of a well-formed arena is a block of it. */
  lemma SuccInRange(bs: seq<Block>, a: nat, k: nat)
    requires EdgesInRange(bs) && a < |bs| && k < |bs[a].succs|
    ensures bs[a].succs[k] < |bs|
  {
    assert bs[a].succs[k] in bs[a].succs;
  }

  /** Edge symmetry for one pair of blocks. */
  lemma SymmetricCount(bs: seq<Block>, a: nat, c: nat)
    requires EdgesSymmetric(bs) && a < |bs| && c < |bs|
    ensures multiset(bs[a].succs)[c] == multiset(bs[c].preds)[a]
  {
  }

  /** Giving block `i` the instruction list `s`, which holds the old list's
      instructions plus `added`, none of which the arena holds yet, keeps
      the arena well formed. */
  lemma InstrsAdded(bs: seq<Block>, i: nat, s: seq<Instr>, added: multiset<nat>)
    requires WellFormed(bs) && i < |bs|
    requires IdBag(s) == IdBag(bs[i].insts) + added
    requires forall id :: ArenaIds(bs)[id] + added[id] <= 1
    ensures WellFormed(bs[i := bs[i].(insts := s)])
  {
    var nbs := bs[i := bs[i].(insts := s)];
    InstrEdit(bs, i, s);
    forall id ensures ArenaIds(nbs)[id] <= 1 {
      assert (ArenaIds(nbs) + IdBag(bs[i].insts))[id] == (ArenaIds(bs) + IdBag(s))[id];
    }
  }

  /** Giving block `i` the instruction list `s`, which holds the old list's
      instructions less `dropped`, keeps the arena well formed. */
  lemma InstrsDropped(bs: seq<Block>, i: nat, s: seq<Instr>, dropped: multiset<nat>)
    requires WellFormed(bs) && i < |bs|
    requires IdBag(s) + dropped == IdBag(bs[i].insts)
    ensures WellFormed(bs[i := bs[i].(insts := s)])
  {
    var nbs := bs[i := bs[i].(insts := s)];
    InstrEdit(bs, i, s);
    forall id ensures ArenaIds(nbs)[id] <= 1 {
      assert (ArenaIds(nbs) + IdBag(bs[i].insts))[id] == (ArenaIds(bs) + IdBag(s))[id];
      assert (IdBag(s) + dropped)[id] == IdBag(bs[i].insts)[id];
    }
  }

  /** Instructions detached from block `i` belong to no block afterwards. */
  lemma DetachedIdsFree(bs: seq<Block>, i: nat, s: seq<Instr>, gone: multiset<nat>)
    requires InstrsOwnedOnce(bs) && i < |bs| && IdBag(s) + gone == IdBag(bs[i].insts)
    ensures forall id :: ArenaIds(bs[i := bs[i].(insts := s)])[id] + gone[id] <= 1
  {
    var nbs := bs[i := bs[i].(insts := s)];
    ArenaIdsUpdate(bs, i, bs[i].(insts := s));
    forall id ensures ArenaIds(nbs)[id] + gone[id] <= 1 {
      assert (ArenaIds(nbs) + IdBag(bs[i].insts))[id] == (ArenaIds(bs) + IdBag(s))[id];
      assert (IdBag(s) + gone)[id] == IdBag(bs[i].insts)[id];
      assert ArenaIds(bs)[id] <= 1;
    }
  }

  /** In a well-formed arena an instruction occurs once in its block, so
      taking it out by position leaves none of it behind. */
  lemma RemovedInstrGone(bs: seq<Block>, i: nat, k: nat)
    requires InstrsOwnedOnce(bs) && i < |bs| && k < |bs[i].insts|
    ensures bs[i].insts[k] !in RemoveAt(bs[i].insts, k)
  {
    var m := bs[i].insts[k];
    BlockIdsInArena(bs, i, m.id);
    assert ArenaIds(bs)[m.id] <= 1;
    OnceRemoved(bs[i].insts, k);
  }

  /** Edge symmetry by membership: `c` is a successor of `a` exactly when `a`
      is a predecessor of `c`. */
  lemma SymmetryByMembership(bs: seq<Block>, a: nat, c: nat)
    requires EdgesSymmetric(bs) && a < |bs| && c < |bs|
    ensures c in bs[a].succs <==> a in bs[c].preds
  {
    assert multiset(bs[a].succs)[c] == multiset(bs[c].preds)[a];
  }

  // ------------------------------------------------------- CorrectExtraCFGEdges

  /** The blocks of the arena that are landing pads. */
  function LandingPads(bs: seq<Block>): set<nat>
  {
    set i | 0 <= i < |bs| && bs[i].isLandingPad
  }

  /** An edge to `s` survives CorrectExtraCFGEdges when `s` is DestA, DestB
      or a landing pad. */
  predicate Retained(s: nat, destA: Option<nat>, destB: Option<nat>, pads: set<nat>)
  {
    destA == Some(s) || destB == Some(s) || s in pads
  }

  /** The successor list with every edge that is not retained taken out, the
      survivors in their old order. */
  function KeptEdges(succs: seq<nat>, destA: Option<nat>, destB: Option<nat>, pads: set<nat>): seq<nat>
  {
    if succs == [] then []
    else
      (if Retained(succs[0], destA, destB, pads) then [succs[0]] else []) +
      KeptEdges(succs[1..], destA, destB, pads)
  }

  /** A step of the pruning loop, with `kept` the survivors among the
      successors already examined and `rest` the successors still to come:
      a retained next successor joins `kept`. */
  lemma PruneKeep(kept: seq<nat>, rest: seq<nat>, destA: Option<nat>, destB: Option<nat>, pads: set<nat>)
    requires rest != [] && Retained(rest[0], destA, destB, pads)
    ensures (kept + [rest[0]]) + KeptEdges(rest[1..], destA, destB, pads) == kept + KeptEdges(rest, destA, destB, pads)
    ensures kept + rest == (kept + [rest[0]]) + rest[1..]
  {
    var h, t := rest[0], rest[1..];
    var kt := KeptEdges(t, destA, destB, pads);
    assert KeptEdges(rest, destA, destB, pads) == [h] + kt;
    assert (kept + [h]) + kt == kept + ([h] + kt);
    assert rest == [h] + t;
  }

  /** A step of the pruning loop: a next successor that is not retained is
      removed right after `kept`. */
  lemma PruneDrop(kept: seq<nat>, rest: seq<nat>, destA: Option<nat>, destB: Option<nat>, pads: set<nat>)
    requires rest != [] && !Retained(rest[0], destA, destB, pads)
    ensures KeptEdges(rest[1..], destA, destB, pads) == KeptEdges(rest, destA, destB, pads)
    ensures RemoveAt(kept + rest, |kept|) == kept + rest[1..]
  {
    RemoveAfterPrefix(kept, rest);
    assert KeptEdges(rest, destA, destB, pads) == [] + KeptEdges(rest[1..], destA, destB, pads);
  }

  /** Filtering keeps every edge to a retained block, with its multiplicity,
      and removes every edge to any other block. */
  lemma {:induction false} KeptEdgesCount(succs: seq<nat>, destA: Option<nat>, destB: Option<nat>,
                                          pads: set<nat>, x: nat)
    ensures multiset(KeptEdges(succs, destA, destB, pads))[x]
         == if Retained(x, destA, destB, pads) then multiset(succs)[x] else 0
  {
    if succs != [] {
      assert succs == [succs[0]] + succs[1..];
      KeptEdgesCount(succs[1..], destA, destB, pads, x);
    }
  }

  /** An edge-only edit does not change which blocks are landing pads. */
  lemma LandingPadsAgree(b0: seq<Block>, b1: seq<Block>, s: nat)
    requires OnlyEdgesChanged(b0, b1) && s < |b1|
    ensures s in LandingPads(b0) <==> b1[s].isLandingPad
    ensures LandingPads(b0) == LandingPads(b1)
  {
  }

  /** CorrectExtraCFGEdges on block `e` touches the predecessor list only
      of blocks that were successors of `e`: a block `m` that did not have
      `e` as a predecessor keeps its predecessors, as a multiset. So in the
      diamond Entry -> {Then, Else} -> Merge, pruning Entry's successors
      leaves Merge's predecessor count as it was. */
  lemma PruneKeepsOtherPreds(b0: seq<Block>, b1: seq<Block>, e: nat, m: nat,
                             destA: Option<nat>, destB: Option<nat>)
    requires WellFormed(b0) && WellFormed(b1) && |b0| == |b1| && e < |b0| && m < |b0|
    requires b1[e].succs == KeptEdges(b0[e].succs, destA, destB, LandingPads(b0))
    requires forall x :: 0 <= x < |b0| && x != e ==> b1[x].succs == b0[x].succs
    requires e !in b0[m].preds
    ensures multiset(b1[m].preds) == multiset(b0[m].preds)
    ensures PredSize(b1[m]) == PredSize(b0[m])
  {
    forall x: nat
      ensures multiset(b1[m].preds)[x] == multiset(b0[m].preds)[x]
    {
      if x < |b0| {
        SymmetricCount(b0, x, m);
        SymmetricCount(b1, x, m);
        if x == e {
          KeptEdgesCount(b0[e].succs, destA, destB, LandingPads(b0), m);
        }
      } else {
        assert x !in b0[m].preds && x !in b1[m].preds;
      }
    }
    assert multiset(b1[m].preds) == multiset(b0[m].preds);
  }

  /** With successors X, Y and Z, of which only Z is a landing pad, keeping
      DestA = X and no DestB removes Y and retains X and Z. */
  lemma LandingPadExemption(x: nat, y: nat, z: nat)
    requires x != y && y != z && x != z
    ensures KeptEdges([x, y, z], Some(x), None, {z}) == [x, z]
  {
    assert [x, y, z][1..] == [y, z];
    assert [y, z][1..] == [z];
    assert [z][1..] == [];
    assert KeptEdges([z], Some(x), None, {z}) == [z];
    assert KeptEdges([y, z], Some(x), None, {z}) == [z];
  }
}
