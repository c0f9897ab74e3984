/** The machine basic blocks of one function, held in an arena and named by
    index, with the operations of MachineBasicBlock: instruction-list edits,
    CFG edge maintenance that keeps predecessor and successor lists
    symmetric, live-in management, the terminator scan, and layout moves
    within the function's block order. */
module MachineBasicBlock {
  import opened Seqs
  import opened InstrList
  import opened LiveInSet
  import opened BlockLayout
  import opened Blocks

  class BlockArena {
    /** Every block, addressed by its index. */
    var blocks: seq<Block>
    /** The owning function's linear block order, which the layout moves
        rearrange. */
    var layout: seq<nat>

    ghost predicate Valid()
      reads this
    {
      WellFormed(blocks) &&
      IsBlockOrder(layout, |blocks|)
    }

    constructor ()
      ensures Valid() && blocks == [] && layout == []
    {
      blocks := [];
      layout := [];
    }

    // ------------------------------------------------- creation and identity

    /** A new block (the MachineBasicBlock constructor): number -1, alignment
        0, not a landing pad, and no instructions, edges or live-ins. It is
        not yet in the function's block order. */
    method CreateBlock() returns (b: nat)
      requires Valid()
      modifies this
      ensures Valid() && layout == old(layout)
      ensures b == |old(blocks)| && |blocks| == b + 1 && blocks[..b] == old(blocks)
      ensures blocks[b].number == -1 && blocks[b].alignment == 0 && !blocks[b].isLandingPad
      ensures blocks[b].insts == [] && blocks[b].preds == [] && blocks[b].succs == []
      ensures blocks[b].liveIns == []
    {
      b := |blocks|;
      var bare := Block([], [], [], [], -1, 0, false);
      AppendBareBlock(blocks, bare);
      blocks := blocks + [bare];
    }

    /** The owning function appends block `b` to its block order. */
    method Attach(b: nat)
      requires Valid() && b < |blocks| && b !in layout
      modifies this
      ensures Valid() && blocks == old(blocks) && layout == old(layout) + [b]
    {
      layout := layout + [b];
    }

    /** setNumber. */
    method SetNumber(b: nat, n: int)
      requires Valid() && b < |blocks|
      modifies this
      ensures Valid() && layout == old(layout)
      ensures blocks == old(blocks)[b := old(blocks)[b].(number := n)]
    {
      AttributeEdit(blocks, b, blocks[b].(number := n));
      blocks := blocks[b := blocks[b].(number := n)];
    }

    /** setAlignment. */
    method SetAlignment(b: nat, align: nat)
      requires Valid() && b < |blocks|
      modifies this
      ensures Valid() && layout == old(layout)
      ensures blocks == old(blocks)[b := old(blocks)[b].(alignment := align)]
    {
      AttributeEdit(blocks, b, blocks[b].(alignment := align));
      blocks := blocks[b := blocks[b].(alignment := align)];
    }

    /** setIsLandingPad: the flag can only be raised. */
    method SetIsLandingPad(b: nat)
      requires Valid() && b < |blocks|
      modifies this
      ensures Valid() && layout == old(layout)
      ensures blocks == old(blocks)[b := old(blocks)[b].(isLandingPad := true)]
    {
      AttributeEdit(blocks, b, blocks[b].(isLandingPad := true));
      blocks := blocks[b := blocks[b].(isLandingPad := true)];
    }

    // ------------------------------------------------------------ CFG edges

    /** One-sided step: appends `p` to `b`'s predecessor list and nothing
        else. On its own it breaks edge symmetry; AddSuccessor restores it. */
    method AddPredecessor(b: nat, p: nat)
      requires b < |blocks|
      modifies this
      ensures layout == old(layout)
      ensures blocks == old(blocks)[b := old(blocks)[b].(preds := old(blocks)[b].preds + [p])]
    {
      blocks := blocks[b := blocks[b].(preds := blocks[b].preds + [p])];
    }

    /** One-sided step: removes the first `p` from `b`'s predecessor list
        (nothing when absent). On its own it breaks edge symmetry. */
    method RemovePredecessor(b: nat, p: nat)
      requires b < |blocks|
      modifies this
      ensures layout == old(layout)
      ensures blocks == old(blocks)[b := old(blocks)[b].(preds := RemoveFirst(old(blocks)[b].preds, p))]
    {
      var i := Find(blocks[b].preds, p);
      if i < |blocks[b].preds| {
        blocks := blocks[b := blocks[b].(preds := RemoveAt(blocks[b].preds, i))];
      }
    }

    /** addSuccessor: `s` is appended to `b`'s successors and `b` to `s`'s
        predecessors (WithEdge), so edge symmetry is kept. */
    method AddSuccessor(b: nat, s: nat)
      requires Valid() && b < |blocks| && s < |blocks|
      modifies this
      ensures Valid() && layout == old(layout)
      ensures blocks == WithEdge(old(blocks), b, s)
    {
      WithEdgeKeeps(blocks, b, s);
      blocks := blocks[b := blocks[b].(succs := blocks[b].succs + [s])];
      AddPredecessor(s, b);
    }

    /** removeSuccessor by reference: one edge from `b` to `s` is removed
        from both of its lists; nothing happens when there is none
        (WithoutEdge). */
    method RemoveSuccessor(b: nat, s: nat)
      requires Valid() && b < |blocks| && s < |blocks|
      modifies this
      ensures Valid() && layout == old(layout)
      ensures blocks == WithoutEdge(old(blocks), b, s)
    {
      WithoutEdgeKeeps(blocks, b, s);
      var i := Find(blocks[b].succs, s);
      if i < |blocks[b].succs| {
        SuccInRange(blocks, b, i);
        Unlink(b, i);
      }
    }

    /** removeSuccessor by position: the `i`th successor edge is removed from
        both of its lists (WithoutEdgeAt), and the position returned is that
        of the successor that followed the removed one (RemoveAt shifts the
        later successors down by one), or the end. */
    method RemoveSuccessorAt(b: nat, i: nat) returns (next: nat)
      requires Valid() && b < |blocks| && i < |blocks[b].succs|
      modifies this
      ensures Valid() && layout == old(layout)
      ensures old(blocks[b].succs[i]) < |old(blocks)| && blocks == WithoutEdgeAt(old(blocks), b, i)
      ensures next == i
    {
      WithoutEdgeAtKeeps(blocks, b, i);
      Unlink(b, i);
      next := i;
    }

    /** The two list updates of a removal by position, one per side. */
    method Unlink(b: nat, i: nat)
      requires b < |blocks| && i < |blocks[b].succs| && blocks[b].succs[i] < |blocks|
      modifies this
      ensures layout == old(layout) && blocks == WithoutEdgeAt(old(blocks), b, i)
    {
      var t := blocks[b].succs[i];
      RemovePredecessor(t, b);
      blocks := blocks[b := blocks[b].(succs := RemoveAt(blocks[b].succs, i))];
    }

    /** isSuccessor: whether `m` occurs in `b`'s successor list. */
    method IsSuccessor(b: nat, m: nat) returns (r: bool)
      requires b < |blocks|
      ensures r <==> m in blocks[b].succs
    {
      var i := Find(blocks[b].succs, m);
      r := i != |blocks[b].succs|;
    }

    /** addSuccessor of `b` to each block of `moved`, in order. */
    method AddSuccessors(b: nat, moved: seq<nat>)
      requires Valid() && b < |blocks| && forall m :: m in moved ==> m < |blocks|
      modifies this
      ensures Valid() && layout == old(layout) && SuccsChangedOnlyAt(old(blocks), blocks, b)
      ensures blocks[b].succs == old(blocks[b].succs) + moved
    {
      var i := 0;
      while i < |moved|
        invariant 0 <= i <= |moved|
        invariant Valid() && layout == old(layout) && SuccsChangedOnlyAt(old(blocks), blocks, b)
        invariant blocks[b].succs == old(blocks[b].succs) + moved[..i]
      {
        ghost var prev := blocks;
        TakeOneMore(old(blocks[b].succs), moved, i);
        WithEdgeKeeps(blocks, b, moved[i]);
        AddSuccessor(b, moved[i]);
        SuccsChangedOnlyAtTrans(old(blocks), prev, blocks, b);
        i := i + 1;
      }
      TakeAll(old(blocks[b].succs), moved, i);
    }

    /** removeSuccessor of the first successor of `b` until there is none. */
    method RemoveAllSuccessors(b: nat)
      requires Valid() && b < |blocks|
      modifies this
      ensures Valid() && layout == old(layout) && SuccsChangedOnlyAt(old(blocks), blocks, b)
      ensures blocks[b].succs == []
    {
      while blocks[b].succs != []
        invariant Valid() && layout == old(layout) && SuccsChangedOnlyAt(old(blocks), blocks, b)
        decreases |blocks[b].succs|
      {
        ghost var prev := blocks;
        WithoutEdgeAtKeeps(blocks, b, 0);
        var _ := RemoveSuccessorAt(b, 0);
        SuccsChangedOnlyAtTrans(old(blocks), prev, blocks, b);
      }
    }

    /** transferSuccessors: every successor edge of `from` becomes a successor
        edge of `b`, appended in order, and `from` is left with none; the
        predecessor lists follow. The header does not say what transferring
        from a block to itself does; here it changes nothing. */
    method TransferSuccessors(b: nat, from: nat)
      requires Valid() && b < |blocks| && from < |blocks|
      modifies this
      ensures Valid() && layout == old(layout) && OnlyEdgesChanged(old(blocks), blocks)
      ensures from == b ==> blocks == old(blocks)
      ensures from != b ==> blocks[from].succs == []
      ensures from != b ==> blocks[b].succs == old(blocks[b].succs) + old(blocks[from].succs)
      ensures forall x :: 0 <= x < |blocks| && x != b && x != from ==> blocks[x].succs == old(blocks[x].succs)
      ensures from != b ==> forall c :: 0 <= c < |blocks| ==>
                multiset(blocks[c].preds)[from] == 0 &&
                multiset(blocks[c].preds)[b] == old(multiset(blocks[c].preds)[b] + multiset(blocks[from].succs)[c])
    {
      ghost var ob := blocks;
      if from == b {
        return;
      }
      var moved := blocks[from].succs;
      forall m | m in moved ensures m < |blocks| {
        SuccInRange(blocks, from, IndexOf(moved, m));
      }
      AddSuccessors(b, moved);
      ghost var mid := blocks;
      RemoveAllSuccessors(from);
      OnlyEdgesChangedTrans(ob, mid, blocks);
      forall c | 0 <= c < |blocks|
        ensures multiset(blocks[c].preds)[from] == 0
        ensures multiset(blocks[c].preds)[b] == multiset(ob[c].preds)[b] + multiset(ob[from].succs)[c]
      {
        SymmetricCount(blocks, from, c);
        SymmetricCount(blocks, b, c);
        SymmetricCount(ob, b, c);
        assert multiset(ob[b].succs + ob[from].succs) == multiset(ob[b].succs) + multiset(ob[from].succs);
      }
    }

    /** ReplaceUsesOfBlockWith, on the CFG side: one edge to `oldB` is
        removed and `newB` becomes a successor unless it already is. The
        rewriting of branch operands is not modelled. */
    method ReplaceUsesOfBlockWith(b: nat, oldB: nat, newB: nat)
      requires Valid() && b < |blocks| && oldB < |blocks| && newB < |blocks|
      modifies this
      ensures Valid() && layout == old(layout)
      ensures blocks == ReplacedEdges(old(blocks), b, oldB, newB)
      ensures SuccsChangedOnlyAt(old(blocks), blocks, b)
      ensures blocks[b].succs == ReplacedSuccs(old(blocks[b].succs), oldB, newB)
    {
      ghost var ob := blocks;
      RemoveSuccessor(b, oldB);
      var present := IsSuccessor(b, newB);
      if !present {
        AddSuccessor(b, newB);
      }
      ReplacedEdgesSpec(ob, b, oldB, newB);
    }

    /** CorrectExtraCFGEdges: every successor edge of `b` that does not lead
        to `destA`, `destB` or a landing pad is removed (from both of its
        lists); all other edges stay, in order. `isCond` does not take part
        in the pruning. The result says whether an edge was removed. */
    method CorrectExtraCFGEdges(b: nat, destA: Option<nat>, destB: Option<nat>, isCond: bool)
      returns (changed: bool)
      requires Valid() && b < |blocks|
      modifies this
      ensures Valid() && layout == old(layout) && OnlyEdgesChanged(old(blocks), blocks)
      ensures blocks[b].succs == KeptEdges(old(blocks[b].succs), destA, destB, LandingPads(old(blocks)))
      ensures forall x :: 0 <= x < |blocks| && x != b ==> blocks[x].succs == old(blocks[x].succs)
      ensures forall s :: s in blocks[b].succs ==> Retained(s, destA, destB, LandingPads(old(blocks)))
      ensures forall s :: Retained(s, destA, destB, LandingPads(old(blocks))) ==>
                multiset(blocks[b].succs)[s] == multiset(old(blocks[b].succs))[s]
      ensures forall m :: 0 <= m < |blocks| ==>
                blocks[m].preds == if Retained(m, destA, destB, LandingPads(old(blocks)))
                                   then old(blocks[m].preds) else RemoveAll(old(blocks[m].preds), b)
      ensures forall m :: 0 <= m < |blocks| && b !in old(blocks[m].preds) ==>
                blocks[m].preds == old(blocks[m].preds)
    {
      ghost var ob := blocks;
      ghost var orig := blocks[b].succs;
      ghost var pads := LandingPads(blocks);
      changed := PruneSuccessors(b, destA, destB);
      forall s | true
        ensures multiset(blocks[b].succs)[s] == if Retained(s, destA, destB, pads) then multiset(orig)[s] else 0
      {
        KeptEdgesCount(orig, destA, destB, pads, s);
      }
      PredsPrunedDone(ob, blocks, b, destA, destB);
    }

    /** The pruning loop of CorrectExtraCFGEdges. */
    method PruneSuccessors(b: nat, destA: Option<nat>, destB: Option<nat>) returns (changed: bool)
      requires Valid() && b < |blocks|
      modifies this
      ensures Valid() && layout == old(layout) && SuccsChangedOnlyAt(old(blocks), blocks, b)
      ensures blocks[b].succs == KeptEdges(old(blocks[b].succs), destA, destB, LandingPads(old(blocks)))
      ensures PredsPruned(old(blocks), blocks, b, destA, destB, LandingPads(old(blocks)))
    {
      ghost var ob := blocks;
      ghost var orig := blocks[b].succs;
      ghost var pads := LandingPads(blocks);
      ghost var rest := orig;
      ghost var kept: seq<nat> := [];
      changed := false;
      var si := 0;
      while si < |blocks[b].succs|
        invariant Valid() && layout == old(layout) && SuccsChangedOnlyAt(ob, blocks, b)
        invariant kept + KeptEdges(rest, destA, destB, pads) == KeptEdges(orig, destA, destB, pads)
        invariant blocks[b].succs == kept + rest && si == |kept|
        invariant PredsPruned(ob, blocks, b, destA, destB, pads)
        decreases |rest|
      {
        ghost var prev := blocks;
        RemoveAfterPrefix(kept, rest);
        LandingPadsAgree(ob, blocks, 0);
        var removed;
        si, removed := PruneOne(b, si, destA, destB);
        SuccsChangedOnlyAtTrans(ob, prev, blocks, b);
        if removed {
          PredsPrunedStep(ob, prev, blocks, b, rest[0], destA, destB, pads);
          PruneDrop(kept, rest, destA, destB, pads);
          changed := true;
        } else {
          PruneKeep(kept, rest, destA, destB, pads);
          kept := kept + [rest[0]];
        }
        rest := rest[1..];
      }
      assert rest == [];
    }

    /** One step of the pruning loop: the successor edge at position `si` is
        removed (`removed`) exactly when it is not retained; the position of
        the next successor to examine is returned. */
    method PruneOne(b: nat, si: nat, destA: Option<nat>, destB: Option<nat>) returns (next: nat, removed: bool)
      requires Valid() && b < |blocks| && si < |blocks[b].succs|
      modifies this
      ensures Valid() && layout == old(layout) && SuccsChangedOnlyAt(old(blocks), blocks, b)
      ensures removed <==> !Retained(old(blocks[b].succs[si]), destA, destB, LandingPads(old(blocks)))
      ensures removed ==> blocks[b].succs == RemoveAt(old(blocks[b].succs), si) && next == si
      ensures removed ==> OnePredRemoved(old(blocks), blocks, old(blocks[b].succs[si]), b)
      ensures !removed ==> blocks == old(blocks) && next == si + 1
    {
      var s := blocks[b].succs[si];
      SuccInRange(blocks, b, si);
      LandingPadsAgree(blocks, blocks, s);
      if destA == Some(s) || destB == Some(s) || blocks[s].isLandingPad {
        next, removed := si + 1, false;
      } else {
        WithoutEdgeAtKeeps(blocks, b, si);
        WithoutEdgeAtPreds(blocks, b, si);
        next := RemoveSuccessorAt(b, si);
        removed := true;
      }
    }

    // ------------------------------------------------------------- live-ins

    /** addLiveIn: appends `reg`, which must not be live-in already. */
    method AddLiveIn(b: nat, reg: nat)
      requires Valid() && b < |blocks| && reg !in blocks[b].liveIns
      modifies this
      ensures Valid() && layout == old(layout)
      ensures blocks == old(blocks)[b := old(blocks)[b].(liveIns := Apply(old(blocks)[b].liveIns, LiveInEdit.Add(reg)))]
    {
      var s := blocks[b].liveIns + [reg];
      AppendFreshNoDups(blocks[b].liveIns, reg);
      LiveInsReplaced(blocks, b, s);
      blocks := blocks[b := blocks[b].(liveIns := s)];
    }

    /** removeLiveIn: removes `reg`; nothing happens when it is not live-in. */
    method RemoveLiveIn(b: nat, reg: nat)
      requires Valid() && b < |blocks|
      modifies this
      ensures Valid() && layout == old(layout)
      ensures blocks == old(blocks)[b := old(blocks)[b].(liveIns := Apply(old(blocks)[b].liveIns, LiveInEdit.Remove(reg)))]
    {
      LiveInRemoved(blocks, b, reg);
      var i := Find(blocks[b].liveIns, reg);
      if i < |blocks[b].liveIns| {
        blocks := blocks[b := blocks[b].(liveIns := RemoveAt(blocks[b].liveIns, i))];
      }
    }

    /** isLiveIn. */
    method IsLiveIn(b: nat, reg: nat) returns (r: bool)
      requires b < |blocks|
      ensures r <==> reg in blocks[b].liveIns
    {
      var i := Find(blocks[b].liveIns, reg);
      r := i != |blocks[b].liveIns|;
    }

    // ----------------------------------------------------- instruction list

    /** getFirstTerminator: the position of the first terminator, or the end
        position when the block has none. */
    method GetFirstTerminator(b: nat) returns (r: nat)
      requires b < |blocks|
      ensures r <= |blocks[b].insts|
      ensures r < |blocks[b].insts| ==> blocks[b].insts[r].isTerminator
      ensures forall j :: 0 <= j < r ==> !blocks[b].insts[j].isTerminator
    {
      var insts := blocks[b].insts;
      r := 0;
      while r < |insts| && !insts[r].isTerminator
        invariant r <= |insts|
        invariant forall j :: 0 <= j < r ==> !insts[j].isTerminator
      {
        r := r + 1;
      }
    }

    /** Replaces `b`'s instruction list by `s` whose identities are those of
        the old list plus `added`, which no block holds yet. */
    method SetInsts(b: nat, s: seq<Instr>, ghost added: multiset<nat>)
      requires Valid() && b < |blocks|
      requires IdBag(s) == IdBag(blocks[b].insts) + added
      requires forall id :: ArenaIds(blocks)[id] + added[id] <= 1
      modifies this
      ensures Valid() && layout == old(layout)
      ensures blocks == old(blocks)[b := old(blocks)[b].(insts := s)]
    {
      InstrsAdded(blocks, b, s, added);
      blocks := blocks[b := blocks[b].(insts := s)];
    }

    /** Replaces `b`'s instruction list by `s`, which drops the instructions
        `dropped` from it and adds none. */
    method ShrinkInsts(b: nat, s: seq<Instr>, ghost dropped: multiset<nat>)
      requires Valid() && b < |blocks|
      requires IdBag(s) + dropped == IdBag(blocks[b].insts)
      modifies this
      ensures Valid() && layout == old(layout)
      ensures blocks == old(blocks)[b := old(blocks)[b].(insts := s)]
    {
      InstrsDropped(blocks, b, s, dropped);
      blocks := blocks[b := blocks[b].(insts := s)];
    }

    /** insert of one instruction before position `pos`; the position
        returned is that of the inserted instruction. */
    method Insert(b: nat, pos: nat, mi: Instr) returns (it: nat)
      requires Valid() && b < |blocks| && pos <= |blocks[b].insts|
      requires mi.id !in ArenaIds(blocks)
      modifies this
      ensures Valid() && layout == old(layout)
      ensures blocks == old(blocks)[b := old(blocks)[b].(insts := Inserted(old(blocks)[b].insts, pos, [mi]))]
      ensures it == pos && blocks[b].insts[it] == mi
    {
      InsertedContents(blocks[b].insts, pos, [mi]);
      AppendedOne(blocks[b].insts, mi);
      SetInsts(b, Inserted(blocks[b].insts, pos, [mi]), multiset{mi.id});
      it := pos;
    }

    /** insert of a range of instructions before position `pos`; none of
        them may belong to a block yet, and each occurs once. */
    method InsertRange(b: nat, pos: nat, ms: seq<Instr>)
      requires Valid() && b < |blocks| && pos <= |blocks[b].insts|
      requires forall id :: ArenaIds(blocks)[id] + IdBag(ms)[id] <= 1
      modifies this
      ensures Valid() && layout == old(layout)
      ensures blocks == old(blocks)[b := old(blocks)[b].(insts := Inserted(old(blocks)[b].insts, pos, ms))]
    {
      InsertedContents(blocks[b].insts, pos, ms);
      SetInsts(b, Inserted(blocks[b].insts, pos, ms), IdBag(ms));
    }

    /** push_back. */
    method PushBack(b: nat, mi: Instr)
      requires Valid() && b < |blocks|
      requires mi.id !in ArenaIds(blocks)
      modifies this
      ensures Valid() && layout == old(layout)
      ensures blocks == old(blocks)[b := old(blocks)[b].(insts := old(blocks)[b].insts + [mi])]
    {
      var s := blocks[b].insts;
      AppendedOne(s, mi);
      var _ := Insert(b, |s|, mi);
    }

    /** erase of the instruction at `pos`; the position returned holds the
        instruction that followed it (or is the end). */
    method Erase(b: nat, pos: nat) returns (it: nat)
      requires Valid() && b < |blocks| && pos < |blocks[b].insts|
      modifies this
      ensures Valid() && layout == old(layout)
      ensures blocks == old(blocks)[b := old(blocks)[b].(insts := Erased(old(blocks)[b].insts, pos, pos + 1))]
      ensures it == pos && it <= |blocks[b].insts|
      ensures it < |blocks[b].insts| ==> blocks[b].insts[it] == old(blocks[b].insts[pos + 1])
    {
      var s := blocks[b].insts;
      ErasedContents(s, pos, pos + 1);
      ShrinkInsts(b, Erased(s, pos, pos + 1), IdBag(s[pos..pos + 1]));
      it := pos;
    }

    /** erase of the range [from, to); the position returned holds the
        instruction that followed the range (or is the end). */
    method EraseRange(b: nat, from: nat, to: nat) returns (it: nat)
      requires Valid() && b < |blocks| && from <= to <= |blocks[b].insts|
      modifies this
      ensures Valid() && layout == old(layout)
      ensures blocks == old(blocks)[b := old(blocks)[b].(insts := Erased(old(blocks)[b].insts, from, to))]
      ensures it == from && it <= |blocks[b].insts|
      ensures it < |blocks[b].insts| ==> blocks[b].insts[it] == old(blocks[b].insts[to])
    {
      var s := blocks[b].insts;
      ErasedContents(s, from, to);
      ShrinkInsts(b, Erased(s, from, to), IdBag(s[from..to]));
      it := from;
    }

    /** remove: detaches instruction `mi` from `b` without destroying it and
        hands it back. */
    method Remove(b: nat, mi: Instr) returns (r: Instr)
      requires Valid() && b < |blocks| && mi in blocks[b].insts
      modifies this
      ensures Valid() && layout == old(layout)
      ensures blocks == old(blocks)[b := old(blocks)[b].(insts := RemoveFirst(old(blocks)[b].insts, mi))]
      ensures r == mi && mi !in blocks[b].insts
    {
      var s := blocks[b].insts;
      var i := Find(s, mi);
      ErasedContents(s, i, i + 1);
      ErasedOne(s, i);
      RemovedInstrGone(blocks, b, i);
      ShrinkInsts(b, RemoveAt(s, i), IdBag(s[i..i + 1]));
      r := mi;
    }

    /** clear: the block keeps no instruction. */
    method Clear(b: nat)
      requires Valid() && b < |blocks|
      modifies this
      ensures Valid() && layout == old(layout)
      ensures blocks == old(blocks)[b := old(blocks)[b].(insts := [])]
    {
      ShrinkInsts(b, [], IdBag(blocks[b].insts));
    }

    /** pop_front: removes the first instruction. */
    method PopFront(b: nat)
      requires Valid() && b < |blocks| && !Empty(blocks[b])
      modifies this
      ensures Valid() && layout == old(layout)
      ensures blocks == old(blocks)[b := old(blocks)[b].(insts := old(blocks)[b].insts[1..])]
    {
      var s := blocks[b].insts;
      assert s[0..1] + s[1..] == s;
      IdBagAppend(s[0..1], s[1..]);
      ShrinkInsts(b, s[1..], IdBag(s[0..1]));
    }

    /** pop_back: removes the last instruction. */
    method PopBack(b: nat)
      requires Valid() && b < |blocks| && !Empty(blocks[b])
      modifies this
      ensures Valid() && layout == old(layout)
      ensures blocks == old(blocks)[b := old(blocks)[b].(insts := old(blocks)[b].insts[..|old(blocks)[b].insts| - 1])]
    {
      var s := blocks[b].insts;
      var n := |s| - 1;
      assert s[..n] + s[n..n + 1] == s;
      IdBagAppend(s[..n], s[n..n + 1]);
      ShrinkInsts(b, s[..n], IdBag(s[n..n + 1]));
    }

    /** splice: moves the range [from, to) of block `other`'s instructions to
        just before position `where` of block `b`, in order. Within one
        block, `where` must lie outside the open range. Edges are not
        touched. */
    method Splice(b: nat, where: nat, other: nat, from: nat, to: nat)
      requires Valid() && b < |blocks| && other < |blocks|
      requires where <= |blocks[b].insts| && from <= to <= |blocks[other].insts|
      requires b == other ==> where <= from || to <= where
      modifies this
      ensures Valid() && layout == old(layout)
      ensures b != other ==>
                blocks == old(blocks)[other := old(blocks)[other].(insts := Erased(old(blocks)[other].insts, from, to))]
                                     [b := old(blocks)[b].(insts := Inserted(old(blocks)[b].insts, where,
                                                                              old(blocks)[other].insts[from..to]))]
      ensures b == other ==>
                blocks == old(blocks)[b := old(blocks)[b].(insts := SplicedWithin(old(blocks)[b].insts, where, from, to))]
    {
      if b == other {
        SpliceWithin(b, where, from, to);
      } else {
        SpliceBetween(b, where, other, from, to);
      }
    }

    /** splice within one block. */
    method SpliceWithin(b: nat, where: nat, from: nat, to: nat)
      requires Valid() && b < |blocks| && from <= to <= |blocks[b].insts|
      requires where <= from || to <= where <= |blocks[b].insts|
      modifies this
      ensures Valid() && layout == old(layout)
      ensures blocks == old(blocks)[b := old(blocks)[b].(insts := SplicedWithin(old(blocks)[b].insts, where, from, to))]
    {
      SplicedWithinConserves(blocks[b].insts, where, from, to);
      ShrinkInsts(b, SplicedWithin(blocks[b].insts, where, from, to), multiset{});
    }

    /** splice from another block. */
    method SpliceBetween(b: nat, where: nat, other: nat, from: nat, to: nat)
      requires Valid() && b < |blocks| && other < |blocks| && b != other
      requires where <= |blocks[b].insts| && from <= to <= |blocks[other].insts|
      modifies this
      ensures Valid() && layout == old(layout)
      ensures blocks == old(blocks)[other := old(blocks)[other].(insts := Erased(old(blocks)[other].insts, from, to))]
                                   [b := old(blocks)[b].(insts := Inserted(old(blocks)[b].insts, where,
                                                                            old(blocks)[other].insts[from..to]))]
    {
      var dst, src := blocks[b].insts, blocks[other].insts;
      var range := src[from..to];
      ErasedContents(src, from, to);
      DetachedIdsFree(blocks, other, Erased(src, from, to), IdBag(range));
      ShrinkInsts(other, Erased(src, from, to), IdBag(range));
      InsertedContents(dst, where, range);
      SetInsts(b, Inserted(dst, where, range), IdBag(range));
    }

    // ---------------------------------------------------------------- layout

    /** moveBefore: moves block `b` to just before block `t` in the
        function's block order; no block's state, and so no edge, changes. */
    method MoveBefore(b: nat, t: nat)
      requires Valid() && b in layout && t in layout
      modifies this
      ensures Valid() && blocks == old(blocks)
      ensures layout == MovedBefore(old(layout), b, t)
    {
      MovedBeforeSpec(layout, b, t);
      PermutedOrder(layout, MovedBefore(layout, b, t), |blocks|);
      layout := MovedBefore(layout, b, t);
    }

    /** moveAfter: moves block `b` to just after block `t` in the function's
        block order; no block's state, and so no edge, changes. */
    method MoveAfter(b: nat, t: nat)
      requires Valid() && b in layout && t in layout
      modifies this
      ensures Valid() && blocks == old(blocks)
      ensures layout == MovedAfter(old(layout), b, t)
    {
      MovedAfterSpec(layout, b, t);
      PermutedOrder(layout, MovedAfter(layout, b, t), |blocks|);
      layout := MovedAfter(layout, b, t);
    }
  }
}
