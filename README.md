# MachineBasicBlock, modelled in Dafny

This project models LLVM's machine basic block (`MachineBasicBlock`, declared
in `include/llvm/CodeGen/MachineBasicBlock.h`). A machine basic block holds
four things:

- an ordered list of machine instructions;
- its predecessor and successor lists in the machine CFG;
- the physical registers live on entry to it;
- its number, alignment and landing-pad flag.

The blocks of one function live in an arena (`MachineBasicBlock.BlockArena`).
A block is named by its index in the arena, which stands in for a
`MachineBasicBlock *`. The arena also holds the function's linear block
order, which moveBefore and moveAfter rearrange.

`BlockArena.Valid()` is the invariant every public operation keeps:

- every edge names a block of the arena;
- edges are symmetric by count: `c` occurs in `a`'s successor list exactly
  as often as `a` occurs in `c`'s predecessor list, so duplicate edges are
  covered;
- no block lists a live-in register twice;
- every instruction belongs to at most one block, once;
- the block order lists blocks of the arena, none of them twice.

The private one-sided steps `addPredecessor` and `removePredecessor` are
methods without `Valid()`. They break symmetry until the public operation
that uses them restores it.

The state-changing operations are specified in one of three ways:

- Most tie the new arena, or the changed list, to a function of the old
  one: `WithEdge` (addSuccessor), `WithoutEdge` and `WithoutEdgeAt`
  (removeSuccessor), `ReplacedEdges` (ReplaceUsesOfBlockWith), `KeptEdges`
  for the pruned block's successors and `RemoveAll` for every other
  block's predecessors (CorrectExtraCFGEdges), `Inserted`, `Erased` and `SplicedWithin`
  (insert, erase, splice), `MovedBefore` and `MovedAfter`, and the live-in
  `Apply`. The properties the header promises are lemmas about those
  functions.
- The setters, `pop_front`, `pop_back`, `clear` and the one-sided
  predecessor steps give the new arena as a record update of the old one.
- `transferSuccessors` is specified by its method's postconditions alone:
  the successor lists exactly, and the predecessor lists by edge count.

Files:

- `seqs.dfy`: find and erase on sequences.
- `instr_list.dfy`: the instruction list as a value.
- `live_in_set.dfy`: the live-in list as a value, and its history.
- `block_layout.dfy`: the function's block order and the two layout moves.
- `blocks.dfy`: the block record, its accessors, the arena invariants, the
  edge edits and the CorrectExtraCFGEdges filter.
- `machine_basic_block.dfy`: the arena class and its methods.

## Model

| member | source | states |
|---|---|---|
| MachineBasicBlock.BlockArena.CreateBlock | include/llvm/CodeGen/MachineBasicBlock.h:88-92 | A new block has number -1, alignment 0, is not a landing pad, and has no instructions, predecessors, successors or live-ins; the rest of the arena is unchanged and stays valid |
| Blocks.AppendBareBlock | include/llvm/CodeGen/MachineBasicBlock.h:88-92 | Adding a bare block keeps every arena invariant, and the old blocks keep their indices |
| Blocks.Empty | include/llvm/CodeGen/MachineBasicBlock.h:111-112 | empty() holds exactly when size() is 0 |
| Blocks.Size | include/llvm/CodeGen/MachineBasicBlock.h:111 | size() is the number of instructions, each counted as often as it occurs |
| Blocks.Front | include/llvm/CodeGen/MachineBasicBlock.h:114 | front() is the first instruction: it followed by the rest is the whole list |
| Blocks.Back | include/llvm/CodeGen/MachineBasicBlock.h:115 | back() is the last instruction: the list without it, followed by it, is the whole list |
| Blocks.PredSize | include/llvm/CodeGen/MachineBasicBlock.h:152-154 | pred_size() is the number of predecessor edges, duplicate edges included |
| Blocks.SuccSize | include/llvm/CodeGen/MachineBasicBlock.h:168-170 | succ_size() is the number of successor edges, duplicate edges included |
| Blocks.PredEmpty | include/llvm/CodeGen/MachineBasicBlock.h:152-155 | pred_empty() holds exactly when pred_size() is 0, and exactly when no block is a predecessor |
| Blocks.SuccEmpty | include/llvm/CodeGen/MachineBasicBlock.h:168-171 | succ_empty() holds exactly when succ_size() is 0, and exactly when no block is a successor |
| Blocks.LiveInEmpty | include/llvm/CodeGen/MachineBasicBlock.h:195 | livein_empty() holds exactly when no register is live-in |
| MachineBasicBlock.BlockArena.AddLiveIn | include/llvm/CodeGen/MachineBasicBlock.h:175-177 | Appends a register that is not live-in yet (the caller contract), and the arena stays valid |
| MachineBasicBlock.BlockArena.RemoveLiveIn | include/llvm/CodeGen/MachineBasicBlock.h:179-181 | Removes the register, leaves the list alone when it is absent, and the arena stays valid |
| MachineBasicBlock.BlockArena.IsLiveIn | include/llvm/CodeGen/MachineBasicBlock.h:183-185 | True exactly when the register is in the block's live-in list |
| Blocks.LiveInsReplaced | include/llvm/CodeGen/MachineBasicBlock.h:175-181 | Any duplicate-free live-in list keeps the arena well formed |
| Blocks.LiveInRemoved | include/llvm/CodeGen/MachineBasicBlock.h:179-181 | removeLiveIn keeps the arena well formed, changes nothing when the register is absent, and otherwise erases its first position |
| LiveInSet.ReplayMembership | include/llvm/CodeGen/MachineBasicBlock.h:175-185 | Over any history of addLiveIn and removeLiveIn that never adds a register already present, the list stays duplicate-free and isLiveIn(r) holds exactly when the last edit naming r was an add, or, if none names it, when r was live-in before |
| LiveInSet.SortedHasNoDups | include/llvm/CodeGen/MachineBasicBlock.h:187-188 | A live-in list kept in sorted order has no duplicates |
| LiveInSet.RemoveKeepsSorted | include/llvm/CodeGen/MachineBasicBlock.h:179-188 | removeLiveIn keeps a sorted live-in list sorted |
| LiveInSet.AddKeepsSortedWhenLargest | include/llvm/CodeGen/MachineBasicBlock.h:175-188 | addLiveIn keeps a sorted list sorted exactly when the register is larger than every register already there |
| LiveInSet.AddOutOfOrderUnsorts | include/llvm/CodeGen/MachineBasicBlock.h:177-188 | Because addLiveIn appends, adding register 3 to the sorted list [5] gives an unsorted list |
| MachineBasicBlock.BlockArena.SetAlignment | include/llvm/CodeGen/MachineBasicBlock.h:197-203 | Only the block's alignment changes, to the given value |
| MachineBasicBlock.BlockArena.SetIsLandingPad | include/llvm/CodeGen/MachineBasicBlock.h:205-211 | Only the block's landing-pad flag changes, and it can only become true |
| MachineBasicBlock.BlockArena.SetNumber | include/llvm/CodeGen/MachineBasicBlock.h:294-299 | Only the block's number changes, to the given value |
| Blocks.AttributeEdit | include/llvm/CodeGen/MachineBasicBlock.h:197-211 | Changing only a block's number, alignment or landing-pad flag keeps every arena invariant |
| BlockLayout.MovedBeforeSpec | include/llvm/CodeGen/MachineBasicBlock.h:215-218 | moveBefore permutes the block order, keeps it duplicate-free, puts the block immediately before the target, and keeps the other blocks in their old relative order |
| BlockLayout.MovedAfterSpec | include/llvm/CodeGen/MachineBasicBlock.h:215-219 | moveAfter permutes the block order, keeps it duplicate-free, puts the block immediately after the target, and keeps the other blocks in their old relative order |
| BlockLayout.PermutedOrder | include/llvm/CodeGen/MachineBasicBlock.h:215-219 | A rearranged block order still lists blocks of the arena, none twice |
| MachineBasicBlock.BlockArena.MoveBefore | include/llvm/CodeGen/MachineBasicBlock.h:215-218 | The block order becomes MovedBefore of the old one; no block, so no edge, live-in or instruction, changes |
| MachineBasicBlock.BlockArena.MoveAfter | include/llvm/CodeGen/MachineBasicBlock.h:215-219 | The block order becomes MovedAfter of the old one; no block, so no edge, live-in or instruction, changes |
| Blocks.WithEdgeSpec | include/llvm/CodeGen/MachineBasicBlock.h:223-226 | addSuccessor keeps every arena invariant, edge symmetry included; the successor is appended to this block's successors and this block to the successor's predecessors; no other list changes |
| MachineBasicBlock.BlockArena.AddSuccessor | include/llvm/CodeGen/MachineBasicBlock.h:223-226 | The new arena is WithEdge of the old one, and stays valid |
| Blocks.WithoutEdgeSpec | include/llvm/CodeGen/MachineBasicBlock.h:228-231 | removeSuccessor by reference keeps every arena invariant; it removes the first edge to the successor from this block's successors and the first occurrence of this block from the successor's predecessors; no other list changes |
| MachineBasicBlock.BlockArena.RemoveSuccessor | include/llvm/CodeGen/MachineBasicBlock.h:228-231 | The new arena is WithoutEdge of the old one, and stays valid |
| Blocks.WithoutEdgeAtSpec | include/llvm/CodeGen/MachineBasicBlock.h:233-237 | removeSuccessor by position keeps every arena invariant; the successor at that position leaves this block's list, shifting later ones down, and this block leaves that successor's predecessors once; no other list changes |
| MachineBasicBlock.BlockArena.RemoveSuccessorAt | include/llvm/CodeGen/MachineBasicBlock.h:233-237 | The new arena is WithoutEdgeAt of the old one, stays valid, and the position returned is the removed one; by RemoveAt's contract it now holds the successor that followed the removed one, or is the end |
| Blocks.SymmetryByMembership | include/llvm/CodeGen/MachineBasicBlock.h:223-237 | With symmetry by count, a block is a successor of another exactly when that other is its predecessor |
| MachineBasicBlock.BlockArena.TransferSuccessors | include/llvm/CodeGen/MachineBasicBlock.h:239-242 | When the source is another block: the source ends with no successors; this block's successors gain the source's, appended in order; each block's predecessor count for the source drops to 0 and for this block grows by the edges moved; no other successor list or non-edge field changes. When the source is the block itself, nothing changes (a choice of the model) |
| MachineBasicBlock.BlockArena.IsSuccessor | include/llvm/CodeGen/MachineBasicBlock.h:244-246 | True exactly when the block is in this block's successor list |
| MachineBasicBlock.BlockArena.GetFirstTerminator | include/llvm/CodeGen/MachineBasicBlock.h:248-251 | The position of the first terminator, or the end position when there is none; no instruction before it is a terminator |
| MachineBasicBlock.BlockArena.PopFront | include/llvm/CodeGen/MachineBasicBlock.h:253 | The first instruction is removed, nothing else changes, and the arena stays valid |
| MachineBasicBlock.BlockArena.PopBack | include/llvm/CodeGen/MachineBasicBlock.h:254 | The last instruction is removed, nothing else changes, and the arena stays valid |
| MachineBasicBlock.BlockArena.PushBack | include/llvm/CodeGen/MachineBasicBlock.h:255 | The instruction, which no block holds yet, is appended |
| MachineBasicBlock.BlockArena.InsertRange | include/llvm/CodeGen/MachineBasicBlock.h:256-257 | The range, none of which any block holds, is placed immediately before the position |
| MachineBasicBlock.BlockArena.Insert | include/llvm/CodeGen/MachineBasicBlock.h:258 | The instruction is placed immediately before the position, and the position returned holds it |
| InstrList.InsertedContents | include/llvm/CodeGen/MachineBasicBlock.h:256-258 | Insertion adds exactly the inserted instructions, in order at the position, and keeps the old ones before and after them |
| InstrList.AppendedOne | include/llvm/CodeGen/MachineBasicBlock.h:255 | push_back is insertion at the end position |
| MachineBasicBlock.BlockArena.Erase | include/llvm/CodeGen/MachineBasicBlock.h:260-263 | The instruction at the position is removed, and the position returned holds the one that followed it, or is the end |
| MachineBasicBlock.BlockArena.EraseRange | include/llvm/CodeGen/MachineBasicBlock.h:260-264 | The range is removed, and the position returned holds the instruction that followed it, or is the end |
| MachineBasicBlock.BlockArena.Remove | include/llvm/CodeGen/MachineBasicBlock.h:265 | The instruction leaves the block, is no longer in it, and is handed back |
| MachineBasicBlock.BlockArena.Clear | include/llvm/CodeGen/MachineBasicBlock.h:266 | The block keeps no instruction, and nothing else changes |
| InstrList.ErasedContents | include/llvm/CodeGen/MachineBasicBlock.h:260-264 | Erasing a range removes exactly that range's instructions |
| InstrList.ErasedOne | include/llvm/CodeGen/MachineBasicBlock.h:253-265 | Erasing one position is removal at that position; at the front it is pop_front and at the back pop_back |
| InstrList.EraseUndoesInsert | include/llvm/CodeGen/MachineBasicBlock.h:256-264 | Erasing what was just inserted gives the old list back |
| InstrList.InsertUndoesErase | include/llvm/CodeGen/MachineBasicBlock.h:256-264 | Putting an erased range back where it was gives the old list back |
| InstrList.OnceRemoved | include/llvm/CodeGen/MachineBasicBlock.h:265 | An instruction that occurs once is gone after it is removed |
| Blocks.RemovedInstrGone | include/llvm/CodeGen/MachineBasicBlock.h:265 | In a well-formed arena the instruction that remove() takes out no longer occurs in its block |
| Blocks.InstrsAdded | include/llvm/CodeGen/MachineBasicBlock.h:253-258 | Adding instructions that no block holds keeps every arena invariant |
| Blocks.InstrsDropped | include/llvm/CodeGen/MachineBasicBlock.h:253-266 | Dropping instructions from a block keeps every arena invariant |
| MachineBasicBlock.BlockArena.Splice | include/llvm/CodeGen/MachineBasicBlock.h:268-273 | The range [from, to) leaves the other block and arrives, in order, immediately before the position; within one block it is SplicedWithin; no edge changes and the arena stays valid |
| InstrList.SpliceConserves | include/llvm/CodeGen/MachineBasicBlock.h:268-273 | Between two blocks, splice removes exactly [from, to) from the source, places it in its original order immediately before the position, keeps the destination's own instructions around it, and loses or duplicates no instruction |
| InstrList.SplicedWithinConserves | include/llvm/CodeGen/MachineBasicBlock.h:268-273 | Within one block, splice keeps the length and the instructions, and the moved range sits together at its new place |
| Blocks.ReplacedSuccs | include/llvm/CodeGen/MachineBasicBlock.h:275-277 | After ReplaceUsesOfBlockWith, New is a successor; Old is no longer one when it had a single edge and differs from New; every other successor keeps its edge count |
| Blocks.ReplacedEdgesSpec | include/llvm/CodeGen/MachineBasicBlock.h:275-277 | ReplaceUsesOfBlockWith on the CFG side keeps every arena invariant, edge symmetry included; only this block's successor list changes, and it becomes ReplacedSuccs of the old one |
| MachineBasicBlock.BlockArena.ReplaceUsesOfBlockWith | include/llvm/CodeGen/MachineBasicBlock.h:275-277 | The new arena is ReplacedEdges of the old one; this block's successor list becomes ReplacedSuccs of the old one; only edges change, and the arena stays valid |
| Blocks.KeptEdgesCount | include/llvm/CodeGen/MachineBasicBlock.h:279-287 | Pruning keeps every edge to DestA, DestB or a landing pad, with its multiplicity, and removes every edge to any other block |
| Blocks.LandingPadExemption | include/llvm/CodeGen/MachineBasicBlock.h:282-284 | With successors X, Y and Z where only Z is a landing pad, pruning to DestA = X and no DestB removes Y and keeps X and Z |
| Blocks.PruneKeepsOtherPreds | include/llvm/CodeGen/MachineBasicBlock.h:279-287 | Pruning a block's successors leaves the predecessors of every block that did not have it as a predecessor unchanged, as a multiset; in the diamond Entry → {Then, Else} → Merge, pruning Entry leaves Merge's predecessor count as it was |
| Blocks.PredsPrunedDone | include/llvm/CodeGen/MachineBasicBlock.h:279-287 | After pruning, a retained block keeps its predecessor list, and any other block's predecessor list is the old one with every occurrence of the pruned block taken out, the rest in order |
| MachineBasicBlock.BlockArena.CorrectExtraCFGEdges | include/llvm/CodeGen/MachineBasicBlock.h:279-287 | This block's successors become KeptEdges of the old list; every remaining successor is DestA, DestB or a landing pad; retained edges keep their multiplicity; no other successor list and no non-edge field changes; a retained block keeps its predecessor list, and any other block's list loses every occurrence of this block and keeps the rest in order, so a block that did not have this block as a predecessor keeps its list unchanged; the arena stays valid |
| MachineBasicBlock.BlockArena.AddPredecessor | include/llvm/CodeGen/MachineBasicBlock.h:311-315 | Appends to this block's predecessor list only, without updating the other block's successors |
| MachineBasicBlock.BlockArena.RemovePredecessor | include/llvm/CodeGen/MachineBasicBlock.h:317-322 | Removes the first occurrence from this block's predecessor list only, without updating the other block's successors |

## Left out

- The bodies of the out-of-line members are in a `.cpp` file that is not part of this model: removeLiveIn, isLiveIn, moveBefore, moveAfter, addSuccessor, both removeSuccessor forms, transferSuccessors, isSuccessor, getFirstTerminator, ReplaceUsesOfBlockWith, CorrectExtraCFGEdges, addPredecessor and removePredecessor. The models follow the doc comments where those say what happens. The doc comments of removeLiveIn, removeSuccessor and transferSuccessors (lines 179-181, 228-231 and 239-242) do not say what happens in the following cases, so the model makes its own choices there:
  - removing a register that is not live-in, or a successor that is not one, changes nothing;
  - transferring from a block to itself changes nothing. Read literally, lines 240-241 would instead leave the block with no successors.
- MachineBasicBlock.BlockArena.CorrectExtraCFGEdges: the `isCond` argument does not take part, and the boolean result is not stated, because the header documents neither.
- MachineBasicBlock.BlockArena.TransferSuccessors: the predecessor lists are stated by edge count, not by order. Where the moved edges land in each predecessor list depends on the out-of-line body, which is not part of this model.
- MachineBasicBlock.BlockArena.ReplaceUsesOfBlockWith: the rewriting of branch-target operands is left out, because `MachineInstr` is not part of this model; only the CFG effect is modelled.
- Blocks.ReplacedSuccs: "Old is no longer a successor" is stated only when Old had one edge and Old differs from New. With duplicate edges, one removeSuccessor leaves another edge to Old, and with Old == New the block branches to New.
- The `ilist` sentinel, the Prev/Next links and the `ilist_traits` friend (lines 25-56, 61-63 and 301-307) are left out: a block's instructions are a sequence, and the function's block order is a sequence of indices.
- Iterators are positions in a sequence; the reverse iterators and the pred/succ/livein iterator accessors are not separate members.
- `MachineInstr` is reduced to an identity and a terminator flag.
- The `BasicBlock` and `MachineFunction` back-references and their accessors (lines 64, 66-68 and 96-104) are left out. MachineBasicBlock.BlockArena.Attach stands in for the function appending a block to its order; it does not number the block.
- The destructor and the deletion of erased instructions (lines 94 and 260-262) are left out: erase and clear only take instructions out of the list.
- dump, print and `operator<<` (lines 289-292 and 325) are I/O. The GraphTraits specializations (lines 327-393) only expose the successor and predecessor lists.
- Widths are unbounded: size(), pred_size() and succ_size() cast to 32-bit `unsigned`, and registers and the alignment are `unsigned`. Here they are `nat`, and the number is `int`.
- Live-in sortedness is not an invariant. The header says live-in sets are kept sorted (lines 187-188), but addLiveIn appends (line 177). The LiveInSet lemmas show that removal keeps a sorted list sorted, that appending keeps it sorted only when callers add in increasing order, and that appending out of order breaks it.

## Notes on the header

Two properties of the model bear on the diamond Entry → {Then, Else} → Merge:

- Pruning Entry's successors with DestA = Then and DestB = Else keeps the edge to Else, because DestB is retained (Blocks.KeptEdgesCount).
- Pruning Entry's successors leaves Merge's predecessor count as it was. Entry is not a predecessor of Merge, and pruning changes only the predecessor lists of the blocks whose edge from Entry is removed (MachineBasicBlock.BlockArena.CorrectExtraCFGEdges's last postcondition, which states that such a block keeps its predecessor list unchanged. Blocks.PruneKeepsOtherPreds states the count fact for any pair of well-formed arenas related as pruning relates them).
