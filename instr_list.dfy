/** The instruction sequence of a block, as values: what insert, erase and
    splice do to an ordered list of instructions, and what they keep. */
module InstrList {
  import opened Seqs

  /** A machine instruction, reduced to what the block needs from it: its
      identity (one node of the intrusive list) and whether it is a
      terminator (a branch or a return). */
  datatype Instr = Instr(id: nat, isTerminator: bool)

  /** The identities of the instructions in `s`, with multiplicity. */
  function IdBag(s: seq<Instr>): multiset<nat>
  {
    if s == [] then multiset{} else multiset{s[0].id} + IdBag(s[1..])
  }

  lemma {:induction false} IdBagAppend(a: seq<Instr>, b: seq<Instr>)
    ensures IdBag(a + b) == IdBag(a) + IdBag(b)
  {
    if a == [] {
      assert a + b == b;
    } else {
      assert (a + b)[1..] == a[1..] + b;
      IdBagAppend(a[1..], b);
    }
  }

  /** Every instruction of `s` contributes its identity. */
  lemma {:induction false} IdBagMember(s: seq<Instr>, m: Instr)
    requires m in s
    ensures m.id in IdBag(s)
  {
    if s[0] != m {
      assert s == [s[0]] + s[1..];
      IdBagMember(s[1..], m);
    }
  }

  /** `ms` placed immediately before position `pos` of `s`. */
  function Inserted(s: seq<Instr>, pos: nat, ms: seq<Instr>): seq<Instr>
    requires pos <= |s|
  {
    s[..pos] + ms + s[pos..]
  }

  /** `s` without the half-open range [from, to). */
  function Erased(s: seq<Instr>, from: nat, to: nat): seq<Instr>
    requires from <= to <= |s|
  {
    s[..from] + s[to..]
  }

  /** The range [from, to) of `s` moved to just before position `where` of
      the same sequence; `where` must lie outside the open range. */
  function SplicedWithin(s: seq<Instr>, where: nat, from: nat, to: nat): seq<Instr>
    requires from <= to <= |s|
    requires where <= from || to <= where <= |s|
  {
    if where <= from then s[..where] + s[from..to] + s[where..from] + s[to..]
    else s[..from] + s[to..where] + s[from..to] + s[where..]
  }

  lemma InsertedIds(s: seq<Instr>, pos: nat, ms: seq<Instr>)
    requires pos <= |s|
    ensures multiset(Inserted(s, pos, ms)) == multiset(s) + multiset(ms)
    ensures IdBag(Inserted(s, pos, ms)) == IdBag(s) + IdBag(ms)
  {
    var a, b := s[..pos], s[pos..];
    assert s == a + b;
    IdBagAppend(a, ms);
    IdBagAppend(a + ms, b);
    IdBagAppend(a, b);
  }

  lemma InsertedSlices(s: seq<Instr>, pos: nat, ms: seq<Instr>)
    requires pos <= |s|
    ensures |Inserted(s, pos, ms)| == |s| + |ms|
    ensures Inserted(s, pos, ms)[pos..pos + |ms|] == ms
    ensures Inserted(s, pos, ms)[..pos] == s[..pos]
    ensures Inserted(s, pos, ms)[pos + |ms|..] == s[pos..]
  {
    var r := Inserted(s, pos, ms);
    assert r == (s[..pos] + ms) + s[pos..];
    assert r[..pos + |ms|] == s[..pos] + ms;
  }

  /** Insertion adds exactly the inserted instructions and keeps the rest in
      place around them. */
  lemma InsertedContents(s: seq<Instr>, pos: nat, ms: seq<Instr>)
    requires pos <= |s|
    ensures |Inserted(s, pos, ms)| == |s| + |ms|
    ensures Inserted(s, pos, ms)[pos..pos + |ms|] == ms
    ensures Inserted(s, pos, ms)[..pos] == s[..pos]
    ensures Inserted(s, pos, ms)[pos + |ms|..] == s[pos..]
    ensures multiset(Inserted(s, pos, ms)) == multiset(s) + multiset(ms)
    ensures IdBag(Inserted(s, pos, ms)) == IdBag(s) + IdBag(ms)
  {
    InsertedSlices(s, pos, ms);
    InsertedIds(s, pos, ms);
  }

  /** Erasing a single position, at the front, in the middle or at the
      back. */
  lemma ErasedOne(s: seq<Instr>, i: nat)
    requires i < |s|
    ensures Erased(s, i, i + 1) == RemoveAt(s, i)
    ensures i == 0 ==> Erased(s, i, i + 1) == s[1..]
    ensures i == |s| - 1 ==> Erased(s, i, i + 1) == s[..i]
    ensures IdBag(s[i..i + 1]) == multiset{s[i].id}
  {
    assert s[i..i + 1] == [s[i]];
    assert IdBag([s[i]]) == multiset{s[i].id} + IdBag([]);
  }

  /** Inserting one instruction at the end appends it, and contributes its
      identity alone. */
  lemma AppendedOne(s: seq<Instr>, m: Instr)
    ensures Inserted(s, |s|, [m]) == s + [m]
    ensures IdBag([m]) == multiset{m.id}
  {
    assert IdBag([m]) == multiset{m.id} + IdBag([]);
  }

  /** An instruction whose identity occurs once in `s` is gone once its
      position is erased. */
  lemma OnceRemoved(s: seq<Instr>, k: nat)
    requires k < |s| && IdBag(s)[s[k].id] <= 1
    ensures s[k] !in RemoveAt(s, k)
  {
    var m := s[k];
    ErasedOne(s, k);
    ErasedContents(s, k, k + 1);
    assert IdBag(RemoveAt(s, k))[m.id] == 0;
    if m in RemoveAt(s, k) {
      IdBagMember(RemoveAt(s, k), m);
      assert false;
    }
  }

  /** Erasing a range removes exactly that range. */
  lemma ErasedContents(s: seq<Instr>, from: nat, to: nat)
    requires from <= to <= |s|
    ensures |Erased(s, from, to)| == |s| - (to - from)
    ensures multiset(Erased(s, from, to)) + multiset(s[from..to]) == multiset(s)
    ensures IdBag(Erased(s, from, to)) + IdBag(s[from..to]) == IdBag(s)
  {
    assert s == s[..from] + s[from..to] + s[to..];
    IdBagAppend(s[..from], s[to..]);
    IdBagAppend(s[..from], s[from..to]);
    IdBagAppend(s[..from] + s[from..to], s[to..]);
  }

  /** Erasing what was just inserted gives the original list back. */
  lemma {:induction false} EraseUndoesInsert(s: seq<Instr>, pos: nat, ms: seq<Instr>)
    requires pos <= |s|
    ensures Erased(Inserted(s, pos, ms), pos, pos + |ms|) == s
  {
    InsertedContents(s, pos, ms);
    assert s == s[..pos] + s[pos..];
  }

  /** Putting an erased range back where it was gives the original list. */
  lemma {:induction false} InsertUndoesErase(s: seq<Instr>, from: nat, to: nat)
    requires from <= to <= |s|
    ensures Inserted(Erased(s, from, to), from, s[from..to]) == s
  {
    assert Erased(s, from, to)[..from] == s[..from];
    assert Erased(s, from, to)[from..] == s[to..];
    assert s == s[..from] + s[from..to] + s[to..];
  }

  /** Splicing [from, to) of `src` into `dst` before `where`: the range
      arrives in its original order right at `where`, `dst` keeps its own
      instructions around it, `src` loses exactly the range, and between the
      two lists no instruction is duplicated or lost. */
  lemma SpliceConserves(dst: seq<Instr>, where: nat, src: seq<Instr>, from: nat, to: nat)
    requires where <= |dst| && from <= to <= |src|
    ensures |Inserted(dst, where, src[from..to])| == |dst| + (to - from)
    ensures |Erased(src, from, to)| == |src| - (to - from)
    ensures Inserted(dst, where, src[from..to])[where..where + (to - from)] == src[from..to]
    ensures Inserted(dst, where, src[from..to])[..where] == dst[..where]
    ensures Inserted(dst, where, src[from..to])[where + (to - from)..] == dst[where..]
    ensures multiset(Inserted(dst, where, src[from..to])) + multiset(Erased(src, from, to))
         == multiset(dst) + multiset(src)
    ensures IdBag(Inserted(dst, where, src[from..to])) + IdBag(Erased(src, from, to))
         == IdBag(dst) + IdBag(src)
  {
    InsertedContents(dst, where, src[from..to]);
    ErasedContents(src, from, to);
  }

  /** Exchanging two adjacent middle parts keeps the identities. */
  lemma SwapMiddleIds(a: seq<Instr>, b: seq<Instr>, c: seq<Instr>, d: seq<Instr>)
    ensures IdBag(a + c + b + d) == IdBag(a + b + c + d)
  {
    IdBagAppend(a, b);
    IdBagAppend(a + b, c);
    IdBagAppend(a + b + c, d);
    IdBagAppend(a, c);
    IdBagAppend(a + c, b);
    IdBagAppend(a + c + b, d);
  }

  /** Moving [from, to) towards the front of the list, to just before `where`. */
  lemma SplicedForward(s: seq<Instr>, where: nat, from: nat, to: nat)
    requires where <= from <= to <= |s|
    ensures |SplicedWithin(s, where, from, to)| == |s|
    ensures multiset(SplicedWithin(s, where, from, to)) == multiset(s)
    ensures IdBag(SplicedWithin(s, where, from, to)) == IdBag(s)
    ensures SplicedWithin(s, where, from, to)[where..where + (to - from)] == s[from..to]
  {
    var a, b, c, d := s[..where], s[where..from], s[from..to], s[to..];
    assert s == a + b + c + d;
    var r := a + c + b + d;
    assert SplicedWithin(s, where, from, to) == r;
    SwapMiddleIds(a, b, c, d);
    assert r[where..where + (to - from)] == c;
  }

  /** Moving [from, to) towards the back of the list, to just before `where`. */
  lemma SplicedBackward(s: seq<Instr>, where: nat, from: nat, to: nat)
    requires from <= to <= where <= |s|
    ensures |SplicedWithin(s, where, from, to)| == |s|
    ensures multiset(SplicedWithin(s, where, from, to)) == multiset(s)
    ensures IdBag(SplicedWithin(s, where, from, to)) == IdBag(s)
    ensures SplicedWithin(s, where, from, to)[where - (to - from)..where] == s[from..to]
  {
    var a, b, c, d := s[..from], s[from..to], s[to..where], s[where..];
    assert s == a + b + c + d;
    var r := a + c + b + d;
    assert SplicedWithin(s, where, from, to) == r;
    SwapMiddleIds(a, b, c, d);
    assert r[where - (to - from)..where] == b;
  }

  /** Splicing within one list is a rearrangement: same length, same
      instructions, and the moved range sits contiguously at its new place. */
  lemma SplicedWithinConserves(s: seq<Instr>, where: nat, from: nat, to: nat)
    requires from <= to <= |s|
    requires where <= from || to <= where <= |s|
    ensures |SplicedWithin(s, where, from, to)| == |s|
    ensures multiset(SplicedWithin(s, where, from, to)) == multiset(s)
    ensures IdBag(SplicedWithin(s, where, from, to)) == IdBag(s)
    ensures where <= from ==> SplicedWithin(s, where, from, to)[where..where + (to - from)] == s[from..to]
    ensures to <= where ==> SplicedWithin(s, where, from, to)[where - (to - from)..where] == s[from..to]
  {
    if where <= from {
      SplicedForward(s, where, from, to);
    } else {
      SplicedBackward(s, where, from, to);
    }
  }
}
