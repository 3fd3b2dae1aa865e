/** The storage of sh that is freed in last-in first-out order (src/bin/sh/memalloc.c), and the strings
    that grow at its top (src/bin/sh/memalloc.h).

    A block is a sequence of characters, so that two blocks never overlap, and a pointer into the top
    block is an offset.  What is written to a here-document is kept in a field, and ckmalloc does not
    fail.
  */
module StackBlocks {

  const MINSIZE := 504

  /** The size of a pointer, to which ALIGN rounds up. */
  type Unit = u: nat | u == 4 || u == 8 witness 8

  /** A block has an address of its own; one that realloc moves gets a new one, and one that it leaves where
      it is keeps the old one. */
  datatype Block = Block(id: nat, space: seq<char>)

  datatype Mark = Mark(id: nat, nxt: nat, nleft: nat)

  /** A mark, and the blocks there were when it was set. */
  datatype Saved = Saved(mark: Mark, blocks: seq<Block>)

  predicate Aligned(n: int, unit: Unit) {
    if unit == 4 then n % 4 == 0 else n % 8 == 0
  }

  lemma AlignedSum(a: int, b: int, unit: Unit)
    requires Aligned(a, unit) && Aligned(b, unit)
    ensures Aligned(a + b, unit) && Aligned(a - b, unit) && Aligned(0, unit) && Aligned(MINSIZE, unit)
  {
    if unit == 4 { Fours(a, b); } else { Eights(a, b); }
  }

  lemma Fours(a: int, b: int)
    requires a % 4 == 0 && b % 4 == 0
    ensures (a + b) % 4 == 0 && (a - b) % 4 == 0
  {
    assert a + b == 4 * (a / 4 + b / 4) && a - b == 4 * (a / 4 - b / 4);
  }

  lemma Eights(a: int, b: int)
    requires a % 8 == 0 && b % 8 == 0
    ensures (a + b) % 8 == 0 && (a - b) % 8 == 0
  {
    assert a + b == 8 * (a / 8 + b / 8) && a - b == 8 * (a / 8 - b / 8);
  }

  /** Rounding up stays below any multiple. */
  lemma AlignFits(n: nat, m: nat, unit: Unit)
    requires n <= m && Aligned(m, unit)
    ensures Align(n, unit) <= m
  {
  }

  lemma RoundedUp(n: nat)
    ensures n <= (n + 3) / 4 * 4 < n + 4 && (n + 3) / 4 * 4 % 4 == 0
    ensures n <= (n + 7) / 8 * 8 < n + 8 && (n + 7) / 8 * 8 % 8 == 0
  {
    Multiples((n + 3) / 4);
    Multiples((n + 7) / 8);
  }

  lemma Multiples(q: nat)
    ensures q * 4 % 4 == 0 && q * 8 % 8 == 0
  {
  }

  /** The macro ALIGN. */
  function Align(n: nat, unit: Unit): (r: nat)
    ensures Aligned(r, unit) && n <= r < n + unit
  {
    RoundedUp(n);
    if unit == 4 then (n + 3) / 4 * 4 else (n + 7) / 8 * 8
  }

  // ---------------------------------------------------------------- marks

  /** The first blocks are those of the mark, with the same contents as far as they were in use. */
  ghost predicate Kept(s: Saved, blocks: seq<Block>) {
    var n := |s.blocks|;
    && 0 < n <= |blocks|
    && (forall i :: 0 <= i < n - 1 ==> blocks[i] == s.blocks[i])
    && blocks[n - 1].id == s.blocks[n - 1].id == s.mark.id
    && s.mark.nxt + s.mark.nleft <= |blocks[n - 1].space| && s.mark.nxt <= |s.blocks[n - 1].space|
    && blocks[n - 1].space[..s.mark.nxt] == s.blocks[n - 1].space[..s.mark.nxt]
  }

  /** The mark lies at or below this place of the top block. */
  ghost predicate AtOrBelow(s: Saved, blocks: seq<Block>, nxt: nat) {
    |s.blocks| < |blocks| || (|s.blocks| == |blocks| && s.mark.nxt <= nxt)
  }

  /** The place up to which a mark allows the top block to be used is no higher than this one. */
  ghost predicate EndsBy(s: Saved, blocks: seq<Block>, end: nat) {
    |s.blocks| < |blocks| || s.mark.nxt + s.mark.nleft <= end
  }

  /** The marks are good, and in order, when the top block is free from nxt to end. */
  ghost predicate MarksKept(marks: seq<Saved>, blocks: seq<Block>, nxt: nat, end: nat, unit: Unit) {
    && (forall k :: 0 <= k < |marks| ==>
          Kept(marks[k], blocks) && AtOrBelow(marks[k], blocks, nxt) && EndsBy(marks[k], blocks, end)
          && Aligned(marks[k].mark.nxt, unit) && Aligned(marks[k].mark.nleft, unit))
    && (forall j, k :: 0 <= j < k < |marks| ==>
          AtOrBelow(marks[j], marks[k].blocks, marks[k].mark.nxt)
          && EndsBy(marks[j], marks[k].blocks, marks[k].mark.nxt + marks[k].mark.nleft))
  }

  /** Every mark reaches to the end of its block. */
  ghost predicate MarksFull(marks: seq<Saved>, blocks: seq<Block>) {
    forall k :: 0 <= k < |marks| ==>
      var n := |marks[k].blocks|;
      0 < n <= |blocks| && marks[k].mark.nxt + marks[k].mark.nleft == |blocks[n - 1].space|
  }

  lemma FullAdded(marks: seq<Saved>, blocks: seq<Block>, b: Block)
    ensures MarksFull(marks, blocks) ==> MarksFull(marks, blocks + [b])
  {
  }

  lemma FullWritten(marks: seq<Saved>, blocks: seq<Block>, after: seq<Block>)
    requires |blocks| == |after| && forall i :: 0 <= i < |blocks| ==> |blocks[i].space| == |after[i].space|
    ensures MarksFull(marks, blocks) <==> MarksFull(marks, after)
  {
  }

  lemma FullMarked(marks: seq<Saved>, blocks: seq<Block>, mark: Mark)
    requires blocks != []
    ensures MarksFull(marks, blocks) && mark.nxt + mark.nleft == |blocks[|blocks| - 1].space|
        ==> MarksFull(marks + [Saved(mark, blocks)], blocks)
  {
  }

  lemma FullPopped(marks: seq<Saved>, blocks: seq<Block>, nxt: nat, end: nat, unit: Unit)
    requires MarksKept(marks, blocks, nxt, end, unit) && marks != []
    ensures MarksFull(marks, blocks) ==>
      var s := marks[|marks| - 1];
      var n := |s.blocks|;
      && 0 < n <= |blocks| && s.mark.nxt + s.mark.nleft == |blocks[n - 1].space|
      && MarksFull(marks[..|marks| - 1], blocks[..n])
  {
    hide Kept, EndsBy, Aligned;
    var s := marks[|marks| - 1];
    forall k | 0 <= k < |marks| - 1
      ensures |marks[k].blocks| <= |s.blocks|
    {
      assert AtOrBelow(marks[k], s.blocks, s.mark.nxt);
    }
  }

  /** When the top block is replaced by one of another size, a mark that names it no longer reaches to its end. */
  lemma FullReplaced(marks: seq<Saved>, blocks: seq<Block>, b: Block)
    requires blocks != [] && MarksFull(marks, blocks) && |b.space| != |blocks[|blocks| - 1].space|
    ensures MarksFull(marks, blocks[..|blocks| - 1] + [b])
        <==> forall k :: 0 <= k < |marks| ==> |marks[k].blocks| != |blocks|
  {
    var t := blocks[..|blocks| - 1] + [b];
    forall k | 0 <= k < |marks|
      ensures var n := |marks[k].blocks|;
              marks[k].mark.nxt + marks[k].mark.nleft == |t[n - 1].space| <==> n != |blocks|
    {
    }
  }

  /** Writing at the top, from nxt on, disturbs no mark. */
  lemma TopWritten(marks: seq<Saved>, blocks: seq<Block>, nxt: nat, end: nat, space: seq<char>, unit: Unit)
    requires MarksKept(marks, blocks, nxt, end, unit) && blocks != []
    requires var top := blocks[|blocks| - 1];
      |space| == |top.space| && nxt <= |space| && space[..nxt] == top.space[..nxt]
    ensures MarksKept(marks, blocks[|blocks| - 1 := blocks[|blocks| - 1].(space := space)], nxt, end, unit)
  {
    var t := blocks[|blocks| - 1 := blocks[|blocks| - 1].(space := space)];
    forall k | 0 <= k < |marks|
      ensures Kept(marks[k], t) && AtOrBelow(marks[k], t, nxt) && EndsBy(marks[k], t, end)
    {
      var s := marks[k];
      assert Kept(s, blocks) && AtOrBelow(s, blocks, nxt);
      if |s.blocks| == |blocks| {
        assert space[..s.mark.nxt] == space[..nxt][..s.mark.nxt];
        assert blocks[|blocks| - 1].space[..s.mark.nxt] == blocks[|blocks| - 1].space[..nxt][..s.mark.nxt];
      }
    }
  }

  /** Nor does a new block on top. */
  lemma BlockAdded(marks: seq<Saved>, blocks: seq<Block>, nxt: nat, end: nat, b: Block, end': nat, unit: Unit)
    requires MarksKept(marks, blocks, nxt, end, unit)
    ensures MarksKept(marks, blocks + [b], 0, end', unit)
  {
    forall k | 0 <= k < |marks|
      ensures Kept(marks[k], blocks + [b]) && |marks[k].blocks| < |blocks + [b]|
    {
      assert Kept(marks[k], blocks);
    }
  }

  /** A new mark at the place up to which the top block is used. */
  lemma MarkAdded(marks: seq<Saved>, blocks: seq<Block>, mark: Mark, unit: Unit)
    requires MarksKept(marks, blocks, mark.nxt, mark.nxt + mark.nleft, unit) && blocks != []
    requires mark.id == blocks[|blocks| - 1].id && mark.nxt + mark.nleft <= |blocks[|blocks| - 1].space|
    requires Aligned(mark.nxt, unit) && Aligned(mark.nleft, unit)
    ensures MarksKept(marks + [Saved(mark, blocks)], blocks, mark.nxt, mark.nxt + mark.nleft, unit)
  {
    hide Aligned;
    var s := Saved(mark, blocks);
    assert Kept(s, blocks) && AtOrBelow(s, blocks, mark.nxt) && EndsBy(s, blocks, mark.nxt + mark.nleft);
    hide Kept, AtOrBelow, EndsBy;
  }

  /** Nor does moving the top block, if no mark names it. */
  lemma TopMoved(marks: seq<Saved>, blocks: seq<Block>, nxt: nat, end: nat, b: Block, end': nat, unit: Unit)
    requires MarksKept(marks, blocks, nxt, end, unit) && blocks != []
    requires forall k :: 0 <= k < |marks| ==> |marks[k].blocks| < |blocks|
    ensures MarksKept(marks, blocks[..|blocks| - 1] + [b], 0, end', unit)
  {
    var t := blocks[..|blocks| - 1] + [b];
    forall k | 0 <= k < |marks|
      ensures Kept(marks[k], t) && |marks[k].blocks| < |t|
    {
      assert Kept(marks[k], blocks);
    }
  }

  /** Nor does making the top block bigger where it is, if all of it is free. */
  lemma TopGrown(marks: seq<Saved>, blocks: seq<Block>, end: nat, b: Block, end': nat, unit: Unit)
    requires MarksKept(marks, blocks, 0, end, unit) && blocks != []
    requires b.id == blocks[|blocks| - 1].id && end <= end' <= |b.space|
    ensures MarksKept(marks, blocks[..|blocks| - 1] + [b], 0, end', unit)
  {
    var t := blocks[..|blocks| - 1] + [b];
    forall k | 0 <= k < |marks|
      ensures Kept(marks[k], t) && AtOrBelow(marks[k], t, 0) && EndsBy(marks[k], t, end')
    {
      var s := marks[k];
      assert Kept(s, blocks) && AtOrBelow(s, blocks, 0) && EndsBy(s, blocks, end);
      assert s.mark.nxt == 0 ==> b.space[..0] == s.blocks[|s.blocks| - 1].space[..0];
    }
  }

  /** What realloc keeps of a block. */
  function Resized(space: seq<char>, n: nat): (r: seq<char>)
    ensures |r| == n && forall i :: 0 <= i < n && i < |space| ==> r[i] == space[i]
  {
    if n <= |space| then space[..n] else space + seq(n - |space|, _ => '\0')
  }

  /** What was in use, up to nxt in the top block, is where it was. */
  ghost predicate Untouched(before: seq<Block>, nxt: nat, after: seq<Block>) {
    var n := |before|;
    && 0 < n <= |after| && before[..n - 1] == after[..n - 1]
    && (nxt > 0 ==>
          && before[n - 1].id == after[n - 1].id && nxt <= |before[n - 1].space| && nxt <= |after[n - 1].space|
          && before[n - 1].space[..nxt] == after[n - 1].space[..nxt])
  }

  // ---------------------------------------------------------------- the stack

  class BlockStack {
    const unit: Unit
    var blocks: seq<Block>
    var stacknxt: nat
    var stacknleft: nat
    var sstrnleft: int
    /** Where a string that gets long goes, if not negative, and what has gone there. */
    var herefd: int
    var written: seq<char>
    var nextId: nat
    ghost var marks: seq<Saved>

    function Top(): Block
      reads this
      requires blocks != []
    {
      blocks[|blocks| - 1]
    }

    ghost predicate Valid()
      reads this
    {
      && blocks != [] && stacknxt + stacknleft <= |Top().space|
      && Aligned(stacknxt, unit) && Aligned(stacknleft, unit)
      && (forall i :: 0 <= i < |blocks| ==> blocks[i].id < nextId)
      && (forall i, j :: 0 <= i < j < |blocks| ==> blocks[i].id != blocks[j].id)
      && MarksKept(marks, blocks, stacknxt, stacknxt + stacknleft, unit)
    }

    /** The top block is used up to its end, and so is every block that a mark names, once it is gone back to. */
    ghost predicate Full()
      reads this
    {
      Valid() && stacknxt + stacknleft == |Top().space| && MarksFull(marks, blocks)
    }

    /** The free part of the top block. */
    ghost function Room(): seq<char>
      reads this
      requires blocks != [] && stacknxt + stacknleft <= |Top().space|
    {
      Top().space[stacknxt..stacknxt + stacknleft]
    }

    /** The first block is not allocated. */
    constructor (unit: Unit, herefd: int)
      ensures Full() && |blocks| == 1 && marks == [] && this.herefd == herefd && written == []
    {
      this.unit := unit;
      blocks, nextId := [Block(0, seq(MINSIZE, _ => '\0'))], 1;
      stacknxt, stacknleft, sstrnleft := 0, MINSIZE, 0;
      this.herefd, written, marks := herefd, [], [];
    }

    /** All that is in use: the lower blocks, and the top one below stacknxt. */
    ghost function InUse(): (seq<Block>, seq<char>)
      reads this
      requires Valid()
    {
      (blocks[..|blocks| - 1], Top().space[..stacknxt])
    }

    /** Takes storage from the top block, or from a new one on top of it; the new storage is the part
        of the top block from the result to stacknxt. */
    method Stalloc(nbytes: nat) returns (p: nat)
      requires Valid()
      modifies this`blocks, this`stacknxt, this`stacknleft, this`nextId
      ensures Valid() && p + Align(nbytes, unit) == stacknxt && Aligned(p, unit)
      ensures Align(nbytes, unit) <= old(stacknleft) ==>
        blocks == old(blocks) && p == old(stacknxt) && stacknxt + stacknleft == old(stacknxt + stacknleft)
      ensures Align(nbytes, unit) > old(stacknleft) ==>
        p == 0 && |blocks| == |old(blocks)| + 1 && blocks[..|old(blocks)|] == old(blocks)
        && stacknxt + stacknleft == |Top().space|
        && |Top().space| == if Align(nbytes, unit) < MINSIZE then MINSIZE else Align(nbytes, unit)
      ensures Untouched(old(blocks), old(stacknxt), blocks)
      ensures old(Full()) ==> Full()
    {
      hide MarksKept, Aligned, Align, Untouched, MarksFull;
      var n := Align(nbytes, unit);
      AlignedSum(n, n, unit);
      NotTouched(blocks, stacknxt);
      if n > stacknleft { NewBlock(if n < MINSIZE then MINSIZE else n); }
      p := stacknxt;
      AlignedSum(stacknxt, n, unit);
      AlignedSum(stacknleft, n, unit);
      MarksHigher(marks, blocks, stacknxt, stacknxt + n, stacknxt + stacknleft, unit);
      stacknxt := stacknxt + n;
      stacknleft := stacknleft - n;
    }

    /** Another block on top, all of it free. */
    method NewBlock(blocksize: nat)
      requires Valid() && Aligned(blocksize, unit)
      modifies this`blocks, this`stacknxt, this`stacknleft, this`nextId
      ensures Valid() && stacknxt == 0 && stacknleft == blocksize == |Top().space|
      ensures |blocks| == |old(blocks)| + 1 && blocks[..|old(blocks)|] == old(blocks)
      ensures Untouched(old(blocks), old(stacknxt), blocks)
      ensures old(Full()) ==> Full()
    {
      hide MarksKept, Aligned, Untouched, MarksFull;
      var b := Block(nextId, seq(blocksize, _ => '\0'));
      BlockAdded(marks, blocks, stacknxt, stacknxt + stacknleft, b, blocksize, unit);
      AddedOnTop(blocks, stacknxt, b);
      FullAdded(marks, blocks, b);
      AlignedSum(blocksize, blocksize, unit);
      blocks := blocks + [b];
      nextId := nextId + 1;
      stacknxt, stacknleft := 0, blocksize;
    }

    /** Gives back storage, down to a place in the top block. */
    method Stunalloc(p: nat)
      requires Valid() && p <= stacknxt && Aligned(p, unit)
      requires forall k :: 0 <= k < |marks| ==> AtOrBelow(marks[k], blocks, p)
      modifies this`stacknxt, this`stacknleft
      ensures Valid() && stacknxt == p && stacknxt + stacknleft == old(stacknxt + stacknleft)
      ensures old(Full()) ==> Full()
    {
      hide Kept, AtOrBelow, EndsBy, Aligned, MarksFull;
      AlignedSum(stacknxt, p, unit);
      AlignedSum(stacknleft, stacknxt - p, unit);
      stacknleft := stacknleft + stacknxt - p;
      stacknxt := p;
    }

    method SetStackMark() returns (mark: Mark)
      requires Valid()
      modifies this`marks
      ensures Valid() && mark == Mark(Top().id, stacknxt, stacknleft) && marks == old(marks) + [Saved(mark, blocks)]
      ensures old(Full()) ==> Full()
    {
      hide MarksKept, Aligned, MarksFull;
      mark := Mark(Top().id, stacknxt, stacknleft);
      MarkAdded(marks, blocks, mark, unit);
      FullMarked(marks, blocks, mark);
      marks := marks + [Saved(mark, blocks)];
    }

    /** Frees all blocks above a mark, and goes back to it: what is in use is what was in use then. */
    method PopStackMark(mark: Mark)
      requires Valid() && marks != [] && mark == marks[|marks| - 1].mark
      modifies this`blocks, this`stacknxt, this`stacknleft, this`marks
      ensures Valid() && marks == old(marks[..|marks| - 1])
      ensures stacknxt == mark.nxt && stacknleft == mark.nleft && Top().id == mark.id
      ensures var saved := old(marks[|marks| - 1]).blocks;
              |blocks| == |saved| && InUse() == (saved[..|saved| - 1], saved[|saved| - 1].space[..mark.nxt])
      ensures old(Full()) ==> Full()
    {
      hide MarksKept, Kept, AtOrBelow, EndsBy, Aligned, MarksFull;
      PoppedTo(marks, blocks, stacknxt, stacknxt + stacknleft, unit);
      FullPopped(marks, blocks, stacknxt, stacknxt + stacknleft, unit);
      ghost var n := |marks[|marks| - 1].blocks|;
      FreeAbove(mark.id, n);
      assert blocks[..n - 1] == old(blocks)[..n - 1];
      stacknxt, stacknleft := mark.nxt, mark.nleft;
      marks := marks[..|marks| - 1];
    }

    /** The loop of popstackmark; the block wanted is the n-th. */
    method FreeAbove(id: nat, ghost n: nat)
      requires 0 < n <= |blocks| && blocks[n - 1].id == id
      requires forall i, j :: 0 <= i < j < |blocks| ==> blocks[i].id != blocks[j].id
      modifies this`blocks
      ensures blocks == old(blocks)[..n]
    {
      while blocks[|blocks| - 1].id != id
        invariant n <= |blocks| <= |old(blocks)| && blocks == old(blocks)[..|blocks|]
        decreases |blocks|
      {
        blocks := blocks[..|blocks| - 1];
      }
    }

    /** Whether growing the top block may move it, though a mark names it. */
    ghost predicate MovesMark()
      reads this
    {
      stacknxt == 0 && |blocks| > 1 && exists k :: 0 <= k < |marks| && |marks[k].blocks| == |blocks|
    }

    /** Makes the free part of the top block more than twice as big, by changing the size of the block if
        all of it is free, and by copying the free part to a new block if not.  The marks stay good just
        when no mark names a block that is moved; `moves` says what realloc does. */
    method GrowStackBlock(moves: bool)
      requires Valid()
      modifies this`blocks, this`stacknxt, this`stacknleft, this`nextId
      ensures Valid() <==> !(moves && old(MovesMark()))
      ensures blocks != [] && stacknxt == 0 && |Top().space| == stacknleft >= 2 * old(stacknleft) + 100
      ensures Top().space[..old(stacknleft)] == old(Room())
      ensures old(stacknxt == 0 && |blocks| > 1) ==>
        blocks[..|blocks| - 1] == old(blocks[..|blocks| - 1]) && (moves <==> Top().id != old(Top().id))
      ensures !old(stacknxt == 0 && |blocks| > 1) ==> blocks[..|blocks| - 1] == old(blocks)
      ensures Untouched(old(blocks), old(stacknxt), blocks)
      ensures old(Full()) ==> (Full() <==> !old(MovesMark()))
    {
      var newlen := Align(stacknleft * 2 + 100, unit);
      if stacknxt == 0 && |blocks| > 1 {
        Realloc(newlen, moves);
      } else {
        MoveToNew(newlen);
      }
    }

    /** realloc: the top block with another size, at its old address or at another. */
    method Realloc(newlen: nat, moves: bool)
      requires Valid() && stacknxt == 0 && |blocks| > 1 && newlen > stacknleft && Aligned(newlen, unit)
      modifies this`blocks, this`stacknleft, this`nextId
      ensures Valid() <==> !(moves && old(MovesMark()))
      ensures |blocks| == |old(blocks)| && |Top().space| == stacknleft == newlen
      ensures Top().space[..old(stacknleft)] == old(Room()) && (moves <==> Top().id != old(Top().id))
      ensures blocks[..|blocks| - 1] == old(blocks[..|blocks| - 1])
      ensures old(Full()) ==> (Full() <==> !old(MovesMark()))
    {
      hide Kept, AtOrBelow, EndsBy, Aligned, MarksKept, MarksFull;
      ghost var before, len := blocks, stacknleft;
      var top := Top();
      var b := Block(if moves then nextId else top.id, Resized(top.space, newlen));
      AlignedSum(0, 0, unit);
      TopReplaced(marks, before, len, b, newlen, unit);
      if Full() { FullReplaced(marks, before, b); }
      blocks := blocks[..|blocks| - 1] + [b];
      nextId := nextId + 1;
      stacknleft := newlen;
    }

    /** The free part of the top block, copied to a new block. */
    method MoveToNew(newlen: nat)
      requires Valid() && newlen > stacknleft && Aligned(newlen, unit)
      modifies this`blocks, this`stacknxt, this`stacknleft, this`nextId
      ensures Valid() && stacknxt == 0 && |Top().space| == stacknleft >= newlen
      ensures Top().space[..old(stacknleft)] == old(Room())
      ensures |blocks| == |old(blocks)| + 1 && blocks[..|blocks| - 1] == old(blocks)
      ensures old(Full()) ==> Full()
    {
      hide Kept, AtOrBelow, Aligned, MarksKept, MarksFull;
      AlignSame(newlen, unit);
      ghost var before, nxt0, end0 := blocks, stacknxt, stacknxt + stacknleft;
      var oldspace := Top().space[stacknxt..stacknxt + stacknleft];
      var p := Stalloc(newlen);
      assert blocks == before + [Top()];
      Write(0, oldspace);
      AlignedSum(stacknleft, newlen, unit);
      AlignedSum(0, 0, unit);
      stacknxt := p;
      stacknleft := stacknleft + newlen;
      assert blocks == before + [Top()];
      BlockAdded(marks, before, nxt0, end0, Top(), stacknleft, unit);
      FullAdded(marks, before, Top());
    }

    /** Writes to the top block. */
    method Write(p: nat, text: seq<char>)
      requires blocks != [] && p + |text| <= |Top().space|
      modifies this`blocks
      ensures |blocks| == |old(blocks)| && blocks[..|blocks| - 1] == old(blocks[..|blocks| - 1])
        && Top().id == old(Top().id)
      ensures Top().space == old(Top().space[..p]) + text + old(Top().space[p + |text|..])
    {
      var top := Top();
      blocks := blocks[|blocks| - 1 := top.(space := top.space[..p] + text + top.space[p + |text|..])];
    }

    // ---------------------------------------------------------------- strings at the top

    /** The cursor p of a string that is being built is where the counter sstrnleft says. */
    ghost predicate Cursor(p: nat)
      reads this
    {
      Valid() && 0 <= sstrnleft <= stacknleft && p + sstrnleft == stacknxt + stacknleft
    }

    /** The string up to the cursor. */
    ghost function Text(p: nat): seq<char>
      reads this
      requires blocks != [] && stacknxt <= p <= |Top().space|
    {
      Top().space[stacknxt..p]
    }

    method StartStackStr() returns (p: nat)
      requires Valid()
      modifies this`sstrnleft
      ensures Cursor(p) && p == stacknxt && Text(p) == []
      ensures old(Full()) ==> Full()
    {
      hide MarksKept, MarksFull;
      p := stacknxt;
      sstrnleft := stacknleft;
    }

    /** A full block of this size goes to the here-document. */
    predicate Flushes()
      reads this
    {
      herefd >= 0 && stacknleft >= 1024
    }

    /** All of the string, with the part of it that has been written. */
    ghost function Output(p: nat): seq<char>
      reads this
      requires blocks != [] && stacknxt <= p <= |Top().space|
    {
      written + Text(p)
    }

    /** Makes room when the top block is full of the string: writes it, or gets a bigger block. */
    method GrowStackStr(moves: bool) returns (p: nat)
      requires Valid() && (Flushes() || !(moves && MovesMark()))
      modifies this`blocks, this`stacknxt, this`stacknleft, this`nextId, this`sstrnleft, this`written
      ensures Valid() && stacknxt <= p < stacknxt + stacknleft
      ensures sstrnleft == stacknxt + stacknleft - p - 1 && sstrnleft >= 99
      ensures if old(Flushes()) then written == old(written) + old(Room()) && Text(p) == []
              else written == old(written) && Text(p) == old(Room())
      ensures Untouched(old(blocks), old(stacknxt), blocks)
      ensures |blocks| == old(|blocks|) ==> old(stacknxt) <= stacknxt
      ensures old(Full()) ==> (Full() <==> old(Flushes() || !MovesMark()))
    {
      hide MarksKept, Align, Untouched, MarksFull;
      var len := stacknleft;
      if herefd >= 0 && len >= 1024 {
        written := written + Top().space[stacknxt..stacknxt + stacknleft];
        sstrnleft := len - 1;
        NotTouched(blocks, stacknxt);
        return stacknxt;
      }
      GrowStackBlock(moves);
      sstrnleft := stacknleft - len - 1;
      p := stacknxt + len;
    }

    /** Puts a character after the string, wherever the string then is; no other character is lost. */
    method StPutc(c: char, p0: nat, moves: bool) returns (p: nat)
      requires Cursor(p0) && (sstrnleft == 0 ==> Flushes() || !(moves && MovesMark()))
      modifies this`blocks, this`stacknxt, this`stacknleft, this`nextId, this`sstrnleft, this`written
      ensures Cursor(p) && Output(p) == old(Output(p0)) + [c]
      ensures herefd < 0 ==> written == old(written) && Text(p) == old(Text(p0)) + [c]
      ensures Untouched(old(blocks), old(stacknxt), blocks)
      ensures old(Full()) ==> (Full() <==> old(sstrnleft > 0 || Flushes() || !MovesMark()))
    {
      hide MarksKept, Untouched, MarksFull;
      sstrnleft := sstrnleft - 1;
      p := GrowIfFull(p0, moves);
      ghost var grown, ready := blocks, Text(p);
      p := PutAt(c, p);
      UntouchedTwice(old(blocks), old(stacknxt), grown, stacknxt, blocks);
      assert written + (ready + [c]) == written + ready + [c];
    }

    /** Makes room if the counter has become negative. */
    method GrowIfFull(p0: nat, moves: bool) returns (p: nat)
      requires Valid() && stacknxt <= p0 <= stacknxt + stacknleft == p0 + sstrnleft + 1
      requires sstrnleft < 0 ==> Flushes() || !(moves && MovesMark())
      modifies this`blocks, this`stacknxt, this`stacknleft, this`nextId, this`sstrnleft, this`written
      ensures Valid() && stacknxt <= p < stacknxt + stacknleft == p + sstrnleft + 1
      ensures Output(p) == old(Output(p0))
      ensures herefd < 0 ==> written == old(written) && Text(p) == old(Text(p0))
      ensures Untouched(old(blocks), old(stacknxt), blocks)
      ensures |blocks| == old(|blocks|) ==> old(stacknxt) <= stacknxt
      ensures old(Full()) ==> (Full() <==> old(sstrnleft >= 0 || Flushes() || !MovesMark()))
    {
      hide MarksKept, Untouched, MarksFull;
      p := p0;
      NotTouched(blocks, stacknxt);
      if sstrnleft < 0 {
        ghost var all := Output(p0);
        p := GrowStackStr(moves);
        assert Output(p) == all;
      }
    }

    /** *p++ = c */
    method PutAt(c: char, p0: nat) returns (p: nat)
      requires Valid() && stacknxt <= p0 < stacknxt + stacknleft
      modifies this`blocks
      ensures Valid() && p == p0 + 1 && |blocks| == old(|blocks|) && |Top().space| == old(|Top().space|)
      ensures Text(p) == old(Text(p0)) + [c]
      ensures Untouched(old(blocks), old(stacknxt), blocks)
      ensures Full() <==> old(Full())
    {
      hide Kept, AtOrBelow, EndsBy, MarksFull;
      ghost var before, text := blocks, Text(p0);
      Write(p0, [c]);
      TopWritten(marks, before, stacknxt, stacknxt + stacknleft, Top().space, unit);
      assert blocks == before[|before| - 1 := before[|before| - 1].(space := Top().space)];
      FullWritten(marks, before, blocks);
      p := p0 + 1;
      assert Top().space[stacknxt..p] == text + [c];
    }

    /** The case without room of CHECKSTRSPACE. */
    method MakeStrSpace(moves: bool) returns (p: nat)
      requires Valid() && 0 <= sstrnleft <= stacknleft && !(moves && MovesMark())
      modifies this`blocks, this`stacknxt, this`stacknleft, this`nextId, this`sstrnleft
      ensures Cursor(p) && sstrnleft >= 100
      ensures Text(p) == old(Text(stacknxt + stacknleft - sstrnleft))
      ensures Untouched(old(blocks), old(stacknxt), blocks)
      ensures old(Full()) ==> (Full() <==> !old(MovesMark()))
    {
      hide MarksKept, Align, MarksFull;
      var len := stacknleft - sstrnleft;
      ghost var free := Room();
      GrowStackBlock(moves);
      sstrnleft := stacknleft - len;
      p := stacknxt + len;
      assert Text(p) == Top().space[..old(stacknleft)][..len] == free[..len];
    }

    method CheckStrSpace(n: nat, p0: nat, moves: bool) returns (p: nat)
      requires Cursor(p0) && n <= 100 && (sstrnleft < n ==> !(moves && MovesMark()))
      modifies this`blocks, this`stacknxt, this`stacknleft, this`nextId, this`sstrnleft
      ensures Cursor(p) && sstrnleft >= n && Text(p) == old(Text(p0))
      ensures Untouched(old(blocks), old(stacknxt), blocks)
      ensures old(Full()) ==> (Full() <==> old(sstrnleft >= n || !MovesMark()))
    {
      hide MarksKept, MarksFull;
      p := p0;
      if sstrnleft < n { p := MakeStrSpace(moves); }
    }

    /** Without a check for room. */
    method UStPutc(c: char, p0: nat) returns (p: nat)
      requires Cursor(p0) && sstrnleft > 0
      modifies this`blocks, this`sstrnleft
      ensures Cursor(p) && sstrnleft == old(sstrnleft) - 1 && Text(p) == old(Text(p0)) + [c]
      ensures |blocks| == old(|blocks|)
      ensures Untouched(old(blocks), old(stacknxt), blocks)
      ensures old(Full()) ==> Full()
    {
      hide MarksKept, MarksFull;
      sstrnleft := sstrnleft - 1;
      p := PutAt(c, p0);
    }

    method StUnputc(p0: nat) returns (p: nat)
      requires Cursor(p0) && p0 > stacknxt
      modifies this`sstrnleft
      ensures Cursor(p) && Text(p) == old(Text(p0))[..|old(Text(p0))| - 1]
      ensures old(Full()) ==> Full()
    {
      hide MarksKept, MarksFull;
      sstrnleft := sstrnleft + 1;
      p := p0 - 1;
      StartOfText(Top().space, stacknxt, p0, p);
    }

    method StAdjust(amount: int, p0: nat) returns (p: nat)
      requires Cursor(p0) && stacknxt <= p0 + amount <= stacknxt + stacknleft
      modifies this`sstrnleft
      ensures Cursor(p) && p == p0 + amount
      ensures amount <= 0 ==> Text(p) == old(Text(p0))[..|old(Text(p0))| + amount]
      ensures old(Full()) ==> Full()
    {
      hide MarksKept, MarksFull;
      p := p0 + amount;
      sstrnleft := sstrnleft - amount;
      if amount <= 0 { StartOfText(Top().space, stacknxt, p0, p); }
    }

    /** Puts a NUL after the string, without moving the cursor.  If there was no room for it, the
        counter afterwards is one too small for the cursor. */
    method StackStrNul(p0: nat, moves: bool) returns (p: nat)
      requires Cursor(p0) && (sstrnleft == 0 ==> Flushes() || !(moves && MovesMark()))
      modifies this`blocks, this`stacknxt, this`stacknleft, this`nextId, this`sstrnleft, this`written
      ensures Valid() && stacknxt <= p < stacknxt + stacknleft && Output(p) == old(Output(p0)) && Top().space[p] == '\0'
      ensures herefd < 0 ==> written == old(written) && Text(p) == old(Text(p0))
      ensures sstrnleft >= 0 && p + sstrnleft == stacknxt + stacknleft - if old(sstrnleft) == 0 then 1 else 0
      ensures Cursor(p) <==> old(sstrnleft) > 0
      ensures Untouched(old(blocks), old(stacknxt), blocks)
      ensures old(Full()) ==> (Full() <==> old(sstrnleft > 0 || Flushes() || !MovesMark()))
    {
      hide MarksKept, Untouched, MarksFull;
      p := GrowIfNone(p0, moves);
      ghost var grown, ready := blocks, Text(p);
      var q := PutAt('\0', p);
      UntouchedTwice(old(blocks), old(stacknxt), grown, stacknxt, blocks);
      LastOfText(p, ready, '\0');
    }

    /** Makes room if there is none. */
    method GrowIfNone(p0: nat, moves: bool) returns (p: nat)
      requires Cursor(p0) && (sstrnleft == 0 ==> Flushes() || !(moves && MovesMark()))
      modifies this`blocks, this`stacknxt, this`stacknleft, this`nextId, this`sstrnleft, this`written
      ensures Valid() && stacknxt <= p < stacknxt + stacknleft
      ensures sstrnleft >= 0 && p + sstrnleft == stacknxt + stacknleft - if old(sstrnleft) == 0 then 1 else 0
      ensures Output(p) == old(Output(p0))
      ensures herefd < 0 ==> written == old(written) && Text(p) == old(Text(p0))
      ensures Untouched(old(blocks), old(stacknxt), blocks)
      ensures |blocks| == old(|blocks|) ==> old(stacknxt) <= stacknxt
      ensures old(Full()) ==> (Full() <==> old(sstrnleft > 0 || Flushes() || !MovesMark()))
    {
      hide MarksKept, Untouched, MarksFull;
      p := p0;
      NotTouched(blocks, stacknxt);
      if sstrnleft == 0 {
        ghost var all := Output(p0);
        p := GrowStackStr(moves);
        assert Output(p) == all;
      }
    }

    lemma LastOfText(p: nat, text: seq<char>, c: char)
      requires blocks != [] && stacknxt <= p < |Top().space| && Text(p + 1) == text + [c] && |text| == p - stacknxt
      ensures Text(p) == text && Top().space[p] == c
    {
      assert Text(p + 1)[..|text|] == text && Text(p + 1)[|text|] == c;
    }

    /** Takes the storage of the string, which stays where it is. */
    method GrabStackStr(p: nat) returns (s: nat)
      requires Cursor(p)
      modifies this`blocks, this`stacknxt, this`stacknleft, this`nextId
      ensures Valid() && blocks == old(blocks) && s == old(stacknxt) && s <= p <= stacknxt
      ensures Top().space[s..p] == old(Text(p))
      ensures old(Full()) ==> Full()
    {
      hide MarksKept, MarksFull;
      AlignFits(stacknleft - sstrnleft, stacknleft, unit);
      s := Stalloc(stacknleft - sstrnleft);
    }

    /** Goes on with a string that was grabbed last: s is its start, p its end. */
    method UngrabStackStr(s: nat, p: nat)
      requires Valid() && Aligned(s, unit) && s <= p <= stacknxt
      requires forall k :: 0 <= k < |marks| ==> AtOrBelow(marks[k], blocks, s)
      modifies this`stacknxt, this`stacknleft, this`sstrnleft
      ensures Cursor(p) && stacknxt == s && Text(p) == old(Top().space[s..p])
      ensures old(Full()) ==> Full()
    {
      hide MarksKept, Aligned, AtOrBelow, MarksFull;
      Stunalloc(s);
      sstrnleft := stacknleft - (p - s);
    }

    method GrabStackBlock(len: nat)
      requires Valid() && len <= stacknleft
      modifies this`stacknxt, this`stacknleft
      ensures Valid() && stacknxt == old(stacknxt) + Align(len, unit)
      ensures old(Full()) ==> Full()
    {
      hide MarksKept, Aligned, Align, MarksFull;
      var n := Align(len, unit);
      AlignFits(len, stacknleft, unit);
      AlignIsAligned(len, unit);
      AlignedSum(stacknxt, n, unit);
      AlignedSum(stacknleft, n, unit);
      MarksHigher(marks, blocks, stacknxt, stacknxt + n, stacknxt + stacknleft, unit);
      stacknxt := stacknxt + n;
      stacknleft := stacknleft - n;
    }
  }

  lemma StartOfText(space: seq<char>, start: nat, p: nat, q: nat)
    requires start <= q <= p <= |space|
    ensures space[start..p][..q - start] == space[start..q]
  {
  }

  lemma AlignIsAligned(n: nat, unit: Unit)
    ensures Aligned(Align(n, unit), unit)
  {
  }

  lemma NotTouched(blocks: seq<Block>, nxt: nat)
    requires blocks != [] && nxt <= |blocks[|blocks| - 1].space|
    ensures Untouched(blocks, nxt, blocks)
  {
  }

  lemma AddedOnTop(blocks: seq<Block>, nxt: nat, b: Block)
    requires blocks != [] && nxt <= |blocks[|blocks| - 1].space|
    ensures Untouched(blocks, nxt, blocks + [b])
  {
    assert (blocks + [b])[..|blocks| - 1] == blocks[..|blocks| - 1];
  }

  lemma UntouchedTwice(a: seq<Block>, n: nat, b: seq<Block>, m: nat, c: seq<Block>)
    requires Untouched(a, n, b) && Untouched(b, m, c) && (|b| == |a| ==> n <= m)
    ensures Untouched(a, n, c)
  {
    var k := |a|;
    assert b[..|b| - 1][..k - 1] == b[..k - 1] && c[..|b| - 1][..k - 1] == c[..k - 1];
    if |b| > k {
      assert b[..|b| - 1][k - 1] == c[..|b| - 1][k - 1];
    } else if n > 0 {
      assert b[k - 1].space[..m][..n] == b[k - 1].space[..n] && c[k - 1].space[..m][..n] == c[k - 1].space[..n];
    }
  }

  lemma AlignSame(n: nat, unit: Unit)
    requires Aligned(n, unit)
    ensures Align(n, unit) == n
  {
  }

  /** Once the block that a mark names has moved, the mark is no good. */
  lemma MarkLost(marks: seq<Saved>, blocks: seq<Block>, nxt: nat, end: nat, b: Block, end': nat, unit: Unit)
    requires MarksKept(marks, blocks, nxt, end, unit) && blocks != [] && b.id != blocks[|blocks| - 1].id
    requires exists k :: 0 <= k < |marks| && |marks[k].blocks| >= |blocks|
    ensures !MarksKept(marks, blocks[..|blocks| - 1] + [b], nxt, end', unit)
  {
    var k :| 0 <= k < |marks| && |marks[k].blocks| >= |blocks|;
    assert Kept(marks[k], blocks);
    assert !Kept(marks[k], blocks[..|blocks| - 1] + [b]);
  }

  /** What becomes of the marks when the top block, all of which is free, is replaced by another. */
  lemma TopReplaced(marks: seq<Saved>, blocks: seq<Block>, end: nat, b: Block, end': nat, unit: Unit)
    requires MarksKept(marks, blocks, 0, end, unit) && blocks != [] && end <= end' <= |b.space|
    ensures MarksKept(marks, blocks[..|blocks| - 1] + [b], 0, end', unit)
            <==> b.id == blocks[|blocks| - 1].id || forall k :: 0 <= k < |marks| ==> |marks[k].blocks| != |blocks|
  {
    forall k | 0 <= k < |marks|
      ensures |marks[k].blocks| <= |blocks|
    {
      assert Kept(marks[k], blocks);
    }
    if b.id == blocks[|blocks| - 1].id {
      TopGrown(marks, blocks, end, b, end', unit);
    } else if forall k :: 0 <= k < |marks| ==> |marks[k].blocks| != |blocks| {
      TopMoved(marks, blocks, 0, end, b, end', unit);
    } else {
      MarkLost(marks, blocks, 0, end, b, end', unit);
    }
  }

  lemma PoppedTo(marks: seq<Saved>, blocks: seq<Block>, nxt: nat, end: nat, unit: Unit)
    requires MarksKept(marks, blocks, nxt, end, unit) && marks != []
    ensures var s := marks[|marks| - 1];
            var n := |s.blocks|;
            && 0 < n <= |blocks| && blocks[..n - 1] == s.blocks[..n - 1] && blocks[n - 1].id == s.mark.id
            && s.mark.nxt + s.mark.nleft <= |blocks[n - 1].space|
            && blocks[n - 1].space[..s.mark.nxt] == s.blocks[n - 1].space[..s.mark.nxt]
            && Aligned(s.mark.nxt, unit) && Aligned(s.mark.nleft, unit)
            && MarksKept(marks[..|marks| - 1], blocks[..n], s.mark.nxt, s.mark.nxt + s.mark.nleft, unit)
  {
    var s := marks[|marks| - 1];
    assert Kept(s, blocks);
    forall k | 0 <= k < |marks| - 1
      ensures Kept(marks[k], blocks[..|s.blocks|]) && AtOrBelow(marks[k], blocks[..|s.blocks|], s.mark.nxt)
      ensures EndsBy(marks[k], blocks[..|s.blocks|], s.mark.nxt + s.mark.nleft)
    {
      assert Kept(marks[k], blocks) && AtOrBelow(marks[k], s.blocks, s.mark.nxt);
      assert EndsBy(marks[k], s.blocks, s.mark.nxt + s.mark.nleft);
    }
  }

  lemma MarksHigher(marks: seq<Saved>, blocks: seq<Block>, nxt: nat, nxt': nat, end: nat, unit: Unit)
    requires MarksKept(marks, blocks, nxt, end, unit) && nxt <= nxt'
    ensures MarksKept(marks, blocks, nxt', end, unit)
  {
    forall k | 0 <= k < |marks|
      ensures AtOrBelow(marks[k], blocks, nxt')
    {
      assert AtOrBelow(marks[k], blocks, nxt);
    }
  }

  // ---------------------------------------------------------------- what goes wrong

  /** A mark is set where all of the top block is free, and the block grows: the mark is lost if and only
      if realloc moves the block, and in any case the stack is no longer full. */
  method MarkThenGrow(s: BlockStack, moves: bool)
    requires s.Valid() && s.stacknxt == 0 && |s.blocks| > 1
    modifies s
    ensures s.marks == old(s.marks) + [Saved(old(Mark(s.Top().id, 0, s.stacknleft)), old(s.blocks))]
    ensures s.stacknxt == 0 && s.stacknleft >= 2 * old(s.stacknleft) + 100
    ensures s.Valid() <==> !moves
    ensures old(s.Full()) ==> !s.Full()
  {
    hide MarksKept, Aligned, Untouched, MarksFull;
    var mark := s.SetStackMark();
    assert s.MovesMark() by { assert |s.marks[|s.marks| - 1].blocks| == |s.blocks|; }
    s.GrowStackBlock(moves);
  }

  /** A string fills the top block, and a NUL is put after it: the counter is one too small for the cursor. */
  method FillAndEnd(s: BlockStack, c: char, moves: bool) returns (p: nat)
    requires s.Valid() && s.herefd < 0 && !(moves && s.MovesMark())
    modifies s
    ensures s.Valid() && s.stacknxt <= p < s.stacknxt + s.stacknleft
    ensures s.Text(p) == seq(old(s.stacknleft), _ => c) && s.Top().space[p] == '\0'
    ensures p + s.sstrnleft == s.stacknxt + s.stacknleft - 1 && !s.Cursor(p)
  {
    hide MarksKept, Aligned, Untouched, MarksFull;
    p := s.StartStackStr();
    while s.sstrnleft > 0
      invariant s.Cursor(p) && s.Text(p) == seq(old(s.stacknleft) - s.sstrnleft, _ => c)
      invariant s.stacknxt == old(s.stacknxt) && s.stacknleft == old(s.stacknleft) && s.herefd < 0
      invariant s.marks == old(s.marks) && |s.blocks| == old(|s.blocks|)
      decreases s.sstrnleft
    {
      p := s.UStPutc(c, p);
    }
    p := s.StackStrNul(p, moves);
  }
}
