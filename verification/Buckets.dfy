/** The allocator of csh (src/bin/csh/alloc.c).

    Blocks are powers of two.  They are carved from the memory that sbrk gives, which holds zeros and
    never runs out, and each size has a list of free blocks.  An address is a number.  The overhead at
    the start of a block is kept apart from the bytes behind it, to which only realloc writes here; of
    a link, the low byte comes first.
  */
module Buckets {

  const NBUCKETS := 30
  const HEADER := 8

  function Pow2(n: nat): (p: nat)
    ensures p > 0
  {
    if n == 0 then 1 else 2 * Pow2(n - 1)
  }

  /** The size of the blocks of a bucket. */
  function Size(b: nat): (s: nat)
    ensures s > 0
  {
    Pow2(b + 3)
  }

  /** The macro ALIGN. */
  function Align(a: nat): (r: nat)
    ensures r % 8 == 0 && a <= r < a + 8
  {
    (a + 7) / 8 * 8
  }

  /** The overhead of a block: the link to the next free one, or the mark of a block in use. */
  datatype Overhead = Free(next: nat) | Used(index: nat)

  const MAGIC := 0xfd

  /** The bytes of memory after n of them have been copied from src to dst. */
  function Copied(data: nat -> int, src: nat, dst: nat, n: nat): nat -> int {
    (x: nat) => data(if dst <= x < dst + n then x - dst + src else x)
  }

  /** The first byte of the overhead, by which the code tells a block in use from a free one: of a link it is
      the low byte. */
  function FirstByte(o: Overhead): int {
    match o
    case Free(next) => next % 0x100
    case Used(_) => MAGIC
  }

  /** The byte number i of the copy is that of what was copied, and a byte outside of the copy has not changed. */
  lemma CopiedBytes(data: nat -> int, src: nat, dst: nat, n: nat, i: nat, x: nat)
    ensures i < n ==> Copied(data, src, dst, n)(dst + i) == data(src + i)
    ensures x < dst || x >= dst + n ==> Copied(data, src, dst, n)(x) == data(x)
  {
  }

  /** Memory that has not been written to is zero. */
  function At(mem: map<nat, Overhead>, a: nat): Overhead {
    if a in mem then mem[a] else Free(0)
  }

  // ---------------------------------------------------------------- which bucket

  lemma {:induction false} Pow2Add(m: nat, n: nat)
    ensures Pow2(m + n) == Pow2(m) * Pow2(n)
    decreases m
  {
    if m == 0 {
      assert Pow2(0) == 1;
    } else {
      DoublePow2(m);
      DoublePow2(m + n);
      hide *;
      Pow2Add(m - 1, n);
      Twice(Pow2(m - 1), Pow2(n));
      assert m + n - 1 == m - 1 + n;
    }
  }

  lemma DoublePow2(n: nat)
    requires n > 0
    ensures Pow2(n) == 2 * Pow2(n - 1)
  {
  }

  lemma {:induction false} Pow2Grows(m: nat, n: nat)
    requires m <= n
    ensures Pow2(m) <= Pow2(n)
    decreases n
  {
    if m < n { Pow2Grows(m, n - 1); }
  }

  /** Halving the quotient doubles the divisor. */
  lemma HalfStep(s: nat, p: nat, n: nat)
    requires s * p <= n < (s + 1) * p
    ensures (s / 2) * (2 * p) <= n < (s / 2 + 1) * (2 * p)
  {
    var h := s / 2;
    Twice(h, p);
    Twice(h + 1, p);
    Sum(2 * h, 1, p);
    Sum(2 * h + 1, 1, p);
  }

  lemma Twice(h: nat, p: nat)
    ensures h * (2 * p) == 2 * (h * p) == (2 * h) * p
  {
  }

  lemma Sum(a: nat, b: nat, p: nat)
    ensures (a + b) * p == a * p + b * p
  {
  }

  /** The loop of malloc: the smallest bucket whose blocks have room for nbytes. */
  method BucketFor(nbytes: nat) returns (bucket: nat)
    requires nbytes > 0
    ensures nbytes <= Size(bucket) && (bucket > 0 ==> Size(bucket - 1) < nbytes)
  {
    var shiftr := (nbytes - 1) / 4;
    bucket := 0;
    assert shiftr * 4 <= nbytes - 1 < (shiftr + 1) * 4;
    while shiftr / 2 != 0
      invariant shiftr * Pow2(bucket + 2) <= nbytes - 1 < (shiftr + 1) * Pow2(bucket + 2)
      invariant bucket > 0 ==> shiftr > 0
      decreases shiftr
    {
      HalfStep(shiftr, Pow2(bucket + 2), nbytes - 1);
      shiftr := shiftr / 2;
      bucket := bucket + 1;
      assert Pow2(bucket + 2) == 2 * Pow2(bucket + 1);
    }
    LastStep(shiftr, Pow2(bucket + 2), nbytes - 1, bucket > 0);
    assert Pow2(bucket + 3) == 2 * Pow2(bucket + 2);
  }

  lemma LastStep(s: nat, p: nat, n: nat, more: bool)
    requires s / 2 == 0 && s * p <= n < (s + 1) * p && (more ==> s > 0)
    ensures n < 2 * p && (more ==> p <= n)
  {
    assert s == 0 || s == 1;
  }

  // ---------------------------------------------------------------- the state

  function Next(list: seq<nat>, i: nat): nat {
    if i + 1 < |list| then list[i + 1] else 0
  }

  /** The blocks of a list are linked, from the first on. */
  ghost predicate Linked(mem: map<nat, Overhead>, first: nat, list: seq<nat>) {
    && first == (if list == [] then 0 else list[0])
    && forall i :: 0 <= i < |list| ==> At(mem, list[i]) == Free(Next(list, i))
  }

  ghost predicate Distinct(list: seq<nat>) {
    forall i, j :: 0 <= i < j < |list| ==> list[i] != list[j]
  }

  /** Two blocks have no byte in common. */
  predicate Apart(a: nat, b: nat, c: nat, d: nat) {
    a + Size(b) <= c || c + Size(d) <= a
  }

  /** Every block lies in the memory that was obtained, and no two overlap. */
  ghost predicate Carved(blocks: map<nat, nat>, low: nat, high: nat) {
    && (forall a :: a in blocks ==> a % 8 == 0 && 0 < low <= a && a + Size(blocks[a]) <= high)
    && (forall a, c :: a in blocks && c in blocks && a != c ==> Apart(a, blocks[a], c, blocks[c]))
  }

  ghost predicate InBlock(blocks: map<nat, nat>, x: nat) {
    exists a :: a in blocks && a <= x < a + Size(blocks[a])
  }

  ghost predicate InChunk(chunks: seq<(nat, nat)>, x: nat) {
    exists k :: 0 <= k < |chunks| && chunks[k].0 <= x < chunks[k].1
  }

  /** The blocks cover what sbrk gave, and nothing else. */
  ghost predicate Tiled(blocks: map<nat, nat>, chunks: seq<(nat, nat)>) {
    forall x :: InChunk(chunks, x) <==> InBlock(blocks, x)
  }

  /** The blocks of a bucket that are in use. */
  ghost function LiveIn(blocks: map<nat, nat>, mem: map<nat, Overhead>, b: nat): set<nat> {
    set a | a in blocks && blocks[a] == b && At(mem, a).Used?
  }

  /** Each block is either in use, with its bucket in its header, or on the list of its bucket. */
  ghost predicate Sorted(blocks: map<nat, nat>, mem: map<nat, Overhead>, lists: seq<seq<nat>>) {
    && |lists| == NBUCKETS
    && (forall a :: a in blocks ==> blocks[a] < NBUCKETS)
    && (forall a :: a in blocks ==> if At(mem, a).Used? then At(mem, a) == Used(blocks[a]) else a in lists[blocks[a]])
    && (forall b, a :: 0 <= b < NBUCKETS && a in lists[b] ==> a in blocks && blocks[a] == b)
  }

  ghost predicate Lists(mem: map<nat, Overhead>, nextf: seq<nat>, lists: seq<seq<nat>>) {
    && |nextf| == |lists| == NBUCKETS
    && forall b :: 0 <= b < NBUCKETS ==> Linked(mem, nextf[b], lists[b]) && Distinct(lists[b])
  }

  class Allocator {
    var nextf: seq<nat>
    var nmalloc: seq<int>
    var mem: map<nat, Overhead>
    var membot: nat
    var memtop: nat
    var brk: nat
    var data: nat -> int
    ghost var blocks: map<nat, nat>
    ghost var lists: seq<seq<nat>>
    ghost var chunks: seq<(nat, nat)>

    ghost predicate Valid()
      reads this`nextf, this`nmalloc, this`mem, this`membot, this`memtop, this`brk, this`blocks, this`lists
      reads this`chunks
    {
      && Lists(mem, nextf, lists) && Sorted(blocks, mem, lists)
      && Carved(blocks, membot, brk) && Tiled(blocks, chunks)
      && brk > 0 && (forall a :: a in mem ==> a in blocks)
      && (membot == 0 ==> memtop == 0) && (memtop == 0 ==> blocks == map[])
      && membot <= brk && memtop <= brk && (memtop != 0 ==> memtop == brk)
      && |nmalloc| == NBUCKETS && forall b :: 0 <= b < NBUCKETS ==> nmalloc[b] == |LiveIn(blocks, mem, b)|
    }

    /** At the start no memory has been obtained; brk is where the system will give it. */
    constructor (brk: nat)
      requires brk > 0
      ensures Valid() && blocks == map[]
    {
      nextf, nmalloc := seq(NBUCKETS, _ => 0), seq(NBUCKETS, _ => 0);
      mem, membot, memtop, this.brk, data := map[], 0, 0, brk, _ => 0;
      blocks, lists, chunks := map[], seq(NBUCKETS, _ => []), [];
    }

    lemma IsValid()
      requires Lists(mem, nextf, lists) && Sorted(blocks, mem, lists)
      requires Carved(blocks, membot, brk) && Tiled(blocks, chunks)
      requires brk > 0 && forall a :: a in mem ==> a in blocks
      requires (membot == 0 ==> memtop == 0) && (memtop == 0 ==> blocks == map[])
      requires membot <= brk && memtop <= brk && (memtop != 0 ==> memtop == brk)
      requires |nmalloc| == NBUCKETS && forall b :: 0 <= b < NBUCKETS ==> nmalloc[b] == |LiveIn(blocks, mem, b)|
      ensures Valid()
    {
    }

    /** sbrk */
    method Sbrk(n: nat) returns (a: nat)
      modifies this`brk
      ensures a == old(brk) && brk == old(brk) + n
    {
      a := brk;
      brk := brk + n;
    }

    /** The loop of morecore, which links n blocks of the given size from op on. */
    method LinkBlocks(op0: nat, siz: nat, n: nat)
      requires siz > 0 && n > 0 && forall a :: a in mem ==> a < op0
      modifies this`mem
      ensures Linked(mem, op0, Row(op0, siz, n))
      ensures forall a :: a in mem ==> a in old(mem) || a in Row(op0, siz, n)
      ensures forall a: nat :: a < op0 ==> At(mem, a) == At(old(mem), a)
    {
      hide *;
      ghost var row := Row(op0, siz, n);
      StartOfRow(mem, op0, siz, n);
      var op, k := op0, 0;
      while k + 1 < n
        invariant 0 <= k < n && op == row[k] && InOrder(row, siz) && LinkedUpTo(mem, old(mem), row, k)
      {
        LinkOne(mem, old(mem), row, siz, k);
        mem := mem[op := Free(op + siz)];
        op := op + siz;
        k := k + 1;
      }
      EndOfRow(mem, old(mem), op0, siz, n);
    }

    /** Gets more memory for a bucket. */
    method Morecore(bucket: nat)
      requires Valid() && bucket < NBUCKETS
      modifies this`nextf, this`mem, this`membot, this`memtop, this`brk, this`blocks, this`lists, this`chunks
      ensures Valid() && nextf[bucket] != 0
      ensures forall a :: a in old(blocks) ==>
        a in blocks && blocks[a] == old(blocks)[a] && At(mem, a) == old(At(mem, a))
      ensures forall a :: a in blocks && a !in old(blocks) ==> At(mem, a).Free?
    {
      hide Lists, Sorted, Tiled, LiveIn, Pow2, Carved, Align, Size, At;
      ListsLength(mem, nextf, lists);
      if nextf[bucket] != 0 { return; }
      NothingCarved(brk);
      if membot == 0 { membot := brk; }
      RoundUp(brk);
      if brk % 1024 != 0 {
        var skipped := Sbrk(1024 - brk % 1024);
      }
      var rnu := if bucket <= 8 then 11 else bucket + 3;
      var nblks := Pow2(rnu - (bucket + 3));
      ChunkSize(rnu, bucket);
      var op := Sbrk(Pow2(rnu));
      memtop := op + Pow2(rnu);
      AddBlocks(bucket, op, nblks, old(brk));
    }

    /** Links the blocks of new memory, and makes them the free list of the bucket. */
    method AddBlocks(bucket: nat, op: nat, nblks: nat, ghost high: nat)
      requires |nextf| == |lists| == NBUCKETS && bucket < NBUCKETS && nextf[bucket] == 0 && nblks > 0 && op % 8 == 0
      requires Lists(mem, nextf, lists) && Sorted(blocks, mem, lists)
      requires Carved(blocks, membot, high) && 0 < membot <= op && high <= op
        && op + nblks * Size(bucket) == brk == memtop
      requires Tiled(blocks, chunks) && forall a :: a in mem ==> a in blocks
      requires |nmalloc| == NBUCKETS && forall b :: 0 <= b < NBUCKETS ==> nmalloc[b] == |LiveIn(blocks, mem, b)|
      modifies this`nextf, this`mem, this`blocks, this`lists, this`chunks
      ensures Valid() && nextf[bucket] != 0
      ensures forall a :: a in old(blocks) ==>
        a in blocks && blocks[a] == old(blocks)[a] && At(mem, a) == old(At(mem, a))
      ensures forall a :: a in blocks && a !in old(blocks) ==> At(mem, a).Free?
    {
      hide *;
      ghost var row := Row(op, Size(bucket), nblks);
      Below(blocks, membot, high, op);
      LinkBlocks(op, Size(bucket), nblks);
      RowFacts(op, bucket, nblks);
      LinkedAreFree(mem, op, row);
      NoneFree(old(mem), nextf, lists, blocks, bucket);
      ListsAfter(old(mem), mem, nextf, lists, blocks, bucket, op, row);
      SortedAfter(blocks, old(mem), mem, lists, bucket, op, row);
      CarvedAfter(blocks, membot, high, bucket, op, row, brk);
      TiledAfter(blocks, chunks, bucket, op, nblks, brk);
      LiveAfter(blocks, old(mem), mem, op, row, bucket);
      nextf := nextf[bucket := op];
      lists := lists[bucket := row];
      blocks := WithBlocks(blocks, row, bucket);
      chunks := chunks + [(op, brk)];
      IsValid();
    }

    /** The blocks in use. */
    ghost function Live(): set<nat>
      reads this`blocks, this`mem
    {
      LiveOf(blocks, mem)
    }

    /** Takes the first block off the list of a bucket. */
    method Take(bucket: nat) returns (p: nat)
      requires Valid() && bucket < NBUCKETS && nextf[bucket] != 0
      modifies this`nextf, this`mem, this`nmalloc, this`lists
      ensures Valid() && p in blocks && blocks[p] == bucket
      ensures p !in old(Live()) && Live() == old(Live()) + {p}
    {
      hide *;
      LiveIs();
      p := Popped(bucket);
      ghost var mem0 := mem;
      mem := mem[p := Used(bucket)];
      TakenLists(mem0, old(nextf), lists, blocks, bucket);
      TakenSorted(blocks, mem0, lists, bucket);
      TakenLive(blocks, mem0, p, bucket);
      CountUp(nmalloc, blocks, mem0, mem, p, bucket);
      nmalloc := nmalloc[bucket := nmalloc[bucket] + 1];
      lists := lists[bucket := lists[bucket][1..]];
      IsValid();
      LiveIs();
    }

    lemma LiveIs()
      ensures Live() == LiveOf(blocks, mem)
    {
    }

    /** p = nextf[bucket]; nextf[bucket] = nextf[bucket]->ov_next; */
    method Popped(bucket: nat) returns (p: nat)
      requires Valid() && bucket < NBUCKETS && nextf[bucket] != 0
      modifies this`nextf
      ensures |lists| == NBUCKETS && lists[bucket] != [] && p == lists[bucket][0]
      ensures p in blocks && blocks[p] == bucket && At(mem, p).Free?
      ensures nextf == old(nextf)[bucket := Next(lists[bucket], 0)] && Distinct(lists[bucket])
      ensures Lists(mem, old(nextf), lists) && Sorted(blocks, mem, lists)
      ensures Carved(blocks, membot, brk) && Tiled(blocks, chunks) && Live() == LiveOf(blocks, mem)
      ensures brk > 0 && (forall a :: a in mem ==> a in blocks) && (membot == 0 ==> memtop == 0)
      ensures (memtop == 0 ==> blocks == map[]) && membot <= brk && memtop <= brk && (memtop != 0 ==> memtop == brk)
      ensures |nmalloc| == NBUCKETS && forall b :: 0 <= b < NBUCKETS ==> nmalloc[b] == |LiveIn(blocks, mem, b)|
    {
      hide Carved, Tiled, LiveIn, Linked, Distinct, Size, InBlock, InChunk;
      p := nextf[bucket];
      FirstOf(mem, nextf, lists, bucket);
      assert p in lists[bucket];
      nextf := nextf[bucket := At(mem, p).next];
    }

    /** The block has room for nbytes, and no smaller one would have. */
    ghost predicate Fits(a: nat, nbytes: nat)
      reads this
    {
      && a in blocks && HEADER + nbytes <= Size(blocks[a])
      && (blocks[a] > 0 ==> Size(blocks[a] - 1) < Align(HEADER + nbytes))
    }

    method Malloc(nbytes: nat) returns (cp: nat)
      requires Valid() && Align(HEADER + nbytes) <= Size(NBUCKETS - 1)
      modifies this`nextf, this`nmalloc, this`mem, this`membot, this`memtop, this`brk
      modifies this`blocks, this`lists, this`chunks
      ensures Valid() && cp > HEADER && Fits(cp - HEADER, nbytes)
      ensures cp - HEADER !in old(Live()) && Live() == old(Live()) + {cp - HEADER}
      ensures forall a :: a in old(blocks) ==> a in blocks && blocks[a] == old(blocks)[a]
    {
      hide Valid, Size, LiveOf, Fits;
      var bucket := BucketFor(Align(HEADER + nbytes));
      BucketInRange(bucket, Align(HEADER + nbytes));
      NextfLength();
      if nextf[bucket] == 0 {
        ghost var mem0, blocks0 := mem, blocks;
        Morecore(bucket);
        SameLive(blocks0, mem0, blocks, mem);
        NextfLength();
      }
      var p := Take(bucket);
      cp := p + HEADER;
      BlockFits(p, nbytes);
    }

    lemma NextfLength()
      requires Valid()
      ensures |nextf| == NBUCKETS
    {
    }

    lemma BlockFits(p: nat, nbytes: nat)
      requires Valid() && p in blocks && Align(HEADER + nbytes) <= Size(blocks[p])
      requires blocks[p] > 0 ==> Size(blocks[p] - 1) < Align(HEADER + nbytes)
      ensures p > 0 && Fits(p, nbytes)
    {
    }

    /** Puts a block in use at the front of the list of its bucket. */
    method Give(op: nat)
      requires Valid() && op in blocks && At(mem, op).Used?
      modifies this`nextf, this`mem, this`nmalloc, this`lists
      ensures Valid() && Live() == old(Live()) - {op}
    {
      hide Carved, Tiled, LiveIn, Linked, Distinct, Size, InBlock, InChunk, Lists, At;
      ListsLength(mem, nextf, lists);
      var size := At(mem, op).index;
      assert size == blocks[op] < NBUCKETS;
      ghost var mem0 := mem;
      mem := mem[op := Free(nextf[size])];
      nextf := nextf[size := op];
      nmalloc := nmalloc[size := nmalloc[size] - 1];
      hide *;
      GivenLists(mem0, old(nextf), lists, blocks, op, size);
      GivenSorted(blocks, mem0, lists, op, size, old(nextf)[size]);
      GivenLive(blocks, mem0, op, size, old(nextf)[size]);
      lists := lists[size := [op] + lists[size]];
      CountDown(old(nmalloc), blocks, mem0, mem, op, size);
      IsValid();
    }

    /** Gives a block back; what is no block, or not in use, is left alone. */
    method FreeBlock(cp: nat)
      requires Valid() && (cp == 0 || cp < membot || cp > memtop || (cp >= HEADER && cp - HEADER in blocks))
      modifies this`nextf, this`mem, this`nmalloc, this`lists
      ensures Valid() && Live() == set a | a in old(Live()) && a + HEADER != cp
    {
      hide Valid, LiveOf;
      if cp == 0 || memtop == 0 || membot == 0 || cp > memtop || cp < membot {
        NotLive(cp);
        return;
      }
      IsBlock(cp);
      var op := cp - HEADER;
      MagicTells(op);
      if FirstByte(At(mem, op)) == MAGIC {
        Give(op);
      } else {
        NotUsed(op);
      }
    }

    /** bcopy */
    method Bcopy(src: nat, dst: nat, n: nat)
      modifies this`data
      ensures data == Copied(old(data), src, dst, n)
    {
      data := Copied(data, src, dst, n);
    }

    /** Changes the size of a block: it stays where it is if it has the right size, and is exchanged
        for a new one if not.  A block that has been given back is exchanged in any case.  The contents
        are those of the old block, as far as that goes, and no other block is written to. */
    method Realloc(cp: nat, nbytes: nat) returns (res: nat)
      requires Valid() && (cp == 0 || (cp >= HEADER && cp - HEADER in blocks))
      requires Align(HEADER + nbytes) <= Size(NBUCKETS - 1)
      modifies this
      ensures Valid() && res > HEADER && res - HEADER in Live() && HEADER + nbytes <= Size(blocks[res - HEADER])
      ensures Live() == (set a | a in old(Live()) && a + HEADER != cp) + {res - HEADER}
      ensures cp != 0 && cp - HEADER in old(Live()) ==>
        (res == cp <==> Size(old(blocks)[cp - HEADER]) / 2 <= Align(HEADER + nbytes) < Size(old(blocks)[cp - HEADER]))
      ensures data == if cp == 0 || cp == res then old(data) else Copied(old(data), cp, res, nbytes)
      ensures forall a, x: nat :: a != res - HEADER && Within(blocks, a, x) ==> data(x) == old(data)(x)
    {
      hide Valid, Size, LiveOf, Fits, Align, Within, Copied;
      if cp == 0 {
        assert (set a | a in Live() && a + HEADER != cp) == Live();
        res := Malloc(nbytes);
        FitsFor(res - HEADER, nbytes);
        return;
      }
      var op := cp - HEADER;
      MagicTells(op);
      var wasAlloced := FirstByte(At(mem, op)) == MAGIC;
      var onb := Align(HEADER + nbytes);
      IsLive(op);
      if wasAlloced && Size(At(mem, op).index) / 2 <= onb < Size(At(mem, op).index) {
        return cp;
      }
      res := Exchange(cp, nbytes, wasAlloced);
    }

    /** A new block with the contents of the old one, which is given back if it is in use. */
    method Exchange(cp: nat, nbytes: nat, wasAlloced: bool) returns (res: nat)
      requires Valid() && cp >= HEADER && cp - HEADER in blocks && (wasAlloced <==> cp - HEADER in Live())
      requires Align(HEADER + nbytes) <= Size(NBUCKETS - 1)
      modifies this
      ensures Valid() && res > HEADER && res - HEADER in Live() && HEADER + nbytes <= Size(blocks[res - HEADER])
      ensures Live() == (set a | a in old(Live()) && a + HEADER != cp) + {res - HEADER} && (wasAlloced ==> res != cp)
      ensures data == if cp == res then old(data) else Copied(old(data), cp, res, nbytes)
      ensures forall a, x: nat :: a != res - HEADER && Within(blocks, a, x) ==> data(x) == old(data)(x)
    {
      hide Valid, Size, LiveOf, Fits, Align, Within, Copied;
      assert !wasAlloced ==> (set a | a in Live() && a + HEADER != cp) == Live();
      res := Malloc(nbytes);
      FitsFor(res - HEADER, nbytes);
      if cp != res { CopyInto(cp, res, nbytes); }
      if wasAlloced {
        MayFree(cp);
        FreeBlock(cp);
      }
    }

    /** Copies to a block, which other blocks are apart from. */
    method CopyInto(cp: nat, res: nat, nbytes: nat)
      requires Valid() && res >= HEADER && res - HEADER in blocks && HEADER + nbytes <= Size(blocks[res - HEADER])
      modifies this`data
      ensures Valid() && data == Copied(old(data), cp, res, nbytes)
      ensures forall a, x: nat :: a != res - HEADER && Within(blocks, a, x) ==> data(x) == old(data)(x)
    {
      hide Valid, Size, Within;
      OthersApart(res, nbytes);
      Bcopy(cp, res, nbytes);
    }

    /** The byte that the code looks at tells the truth: the links are aligned, and MAGIC is not. */
    lemma MagicTells(op: nat)
      requires Valid() && op in blocks
      ensures FirstByte(At(mem, op)) == MAGIC <==> At(mem, op).Used?
    {
      if !At(mem, op).Used? {
        var next := LinkOf(mem, nextf, lists, blocks, op);
        LowByte(next);
      }
    }

    /** What is written to the payload of a block is in no other block. */
    lemma OthersApart(res: nat, n: nat)
      requires Valid() && res >= HEADER && res - HEADER in blocks && HEADER + n <= Size(blocks[res - HEADER])
      ensures forall a, x: nat :: a != res - HEADER && Within(blocks, a, x) ==> !(res <= x < res + n)
    {
      hide Lists, Sorted, Tiled, LiveIn, Size;
      forall a, x: nat | a != res - HEADER && Within(blocks, a, x)
        ensures !(res <= x < res + n)
      {
        assert Apart(a, blocks[a], res - HEADER, blocks[res - HEADER]);
      }
    }

    lemma FitsFor(a: nat, nbytes: nat)
      requires Fits(a, nbytes)
      ensures a in blocks && HEADER + nbytes <= Size(blocks[a])
    {
    }

    lemma MayFree(cp: nat)
      requires cp >= HEADER && cp - HEADER in blocks
      ensures cp == 0 || cp < membot || cp > memtop || (cp >= HEADER && cp - HEADER in blocks)
    {
    }

    lemma IsLive(op: nat)
      requires Valid() && op in blocks
      ensures op > 0 && (op in Live() <==> At(mem, op).Used?)
      ensures At(mem, op).Used? ==> At(mem, op).index == blocks[op]
      ensures op !in Live() ==> (set a | a in Live() && a != op) == Live()
    {
    }

    lemma NotLive(cp: nat)
      requires Valid() && (cp == 0 || memtop == 0 || membot == 0 || cp > memtop || cp < membot)
      ensures forall a :: a in Live() ==> a + HEADER != cp
    {
      hide Lists, Sorted, Tiled, LiveIn, Apart;
      forall a | a in Live()
        ensures a + HEADER != cp
      {
        assert a in blocks && a + Size(blocks[a]) <= brk;
        BigEnough(blocks[a]);
      }
    }

    lemma IsBlock(cp: nat)
      requires Valid() && membot <= cp && cp <= memtop && membot != 0 && memtop != 0 && cp != 0
      requires cp < membot || cp > memtop || (cp >= HEADER && cp - HEADER in blocks)
      ensures cp >= HEADER && cp - HEADER in blocks
    {
    }

    lemma NotUsed(op: nat)
      requires !At(mem, op).Used?
      ensures Live() - {op} == Live()
    {
    }
  }

  /** The byte x is in the block a. */
  predicate Within(blocks: map<nat, nat>, a: nat, x: nat) {
    a in blocks && a <= x < a + Size(blocks[a])
  }

  /** The link of a free block is null or a block. */
  lemma LinkOf(mem: map<nat, Overhead>, nextf: seq<nat>, lists: seq<seq<nat>>, blocks: map<nat, nat>, op: nat)
      returns (next: nat)
    requires Lists(mem, nextf, lists) && Sorted(blocks, mem, lists) && op in blocks && !At(mem, op).Used?
    ensures At(mem, op) == Free(next) && (next == 0 || next in blocks)
  {
    hide Distinct, At, Size, Linked;
    next := LinkIn(mem, nextf[blocks[op]], lists[blocks[op]], op);
  }

  lemma LinkIn(mem: map<nat, Overhead>, first: nat, list: seq<nat>, op: nat) returns (next: nat)
    requires Linked(mem, first, list) && op in list
    ensures At(mem, op) == Free(next) && (next == 0 || next in list)
  {
    hide At;
    var i :| 0 <= i < |list| && list[i] == op;
    next := Next(list, i);
  }

  lemma RoundUp(b: nat)
    ensures (b + (1024 - b % 1024)) % 8 == 0 && (b % 1024 == 0 ==> b % 8 == 0)
  {
    Multiple(b + (1024 - b % 1024), b / 1024 + 1);
    if b % 1024 == 0 { Multiple(b, b / 1024); }
  }

  lemma Multiple(b: nat, q: nat)
    requires b == 1024 * q
    ensures b % 8 == 0
  {
    assert b == 8 * (128 * q);
  }

  lemma NothingCarved(brk: nat)
    ensures Carved(map[], brk, brk)
  {
  }

  lemma LowByte(a: nat)
    requires a % 8 == 0
    ensures a % 0x100 != MAGIC
  {
    var k, q := a / 8, a / 0x100;
    assert a % 0x100 == 8 * (k - 32 * q);
  }

  lemma BigEnough(b: nat)
    ensures Size(b) >= 8
  {
    Pow2Add(b, 3);
    Pow2Grows(3, b + 3);
    assert Pow2(3) == 8;
  }

  ghost function LiveOf(blocks: map<nat, nat>, mem: map<nat, Overhead>): set<nat> {
    set a | a in blocks && At(mem, a).Used?
  }

  /** The addresses of n blocks in a row. */
  function Row(op: nat, siz: nat, n: nat): (r: seq<nat>)
    ensures |r| == n
    decreases n
  {
    if n == 0 then [] else [op] + Row(op + siz, siz, n - 1)
  }

  lemma {:induction false} RowIs(op: nat, siz: nat, n: nat)
    requires siz > 0
    ensures var r := Row(op, siz, n);
            && (n > 0 ==> r[0] == op && r[n - 1] + siz == op + n * siz)
            && (forall i :: 0 <= i < n - 1 ==> r[i + 1] == r[i] + siz)
            && (forall i :: 0 <= i < n ==> op <= r[i])
            && (forall i, j :: 0 <= i < j < n ==> r[i] + siz <= r[j])
    decreases n
  {
    if n > 0 {
      RowIs(op + siz, siz, n - 1);
      Sum(n - 1, 1, siz);
      var r, t := Row(op, siz, n), Row(op + siz, siz, n - 1);
      assert forall i :: 1 <= i < n ==> r[i] == t[i - 1];
    }
  }

  /** The blocks of a chunk fill it. */
  lemma ChunkSize(rnu: nat, bucket: nat)
    requires rnu >= bucket + 3
    ensures Pow2(rnu - (bucket + 3)) * Size(bucket) == Pow2(rnu)
  {
    Pow2Add(rnu - (bucket + 3), bucket + 3);
  }

  lemma ListsLength(mem: map<nat, Overhead>, nextf: seq<nat>, lists: seq<seq<nat>>)
    requires Lists(mem, nextf, lists)
    ensures |nextf| == |lists| == NBUCKETS
  {
  }

  ghost predicate InOrder(row: seq<nat>, siz: nat) {
    && (forall i :: 0 <= i < |row| - 1 ==> row[i + 1] == row[i] + siz)
    && (forall i, j :: 0 <= i < j < |row| ==> row[i] < row[j])
  }

  /** The first k blocks of a row have their links, and nothing else has been written. */
  ghost predicate LinkedUpTo(mem: map<nat, Overhead>, mem0: map<nat, Overhead>, row: seq<nat>, k: nat)
    requires k < |row|
  {
    && (forall i :: 0 <= i < k ==> At(mem, row[i]) == Free(row[i + 1]))
    && (forall a :: a in mem ==> a in mem0 || (a in row && a < row[k]))
    && (forall a: nat :: a < row[0] ==> At(mem, a) == At(mem0, a))
  }

  lemma StartOfRow(mem: map<nat, Overhead>, op: nat, siz: nat, n: nat)
    requires siz > 0 && n > 0
    ensures var row := Row(op, siz, n);
            |row| == n && row[0] == op && InOrder(row, siz) && LinkedUpTo(mem, mem, row, 0)
  {
    hide Row;
    RowIs(op, siz, n);
  }

  lemma LinkOne(mem: map<nat, Overhead>, mem0: map<nat, Overhead>, row: seq<nat>, siz: nat, k: nat)
    requires k + 1 < |row| && InOrder(row, siz) && LinkedUpTo(mem, mem0, row, k)
    ensures row[k + 1] == row[k] + siz && LinkedUpTo(mem[row[k] := Free(row[k] + siz)], mem0, row, k + 1)
  {
    var mem' := mem[row[k] := Free(row[k] + siz)];
    forall i | 0 <= i < k + 1
      ensures At(mem', row[i]) == Free(row[i + 1])
    {
      assert i < k ==> row[i] < row[k];
    }
    assert row[k] < row[k + 1] && (k > 0 ==> row[0] < row[k]);
  }

  /** The last block has no link. */
  lemma EndOfRow(mem: map<nat, Overhead>, mem0: map<nat, Overhead>, op: nat, siz: nat, n: nat)
    requires siz > 0 && n > 0 && |Row(op, siz, n)| == n && LinkedUpTo(mem, mem0, Row(op, siz, n), n - 1)
    requires forall a :: a in mem0 ==> a < op
    ensures Linked(mem, op, Row(op, siz, n))
    ensures forall a :: a in mem ==> a in mem0 || a in Row(op, siz, n)
    ensures forall a: nat :: a < op ==> At(mem, a) == At(mem0, a)
  {
    hide Row;
    RowIs(op, siz, n);
  }

  lemma {:induction false} RowAligned(op: nat, b: nat, n: nat)
    requires op % 8 == 0
    ensures forall a :: a in Row(op, Size(b), n) ==> a % 8 == 0
    decreases n
  {
    assert Pow2(b + 3) == 8 * Pow2(b) by { Pow2Add(3, b); assert Pow2(3) == 8; }
    if n > 0 { RowAligned(op + Size(b), b, n - 1); }
  }

  /** Every byte of the chunk is in one of its blocks. */
  lemma {:induction false} RowCovers(op: nat, siz: nat, n: nat, x: nat)
    requires siz > 0
    ensures op <= x < op + n * siz <==> Covered(Row(op, siz, n), siz, x)
    decreases n
  {
    hide Covered;
    if n == 0 {
      NoneCovers(siz, x);
    } else {
      RowCovers(op + siz, siz, n - 1, x);
      OneMoreCovers(op, Row(op + siz, siz, n - 1), siz, x);
      OneFewer(n, siz);
    }
  }

  /** The byte x is in one of the blocks of a row. */
  ghost predicate Covered(row: seq<nat>, siz: nat, x: nat) {
    exists a :: a in row && a <= x < a + siz
  }

  lemma NoneCovers(siz: nat, x: nat)
    ensures !Covered([], siz, x)
  {
  }

  lemma OneMoreCovers(op: nat, row: seq<nat>, siz: nat, x: nat)
    ensures Covered([op] + row, siz, x) <==> op <= x < op + siz || Covered(row, siz, x)
  {
    var r := [op] + row;
    assert op in r && forall a :: a in r <==> a == op || a in row;
  }

  lemma OneFewer(n: nat, siz: nat)
    requires n > 0
    ensures n * siz == siz + (n - 1) * siz && (n - 1) * siz >= 0
  {
    Sum(n - 1, 1, siz);
  }

  function WithBlocks(blocks: map<nat, nat>, row: seq<nat>, b: nat): map<nat, nat> {
    blocks + map a | a in row :: b
  }

  lemma Below(blocks: map<nat, nat>, low: nat, high: nat, op: nat)
    requires Carved(blocks, low, high) && high <= op
    ensures forall a :: a in blocks ==> 0 < a < op
  {
  }

  lemma RowFacts(op: nat, b: nat, n: nat)
    requires n > 0 && op % 8 == 0
    ensures var r := Row(op, Size(b), n);
            && r != [] && r[0] == op && Distinct(r) && (forall a :: a in r ==> op <= a && a % 8 == 0)
            && (forall a :: a in r ==> a + Size(b) <= op + n * Size(b))
            && (forall a, c :: a in r && c in r && a != c ==> Apart(a, b, c, b))
  {
    RowIs(op, Size(b), n);
    RowAligned(op, b, n);
    hide Row, Pow2;
    var r := Row(op, Size(b), n);
    forall a | a in r
      ensures op <= a && a + Size(b) <= op + n * Size(b)
    {
      var i :| 0 <= i < n && r[i] == a;
      assert i < n - 1 ==> r[i] + Size(b) <= r[n - 1];
    }
    forall a, c | a in r && c in r && a != c
      ensures Apart(a, b, c, b)
    {
      var i :| 0 <= i < n && r[i] == a;
      var j :| 0 <= j < n && r[j] == c;
    }
  }

  lemma LinkedAreFree(mem: map<nat, Overhead>, first: nat, list: seq<nat>)
    requires Linked(mem, first, list)
    ensures forall a :: a in list ==> At(mem, a).Free?
  {
  }

  lemma NoneFree(mem: map<nat, Overhead>, nextf: seq<nat>, lists: seq<seq<nat>>, blocks: map<nat, nat>, b: nat)
    requires Lists(mem, nextf, lists) && Sorted(blocks, mem, lists) && b < NBUCKETS && nextf[b] == 0
    requires forall a :: a in blocks ==> a > 0
    ensures lists[b] == []
  {
    assert forall a :: a in lists[b] ==> a > 0;
    assert Linked(mem, nextf[b], lists[b]);
  }

  lemma ListsAfter(mem: map<nat, Overhead>, mem': map<nat, Overhead>, nextf: seq<nat>, lists: seq<seq<nat>>,
                   blocks: map<nat, nat>, b: nat, op: nat, row: seq<nat>)
    requires Lists(mem, nextf, lists) && Sorted(blocks, mem, lists) && b < NBUCKETS
    requires forall a :: a in blocks ==> a < op
    requires forall a: nat :: a < op ==> At(mem', a) == At(mem, a)
    requires Linked(mem', op, row) && Distinct(row)
    ensures Lists(mem', nextf[b := op], lists[b := row])
  {
    hide Linked, Distinct;
    forall c | 0 <= c < NBUCKETS && c != b
      ensures Linked(mem', nextf[c], lists[c])
    {
      assert forall a :: a in lists[c] ==> a in blocks;
      SameLinks(mem, mem', nextf[c], lists[c]);
    }
  }

  lemma SameLinks(mem: map<nat, Overhead>, mem': map<nat, Overhead>, first: nat, list: seq<nat>)
    requires Linked(mem, first, list) && forall a :: a in list ==> At(mem', a) == At(mem, a)
    ensures Linked(mem', first, list)
  {
    assert forall i :: 0 <= i < |list| ==> list[i] in list;
  }

  lemma SortedAfter(blocks: map<nat, nat>, mem: map<nat, Overhead>, mem': map<nat, Overhead>, lists: seq<seq<nat>>,
                    b: nat, op: nat, row: seq<nat>)
    requires Sorted(blocks, mem, lists) && b < NBUCKETS && lists[b] == []
    requires forall a :: a in blocks ==> a < op
    requires forall a :: a in row ==> op <= a && At(mem', a).Free?
    requires forall a: nat :: a < op ==> At(mem', a) == At(mem, a)
    ensures Sorted(WithBlocks(blocks, row, b), mem', lists[b := row])
  {
  }

  lemma CarvedAfter(blocks: map<nat, nat>, low: nat, high: nat, b: nat, op: nat, row: seq<nat>, high': nat)
    requires Carved(blocks, low, high) && high <= op <= high' && 0 < low <= op
    requires forall a :: a in row ==> op <= a && a % 8 == 0 && a + Size(b) <= high'
    requires forall a, c :: a in row && c in row && a != c ==> Apart(a, b, c, b)
    ensures Carved(WithBlocks(blocks, row, b), low, high')
  {
    hide Pow2;
  }

  lemma TiledAfter(blocks: map<nat, nat>, chunks: seq<(nat, nat)>, b: nat, op: nat, n: nat, end: nat)
    requires Tiled(blocks, chunks) && end == op + n * Size(b) && forall a :: a in blocks ==> a < op
    ensures Tiled(WithBlocks(blocks, Row(op, Size(b), n), b), chunks + [(op, end)])
  {
    hide Row, Pow2, Size, InBlock, InChunk;
    var row := Row(op, Size(b), n);
    var more, all := WithBlocks(blocks, row, b), chunks + [(op, end)];
    RowIs(op, Size(b), n);
    assert forall a :: a in row ==> a >= op by {
      assert forall i :: 0 <= i < n ==> row[i] >= op;
    }
    forall x: nat
      ensures InChunk(all, x) <==> InBlock(more, x)
    {
      RowCovers(op, Size(b), n, x);
      OneMoreChunk(chunks, op, end, x);
      MoreBlocks(blocks, row, b, x);
    }
  }

  lemma MoreBlocks(blocks: map<nat, nat>, row: seq<nat>, b: nat, x: nat)
    requires forall a :: a in row ==> a !in blocks
    ensures InBlock(WithBlocks(blocks, row, b), x)
      <==> InBlock(blocks, x) || exists a :: a in row && a <= x < a + Size(b)
  {
    hide Size;
    var more := WithBlocks(blocks, row, b);
    if InBlock(blocks, x) {
      var a: nat :| a in blocks && a <= x < a + Size(blocks[a]);
      assert a in more && more[a] == blocks[a];
    }
    if InBlock(more, x) {
      var a: nat :| a in more && a <= x < a + Size(more[a]);
      assert a in row || (a in blocks && more[a] == blocks[a]);
    }
    if exists a :: a in row && a <= x < a + Size(b) {
      var a :| a in row && a <= x < a + Size(b);
      assert a in more && more[a] == b;
    }
  }

  lemma OneMoreChunk(chunks: seq<(nat, nat)>, low: nat, high: nat, x: nat)
    ensures InChunk(chunks + [(low, high)], x) <==> InChunk(chunks, x) || low <= x < high
  {
    var all := chunks + [(low, high)];
    assert all[|chunks|] == (low, high);
    if InChunk(chunks, x) {
      var k :| 0 <= k < |chunks| && chunks[k].0 <= x < chunks[k].1;
      assert all[k] == chunks[k];
    }
  }

  lemma LiveAfter(blocks: map<nat, nat>, mem: map<nat, Overhead>, mem': map<nat, Overhead>, op: nat, row: seq<nat>,
      b: nat)
    requires forall a :: a in blocks ==> a < op
    requires forall a :: a in row ==> op <= a && At(mem', a).Free?
    requires forall a: nat :: a < op ==> At(mem', a) == At(mem, a)
    ensures forall c :: LiveIn(WithBlocks(blocks, row, b), mem', c) == LiveIn(blocks, mem, c)
    ensures forall a :: a in WithBlocks(blocks, row, b) <==> a in blocks || a in row
    ensures forall a :: a in blocks ==> WithBlocks(blocks, row, b)[a] == blocks[a]
  {
  }

  lemma BucketInRange(b: nat, nbytes: nat)
    requires nbytes <= Size(NBUCKETS - 1) && (b > 0 ==> Size(b - 1) < nbytes)
    ensures b < NBUCKETS
  {
    if b >= NBUCKETS { Pow2Grows(NBUCKETS + 2, b + 2); }
  }

  lemma SameLive(blocks: map<nat, nat>, mem: map<nat, Overhead>, blocks': map<nat, nat>, mem': map<nat, Overhead>)
    requires forall a :: a in blocks ==> a in blocks' && At(mem', a) == At(mem, a)
    requires forall a :: a in blocks' && a !in blocks ==> At(mem', a).Free?
    ensures LiveOf(blocks', mem') == LiveOf(blocks, mem)
  {
  }

  lemma FirstOf(mem: map<nat, Overhead>, nextf: seq<nat>, lists: seq<seq<nat>>, b: nat)
    requires Lists(mem, nextf, lists) && b < NBUCKETS && nextf[b] != 0
    ensures lists[b] != [] && nextf[b] == lists[b][0] && At(mem, nextf[b]) == Free(Next(lists[b], 0))
  {
    assert Linked(mem, nextf[b], lists[b]);
  }

  lemma TakenLists(mem: map<nat, Overhead>, nextf: seq<nat>, lists: seq<seq<nat>>, blocks: map<nat, nat>, b: nat)
    requires Lists(mem, nextf, lists) && Sorted(blocks, mem, lists) && b < NBUCKETS && lists[b] != []
    ensures var p := lists[b][0];
            Lists(mem[p := Used(b)], nextf[b := Next(lists[b], 0)], lists[b := lists[b][1..]])
  {
    hide Linked, Distinct;
    var p, rest := lists[b][0], lists[b][1..];
    var mem' := mem[p := Used(b)];
    assert Linked(mem, nextf[b], lists[b]) && Distinct(lists[b]);
    RestLinked(mem, nextf[b], lists[b], b);
    forall c | 0 <= c < NBUCKETS && c != b
      ensures Linked(mem', nextf[c], lists[c])
    {
      assert p in lists[b] && blocks[p] == b;
      forall a | a in lists[c]
        ensures a != p
      {
        assert blocks[a] == c;
      }
      SameLinks(mem, mem', nextf[c], lists[c]);
    }
  }

  lemma RestLinked(mem: map<nat, Overhead>, first: nat, list: seq<nat>, b: nat)
    requires Linked(mem, first, list) && Distinct(list) && list != []
    ensures Linked(mem[list[0] := Used(b)], Next(list, 0), list[1..]) && Distinct(list[1..])
    ensures list[0] !in list[1..]
  {
    var rest := list[1..];
    assert forall i :: 0 <= i < |rest| ==> rest[i] == list[i + 1] && Next(rest, i) == Next(list, i + 1);
  }

  lemma TakenSorted(blocks: map<nat, nat>, mem: map<nat, Overhead>, lists: seq<seq<nat>>, b: nat)
    requires Sorted(blocks, mem, lists) && b < NBUCKETS && lists[b] != [] && Distinct(lists[b])
    ensures Sorted(blocks, mem[lists[b][0] := Used(b)], lists[b := lists[b][1..]])
  {
    var p, rest := lists[b][0], lists[b][1..];
    assert p in lists[b];
    assert forall a :: a in lists[b] <==> a == p || a in rest;
  }

  lemma GivenLists(mem: map<nat, Overhead>, nextf: seq<nat>, lists: seq<seq<nat>>, blocks: map<nat, nat>, op: nat,
      b: nat)
    requires Lists(mem, nextf, lists) && Sorted(blocks, mem, lists) && b < NBUCKETS
    requires op in blocks && blocks[op] == b && At(mem, op).Used?
    ensures Lists(mem[op := Free(nextf[b])], nextf[b := op], lists[b := [op] + lists[b]])
  {
    hide Linked, Distinct;
    var mem' := mem[op := Free(nextf[b])];
    forall c | 0 <= c < NBUCKETS
      ensures Linked(mem, nextf[c], lists[c]) && Distinct(lists[c]) && op !in lists[c]
    {
      assert Linked(mem, nextf[c], lists[c]);
      LinkedAreFree(mem, nextf[c], lists[c]);
    }
    FrontLinked(mem, nextf[b], lists[b], op);
    forall c | 0 <= c < NBUCKETS && c != b
      ensures Linked(mem', nextf[c], lists[c])
    {
      SameLinks(mem, mem', nextf[c], lists[c]);
    }
  }

  lemma FrontLinked(mem: map<nat, Overhead>, first: nat, list: seq<nat>, op: nat)
    requires Linked(mem, first, list) && Distinct(list) && op !in list
    ensures Linked(mem[op := Free(first)], op, [op] + list) && Distinct([op] + list)
  {
    var all := [op] + list;
    assert forall i :: 1 <= i < |all| ==> all[i] == list[i - 1] && Next(all, i) == Next(list, i - 1);
    assert forall i :: 0 <= i < |list| ==> list[i] in list;
  }

  lemma GivenSorted(blocks: map<nat, nat>, mem: map<nat, Overhead>, lists: seq<seq<nat>>, op: nat, b: nat, next: nat)
    requires Sorted(blocks, mem, lists) && b < NBUCKETS && op in blocks && blocks[op] == b
    ensures Sorted(blocks, mem[op := Free(next)], lists[b := [op] + lists[b]])
  {
    assert forall a :: a in [op] + lists[b] <==> a == op || a in lists[b];
  }

  lemma GivenLive(blocks: map<nat, nat>, mem: map<nat, Overhead>, op: nat, b: nat, next: nat)
    requires op in blocks && blocks[op] == b && At(mem, op).Used?
    ensures var mem' := mem[op := Free(next)];
            && LiveOf(blocks, mem') == LiveOf(blocks, mem) - {op} && op in LiveIn(blocks, mem, b)
            && (forall c :: LiveIn(blocks, mem', c) == LiveIn(blocks, mem, c) - if c == b then {op} else {})
  {
  }

  lemma CountDown(counts: seq<int>, blocks: map<nat, nat>, mem: map<nat, Overhead>, mem': map<nat, Overhead>,
                  op: nat, b: nat)
    requires |counts| == NBUCKETS && forall c :: 0 <= c < NBUCKETS ==> counts[c] == |LiveIn(blocks, mem, c)|
    requires b < NBUCKETS && op in LiveIn(blocks, mem, b)
    requires forall c :: LiveIn(blocks, mem', c) == LiveIn(blocks, mem, c) - if c == b then {op} else {}
    ensures forall c :: 0 <= c < NBUCKETS ==> counts[b := counts[b] - 1][c] == |LiveIn(blocks, mem', c)|
  {
    hide LiveIn;
    forall c | 0 <= c < NBUCKETS
      ensures counts[b := counts[b] - 1][c] == |LiveIn(blocks, mem', c)|
    {
      if c != b { assert LiveIn(blocks, mem', c) == LiveIn(blocks, mem, c); }
    }
  }

  lemma TakenLive(blocks: map<nat, nat>, mem: map<nat, Overhead>, p: nat, b: nat)
    requires p in blocks && blocks[p] == b && At(mem, p).Free?
    ensures var mem' := mem[p := Used(b)];
            && p !in LiveOf(blocks, mem) && LiveOf(blocks, mem') == LiveOf(blocks, mem) + {p}
            && (forall c :: LiveIn(blocks, mem', c) == LiveIn(blocks, mem, c) + if c == b then {p} else {})
            && p !in LiveIn(blocks, mem, b)
  {
  }

  lemma CountUp(counts: seq<int>, blocks: map<nat, nat>, mem: map<nat, Overhead>, mem': map<nat, Overhead>, p: nat,
      b: nat)
    requires |counts| == NBUCKETS && forall c :: 0 <= c < NBUCKETS ==> counts[c] == |LiveIn(blocks, mem, c)|
    requires b < NBUCKETS && p !in LiveIn(blocks, mem, b)
    requires forall c :: LiveIn(blocks, mem', c) == LiveIn(blocks, mem, c) + if c == b then {p} else {}
    ensures forall c :: 0 <= c < NBUCKETS ==> counts[b := counts[b] + 1][c] == |LiveIn(blocks, mem', c)|
  {
    hide LiveIn;
    forall c | 0 <= c < NBUCKETS
      ensures counts[b := counts[b] + 1][c] == |LiveIn(blocks, mem', c)|
    {
      if c != b { assert LiveIn(blocks, mem', c) == LiveIn(blocks, mem, c); }
    }
  }
}
