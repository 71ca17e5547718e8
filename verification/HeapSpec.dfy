/** The block list of the kernel heap as a value, and the laws of first-fit allocation with splitting
    and right-only coalescing (src/memory.c). */
module HeapSpec {
  import opened Bytes

  const HEADER: nat := 24          // sizeof(MemoryBlock): 8 + 4 + 4 padding + 8

  datatype Block = Block(addr: nat, size: nat, free: bool) {
    function Payload(): nat { addr + HEADER }
    function End(): nat { addr + HEADER + size }
    predicate Fits(n: nat) { free && size >= n }
    predicate Holds(a: int) { !free && Payload() <= a < End() }
  }

  type Blocks = seq<Block>

  // ---------------------------------------------------------------- tiling

  predicate Meets(bs: Blocks, i: nat)
    requires i + 1 < |bs|
  {
    bs[i].End() == bs[i + 1].addr
  }

  /** The blocks cover [lo, hi) exactly, in address order, without gap or overlap. */
  predicate Tiles(bs: Blocks, lo: nat, hi: nat) {
    && |bs| > 0 && bs[0].addr == lo && bs[|bs| - 1].End() == hi
    && forall i {:trigger Meets(bs, i)} :: 0 <= i < |bs| - 1 ==> Meets(bs, i)
  }

  lemma {:induction false} InOrder(bs: Blocks, lo: nat, hi: nat, i: nat, j: nat)
    requires Tiles(bs, lo, hi) && i < j < |bs|
    ensures bs[i].End() <= bs[j].addr
    decreases j - i
  {
    assert Meets(bs, i);
    if i + 1 < j { InOrder(bs, lo, hi, i + 1, j); }
  }

  lemma Inside(bs: Blocks, lo: nat, hi: nat, i: nat)
    requires Tiles(bs, lo, hi) && i < |bs|
    ensures lo <= bs[i].addr && bs[i].End() <= hi
  {
    if i > 0 { InOrder(bs, lo, hi, 0, i); }
    if i < |bs| - 1 { InOrder(bs, lo, hi, i, |bs| - 1); }
  }

  /** Blocks [i, j) replaced by `c`: every change the allocator makes has this form. */
  function Splice(bs: Blocks, i: nat, c: Blocks, j: nat): Blocks
    requires i <= j <= |bs|
  {
    bs[..i] + c + bs[j..]
  }

  lemma SpliceTiles(bs: Blocks, lo: nat, hi: nat, i: nat, c: Blocks, j: nat)
    requires Tiles(bs, lo, hi) && i < j <= |bs|
    requires Tiles(c, bs[i].addr, bs[j - 1].End())
    ensures Tiles(Splice(bs, i, c, j), lo, hi)
  {
    var r := Splice(bs, i, c, j);
    forall k | 0 <= k < |r| - 1 ensures Meets(r, k) {
      if k < i {
        assert Meets(bs, k);
      } else if k >= i + |c| {
        assert Meets(bs, k - |c| - i + j);
      } else if k == i + |c| - 1 {
        assert Meets(bs, j - 1);
      } else {
        assert Meets(c, k - i);
      }
    }
  }

  // ------------------------------------------------------------ operations

  /** Index of the first free block of at least `n` bytes, or |bs|. */
  function FirstFit(bs: Blocks, n: nat): (i: nat)
    ensures i <= |bs|
    ensures i < |bs| ==> bs[i].Fits(n)
    ensures forall k :: 0 <= k < i ==> !bs[k].Fits(n)
  {
    if bs == [] || bs[0].Fits(n) then 0 else 1 + FirstFit(bs[1..], n)
  }

  lemma FirstFitBeyond(bs: Blocks, n: nat, i: nat)
    requires i <= FirstFit(bs, n) && i < |bs| && !bs[i].Fits(n)
    ensures i + 1 <= FirstFit(bs, n)
  {
  }

  /** What one free block becomes when `n` bytes are taken from it. */
  function Carve(b: Block, n: nat): Blocks {
    if b.size > n + HEADER + 16
    then [Block(b.addr, n, false), Block(b.addr + HEADER + n, b.size - n - HEADER, true)]
    else [b.(free := false)]
  }

  predicate CanAlloc(bs: Blocks, n: nat) { n > 0 && FirstFit(bs, n) < |bs| }

  function Malloc(bs: Blocks, n: nat): Blocks {
    if CanAlloc(bs, n) then
      var i := FirstFit(bs, n);
      Splice(bs, i, Carve(bs[i], n), i + 1)
    else bs
  }

  function MallocPtr(bs: Blocks, n: nat): nat {
    if CanAlloc(bs, n) then bs[FirstFit(bs, n)].Payload() else 0
  }

  /** Index of the block whose payload starts at `p`, or |bs|. */
  function Find(bs: Blocks, p: nat): (i: nat)
    ensures i <= |bs|
    ensures i < |bs| ==> bs[i].Payload() == p
    ensures forall k :: 0 <= k < i ==> bs[k].Payload() != p
  {
    if bs == [] || bs[0].Payload() == p then 0 else 1 + Find(bs[1..], p)
  }

  /** The pointer handed out is 24 bytes into the first block that fits, or NULL. */
  lemma PointerBehindHeader(bs: Blocks, n: nat)
    ensures MallocPtr(bs, n) == if n > 0 && FirstFit(bs, n) < |bs| then bs[FirstFit(bs, n)].addr + 24 else 0
  {
  }

  predicate OnList(bs: Blocks, p: nat) { Find(bs, p) < |bs| }

  predicate RightFree(bs: Blocks, i: nat) { i + 1 < |bs| && bs[i + 1].free }
  predicate LeftFree(bs: Blocks, i: nat) { 0 < i <= |bs| && bs[i - 1].free }

  /** The block that `free` leaves at index i: marked free and, if it can be, merged to the right. */
  function Freed(bs: Blocks, i: nat): Block
    requires i < |bs|
  {
    if RightFree(bs, i) then Block(bs[i].addr, bs[i].size + HEADER + bs[i + 1].size, true)
    else bs[i].(free := true)
  }

  function FreedEnd(bs: Blocks, i: nat): nat { if RightFree(bs, i) then i + 2 else i + 1 }

  function Release(bs: Blocks, i: nat): Blocks
    requires i < |bs|
  {
    Splice(bs, i, [Freed(bs, i)], FreedEnd(bs, i))
  }

  /** `free`: NULL is ignored; the caller owes a payload address on the list. */
  function Free(bs: Blocks, p: nat): Blocks
    requires p == 0 || OnList(bs, p)
  {
    if p == 0 then bs else Release(bs, Find(bs, p))
  }

  lemma FindUnique(bs: Blocks, lo: nat, hi: nat, i: nat)
    requires Tiles(bs, lo, hi) && i < |bs|
    ensures Find(bs, bs[i].Payload()) == i
  {
    var j := Find(bs, bs[i].Payload());
    if j < i { InOrder(bs, lo, hi, j, i); }
  }

  // -------------------------------------------------- what every call keeps

  lemma MallocTiles(bs: Blocks, lo: nat, hi: nat, n: nat)
    requires Tiles(bs, lo, hi)
    ensures Tiles(Malloc(bs, n), lo, hi)
  {
    if CanAlloc(bs, n) {
      var i := FirstFit(bs, n);
      SpliceTiles(bs, lo, hi, i, Carve(bs[i], n), i + 1);
    }
  }

  lemma ReleaseTiles(bs: Blocks, lo: nat, hi: nat, i: nat)
    requires Tiles(bs, lo, hi) && i < |bs|
    ensures Tiles(Release(bs, i), lo, hi)
  {
    if RightFree(bs, i) { assert Meets(bs, i); }
    SpliceTiles(bs, lo, hi, i, [Freed(bs, i)], FreedEnd(bs, i));
  }

  // ------------------------------------------------------- LIFO restoration

  predicate FreePair(bs: Blocks, i: nat)
    requires i + 1 < |bs|
  {
    bs[i].free && bs[i + 1].free
  }

  /** No two adjacent free blocks. */
  predicate Coalesced(bs: Blocks) {
    forall i {:trigger FreePair(bs, i)} :: 0 <= i < |bs| - 1 ==> !FreePair(bs, i)
  }

  /** A well-bracketed run: an allocation, a run inside its lifetime, its release, a run after it. */
  datatype Bracketed = Done | Scope(n: nat, inner: Bracketed, rest: Bracketed)

  /** The block list after the run; a failed allocation hands NULL to the matching `free`. */
  function RunBracketed(bs: Blocks, run: Bracketed): Option<Blocks>
    decreases run
  {
    match run
    case Done => Some(bs)
    case Scope(n, inner, rest) =>
      var p := MallocPtr(bs, n);
      match RunBracketed(Malloc(bs, n), inner)
      case None => None
      case Some(mid) => if p == 0 || OnList(mid, p) then RunBracketed(Free(mid, p), rest) else None
  }

  lemma MallocKeepsCoalesced(bs: Blocks, n: nat)
    requires Coalesced(bs)
    ensures Coalesced(Malloc(bs, n))
  {
    if CanAlloc(bs, n) {
      var i, r := FirstFit(bs, n), Malloc(bs, n);
      var d := |Carve(bs[i], n)| - 1;
      forall k | 0 <= k < |r| - 1 ensures !FreePair(r, k) {
        if k + 1 < i { assert !FreePair(bs, k); }
        else if k == i + d { assert !FreePair(bs, i); }
        else if k > i + d { assert !FreePair(bs, k - d); }
      }
    }
  }

  /** When a bracket whose inside restores the heap is itself neutral: exactly when the block was
      split, or had no free block on its right to be merged with. */
  predicate Reversible(bs: Blocks, n: nat) {
    var i := FirstFit(bs, n);
    CanAlloc(bs, n) ==> bs[i].size > n + 40 || !RightFree(bs, i)
  }

  lemma ReleaseUndoesSplit(bs: Blocks, i: nat, n: nat)
    requires i < |bs| && bs[i].free && bs[i].size > n + HEADER + 16
    ensures Release(Splice(bs, i, Carve(bs[i], n), i + 1), i) == bs
  {
    var c := Carve(bs[i], n);
    var mid := Splice(bs, i, c, i + 1);
    assert mid[..i] == bs[..i] && mid[i] == c[0] && mid[i + 1] == c[1] && mid[i + 2..] == bs[i + 1..];
    assert Release(mid, i) == bs[..i] + [bs[i]] + bs[i + 1..];
  }

  lemma WholeTaken(bs: Blocks, i: nat, n: nat)
    requires i < |bs| && bs[i].size <= n + HEADER + 16
    ensures Splice(bs, i, Carve(bs[i], n), i + 1) == bs[i := bs[i].(free := false)]
  {
    assert Carve(bs[i], n) == [bs[i].(free := false)];
  }

  lemma ReleaseUndoesWhole(bs: Blocks, i: nat, n: nat)
    requires i < |bs| && bs[i].free && bs[i].size <= n + HEADER + 16
    ensures Release(Splice(bs, i, Carve(bs[i], n), i + 1), i) == bs <==> !RightFree(bs, i)
  {
    var mid := Splice(bs, i, Carve(bs[i], n), i + 1);
    WholeTaken(bs, i, n);
    if RightFree(bs, i) {
      assert |Release(mid, i)| < |bs|;
    } else {
      assert Release(mid, i) == bs;
    }
  }

  lemma FreeUndoesMalloc(bs: Blocks, lo: nat, hi: nat, n: nat)
    requires Tiles(bs, lo, hi)
    ensures var p := MallocPtr(bs, n);
            var mid := Malloc(bs, n);
            && (p == 0 || OnList(mid, p))
            && (Free(mid, p) == bs <==> Reversible(bs, n))
  {
    if CanAlloc(bs, n) {
      var i := FirstFit(bs, n);
      MallocTiles(bs, lo, hi, n);
      FindUnique(Malloc(bs, n), lo, hi, i);
      if bs[i].size > n + HEADER + 16 {
        ReleaseUndoesSplit(bs, i, n);
      } else {
        ReleaseUndoesWhole(bs, i, n);
      }
    }
  }

  lemma CoalescedIsReversible(bs: Blocks, n: nat)
    requires Coalesced(bs)
    ensures Reversible(bs, n)
  {
    var i := FirstFit(bs, n);
    if CanAlloc(bs, n) && i + 1 < |bs| { assert !FreePair(bs, i); }
  }

  /** What a caller that frees in stack order may rely on. */
  lemma BracketRestores(bs: Blocks, lo: nat, hi: nat, n: nat)
    requires Tiles(bs, lo, hi) && Coalesced(bs)
    ensures var p, mid := MallocPtr(bs, n), Malloc(bs, n);
            && Tiles(mid, lo, hi) && Coalesced(mid)
            && (p == 0 || OnList(mid, p)) && Free(mid, p) == bs
  {
    MallocTiles(bs, lo, hi, n);
    MallocKeepsCoalesced(bs, n);
    FreeUndoesMalloc(bs, lo, hi, n);
    CoalescedIsReversible(bs, n);
  }

  /** Every well-bracketed run from a coalesced heap gives the block list back unchanged. */
  lemma {:induction false} LifoRestores(bs: Blocks, lo: nat, hi: nat, run: Bracketed)
    requires Tiles(bs, lo, hi) && Coalesced(bs)
    ensures RunBracketed(bs, run) == Some(bs)
    decreases run
  {
    match run
    case Done =>
    case Scope(n, inner, rest) =>
      MallocTiles(bs, lo, hi, n);
      MallocKeepsCoalesced(bs, n);
      LifoRestores(Malloc(bs, n), lo, hi, inner);
      FreeUndoesMalloc(bs, lo, hi, n);
      CoalescedIsReversible(bs, n);
      LifoRestores(bs, lo, hi, rest);
  }

  // -------------------------------------------------------------- first fit

  /** A positive request gets the lowest-addressed free block that is large enough, and NULL exactly
      when there is none. */
  lemma FirstFitIsLowest(bs: Blocks, lo: nat, hi: nat, n: nat)
    requires Tiles(bs, lo, hi) && n > 0
    ensures MallocPtr(bs, n) == 0 <==> forall b :: b in bs ==> !b.Fits(n)
    ensures MallocPtr(bs, n) != 0 ==>
              && (exists b :: b in bs && b.Fits(n) && b.Payload() == MallocPtr(bs, n))
              && (forall b :: b in bs && b.Fits(n) ==> MallocPtr(bs, n) <= b.Payload())
  {
    var i := FirstFit(bs, n);
    if i < |bs| {
      assert bs[i] in bs && bs[i].Fits(n);
      forall b | b in bs && b.Fits(n) ensures bs[i].addr <= b.addr {
        var k :| 0 <= k < |bs| && bs[k] == b;
        if i < k { InOrder(bs, lo, hi, i, k); }
      }
    }
  }

  // ------------------------------------------------- fragmentation accounting

  function Bit(b: bool): nat { if b then 1 else 0 }

  /** Number of adjacent pairs of free blocks. */
  function Pairs(bs: Blocks): nat {
    if |bs| < 2 then 0 else Bit(bs[0].free && bs[1].free) + Pairs(bs[1..])
  }

  function Join(a: Blocks, b: Blocks): nat {
    Bit(a != [] && b != [] && a[|a| - 1].free && b[0].free)
  }

  lemma {:induction false} PairsOfConcat(a: Blocks, b: Blocks)
    ensures Pairs(a + b) == Pairs(a) + Join(a, b) + Pairs(b)
  {
    if a == [] {
      assert a + b == b;
    } else {
      assert (a + b)[1..] == a[1..] + b;
      PairsOfConcat(a[1..], b);
    }
  }

  /** What `c` between `left` and `right` contributes to the count. */
  function Share(left: Blocks, c: Blocks, right: Blocks): nat {
    Join(left, c) + Pairs(c) + Join(c, right)
  }

  lemma PairsOfThree(a: Blocks, c: Blocks, b: Blocks)
    requires c != []
    ensures Pairs(a + c + b) == Pairs(a) + Share(a, c, b) + Pairs(b)
  {
    PairsOfConcat(a + c, b);
    PairsOfConcat(a, c);
  }

  lemma ShareOfOne(left: Blocks, b: Block, right: Blocks)
    ensures Share(left, [b], right)
         == Bit(b.free && left != [] && left[|left| - 1].free) + Bit(b.free && right != [] && right[0].free)
  {
  }

  lemma ShareOfTwo(left: Blocks, b: Block, b': Block, right: Blocks)
    ensures Share(left, [b, b'], right)
         == Bit(b.free && left != [] && left[|left| - 1].free) + Bit(b.free && b'.free)
            + Bit(b'.free && right != [] && right[0].free)
  {
    PairsOfConcat([b], [b']);
    assert [b] + [b'] == [b, b'];
  }

  lemma {:induction false} NoPairsIffCoalesced(bs: Blocks)
    ensures Pairs(bs) == 0 <==> Coalesced(bs)
  {
    if |bs| >= 2 {
      NoPairsIffCoalesced(bs[1..]);
      assert forall i :: 0 <= i < |bs| - 2 ==> FreePair(bs[1..], i) == FreePair(bs, i + 1);
      if Coalesced(bs) {
        assert !FreePair(bs, 0);
      } else {
        var i :| 0 <= i < |bs| - 1 && FreePair(bs, i);
        if i > 0 { assert FreePair(bs[1..], i - 1); }
      }
    }
  }

  /** The count of a list, seen from one or two neighbouring blocks of it. */
  lemma ReplaceOne(bs: Blocks, i: nat)
    requires i < |bs|
    ensures Pairs(bs) == Pairs(bs[..i]) + Bit(bs[i].free && LeftFree(bs, i))
                         + Bit(bs[i].free && RightFree(bs, i)) + Pairs(bs[i + 1..])
  {
    assert bs == bs[..i] + [bs[i]] + bs[i + 1..];
    PairsOfThree(bs[..i], [bs[i]], bs[i + 1..]);
    ShareOfOne(bs[..i], bs[i], bs[i + 1..]);
  }

  /** `malloc` never adds a free pair: it loses the one on the left of the chosen block, and the one
      on its right unless the block was split. */
  lemma MallocPairs(bs: Blocks, n: nat)
    requires CanAlloc(bs, n)
    ensures var i := FirstFit(bs, n);
            Pairs(bs) == Pairs(Malloc(bs, n)) + Bit(LeftFree(bs, i))
                         + Bit(RightFree(bs, i) && bs[i].size <= n + HEADER + 16)
  {
    var i := FirstFit(bs, n);
    var c := Carve(bs[i], n);
    PairsOfThree(bs[..i], c, bs[i + 1..]);
    ReplaceOne(bs, i);
    if |c| == 1 { ShareOfOne(bs[..i], c[0], bs[i + 1..]); }
    else { ShareOfTwo(bs[..i], c[0], c[1], bs[i + 1..]); }
  }

  /** `free` of a live block adds one free pair exactly when its left neighbour is free, whatever is
      merged on the right; freeing a block that is free already removes the pair on its right. */
  lemma FreePairs(bs: Blocks, i: nat)
    requires i < |bs|
    ensures Pairs(Release(bs, i)) + Bit(bs[i].free && RightFree(bs, i))
         == Pairs(bs) + Bit(!bs[i].free && LeftFree(bs, i))
  {
    var m, j := Freed(bs, i), FreedEnd(bs, i);
    ReplaceOne(bs, i);
    if RightFree(bs, i) { ReplaceOne(bs[i + 1..], 0); }
    PairsOfThree(bs[..i], [m], bs[j..]);
    ShareOfOne(bs[..i], m, bs[j..]);
  }

  /** A release keeps a coalesced list coalesced exactly when the left neighbour is not free. */
  lemma ReleaseKeepsCoalesced(bs: Blocks, i: nat)
    requires Coalesced(bs) && i < |bs| && !bs[i].free
    ensures Coalesced(Release(bs, i)) <==> !LeftFree(bs, i)
  {
    NoPairsIffCoalesced(bs);
    NoPairsIffCoalesced(Release(bs, i));
    FreePairs(bs, i);
  }

  // ---------------------------------------------------------- arbitrary runs

  datatype Op = Allocate(n: nat) | Dispose(p: nat)

  /** The block list, and the request behind each pointer handed out and not yet freed. */
  datatype State = State(blocks: Blocks, requests: map<nat, nat>)

  function Initial(lo: nat, hi: nat): State
    requires lo + HEADER <= hi
  {
    State([Block(lo, hi - lo - HEADER, true)], map[])
  }

  /** A caller may free NULL or a pointer it still owns. */
  predicate Allowed(s: State, op: Op) {
    op.Dispose? ==> op.p == 0 || (op.p in s.requests && OnList(s.blocks, op.p))
  }

  function Step(s: State, op: Op): State
    requires Allowed(s, op)
  {
    match op
    case Allocate(n) =>
      var p := MallocPtr(s.blocks, n);
      State(Malloc(s.blocks, n), if p == 0 then s.requests else s.requests[p := n])
    case Dispose(p) => State(Free(s.blocks, p), s.requests - {p})
  }

  /** The states reached by a run, or None when a call in it frees something the caller does not own. */
  function Run(s: State, ops: seq<Op>): Option<State>
    decreases |ops|
  {
    if ops == [] then Some(s)
    else if Allowed(s, ops[0]) then Run(Step(s, ops[0]), ops[1..])
    else None
  }

  const WASTE: nat := HEADER + 16

  predicate Served(b: Block, requests: map<nat, nat>) {
    b.Payload() in requests && requests[b.Payload()] <= b.size <= requests[b.Payload()] + WASTE
  }

  predicate LiveAt(bs: Blocks, p: nat) { exists i :: 0 <= i < |bs| && !bs[i].free && bs[i].Payload() == p }

  predicate AllServed(bs: Blocks, requests: map<nat, nat>) {
    forall b :: b in bs && !b.free ==> Served(b, requests)
  }

  predicate AllLive(bs: Blocks, requests: map<nat, nat>) {
    forall p :: p in requests ==> LiveAt(bs, p)
  }

  /** The live blocks are exactly the pointers in circulation, each a little larger than asked. */
  predicate Sound(s: State, lo: nat, hi: nat) {
    && Tiles(s.blocks, lo, hi)
    && AllServed(s.blocks, s.requests)
    && AllLive(s.blocks, s.requests)
  }

  lemma SamePayloadSameIndex(bs: Blocks, lo: nat, hi: nat, i: nat, j: nat)
    requires Tiles(bs, lo, hi) && i < |bs| && j < |bs| && bs[i].Payload() == bs[j].Payload()
    ensures i == j
  {
    if i < j { InOrder(bs, lo, hi, i, j); }
    if j < i { InOrder(bs, lo, hi, j, i); }
  }

  /** Blocks other than the spliced ones stay, live or free, at their address and size. */
  lemma LiveAfterSplice(bs: Blocks, i: nat, c: Blocks, j: nat, k: nat)
    requires i <= j <= |bs| && k < |bs| && !(i <= k < j) && !bs[k].free
    ensures LiveAt(Splice(bs, i, c, j), bs[k].Payload())
  {
    var r := Splice(bs, i, c, j);
    var k' := if k < i then k else k - j + i + |c|;
    assert r[k'] == bs[k];
  }

  lemma FromSplice(bs: Blocks, i: nat, c: Blocks, j: nat, b: Block) returns (k: nat)
    requires i <= j <= |bs| && b in Splice(bs, i, c, j) && b !in c
    ensures k < |bs| && !(i <= k < j) && bs[k] == b
  {
    if b in bs[..i] {
      k :| 0 <= k < i && bs[..i][k] == b;
    } else {
      var d :| 0 <= d < |bs| - j && bs[j..][d] == b;
      k := j + d;
    }
  }

  ghost predicate SameExcept(r: map<nat, nat>, r': map<nat, nat>, p: nat) {
    forall q :: q != p ==> (q in r <==> q in r') && (q in r ==> r[q] == r'[q])
  }

  lemma SpliceServed(bs: Blocks, lo: nat, hi: nat, i: nat, c: Blocks, j: nat, r: map<nat, nat>, r': map<nat, nat>)
    requires Tiles(bs, lo, hi) && i < j <= |bs| && AllServed(bs, r) && AllServed(c, r')
    requires SameExcept(r, r', bs[i].Payload())
    ensures AllServed(Splice(bs, i, c, j), r')
  {
    forall b | b in Splice(bs, i, c, j) && !b.free ensures Served(b, r') {
      if b !in c {
        var k := FromSplice(bs, i, c, j, b);
        if b.Payload() == bs[i].Payload() { SamePayloadSameIndex(bs, lo, hi, i, k); }
        assert Served(bs[k], r);
      }
    }
  }

  lemma SpliceLive(bs: Blocks, i: nat, c: Blocks, j: nat, r: map<nat, nat>, r': map<nat, nat>)
    requires i < j <= |bs| && AllLive(bs, r) && (forall k :: i < k < j ==> bs[k].free)
    requires SameExcept(r, r', bs[i].Payload())
    requires bs[i].Payload() in r' ==> LiveAt(Splice(bs, i, c, j), bs[i].Payload())
    ensures AllLive(Splice(bs, i, c, j), r')
  {
    forall q | q in r' && q != bs[i].Payload() ensures LiveAt(Splice(bs, i, c, j), q) {
      assert LiveAt(bs, q);
      var k :| 0 <= k < |bs| && !bs[k].free && bs[k].Payload() == q;
      LiveAfterSplice(bs, i, c, j, k);
    }
  }

  lemma AllocateServed(bs: Blocks, lo: nat, hi: nat, n: nat, r: map<nat, nat>)
    requires Tiles(bs, lo, hi) && AllServed(bs, r) && CanAlloc(bs, n)
    ensures AllServed(Malloc(bs, n), r[MallocPtr(bs, n) := n])
  {
    var i := FirstFit(bs, n);
    SpliceServed(bs, lo, hi, i, Carve(bs[i], n), i + 1, r, r[bs[i].Payload() := n]);
  }

  lemma AllocateLive(bs: Blocks, n: nat, r: map<nat, nat>)
    requires AllLive(bs, r) && CanAlloc(bs, n)
    ensures AllLive(Malloc(bs, n), r[MallocPtr(bs, n) := n])
  {
    var i := FirstFit(bs, n);
    var c := Carve(bs[i], n);
    assert Splice(bs, i, c, i + 1)[i] == c[0];
    SpliceLive(bs, i, c, i + 1, r, r[bs[i].Payload() := n]);
  }

  lemma AllocateSound(s: State, lo: nat, hi: nat, n: nat)
    requires Sound(s, lo, hi) && CanAlloc(s.blocks, n)
    ensures Sound(Step(s, Allocate(n)), lo, hi)
  {
    MallocTiles(s.blocks, lo, hi, n);
    AllocateServed(s.blocks, lo, hi, n, s.requests);
    AllocateLive(s.blocks, n, s.requests);
  }

  lemma ReleaseSound(bs: Blocks, lo: nat, hi: nat, i: nat, r: map<nat, nat>)
    requires Tiles(bs, lo, hi) && i < |bs| && AllServed(bs, r) && AllLive(bs, r)
    ensures AllServed(Release(bs, i), r - {bs[i].Payload()})
    ensures AllLive(Release(bs, i), r - {bs[i].Payload()})
  {
    var c, j, r' := [Freed(bs, i)], FreedEnd(bs, i), r - {bs[i].Payload()};
    assert AllServed(c, r');
    assert SameExcept(r, r', bs[i].Payload());
    SpliceServed(bs, lo, hi, i, c, j, r, r');
    SpliceLive(bs, i, c, j, r, r');
  }

  lemma DisposeSound(s: State, lo: nat, hi: nat, p: nat)
    requires Sound(s, lo, hi) && p != 0 && Allowed(s, Dispose(p))
    ensures Sound(Step(s, Dispose(p)), lo, hi)
  {
    var i := Find(s.blocks, p);
    ReleaseTiles(s.blocks, lo, hi, i);
    ReleaseSound(s.blocks, lo, hi, i, s.requests);
  }

  lemma StepSound(s: State, lo: nat, hi: nat, op: Op)
    requires Sound(s, lo, hi) && Allowed(s, op)
    ensures Sound(Step(s, op), lo, hi)
  {
    match op
    case Allocate(n) => if CanAlloc(s.blocks, n) { AllocateSound(s, lo, hi, n); }
    case Dispose(p) =>
      if p != 0 {
        DisposeSound(s, lo, hi, p);
      } else {
        assert !LiveAt(s.blocks, 0);
        assert s.requests - {0} == s.requests;
      }
  }

  /** Over every run of allocations and releases of owned pointers the list tiles the heap exactly, the
      live blocks are the pointers in circulation, and no block wastes more than WASTE bytes. */
  lemma {:induction false} RunIsSound(s: State, lo: nat, hi: nat, ops: seq<Op>)
    requires Sound(s, lo, hi)
    ensures Run(s, ops).Some? ==> Sound(Run(s, ops).value, lo, hi)
    decreases |ops|
  {
    if ops != [] && Allowed(s, ops[0]) {
      StepSound(s, lo, hi, ops[0]);
      RunIsSound(Step(s, ops[0]), lo, hi, ops[1..]);
    }
  }

  /** From boot, whatever is allocated and released: distinct blocks share no byte, live payloads stay
      inside the heap, and each is between the request and the request plus WASTE. */
  lemma RunSeparates(lo: nat, hi: nat, ops: seq<Op>, i: nat, j: nat)
    requires lo + HEADER <= hi && Run(Initial(lo, hi), ops).Some?
    requires i < |Run(Initial(lo, hi), ops).value.blocks| && j < |Run(Initial(lo, hi), ops).value.blocks|
    ensures var s := Run(Initial(lo, hi), ops).value;
            var x, y := s.blocks[i], s.blocks[j];
            && lo <= x.addr && x.End() <= hi
            && (i != j ==> x.End() <= y.addr || y.End() <= x.addr)
            && (!x.free ==> var p := x.addr + 24; p in s.requests && s.requests[p] <= x.size <= s.requests[p] + 40)
  {
    RunIsSound(Initial(lo, hi), lo, hi, ops);
    var s := Run(Initial(lo, hi), ops).value;
    Inside(s.blocks, lo, hi, i);
    if i < j { InOrder(s.blocks, lo, hi, i, j); }
    if j < i { InOrder(s.blocks, lo, hi, j, i); }
    assert s.blocks[i] in s.blocks;
  }

  lemma MallocKeepsLive(bs: Blocks, n: nat, p: nat)
    requires LiveAt(bs, p)
    ensures LiveAt(Malloc(bs, n), p)
  {
    if CanAlloc(bs, n) {
      var i :| 0 <= i < |bs| && !bs[i].free && bs[i].Payload() == p;
      LiveAfterSplice(bs, FirstFit(bs, n), Carve(bs[FirstFit(bs, n)], n), FirstFit(bs, n) + 1, i);
    }
  }

  lemma FreeKeepsLive(bs: Blocks, q: nat, p: nat)
    requires LiveAt(bs, p) && OnList(bs, q) && p != q
    ensures LiveAt(Release(bs, Find(bs, q)), p)
  {
    var j := Find(bs, q);
    var i :| 0 <= i < |bs| && !bs[i].free && bs[i].Payload() == p;
    LiveAfterSplice(bs, j, [Freed(bs, j)], FreedEnd(bs, j), i);
  }

  lemma GrantIsNew(bs: Blocks, lo: nat, hi: nat, n: nat)
    requires Tiles(bs, lo, hi) && CanAlloc(bs, n)
    ensures !LiveAt(bs, MallocPtr(bs, n)) && LiveAt(Malloc(bs, n), MallocPtr(bs, n))
  {
    var f := FirstFit(bs, n);
    if LiveAt(bs, MallocPtr(bs, n)) {
      var i :| 0 <= i < |bs| && !bs[i].free && bs[i].Payload() == MallocPtr(bs, n);
      SamePayloadSameIndex(bs, lo, hi, i, f);
    }
    assert Malloc(bs, n)[f] == Carve(bs[f], n)[0];
  }

  // ----------------------------------------- brackets on lists of any shape

  /** Live blocks stay, and a coalesced list is the one before. */
  ghost predicate Kept(bs: Blocks, bs': Blocks) {
    (Coalesced(bs) ==> bs' == bs) && forall b :: b in bs && !b.free ==> b in bs'
  }

  /** Moreover what could be granted still can, and a list with no room for `least` bytes is the one before. */
  ghost predicate Settled(bs: Blocks, bs': Blocks, least: nat) {
    && Kept(bs, bs') && (!CanAlloc(bs, least) ==> bs' == bs)
    && forall k :: CanAlloc(bs, k) ==> CanAlloc(bs', k)
  }

  /** What a request of n bytes given back at once makes of a list. */
  ghost predicate Returned(bs: Blocks, bs': Blocks, n: nat, least: nat) {
    Settled(bs, bs', least) && (bs' == bs <==> Reversible(bs, n))
  }

  lemma SettledOn(bs: Blocks, bs1: Blocks, bs2: Blocks, least: nat)
    requires Settled(bs, bs1, least) && Settled(bs1, bs2, least)
    ensures Settled(bs, bs2, least)
  {
  }

  lemma FitsSomewhere(bs: Blocks, k: nat, j: nat)
    requires k > 0 && j < |bs| && bs[j].Fits(k)
    ensures CanAlloc(bs, k)
  {
  }

  /** Block i merged with its right neighbour. */
  function Merged(bs: Blocks, i: nat): Blocks
    requires i < |bs| && RightFree(bs, i)
  {
    Splice(bs, i, [Freed(bs, i)], i + 2)
  }

  lemma ReleaseMerges(bs: Blocks, i: nat)
    requires i < |bs| && RightFree(bs, i)
    ensures Release(bs[i := bs[i].(free := false)], i) == Merged(bs, i)
  {
    var mid := bs[i := bs[i].(free := false)];
    assert mid[..i] == bs[..i] && mid[i + 2..] == bs[i + 2..] && Freed(mid, i) == Freed(bs, i);
  }

  /** What a whole free block, taken and given back, leaves. */
  lemma MergedList(bs: Blocks, lo: nat, hi: nat, n: nat)
    requires Tiles(bs, lo, hi) && CanAlloc(bs, n) && !Reversible(bs, n)
    ensures var i, p := FirstFit(bs, n), MallocPtr(bs, n);
            OnList(Malloc(bs, n), p) && RightFree(bs, i) && Free(Malloc(bs, n), p) == Merged(bs, i)
  {
    var i := FirstFit(bs, n);
    var mid := bs[i := bs[i].(free := false)];
    MallocTiles(bs, lo, hi, n);
    WholeTaken(bs, i, n);
    assert Malloc(bs, n) == mid;
    FindUnique(mid, lo, hi, i);
    ReleaseMerges(bs, i);
    assert Free(mid, mid[i].Payload()) == Release(mid, i);
  }

  lemma MergeServes(bs: Blocks, i: nat, k: nat)
    requires i < |bs| && RightFree(bs, i) && CanAlloc(bs, k)
    ensures CanAlloc(Merged(bs, i), k)
  {
    var x := FirstFit(bs, k);
    FitsSomewhere(Merged(bs, i), k, if x < i then x else if x <= i + 1 then i else x - 1);
  }

  lemma MergeKeepsLive(bs: Blocks, i: nat, b: Block)
    requires i < |bs| && bs[i].free && RightFree(bs, i) && b in bs && !b.free
    ensures b in Merged(bs, i)
  {
    var k :| 0 <= k < |bs| && bs[k] == b;
    assert Merged(bs, i)[if k < i then k else k - 1] == b;
  }

  lemma MergeSettles(bs: Blocks, i: nat, least: nat)
    requires i < |bs| && bs[i].free && RightFree(bs, i) && CanAlloc(bs, least)
    ensures Settled(bs, Merged(bs, i), least) && |Merged(bs, i)| < |bs|
  {
    assert FreePair(bs, i);
    forall k | CanAlloc(bs, k) ensures CanAlloc(Merged(bs, i), k) { MergeServes(bs, i, k); }
    forall b | b in bs && !b.free ensures b in Merged(bs, i) { MergeKeepsLive(bs, i, b); }
  }

  /** A request given back at once, on any list: what becomes of the list. */
  lemma GivenBack(bs: Blocks, lo: nat, hi: nat, n: nat, least: nat)
    requires Tiles(bs, lo, hi) && (n == 0 || n >= least > 0)
    ensures var p, mid := MallocPtr(bs, n), Malloc(bs, n);
            && Tiles(mid, lo, hi) && (p == 0 || OnList(mid, p))
            && Returned(bs, Free(mid, p), n, least)
  {
    MallocTiles(bs, lo, hi, n);
    FreeUndoesMalloc(bs, lo, hi, n);
    if !Reversible(bs, n) {
      var i := FirstFit(bs, n);
      MergedList(bs, lo, hi, n);
      FitsSomewhere(bs, least, i);
      MergeSettles(bs, i, least);
    }
  }

  lemma StaysInSplice(bs: Blocks, i: nat, c: Blocks, j: nat, k: nat)
    requires i <= j <= |bs| && k < |bs| && !(i <= k < j)
    ensures bs[k] in Splice(bs, i, c, j)
  {
    var k' := if k < i then k else k - j + i + |c|;
    assert Splice(bs, i, c, j)[k'] == bs[k];
  }

  lemma OthersStay(bs: Blocks, lo: nat, hi: nat, n: nat, b: Block)
    requires Tiles(bs, lo, hi) && b in bs && !b.free
    ensures b in Malloc(bs, n) && b.Payload() != MallocPtr(bs, n)
  {
    var k :| 0 <= k < |bs| && bs[k] == b;
    if CanAlloc(bs, n) {
      var f := FirstFit(bs, n);
      if b.Payload() == bs[f].Payload() { SamePayloadSameIndex(bs, lo, hi, k, f); }
      StaysInSplice(bs, f, Carve(bs[f], n), f + 1, k);
    }
  }

  lemma ReleasedAmongOthers(bs: Blocks, p: nat, b: Block)
    requires OnList(bs, p) && b in bs && !b.free && b.Payload() != p
    ensures b in Release(bs, Find(bs, p))
  {
    var k :| 0 <= k < |bs| && bs[k] == b;
    var i := Find(bs, p);
    StaysInSplice(bs, i, [Freed(bs, i)], FreedEnd(bs, i), k);
  }

  /** The block a request is granted. */
  function Grant(bs: Blocks, n: nat): Block
    requires CanAlloc(bs, n)
  {
    Carve(bs[FirstFit(bs, n)], n)[0]
  }

  lemma GrantOnList(bs: Blocks, n: nat)
    requires CanAlloc(bs, n)
    ensures Grant(bs, n) in Malloc(bs, n) && !Grant(bs, n).free && Grant(bs, n).Payload() == MallocPtr(bs, n)
  {
    assert Malloc(bs, n)[FirstFit(bs, n)] == Grant(bs, n);
  }

  lemma ListedBlock(bs: Blocks, b: Block)
    requires b in bs
    ensures OnList(bs, b.Payload())
  {
    var k :| 0 <= k < |bs| && bs[k] == b;
  }

  /** A buffer held while the rest of the list was kept, and then given back. */
  lemma HeldAndFreed(bs: Blocks, lo: nat, hi: nat, n: nat, mid: Blocks)
    requires Tiles(bs, lo, hi) && Kept(Malloc(bs, n), mid)
    ensures var p := MallocPtr(bs, n); (p == 0 || OnList(mid, p)) && Kept(bs, Free(mid, p))
  {
    var p := MallocPtr(bs, n);
    if CanAlloc(bs, n) {
      GrantOnList(bs, n);
      ListedBlock(mid, Grant(bs, n));
    }
    if Coalesced(bs) { BracketRestores(bs, lo, hi, n); }
    forall b | b in bs && !b.free ensures b in Free(mid, p) {
      OthersStay(bs, lo, hi, n, b);
      if p != 0 { ReleasedAmongOthers(mid, p, b); }
    }
  }

  // ------------------------------------------- coalescing is what LIFO takes

  /** A bracketed run frees only what it allocated. */
  lemma {:induction false} BracketsKeepLive(bs: Blocks, lo: nat, hi: nat, run: Bracketed, p: nat)
    requires Tiles(bs, lo, hi) && LiveAt(bs, p) && RunBracketed(bs, run).Some?
    ensures Tiles(RunBracketed(bs, run).value, lo, hi) && LiveAt(RunBracketed(bs, run).value, p)
    decreases run
  {
    match run
    case Done =>
    case Scope(n, inner, rest) =>
      var q, m := MallocPtr(bs, n), Malloc(bs, n);
      MallocTiles(bs, lo, hi, n);
      MallocKeepsLive(bs, n, p);
      BracketsKeepLive(m, lo, hi, inner, p);
      var mid := RunBracketed(m, inner).value;
      if q != 0 {
        GrantIsNew(bs, lo, hi, n);
        ReleaseTiles(mid, lo, hi, Find(mid, q));
        FreeKeepsLive(mid, q, p);
      }
      BracketsKeepLive(Free(mid, q), lo, hi, rest, p);
  }

  predicate NoEmptyFree(bs: Blocks) { forall b :: b in bs && b.free ==> b.size > 0 }

  lemma FirstFitIs(bs: Blocks, n: nat, i: nat)
    requires i < |bs| && bs[i].Fits(n) && forall k :: 0 <= k < i ==> !bs[k].Fits(n)
    ensures FirstFit(bs, n) == i
  {
  }

  /** The first free block, asked for in full, is taken whole. */
  lemma TakeFirst(bs: Blocks, f: nat)
    requires f == FirstFit(bs, 0) && f < |bs| && bs[f].size > 0
    ensures CanAlloc(bs, bs[f].size) && MallocPtr(bs, bs[f].size) == bs[f].Payload()
    ensures Malloc(bs, bs[f].size) == bs[f := bs[f].(free := false)]
  {
    var n := bs[f].size;
    FirstFitIs(bs, n, f);
    WholeTaken(bs, f, n);
  }

  /** On its own, its bracket merges it with a free right neighbour. */
  lemma MergedAway(bs: Blocks, lo: nat, hi: nat, f: nat)
    requires Tiles(bs, lo, hi) && f == FirstFit(bs, 0) && f + 1 < |bs| && FreePair(bs, f) && bs[f].size > 0
    ensures var r := RunBracketed(bs, Scope(bs[f].size, Done, Done)); r.Some? && |r.value| < |bs|
  {
    var mid := bs[f := bs[f].(free := false)];
    TakeFirst(bs, f);
    MallocTiles(bs, lo, hi, bs[f].size);
    FindUnique(mid, lo, hi, f);
    assert Release(mid, f) == bs[..f] + [Freed(mid, f)] + bs[f + 2..];
  }

  lemma ReleaseShortens(bs: Blocks, i: nat)
    requires i < |bs|
    ensures |Release(bs, i)| <= |bs|
  {
  }

  lemma LiveIsOnList(bs: Blocks, p: nat)
    requires LiveAt(bs, p)
    ensures OnList(bs, p)
  {
  }

  /** A bracket around a run that leaves fewer blocks leaves fewer blocks. */
  lemma ScopeShortens(bs: Blocks, lo: nat, hi: nat, n: nat, inner: Bracketed)
    requires Tiles(bs, lo, hi) && CanAlloc(bs, n) && RunBracketed(Malloc(bs, n), inner).Some?
    requires |RunBracketed(Malloc(bs, n), inner).value| < |bs|
    ensures var r := RunBracketed(bs, Scope(n, inner, Done)); r.Some? && |r.value| < |bs|
  {
    var p, mid := MallocPtr(bs, n), RunBracketed(Malloc(bs, n), inner).value;
    MallocTiles(bs, lo, hi, n);
    GrantIsNew(bs, lo, hi, n);
    BracketsKeepLive(Malloc(bs, n), lo, hi, inner, p);
    LiveIsOnList(mid, p);
    ReleaseShortens(mid, Find(mid, p));
  }

  lemma LaterFree(bs: Blocks, f: nat, i: nat)
    requires f == FirstFit(bs, 0) && f < i && i + 1 < |bs| && FreePair(bs, i) && NoEmptyFree(bs)
    ensures var next := bs[f := bs[f].(free := false)];
            f < FirstFit(next, 0) <= |next| && FreePair(next, i) && NoEmptyFree(next)
  {
    var next := bs[f := bs[f].(free := false)];
    assert !next[f].Fits(0);
    forall b | b in next && b.free ensures b.size > 0 {
      var k :| 0 <= k < |next| && next[k] == b;
      assert bs[k] in bs;
    }
  }

  /** From a list with two adjacent free blocks some bracketed run leaves fewer blocks: it holds every free block
      before the pair while it takes and returns the pair's first. */
  lemma {:induction false} SomeRunMerges(bs: Blocks, lo: nat, hi: nat, i: nat) returns (run: Bracketed)
    requires Tiles(bs, lo, hi) && NoEmptyFree(bs) && i + 1 < |bs| && FreePair(bs, i)
    ensures RunBracketed(bs, run).Some? && |RunBracketed(bs, run).value| < |bs|
    decreases |bs| - FirstFit(bs, 0)
  {
    var f := FirstFit(bs, 0);
    assert bs[i].Fits(0) && bs[f] in bs;
    if f == i {
      run := Scope(bs[f].size, Done, Done);
      MergedAway(bs, lo, hi, f);
    } else {
      var next := bs[f := bs[f].(free := false)];
      TakeFirst(bs, f);
      MallocTiles(bs, lo, hi, bs[f].size);
      LaterFree(bs, f, i);
      var inner := SomeRunMerges(next, lo, hi, i);
      run := Scope(bs[f].size, inner, Done);
      ScopeShortens(bs, lo, hi, bs[f].size, inner);
    }
  }

  /** Among lists whose free blocks are not empty, the coalesced ones are exactly those that every bracketed run
      restores. */
  lemma LifoRestoresExactly(bs: Blocks, lo: nat, hi: nat)
    requires Tiles(bs, lo, hi) && NoEmptyFree(bs)
    ensures (forall run :: RunBracketed(bs, run) == Some(bs)) <==> Coalesced(bs)
  {
    if Coalesced(bs) {
      forall run ensures RunBracketed(bs, run) == Some(bs) { LifoRestores(bs, lo, hi, run); }
    } else {
      var i :| 0 <= i < |bs| - 1 && FreePair(bs, i);
      var run := SomeRunMerges(bs, lo, hi, i);
    }
  }

  /** The list after three requests of which only the first two are given back, last one first. */
  function TwoOfThree(bs: Blocks, a: nat, b: nat, n: nat): Option<Blocks> {
    var p, m1 := MallocPtr(bs, a), Malloc(bs, a);
    var q, m2 := MallocPtr(m1, b), Malloc(m1, b);
    var full := Malloc(m2, n);
    if OnList(full, q) && OnList(Free(full, q), p) then Some(Free(Free(full, q), p)) else None
  }

  lemma ThirdStays(bs: Blocks, lo: nat, hi: nat, a: nat, b: nat, n: nat)
    requires Tiles(bs, lo, hi) && CanAlloc(bs, a) && CanAlloc(Malloc(bs, a), b) && CanAlloc(Malloc(Malloc(bs, a), b), n)
    ensures var r, image := TwoOfThree(bs, a, b, n), MallocPtr(Malloc(Malloc(bs, a), b), n);
            r.Some? && LiveAt(r.value, image) && !LiveAt(bs, image)
  {
    var m1, m2 := Malloc(bs, a), Malloc(Malloc(bs, a), b);
    var m3, p, q, image := Malloc(m2, n), MallocPtr(bs, a), MallocPtr(m1, b), MallocPtr(m2, n);
    MallocTiles(bs, lo, hi, a);
    MallocTiles(m1, lo, hi, b);
    GrantIsNew(bs, lo, hi, a);
    GrantIsNew(m1, lo, hi, b);
    GrantIsNew(m2, lo, hi, n);
    MallocKeepsLive(m1, b, p);
    MallocKeepsLive(m2, n, p);
    MallocKeepsLive(m2, n, q);
    if LiveAt(bs, image) { MallocKeepsLive(bs, a, image); MallocKeepsLive(m1, b, image); }
    FreeKeepsLive(m3, q, p);
    FreeKeepsLive(m3, q, image);
    FreeKeepsLive(Free(m3, q), p, image);
  }

  /** As `run` does for a PE file: two buffers are given back and the image is not, so on a coalesced heap the
      list is the one before exactly when the image was not granted. */
  lemma ThirdAllocationLeaks(bs: Blocks, lo: nat, hi: nat, a: nat, b: nat, n: nat)
    requires Tiles(bs, lo, hi) && Coalesced(bs) && CanAlloc(bs, a) && CanAlloc(Malloc(bs, a), b)
    ensures TwoOfThree(bs, a, b, n).Some?
    ensures TwoOfThree(bs, a, b, n) == Some(bs) <==> !CanAlloc(Malloc(Malloc(bs, a), b), n)
  {
    BracketRestores(bs, lo, hi, a);
    BracketRestores(Malloc(bs, a), lo, hi, b);
    if CanAlloc(Malloc(Malloc(bs, a), b), n) { ThirdStays(bs, lo, hi, a, b, n); }
  }

  /** Three allocations of 64 bytes from a fresh heap. */
  function Three(lo: nat, hi: nat): State
    requires lo + 1024 <= hi
  {
    State([Block(lo, 64, false), Block(lo + 88, 64, false), Block(lo + 176, 64, false),
           Block(lo + 264, hi - lo - 288, true)],
          map[lo + 24 := 64, lo + 112 := 64, lo + 200 := 64])
  }

  lemma RunSteps(s: State, op: Op, ops: seq<Op>)
    requires Allowed(s, op)
    ensures Run(s, [op] + ops) == Run(Step(s, op), ops)
  {
    assert ([op] + ops)[1..] == ops;
  }

  /** With only the last block free, that is where an allocation comes from. */
  lemma MallocFromLast(taken: Blocks, b: Block, n: nat)
    requires (forall x :: x in taken ==> !x.free) && b.Fits(n) && n > 0
    ensures MallocPtr(taken + [b], n) == b.Payload() && Malloc(taken + [b], n) == taken + Carve(b, n)
  {
    var bs := taken + [b];
    forall k | 0 <= k < |taken| ensures !bs[k].Fits(n) { assert bs[k] in taken; }
    FirstFitIs(bs, n, |taken|);
    assert Splice(bs, |taken|, Carve(b, n), |taken| + 1) == taken + Carve(b, n);
  }

  lemma AllocateFromLast(taken: Blocks, b: Block, requests: map<nat, nat>, n: nat)
    requires (forall x :: x in taken ==> !x.free) && b.free && b.size > n + WASTE && n > 0
    ensures Step(State(taken + [b], requests), Allocate(n))
         == State(taken + [Block(b.addr, n, false)] + [Block(b.addr + HEADER + n, b.size - n - HEADER, true)],
                  requests[b.Payload() := n])
  {
    MallocFromLast(taken, b, n);
    assert taken + Carve(b, n) == taken + [Carve(b, n)[0]] + [Carve(b, n)[1]];
  }

  lemma RunThree(s0: State, s1: State, s2: State, s3: State, a: Op, ops: seq<Op>)
    requires a.Allocate? && s1 == Step(s0, a) && s2 == Step(s1, a) && s3 == Step(s2, a)
    ensures Run(s0, [a, a, a] + ops) == Run(s3, ops)
  {
    RunSteps(s0, a, [a, a] + ops);
    RunSteps(s1, a, [a] + ops);
    RunSteps(s2, a, ops);
    assert [a, a, a] + ops == [a] + ([a, a] + ops) && [a, a] + ops == [a] + ([a] + ops);
  }

  /** After the first two of them. */
  function One(lo: nat, hi: nat): State
    requires lo + 1024 <= hi
  {
    State([Block(lo, 64, false), Block(lo + 88, hi - lo - 112, true)], map[lo + 24 := 64])
  }

  function Two(lo: nat, hi: nat): State
    requires lo + 1024 <= hi
  {
    State([Block(lo, 64, false), Block(lo + 88, 64, false), Block(lo + 176, hi - lo - 200, true)],
          map[lo + 24 := 64, lo + 112 := 64])
  }

  lemma ToOne(lo: nat, hi: nat)
    requires lo + 1024 <= hi
    ensures Step(Initial(lo, hi), Allocate(64)) == One(lo, hi)
  {
    var b := Block(lo, hi - lo - 24, true);
    AllocateFromLast([], b, map[], 64);
    assert [] + [b] == [b];
  }

  lemma ToTwo(lo: nat, hi: nat)
    requires lo + 1024 <= hi
    ensures Step(One(lo, hi), Allocate(64)) == Two(lo, hi)
  {
    var s, taken := One(lo, hi), [Block(lo, 64, false)];
    AllocateFromLast(taken, s.blocks[1], s.requests, 64);
    assert s.blocks == taken + [s.blocks[1]];
  }

  lemma ToThree(lo: nat, hi: nat)
    requires lo + 1024 <= hi
    ensures Step(Two(lo, hi), Allocate(64)) == Three(lo, hi)
  {
    var s, taken := Two(lo, hi), [Block(lo, 64, false), Block(lo + 88, 64, false)];
    AllocateFromLast(taken, s.blocks[2], s.requests, 64);
    assert s.blocks == taken + [s.blocks[2]];
  }

  lemma ThreeAllocations(lo: nat, hi: nat, ops: seq<Op>)
    requires 0 < lo && lo + 1024 <= hi
    ensures Run(Initial(lo, hi), [Allocate(64), Allocate(64), Allocate(64)] + ops) == Run(Three(lo, hi), ops)
  {
    ToOne(lo, hi);
    ToTwo(lo, hi);
    ToThree(lo, hi);
    RunThree(Initial(lo, hi), One(lo, hi), Two(lo, hi), Three(lo, hi), Allocate(64), ops);
  }

  lemma DisposeAt(s: State, i: nat)
    requires i < |s.blocks| && !RightFree(s.blocks, i) && Allowed(s, Dispose(s.blocks[i].Payload()))
    requires s.blocks[i].Payload() != 0 && Find(s.blocks, s.blocks[i].Payload()) == i
    ensures Step(s, Dispose(s.blocks[i].Payload())).blocks == s.blocks[i := s.blocks[i].(free := true)]
  {
  }

  lemma RunTwo(s: State, a: Op, b: Op)
    requires Allowed(s, a) && Allowed(Step(s, a), b)
    ensures Run(s, [a, b]) == Some(Step(Step(s, a), b))
  {
    RunSteps(s, a, [b]);
    RunSteps(Step(s, a), b, []);
    assert [a] + [b] == [a, b] && [b] + [] == [b];
  }

  lemma TwoReleases(lo: nat, hi: nat)
    requires 0 < lo && lo + 1024 <= hi
    ensures var s, p, q := Three(lo, hi), Dispose(lo + 24), Dispose(lo + 112);
            && Allowed(s, p) && Allowed(Step(s, p), q)
            && !Coalesced(Step(Step(s, p), q).blocks)
  {
    var s := Three(lo, hi);
    DisposeAt(s, 0);
    DisposeAt(Step(s, Dispose(lo + 24)), 1);
    assert FreePair(Step(Step(s, Dispose(lo + 24)), Dispose(lo + 112)).blocks, 0);
  }

  /** Not every run keeps the list coalesced: of three blocks the first two, released in the order of
      their addresses, stay apart. */
  lemma RightOnlyCoalescingLeavesPairs(lo: nat, hi: nat)
    requires 0 < lo && lo + 1024 <= hi
    ensures var ops := [Allocate(64), Allocate(64), Allocate(64)] + [Dispose(lo + 24), Dispose(lo + 112)];
            && Coalesced(Initial(lo, hi).blocks)
            && Run(Initial(lo, hi), ops).Some?
            && !Coalesced(Run(Initial(lo, hi), ops).value.blocks)
  {
    var p, q := Dispose(lo + 24), Dispose(lo + 112);
    ThreeAllocations(lo, hi, [p, q]);
    TwoReleases(lo, hi);
    RunTwo(Three(lo, hi), p, q);
  }
}
