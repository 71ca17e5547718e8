/** The kernel heap in raw memory: 24-byte headers written into the memory that is handed out
    (src/memory.c). */
module Memory {
  import opened Bytes
  import opened HeapSpec

  /** A MemoryBlock header in memory: size at +0, is_free at +8, next at +16. */
  predicate HeaderAt(m: seq<byte>, b: Block, next: nat) {
    && b.addr + HEADER <= |m|
    && LoadLE(m, b.addr, 8) == b.size
    && (LoadLE(m, b.addr + 8, 4) != 0) == b.free
    && LoadLE(m, b.addr + 16, 8) == next
  }

  function Addr(bs: Blocks, i: nat): nat { if i < |bs| then bs[i].addr else 0 }

  predicate Linked(m: seq<byte>, bs: Blocks, i: nat)
    requires i < |bs|
  {
    HeaderAt(m, bs[i], Addr(bs, i + 1))
  }

  /** The list in memory, followed from its head, is exactly `bs`. */
  predicate ListIn(m: seq<byte>, bs: Blocks) {
    forall i {:trigger Linked(m, bs, i)} :: 0 <= i < |bs| ==> Linked(m, bs, i)
  }

  /** The blocks met when `next` is followed from address `a`, or None on a link that leaves memory or
      on more than `fuel` blocks. */
  function Walk(m: seq<byte>, a: nat, fuel: nat): Option<Blocks>
    decreases fuel
  {
    if a == 0 then Some([])
    else if fuel == 0 || a + HEADER > |m| then None
    else match Walk(m, LoadLE(m, a + 16, 8), fuel - 1)
      case None => None
      case Some(rest) => Some([Block(a, LoadLE(m, a, 8), LoadLE(m, a + 8, 4) != 0)] + rest)
  }

  /** Following the links from a block meets the rest of the list in order and stops: no cycle. */
  lemma {:induction false} WalkMeetsList(m: seq<byte>, bs: Blocks, lo: nat, hi: nat, i: nat)
    requires ListIn(m, bs) && Tiles(bs, lo, hi) && 0 < lo && i <= |bs|
    ensures Walk(m, Addr(bs, i), |bs| - i) == Some(bs[i..])
    decreases |bs| - i
  {
    if i == |bs| {
    } else {
      assert Linked(m, bs, i);
      Inside(bs, lo, hi, i);
      WalkMeetsList(m, bs, lo, hi, i + 1);
      assert bs[i..] == [bs[i]] + bs[i + 1..];
    }
  }

  lemma HeaderKept(m: seq<byte>, m': seq<byte>, b: Block, next: nat)
    requires HeaderAt(m, b, next) && |m| == |m'| && Agree(m, m', b.addr, b.Payload())
    ensures HeaderAt(m', b, next)
  {
    LoadAgree(m, m', b.addr, 8);
    LoadAgree(m, m', b.addr + 8, 4);
    LoadAgree(m, m', b.addr + 16, 8);
  }

  /** The bytes that carry no header: payloads, and everything outside the heap. */
  predicate NoHeader(bs: Blocks, lo: nat, hi: nat, x: nat, y: nat) {
    || y <= lo || hi <= x
    || exists i :: 0 <= i < |bs| && bs[i].Payload() <= x && y <= bs[i].End()
  }

  lemma Apart(bs: Blocks, lo: nat, hi: nat, i: nat, x: nat, y: nat)
    requires Tiles(bs, lo, hi) && i < |bs| && NoHeader(bs, lo, hi, x, y)
    ensures lo <= bs[i].addr && bs[i].End() <= hi && (y <= bs[i].addr || bs[i].Payload() <= x)
  {
    Inside(bs, lo, hi, i);
    if lo < y && x < hi {
      var k :| 0 <= k < |bs| && bs[k].Payload() <= x && y <= bs[k].End();
      if i < k { InOrder(bs, lo, hi, i, k); }
      if k < i { InOrder(bs, lo, hi, k, i); }
    }
  }

  /** Bytes that change only where no header lies leave the list alone. */
  lemma ListKeptBytes(m: seq<byte>, m': seq<byte>, bs: Blocks, lo: nat, hi: nat)
    requires ListIn(m, bs) && Tiles(bs, lo, hi) && |m| == |m'|
    requires forall a: nat :: a < |m| && m[a] != m'[a] ==> NoHeader(bs, lo, hi, a, a + 1)
    ensures ListIn(m', bs)
  {
    forall i | 0 <= i < |bs| ensures Linked(m', bs, i) {
      assert Linked(m, bs, i);
      forall a | bs[i].addr <= a < bs[i].Payload() ensures m[a] == m'[a] {
        if m[a] != m'[a] { Apart(bs, lo, hi, i, a, a + 1); }
      }
      HeaderKept(m, m', bs[i], Addr(bs, i + 1));
    }
  }

  /** Writing anywhere but in a header leaves the list alone. */
  lemma ListKept(m: seq<byte>, m': seq<byte>, bs: Blocks, lo: nat, hi: nat, x: nat, y: nat)
    requires ListIn(m, bs) && Tiles(bs, lo, hi) && |m| == |m'| && NoHeader(bs, lo, hi, x, y)
    requires Agree(m, m', 0, x) && Agree(m, m', y, |m|)
    ensures ListIn(m', bs)
  {
    forall i | 0 <= i < |bs| ensures Linked(m', bs, i) {
      assert Linked(m, bs, i);
      Apart(bs, lo, hi, i, x, y);
      HeaderKept(m, m', bs[i], Addr(bs, i + 1));
    }
  }

  lemma LinkedBefore(m: seq<byte>, m': seq<byte>, bs: Blocks, lo: nat, hi: nat, i: nat, k: nat)
    requires ListIn(m, bs) && Tiles(bs, lo, hi) && |m| == |m'| && k < i < |bs|
    requires Agree(m, m', 0, bs[i].addr)
    ensures Linked(m', bs, k)
  {
    assert Linked(m, bs, k);
    InOrder(bs, lo, hi, k, i);
    HeaderKept(m, m', bs[k], Addr(bs, k + 1));
  }

  lemma LinkedAfter(m: seq<byte>, m': seq<byte>, bs: Blocks, lo: nat, hi: nat, j: nat, k: nat)
    requires ListIn(m, bs) && Tiles(bs, lo, hi) && |m| == |m'| && 0 < j <= k < |bs|
    requires Agree(m, m', bs[j - 1].End(), |m|)
    ensures Linked(m', bs, k)
  {
    assert Linked(m, bs, k);
    InOrder(bs, lo, hi, j - 1, k);
    HeaderKept(m, m', bs[k], Addr(bs, k + 1));
  }

  function PartNext(c: Blocks, k: nat, next: nat): nat { if k + 1 < |c| then c[k + 1].addr else next }

  lemma SpliceAddr(bs: Blocks, i: nat, c: Blocks, j: nat, k: nat)
    requires i < j <= |bs| && c != [] && c[0].addr == bs[i].addr && k < |Splice(bs, i, c, j)|
    ensures var r := Splice(bs, i, c, j);
            if k < i then
              r[k] == bs[k] && Addr(r, k + 1) == Addr(bs, k + 1)
            else if k < i + |c| then
              r[k] == c[k - i] && Addr(r, k + 1) == PartNext(c, k - i, Addr(bs, j))
            else
              r[k] == bs[k - i - |c| + j] && Addr(r, k + 1) == Addr(bs, k - i - |c| + j + 1)
  {
  }

  ghost predicate PartIn(m: seq<byte>, c: Blocks, next: nat) {
    forall k {:trigger PartNext(c, k, next)} :: 0 <= k < |c| ==> HeaderAt(m, c[k], PartNext(c, k, next))
  }

  /** Rewriting the headers of a spliced part, inside its own extent, gives the spliced list. */
  lemma ListSpliced(m: seq<byte>, m': seq<byte>, bs: Blocks, lo: nat, hi: nat, i: nat, c: Blocks, j: nat)
    requires ListIn(m, bs) && Tiles(bs, lo, hi) && |m| == |m'|
    requires i < j <= |bs| && c != [] && c[0].addr == bs[i].addr
    requires Agree(m, m', 0, bs[i].addr) && Agree(m, m', bs[j - 1].End(), |m|)
    requires PartIn(m', c, Addr(bs, j))
    ensures ListIn(m', Splice(bs, i, c, j))
  {
    forall k | 0 <= k < |Splice(bs, i, c, j)| ensures Linked(m', Splice(bs, i, c, j), k) {
      SpliceAddr(bs, i, c, j, k);
      if k < i {
        LinkedBefore(m, m', bs, lo, hi, i, k);
      } else if i + |c| <= k {
        LinkedAfter(m, m', bs, lo, hi, j, k - i - |c| + j);
      }
    }
  }

  /** Block b is still on the list and its payload is what it was. */
  predicate Survives(m: seq<byte>, m': seq<byte>, bs: Blocks, b: Block) {
    b in bs && Agree(m, m', b.Payload(), b.End())
  }

  lemma MallocSpares(m: seq<byte>, m': seq<byte>, bs: Blocks, lo: nat, hi: nat, n: nat, b: Block)
    requires Tiles(bs, lo, hi) && b in bs && !b.free && |m| == |m'| && CanAlloc(bs, n)
    requires Agree(m, m', 0, bs[FirstFit(bs, n)].addr) && Agree(m, m', bs[FirstFit(bs, n)].End(), |m|)
    ensures Survives(m, m', HeapSpec.Malloc(bs, n), b)
  {
    var k :| 0 <= k < |bs| && bs[k] == b;
    var f := FirstFit(bs, n);
    if k < f { InOrder(bs, lo, hi, k, f); }
    if f < k { InOrder(bs, lo, hi, f, k); }
    StaysInSplice(bs, f, Carve(bs[f], n), f + 1, k);
  }

  lemma FreeSpares(m: seq<byte>, m': seq<byte>, bs: Blocks, lo: nat, hi: nat, p: nat, b: Block)
    requires Tiles(bs, lo, hi) && b in bs && !b.free && |m| == |m'| && OnList(bs, p) && p != b.Payload()
    requires HEADER <= p && Agree(m, m', 0, p - HEADER) && Agree(m, m', p, |m|)
    ensures Survives(m, m', Release(bs, Find(bs, p)), b)
  {
    var k :| 0 <= k < |bs| && bs[k] == b;
    var i := Find(bs, p);
    if k < i { InOrder(bs, lo, hi, k, i); }
    if i < k { InOrder(bs, lo, hi, i, k); }
    StaysInSplice(bs, i, [Freed(bs, i)], FreedEnd(bs, i), k);
  }

  /** Every block of `bs` that is live and that no call in `ops` frees survives. */
  ghost predicate Spared(bs: Blocks, ops: seq<Op>, m: seq<byte>, m': seq<byte>, bs': Blocks) {
    forall b :: b in bs && !b.free && Dispose(b.Payload()) !in ops ==> Survives(m, m', bs', b)
  }

  lemma SparedTwice(bs: Blocks, bs1: Blocks, bs2: Blocks, ops: seq<Op>, m: seq<byte>, m1: seq<byte>, m2: seq<byte>)
    requires ops != [] && |m| == |m1| == |m2|
    requires Spared(bs, [ops[0]], m, m1, bs1) && Spared(bs1, ops[1..], m1, m2, bs2)
    ensures Spared(bs, ops, m, m2, bs2)
  {
    forall b | b in bs && !b.free && Dispose(b.Payload()) !in ops ensures Survives(m, m2, bs2, b) {
      assert ops[0] in ops && forall op :: op in ops[1..] ==> op in ops;
      assert Survives(m, m1, bs1, b) && Survives(m1, m2, bs2, b);
    }
  }

  lemma AllocateSpares(m: seq<byte>, m': seq<byte>, bs: Blocks, lo: nat, hi: nat, n: nat)
    requires Tiles(bs, lo, hi) && |m| == |m'| && (!CanAlloc(bs, n) ==> m == m')
    requires CanAlloc(bs, n) ==>
               Agree(m, m', 0, bs[FirstFit(bs, n)].addr) && Agree(m, m', bs[FirstFit(bs, n)].End(), |m|)
    ensures Spared(bs, [Allocate(n)], m, m', HeapSpec.Malloc(bs, n))
  {
    if CanAlloc(bs, n) {
      forall b | b in bs && !b.free ensures Survives(m, m', HeapSpec.Malloc(bs, n), b) {
        MallocSpares(m, m', bs, lo, hi, n, b);
      }
    }
  }

  lemma DisposeSpares(m: seq<byte>, m': seq<byte>, bs: Blocks, lo: nat, hi: nat, p: nat)
    requires Tiles(bs, lo, hi) && |m| == |m'| && (p == 0 || OnList(bs, p)) && (p == 0 ==> m == m')
    requires p != 0 ==> HEADER <= p && Agree(m, m', 0, p - HEADER) && Agree(m, m', p, |m|)
    ensures Spared(bs, [Dispose(p)], m, m', HeapSpec.Free(bs, p))
  {
    if p != 0 {
      forall b | b in bs && !b.free && Dispose(b.Payload()) !in [Dispose(p)]
        ensures Survives(m, m', HeapSpec.Free(bs, p), b)
      {
        assert Dispose(p) in [Dispose(p)];
        FreeSpares(m, m', bs, lo, hi, p, b);
      }
    }
  }

  class Heap {
    const mem: array<byte>
    var head: nat                      // heap_head; 0 is NULL
    ghost var Blocks: Blocks
    ghost var lo: nat
    ghost var hi: nat

    ghost predicate Valid()
      reads this, mem
    {
      && 0 < lo && hi <= mem.Length && mem.Length + WASTE <= U64
      && head == lo && Tiles(Blocks, lo, hi) && ListIn(mem[..], Blocks)
    }

    constructor (memory: array<byte>)
      ensures mem == memory && head == 0
    {
      mem := memory;
      head, Blocks, lo, hi := 0, [], 0, 0;
    }

    /** `size` and `next` of a header rewritten. */
    method Relink(a: nat, size: nat, next: nat, ghost free: bool)
      requires a + HEADER <= mem.Length && size < U64 && next < U64
      requires (LoadLE(mem[..], a + 8, 4) != 0) == free
      modifies mem
      ensures HeaderAt(mem[..], Block(a, size, free), next)
      ensures Agree(old(mem[..]), mem[..], 0, a) && Agree(old(mem[..]), mem[..], a + HEADER, mem.Length)
    {
      Widths();
      ghost var m0 := mem[..];
      Store(mem, a, 8, size);
      LoadStored(m0, a, 8, size);
      LoadOther(m0, a, 8, size, a + 8, 4);
      ghost var m1 := mem[..];
      Store(mem, a + 16, 8, next);
      LoadStored(m1, a + 16, 8, next);
      LoadOther(m1, a + 16, 8, next, a, 8);
      LoadOther(m1, a + 16, 8, next, a + 8, 4);
    }

    /** The three field stores `is_free`, `size`, `next` of a header not yet on the list. */
    method WriteHeader(b: Block, next: nat)
      requires b.addr + HEADER <= mem.Length && b.size < U64 && next < U64
      modifies mem
      ensures HeaderAt(mem[..], b, next)
      ensures Agree(old(mem[..]), mem[..], 0, b.addr) && Agree(old(mem[..]), mem[..], b.Payload(), mem.Length)
    {
      Widths();
      ghost var m0 := mem[..];
      Store(mem, b.addr + 8, 4, if b.free then 1 else 0);
      LoadStored(m0, b.addr + 8, 4, if b.free then 1 else 0);
      Relink(b.addr, b.size, next, b.free);
    }

    method InitHeap(start: nat, size: nat)
      requires 0 < start && HEADER <= size && start + size <= mem.Length && mem.Length + WASTE <= U64
      modifies this, mem
      ensures Valid() && lo == start && hi == start + size
      ensures Blocks == Initial(lo, hi).blocks
      ensures LoadLE(mem[..], start, 8) == size - 24 && LoadLE(mem[..], start + 16, 8) == 0
      ensures LoadLE(mem[..], start + 8, 4) != 0
      ensures Agree(old(mem[..]), mem[..], 0, start) && Agree(old(mem[..]), mem[..], start + HEADER, mem.Length)
    {
      head := start;
      WriteHeader(Block(start, size - HEADER, true), 0);
      lo, hi, Blocks := start, start + size, [Block(start, size - HEADER, true)];
      assert Linked(mem[..], Blocks, 0);
    }

    /** `is_free` of a header rewritten. */
    method Mark(ghost b: Block, a: nat, free: bool, ghost next: nat)
      requires HeaderAt(mem[..], b, next) && a == b.addr
      modifies mem
      ensures HeaderAt(mem[..], b.(free := free), next)
      ensures Agree(old(mem[..]), mem[..], 0, a) && Agree(old(mem[..]), mem[..], a + HEADER, mem.Length)
    {
      Widths();
      ghost var m0 := mem[..];
      var v := if free then 1 else 0;
      Store(mem, a + 8, 4, v);
      LoadStored(m0, a + 8, 4, v);
      LoadOther(m0, a + 8, 4, v, a, 8);
      LoadOther(m0, a + 8, 4, v, a + 16, 8);
    }

    method Split(ghost b: Block, current: nat, size: nat, ghost next: nat)
      requires HeaderAt(mem[..], b, next) && current == b.addr && b.free && b.size > size + HEADER + 16
      requires b.End() <= mem.Length <= U64
      modifies mem
      ensures HeaderAt(mem[..], Carve(b, size)[0].(free := true), Carve(b, size)[1].addr)
      ensures HeaderAt(mem[..], Carve(b, size)[1], next)
      ensures Agree(old(mem[..]), mem[..], 0, current) && Agree(old(mem[..]), mem[..], b.End(), mem.Length)
    {
      ghost var m0 := mem[..];
      var rest := Block(current + HEADER + size, LoadLE(mem[..], current, 8) - size - HEADER, true);
      WriteHeader(rest, LoadLE(mem[..], current + 16, 8));
      ghost var m1 := mem[..];
      HeaderKept(m0, m1, b, next);
      Relink(current, size, rest.addr, true);
      HeaderKept(m1, mem[..], rest, next);
    }

    lemma CarvedList(m: seq<byte>, m': seq<byte>, bs: Blocks, i: nat, size: nat)
      requires ListIn(m, bs) && Tiles(bs, lo, hi) && |m| == |m'| && i < |bs|
      requires Agree(m, m', 0, bs[i].addr) && Agree(m, m', bs[i].End(), |m|)
      requires var c, next := Carve(bs[i], size), Addr(bs, i + 1);
               HeaderAt(m', c[0], PartNext(c, 0, next)) && (|c| == 2 ==> HeaderAt(m', c[1], next))
      ensures ListIn(m', Splice(bs, i, Carve(bs[i], size), i + 1))
      ensures Tiles(Splice(bs, i, Carve(bs[i], size), i + 1), lo, hi)
    {
      var c := Carve(bs[i], size);
      assert PartIn(m', c, Addr(bs, i + 1));
      ListSpliced(m, m', bs, lo, hi, i, c, i + 1);
      SpliceTiles(bs, lo, hi, i, c, i + 1);
    }

    /** The chosen block is split when worth it, and marked as taken. */
    method Take(ghost i: nat, current: nat, size: nat) returns (p: nat)
      requires Valid() && 0 < size && i < |Blocks| && current == Blocks[i].addr && Blocks[i].Fits(size)
      requires Blocks[i].End() <= hi
      modifies this`Blocks, mem
      ensures Valid() && p == old(Blocks[i]).Payload()
      ensures Blocks == Splice(old(Blocks), i, Carve(old(Blocks)[i], size), i + 1)
      ensures Agree(old(mem[..]), mem[..], 0, old(Blocks)[i].addr)
      ensures Agree(old(mem[..]), mem[..], old(Blocks)[i].End(), mem.Length)
    {
      ghost var m0, bs, b := mem[..], Blocks, Blocks[i];
      assert Linked(m0, bs, i);
      ghost var c, next := Carve(b, size), Addr(bs, i + 1);
      assert (size + HEADER + 16) % U64 == size + HEADER + 16;
      if LoadLE(mem[..], current, 8) > (size + HEADER + 16) % U64 {
        Split(b, current, size, next);
        ghost var m1 := mem[..];
        Mark(c[0].(free := true), current, false, c[1].addr);
        HeaderKept(m1, mem[..], c[1], next);
      } else {
        Mark(b, current, false, next);
      }
      CarvedList(m0, mem[..], bs, i, size);
      Blocks := Splice(bs, i, Carve(b, size), i + 1);
      p := current + HEADER;
    }

    /** First-fit allocation.  The only bytes written are headers inside the block chosen, and the
        split test never wraps. */
    method Malloc(size: nat) returns (p: nat)
      requires Valid() && size < U64
      modifies this`Blocks, mem
      ensures Valid() && lo == old(lo) && hi == old(hi)
      ensures Blocks == HeapSpec.Malloc(old(Blocks), size) && p == MallocPtr(old(Blocks), size)
      ensures !CanAlloc(old(Blocks), size) ==> mem[..] == old(mem[..])
      ensures CanAlloc(old(Blocks), size) ==>
                var b := old(Blocks)[FirstFit(old(Blocks), size)];
                && b.End() <= mem.Length
                && Agree(old(mem[..]), mem[..], 0, b.addr) && Agree(old(mem[..]), mem[..], b.End(), mem.Length)
    {
      if size == 0 { return 0; }
      var current := head;
      ghost var i := 0;
      while current != 0
        invariant i <= FirstFit(Blocks, size) && current == Addr(Blocks, i)
        invariant current == 0 ==> i == |Blocks|
        invariant Valid() && Blocks == old(Blocks) && mem[..] == old(mem[..])
        decreases |Blocks| - i
      {
        assert Linked(mem[..], Blocks, i);
        if LoadLE(mem[..], current + 8, 4) != 0 && LoadLE(mem[..], current, 8) >= size {
          Inside(Blocks, lo, hi, i);
          p := Take(i, current, size);
          return;
        }
        FirstFitBeyond(Blocks, size, i);
        current := LoadLE(mem[..], current + 16, 8);
        i := i + 1;
        if i < |Blocks| { Inside(Blocks, lo, hi, i); }
      }
      p := 0;
    }

    method MergeRight(ghost bs: Blocks, ghost i: nat, block: nat, ghost m0: seq<byte>)
      requires Tiles(bs, lo, hi) && hi <= mem.Length <= U64 && ListIn(m0, bs) && |m0| == mem.Length
      requires i < |bs| && block == bs[i].addr && HeaderAt(mem[..], bs[i].(free := true), Addr(bs, i + 1))
      requires Agree(m0, mem[..], bs[i].Payload(), mem.Length)
      modifies mem
      ensures HeaderAt(mem[..], Freed(bs, i), Addr(bs, FreedEnd(bs, i)))
      ensures Agree(old(mem[..]), mem[..], 0, block) && Agree(old(mem[..]), mem[..], block + HEADER, mem.Length)
    {
      var next := LoadLE(mem[..], block + 16, 8);
      if i + 1 < |bs| {
        Inside(bs, lo, hi, i + 1);
        assert Meets(bs, i);
      }
      if next != 0 {
        LinkedAfter(m0, mem[..], bs, lo, hi, i + 1, i + 1);
        if LoadLE(mem[..], next + 8, 4) != 0 {
          Relink(block, LoadLE(mem[..], block, 8) + HEADER + LoadLE(mem[..], next, 8),
                 LoadLE(mem[..], next + 16, 8), true);
        }
      }
    }

    lemma FreedList(m: seq<byte>, m': seq<byte>, bs: Blocks, i: nat)
      requires ListIn(m, bs) && Tiles(bs, lo, hi) && |m| == |m'| && i < |bs|
      requires Agree(m, m', 0, bs[i].addr) && Agree(m, m', bs[i].Payload(), |m|)
      requires HeaderAt(m', Freed(bs, i), Addr(bs, FreedEnd(bs, i)))
      ensures ListIn(m', Release(bs, i)) && Tiles(Release(bs, i), lo, hi)
    {
      var c, j := [Freed(bs, i)], FreedEnd(bs, i);
      if RightFree(bs, i) { assert Meets(bs, i); }
      assert PartIn(m', c, Addr(bs, j));
      ListSpliced(m, m', bs, lo, hi, i, c, j);
      ReleaseTiles(bs, lo, hi, i);
    }

    /** Release with coalescing to the right.  The only bytes written are the header's own. */
    method Free(p: nat)
      requires Valid() && (p == 0 || OnList(Blocks, p))
      modifies this`Blocks, mem
      ensures Valid() && lo == old(lo) && hi == old(hi)
      ensures Blocks == HeapSpec.Free(old(Blocks), p)
      ensures p == 0 ==> mem[..] == old(mem[..])
      ensures p != 0 ==> HEADER <= p <= mem.Length
      ensures p != 0 ==> Agree(old(mem[..]), mem[..], 0, p - HEADER) && Agree(old(mem[..]), mem[..], p, mem.Length)
    {
      if p == 0 { return; }
      var block := p - HEADER;
      ghost var m0, bs, i := mem[..], Blocks, Find(Blocks, p);
      Inside(bs, lo, hi, i);
      assert Linked(m0, bs, i);
      Mark(bs[i], block, true, Addr(bs, i + 1));
      MergeRight(bs, i, block, m0);
      FreedList(m0, mem[..], bs, i);
      Blocks := Release(bs, i);
    }

    /** One call by a caller that frees only what it owns. */
    method Call(op: Op, ghost s: HeapSpec.State)
      requires Valid() && s.blocks == Blocks && Allowed(s, op) && (op.Allocate? ==> op.n < U64)
      modifies this`Blocks, mem
      ensures Valid() && lo == old(lo) && hi == old(hi) && Blocks == Step(s, op).blocks
      ensures Spared(s.blocks, [op], old(mem[..]), mem[..], Blocks)
    {
      ghost var m := mem[..];
      match op
      case Allocate(n) =>
        var p := Malloc(n);
        AllocateSpares(m, mem[..], s.blocks, lo, hi, n);
      case Dispose(p) =>
        Free(p);
        DisposeSpares(m, mem[..], s.blocks, lo, hi, p);
    }

    /** Any run of calls: whatever is allocated and freed meanwhile, a payload that stays live keeps its
        place and its bytes. */
    method Calls(ops: seq<Op>, ghost s: HeapSpec.State)
      requires Valid() && s.blocks == Blocks && Run(s, ops).Some?
      requires forall op :: op in ops && op.Allocate? ==> op.n < U64
      modifies this`Blocks, mem
      ensures Valid() && lo == old(lo) && hi == old(hi) && Blocks == Run(s, ops).value.blocks
      ensures Spared(s.blocks, ops, old(mem[..]), mem[..], Blocks)
      decreases |ops|
    {
      if ops != [] {
        ghost var m0, bs := mem[..], Blocks;
        Call(ops[0], s);
        ghost var m1, bs1 := mem[..], Blocks;
        Calls(ops[1..], Step(s, ops[0]));
        SparedTwice(bs, bs1, Blocks, ops, m0, m1, mem[..]);
      }
    }
  }
}
