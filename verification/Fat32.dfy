/** The FAT32 reader: mounting, the FAT lookup, and the two loops that walk a file's cluster chain
    (src/fat32.c).  Buffers come from the kernel heap; the drive is an oracle. */
module Fat32 {
  import opened Bytes
  import opened HeapSpec
  import opened Memory
  import opened FatSpec
  import Arith

  const FAILED: nat := 0x0FFF_FFFF

  /** The block that `malloc(n)` hands out, when it does. */
  function Granted(bs: Blocks, n: nat): Block
    requires CanAlloc(bs, n)
  {
    bs[FirstFit(bs, n)]
  }

  lemma GrantedBlock(bs: Blocks, lo: nat, hi: nat, n: nat)
    requires Tiles(bs, lo, hi) && CanAlloc(bs, n)
    ensures var p := MallocPtr(bs, n);
            && lo + HEADER <= p && p + n <= Granted(bs, n).End() <= hi
            && NoHeader(Malloc(bs, n), lo, hi, p, p + n)
  {
    var i := FirstFit(bs, n);
    Inside(bs, lo, hi, i);
    assert Malloc(bs, n)[i] == Carve(bs[i], n)[0];
  }

  /** The two requests `run` makes: a directory of `a` bytes, then the file and 512 bytes, in 32 bits. */
  function Loaded(bs: Blocks, a: nat, size: nat): Blocks {
    Malloc(Malloc(bs, a), (size + 512) % U32)
  }

  /** The list and the two buffers after the requests of `run` for a file of `size` bytes and the loop behind
      them. */
  ghost predicate BuffersTaken(bs: Blocks, bs': Blocks, v: Volume, dir: nat, exec: nat, size: nat) {
    && v.spc > 0 && Settled(Loaded(bs, v.ClusterSize(), size), bs', SECTOR)
    && dir == MallocPtr(bs, v.ClusterSize()) && exec == MallocPtr(Malloc(bs, v.ClusterSize()), (size + 512) % U32)
  }

  lemma BuffersAre(bs: Blocks, m1: Blocks, bs': Blocks, v: Volume, dir: nat, exec: nat, size: nat)
    requires v.spc > 0 && m1 == Malloc(bs, v.ClusterSize()) && Settled(Malloc(m1, (size + 512) % U32), bs', SECTOR)
    requires dir == MallocPtr(bs, v.ClusterSize()) && exec == MallocPtr(m1, (size + 512) % U32)
    ensures BuffersTaken(bs, bs', v, dir, exec, size)
  {
  }

  lemma GrantedIf(bs: Blocks, lo: nat, hi: nat, n: nat)
    requires Tiles(bs, lo, hi)
    ensures CanAlloc(bs, n) ==>
              var p := MallocPtr(bs, n);
              p + n <= hi && NoHeader(Malloc(bs, n), lo, hi, p, p + n)
  {
    if CanAlloc(bs, n) { GrantedBlock(bs, lo, hi, n); }
  }

  /** A buffer, granted or NULL, lies clear of the headers when the heap starts above its size. */
  lemma BufferPlace(bs: Blocks, lo: nat, hi: nat, n: nat)
    requires Tiles(bs, lo, hi) && n <= lo
    ensures var p := MallocPtr(bs, n); p + n <= hi && NoHeader(Malloc(bs, n), lo, hi, p, p + n)
  {
    Inside(bs, lo, hi, 0);
    GrantedIf(bs, lo, hi, n);
  }

  /** The file buffer is granted, and the block behind it holds the size rounded up to whole clusters. */
  ghost predicate Fits(bs: Blocks, v: Volume, size: nat) {
    var n := (size + 512) % U32;
    && v.spc > 0 && size + v.ClusterSize() <= U32 && CanAlloc(bs, n)
    && CeilDiv(size, v.ClusterSize()) * v.ClusterSize() <= Grant(bs, n).size
  }

  ghost predicate FileBufferFits(bs: Blocks, v: Volume, d: Disk) {
    var dir := ClusterBytes(v, d, v.root);
    var f := FirstFile(dir, 0);
    CanAlloc(bs, v.ClusterSize()) && f.Some? ==> Fits(Malloc(bs, v.ClusterSize()), v, EntrySize(dir, f.value))
  }

  function FirstSize(v: Volume, d: Disk): nat {
    match FirstFile(ClusterBytes(v, d, v.root), 0)
    case None => 0
    case Some(i) => EntrySize(ClusterBytes(v, d, v.root), i)
  }

  lemma FirstFileFits(bs: Blocks, v: Volume, d: Disk, i: nat)
    requires FileBufferFits(bs, v, d) && CanAlloc(bs, v.ClusterSize())
    requires FirstFile(ClusterBytes(v, d, v.root), 0) == Some(i)
    ensures var dir := ClusterBytes(v, d, v.root);
            && i < EntryCount(dir) && Fits(Malloc(bs, v.ClusterSize()), v, EntrySize(dir, i))
            && TheFile(v, d) == AbstractFile(v, d, EntryCluster(dir, i), EntrySize(dir, i))
  {
  }

  lemma Remainder(a: nat, k: nat)
    requires k > 0
    ensures a % k < k && a % k <= a
  {
    Arith.MulMono(0, a / k, k);
    assert a == a / k * k + a % k;
  }

  lemma CeilDivExact(size: nat, k: nat)
    requires k > 0
    ensures CeilDiv(size, k) * k == if size % k == 0 then size else size - size % k + k
  {
    var q, r := size / k, size % k;
    if r == 0 {
      Arith.DivIs(size + k - 1, k, q, k - 1);
    } else {
      assert (q + 1) * k == q * k + k;
      Arith.DivIs(size + k - 1, k, q + 1, r - 1);
    }
  }

  /** `whole` bytes are written, `rest` of which are the file's bytes in its last cluster of k. */
  lemma RequestCovers(size: nat, k: nat, rest: nat, whole: nat)
    requires size < U32 && rest < k && rest <= size && whole == if rest == 0 then size else size - rest + k
    ensures whole <= (size + 512) % U32 <==> size == 0 || (size + 512 < U32 && (rest == 0 || k - rest <= 512))
  {
    if size + 512 < U32 {
      assert (size + 512) % U32 == size + 512;
    } else {
      assert (size + 512) % U32 == size + 512 - U32;
    }
  }

  /** The buffer asked for, in 32 bits, has room for the whole clusters the loop writes exactly when the
      file is empty, or the sum does not wrap and the last cluster sticks out by at most 512 bytes. */
  lemma SpareSectorSuffices(v: Volume, size: nat)
    requires v.InRange() && v.spc > 0 && size < U32
    ensures var k := v.ClusterSize();
            (CeilDiv(size, k) * k <= (size + 512) % U32
             <==> size == 0 || (size + 512 < U32 && (size % k == 0 || k - size % k <= 512)))
  {
    var k := v.ClusterSize();
    CeilDivExact(size, k);
    Remainder(size, k);
    RequestCovers(size, k, size % k, CeilDiv(size, k) * k);
  }

  /** Two files it has no room for: one byte in clusters of eight sectors, and, in clusters of one sector, a
      size whose sum with 512 wraps to 1. */
  lemma SpareSectorFails()
    ensures var v := Volume(32, 4096, 2, 8); (1 + 512) % U32 == 513 < CeilDiv(1, v.ClusterSize()) * v.ClusterSize()
    ensures var v := Volume(32, 4096, 2, 1);
            (0xFFFF_FE01 + 512) % U32 == 1 < CeilDiv(0xFFFF_FE01, v.ClusterSize()) * v.ClusterSize()
  {
  }

  /** Nothing fails: the drive delivers, and after the directory buffer a sector buffer is to be had. */
  ghost predicate Serves(bs: Blocks, v: Volume, d: Disk) {
    Reliable(d) && CanAlloc(bs, v.ClusterSize()) && CanAlloc(Malloc(bs, v.ClusterSize()), SECTOR)
  }

  /** Nothing fails while a file of `size` bytes is loaded: after both buffers a sector buffer is to be had. */
  ghost predicate LoadServes(bs: Blocks, v: Volume, d: Disk, size: nat) {
    Reliable(d) && CanAlloc(Loaded(bs, v.ClusterSize(), size), SECTOR)
  }

  /** A granted block is live, and stays so while the list is kept. */
  lemma GrantKept(bs: Blocks, n: nat, bs': Blocks, size: nat) returns (e: Block)
    requires CanAlloc(bs, n) && Kept(Malloc(bs, n), bs') && size <= Grant(bs, n).size
    ensures e in bs' && !e.free && e.Payload() == MallocPtr(bs, n) && size <= e.size
  {
    e := Grant(bs, n);
    GrantOnList(bs, n);
  }

  lemma TakenKept(bs: Blocks, bs': Blocks, v: Volume, dir: nat, exec: nat, size: nat, m1: Blocks, n: nat)
    requires BuffersTaken(bs, bs', v, dir, exec, size) && m1 == Malloc(bs, v.ClusterSize()) && n == (size + 512) % U32
    ensures Kept(Malloc(m1, n), bs') && exec == MallocPtr(m1, n)
  {
  }

  lemma FitsFile(bs: Blocks, v: Volume, size: nat)
    requires Fits(bs, v, size)
    ensures CanAlloc(bs, (size + 512) % U32) && size <= Grant(bs, (size + 512) % U32).size
  {
    CeilDivBounds(size, v.ClusterSize());
  }

  /** The block of the file buffer is live, and the file fits it. */
  lemma FileBlock(bs: Blocks, bs': Blocks, v: Volume, d: Disk, dir: nat, exec: nat) returns (e: Block)
    requires FileBufferFits(bs, v, d) && CanAlloc(bs, v.ClusterSize()) && FirstFile(ClusterBytes(v, d, v.root), 0).Some?
    requires BuffersTaken(bs, bs', v, dir, exec, FirstSize(v, d))
    ensures e in bs' && !e.free && e.Payload() == exec && FirstSize(v, d) <= e.size
  {
    FirstFileFits(bs, v, d, FirstFile(ClusterBytes(v, d, v.root), 0).value);
    var m1, size := Malloc(bs, v.ClusterSize()), FirstSize(v, d);
    var n := (size + 512) % U32;
    FitsFile(m1, v, size);
    TakenKept(bs, bs', v, dir, exec, size, m1, n);
    e := GrantKept(m1, n, bs', size);
  }

  lemma FewTurns(size: nat, k: nat)
    requires k > 0 && size < U32
    ensures CeilDiv(size, k) < U32
  {
    CeilDivBounds(size, k);
    if CeilDiv(size, k) > size {
      Arith.MulMono(size + 1, CeilDiv(size, k), k);
      assert (size + 1) * k == size * k + k;
      Arith.MulMono(1, k, size);
    }
  }

  /** The bytes of `s` are in memory from address `a` on. */
  ghost predicate Holds(m: seq<byte>, a: nat, s: seq<byte>) {
    a + |s| <= |m| && m[a..a + |s|] == s
  }

  lemma LoadHeld(m: seq<byte>, a: nat, s: seq<byte>, o: nat, n: nat)
    requires Holds(m, a, s) && o + n <= |s|
    ensures LoadLE(m, a + o, n) == LoadLE(s, o, n)
  {
    assert forall k {:trigger s[k]} :: 0 <= k < |s| ==> s[k] == m[a + k];
    assert m[a + o..a + o + n] == s[o..o + n];
    LoadMoved(m, a + o, s, o, n);
  }

  lemma CutGrows(s: seq<byte>, t: seq<byte>, size: nat)
    ensures Cut(s + t, size) == Cut(s, size) + Cut(t, size - |Cut(s, size)|)
  {
  }

  lemma HoldsKept(m: seq<byte>, m': seq<byte>, a: nat, s: seq<byte>)
    requires Holds(m, a, s) && |m| == |m'| && Agree(m, m', a, a + |s|)
    ensures Holds(m', a, s)
  {
  }

  lemma HoldsMore(m: seq<byte>, m': seq<byte>, a: nat, s: seq<byte>, t: seq<byte>)
    requires Holds(m, a, s) && |m| == |m'| && Agree(m, m', 0, a + |s|) && Holds(m', a + |s|, t)
    ensures Holds(m', a, s + t)
  {
    HoldsKept(m, m', a, s);
    assert m'[a..a + |s + t|] == m'[a..a + |s|] + m'[a + |s|..a + |s| + |t|];
  }

  lemma NextTurn(v: Volume, d: Disk, c: nat, n: nat, size: nat, room: nat)
    requires v.spc > 0 && Total(n, v.ClusterSize()) < size && size + v.ClusterSize() <= U32
    requires CeilDiv(size, v.ClusterSize()) * v.ClusterSize() <= room
    ensures n < CeilDiv(size, v.ClusterSize()) && |Passed(v, d, c, n)| == Total(n, v.ClusterSize())
    ensures Total(n + 1, v.ClusterSize()) <= room && Total(n + 1, v.ClusterSize()) < U32
  {
    TurnFits(v, d, c, n, size);
    PassedLength(v, d, c, n);
  }

  lemma MissingBytes(v: Volume, size: nat, whole: nat)
    requires v.spc > 0
    ensures Total(whole, v.ClusterSize()) < size ==> whole < CeilDiv(size, v.ClusterSize())
  {
    if Total(whole, v.ClusterSize()) < size { TurnFits(v, Disk((k: nat) => 0, (t: nat) => 0), 0, whole, size); }
  }

  lemma MemberInside(bs: Blocks, lo: nat, hi: nat, b: Block)
    requires Tiles(bs, lo, hi) && b in bs
    ensures lo <= b.addr && b.End() <= hi
  {
    var i :| 0 <= i < |bs| && bs[i] == b;
    Inside(bs, lo, hi, i);
  }

  /** All that changed lies in the free block that a request of n bytes is served from. */
  ghost predicate ChangedOnlyFree(m: seq<byte>, m': seq<byte>, bs: Blocks, n: nat) {
    && |m| == |m'|
    && (!CanAlloc(bs, n) ==> m == m')
    && (CanAlloc(bs, n) ==> Agree(m, m', 0, Granted(bs, n).addr) && Agree(m, m', Granted(bs, n).End(), |m|))
  }

  /** What a served request changes leaves every live block alone. */
  lemma LiveUntouched(m: seq<byte>, m': seq<byte>, bs: Blocks, lo: nat, hi: nat, i: nat, n: nat)
    requires Tiles(bs, lo, hi) && i < |bs| && !bs[i].free && ChangedOnlyFree(m, m', bs, n)
    ensures Agree(m, m', bs[i].addr, bs[i].End())
  {
    if CanAlloc(bs, n) {
      var f := FirstFit(bs, n);
      if f < i { InOrder(bs, lo, hi, f, i); }
      if i < f { InOrder(bs, lo, hi, i, f); }
    }
  }

  /** A buffer taken, written and given back: nothing outside its block has changed. */
  lemma OnlyFreeChanged(m0: seq<byte>, m1: seq<byte>, m2: seq<byte>, m3: seq<byte>, bs: Blocks, n: nat)
    requires |m0| == |m1| == |m2| == |m3| && CanAlloc(bs, n)
    requires var b := Granted(bs, n);
             var p := b.Payload();
             && Agree(m0, m1, 0, b.addr) && Agree(m0, m1, b.End(), |m0|)
             && Agree(m1, m2, 0, p) && Agree(m1, m2, p + n, |m0|)
             && Agree(m2, m3, 0, p - HEADER) && Agree(m2, m3, p, |m0|)
    ensures ChangedOnlyFree(m0, m3, bs, n)
  {
  }

  class FileSystem {
    const heap: Heap
    const disk: Disk
    var commands: nat                  // read commands issued so far
    var fatStart: nat
    var dataStart: nat
    var root: nat
    var spc: nat                       // sectors_per_cluster

    constructor (h: Heap, d: Disk)
      ensures heap == h && disk == d && commands == 0 && Vol() == Volume(0, 0, 0, 0)
    {
      heap, disk, commands, fatStart, dataStart, root, spc := h, d, 0, 0, 0, 0, 0;
    }

    function Vol(): Volume reads this { Volume(fatStart, dataStart, root, spc) }

    /** The first clusters' worth of memory is below the heap, so that a buffer pointer that is NULL points outside
        it. */
    ghost predicate Ready()
      reads this, heap, heap.mem
    {
      heap.Valid() && Vol().InRange() && SECTOR * 256 <= heap.lo
    }

    /** Memory m with [target, ptr) overwritten by the drive's bytes from `base` on. */
    ghost predicate Filled(m0: seq<byte>, m: seq<byte>, target: nat, ptr: nat, base: nat) {
      && |m| == |m0| && target <= ptr <= |m|
      && Agree(m0, m, 0, target) && Agree(m0, m, ptr, |m|)
      && forall a :: target <= a < ptr ==> m[a] == disk.image(base + a - target)
    }

    lemma FilledHolds(m0: seq<byte>, m: seq<byte>, target: nat, n: nat, lba: nat)
      requires Filled(m0, m, target, target + SECTOR * n, SECTOR * (lba % LBA28))
      ensures Holds(m, target, ReadBytes(disk, lba, n))
    {
      assert m[target..target + SECTOR * n] == ReadBytes(disk, lba, n);
    }

    /** The n sectors that came before a failure are in the target, and nothing behind them has changed. */
    ghost predicate CutShort(m0: seq<byte>, m: seq<byte>, target: nat, lba: nat, n: nat) {
      Holds(m, target, ReadBytes(disk, lba, n)) && Agree(m0, m, target + SECTOR * n, |m|)
    }

    /** One READ SECTORS command: `count` sectors, each delivered as 256 words, until the drive fails; what
        came before the failure stays in the target. */
    method AtaReadSectors(lba: nat, count: nat, target: nat) returns (ok: bool)
      requires heap.Valid() && target + SECTOR * count <= heap.mem.Length
      requires NoHeader(heap.Blocks, heap.lo, heap.hi, target, target + SECTOR * count)
      modifies heap.mem, this`commands
      ensures heap.Valid() && commands == old(commands) + 1
      ensures ok == (disk.delivered(old(commands)) >= count)
      ensures Agree(old(heap.mem[..]), heap.mem[..], 0, target)
      ensures Agree(old(heap.mem[..]), heap.mem[..], target + SECTOR * count, heap.mem.Length)
      ensures ok ==> Holds(heap.mem[..], target, ReadBytes(disk, lba, count))
      ensures !ok ==> CutShort(old(heap.mem[..]), heap.mem[..], target, lba, disk.delivered(old(commands)))
    {
      var mem, base, t := heap.mem, SECTOR * (lba % LBA28), commands;
      ghost var m0 := mem[..];
      commands := commands + 1;
      var ptr := target;
      for s := 0 to count
        invariant commands == t + 1 && ptr == target + SECTOR * s && disk.delivered(t) >= s
        invariant Filled(m0, mem[..], target, ptr, base)
      {
        if disk.delivered(t) <= s {
          ListKept(m0, mem[..], heap.Blocks, heap.lo, heap.hi, target, target + SECTOR * count);
          FilledHolds(m0, mem[..], target, s, lba);
          return false;
        }
        for i := 0 to 256
          invariant commands == t + 1 && ptr == target + SECTOR * s + 2 * i
          invariant Filled(m0, mem[..], target, ptr, base)
        {
          mem[ptr] := disk.image(base + ptr - target);
          mem[ptr + 1] := disk.image(base + ptr + 1 - target);
          ptr := ptr + 2;
        }
      }
      ListKept(m0, mem[..], heap.Blocks, heap.lo, heap.hi, target, target + SECTOR * count);
      FilledHolds(m0, mem[..], target, count, lba);
      ok := true;
    }

    /** The volume fields from the boot sector in `buffer`. */
    method Mount(buffer: nat, ghost bpb: seq<byte>)
      requires |bpb| == SECTOR && Holds(heap.mem[..], buffer, bpb)
      modifies this`fatStart, this`dataStart, this`root, this`spc
      ensures Vol() == ParseBpb(bpb)
    {
      Widths();
      LoadHeld(heap.mem[..], buffer, bpb, 14, 2);
      LoadHeld(heap.mem[..], buffer, bpb, 36, 4);
      LoadHeld(heap.mem[..], buffer, bpb, 44, 4);
      assert heap.mem[buffer + 13] == bpb[13] && heap.mem[buffer + 16] == bpb[16];
      fatStart, root := LoadLE(heap.mem[..], buffer + 14, 2), LoadLE(heap.mem[..], buffer + 44, 4);
      spc := heap.mem[buffer + 13];
      dataStart := (fatStart + heap.mem[buffer + 16] * LoadLE(heap.mem[..], buffer + 36, 4)) % U32;
    }

    lemma NothingTaken(bs: Blocks, n: nat)
      requires !CanAlloc(bs, n)
      ensures Returned(bs, bs, n, SECTOR)
    {
    }

    /** A buffer that was taken on list bs goes back. */
    method GiveBack(p: nat, ghost bs: Blocks, ghost n: nat)
      requires heap.Valid() && Tiles(bs, heap.lo, heap.hi) && heap.Blocks == Malloc(bs, n) && p == MallocPtr(bs, n)
      requires n == 0 || n >= SECTOR
      modifies heap.mem, heap`Blocks
      ensures heap.Valid() && Returned(bs, heap.Blocks, n, SECTOR)
      ensures p == 0 ==> heap.mem[..] == old(heap.mem[..])
      ensures p != 0 ==> HEADER <= p && Agree(old(heap.mem[..]), heap.mem[..], 0, p - HEADER)
                         && Agree(old(heap.mem[..]), heap.mem[..], p, heap.mem.Length)
    {
      GivenBack(bs, heap.lo, heap.hi, n, SECTOR);
      heap.Free(p);
    }

    method InitFAT32()
      requires Ready()
      modifies this`fatStart, this`dataStart, this`root, this`spc, this`commands, heap.mem, heap`Blocks
      ensures Ready() && Returned(old(heap.Blocks), heap.Blocks, SECTOR, SECTOR)
      ensures Vol() == if CanAlloc(old(heap.Blocks), SECTOR) && disk.delivered(old(commands)) >= 1
                       then ParseBpb(ReadBytes(disk, 0, 1)) else old(Vol())
    {
      ghost var bs := heap.Blocks;
      var buffer := heap.Malloc(SECTOR);
      if buffer == 0 {
        NothingTaken(bs, SECTOR);
        return;
      }
      GrantedBlock(bs, heap.lo, heap.hi, SECTOR);
      var ok := AtaReadSectors(0, 1, buffer);
      if ok {
        Mount(buffer, ReadBytes(disk, 0, 1));
      }
      GiveBack(buffer, bs, SECTOR);
    }

    /** The FAT entry of cluster c, or the end-of-chain mark when there is no buffer or no sector. */
    method GetNextCluster(c: nat) returns (next: nat)
      requires Ready() && c < U32
      modifies heap.mem, heap`Blocks, this`commands
      ensures Ready() && Returned(old(heap.Blocks), heap.Blocks, SECTOR, SECTOR)
      ensures commands == old(commands) + if CanAlloc(old(heap.Blocks), SECTOR) then 1 else 0
      ensures next == if CanAlloc(old(heap.Blocks), SECTOR) && disk.delivered(old(commands)) >= 1
                      then Next(Vol(), disk, c) else FAILED
      ensures !(CanAlloc(old(heap.Blocks), SECTOR) && disk.delivered(old(commands)) >= 1) ==> next == 0x0FFF_FFFF
      ensures next < LBA28
      ensures ChangedOnlyFree(old(heap.mem[..]), heap.mem[..], old(heap.Blocks), SECTOR)
    {
      ghost var bs, m0 := heap.Blocks, heap.mem[..];
      var sector, offset := FatSector(Vol(), c), FatOffset(c);
      var buffer := heap.Malloc(SECTOR);
      if buffer == 0 {
        NothingTaken(bs, SECTOR);
        return FAILED;
      }
      GrantedBlock(bs, heap.lo, heap.hi, SECTOR);
      ghost var m1 := heap.mem[..];
      var ok := AtaReadSectors(sector, 1, buffer);
      ghost var m2 := heap.mem[..];
      if !ok {
        GiveBack(buffer, bs, SECTOR);
        OnlyFreeChanged(m0, m1, m2, heap.mem[..], bs, SECTOR);
        return FAILED;
      }
      next := LoadLE(heap.mem[..], buffer + offset, 4) % LBA28;
      LoadHeld(m2, buffer, ReadBytes(disk, sector, 1), offset, 4);
      GiveBack(buffer, bs, SECTOR);
      OnlyFreeChanged(m0, m1, m2, heap.mem[..], bs, SECTOR);
    }

    /** Cluster c is in memory behind `done`, and `next` follows it on the chain. */
    ghost predicate ClusterAdded(m: seq<byte>, m': seq<byte>, exec: nat, done: seq<byte>, c: nat, vol: Volume,
                                 next: nat) {
      && next == Next(vol, disk, c)
      && (Holds(m, exec, done) ==> Holds(m', exec, done + ClusterBytes(vol, disk, c)))
    }

    /** One turn of the load loop: a whole cluster into the live block `e`, then the FAT lookup. */
    method LoadCluster(exec: nat, bytes: nat, c: nat, ghost e: Block, ghost done: seq<byte>, ghost good: bool)
      returns (next: nat)
      requires Ready() && c < U32 && e in heap.Blocks && !e.free && exec == e.Payload()
      requires bytes == |done| && bytes + Vol().ClusterSize() <= e.size
      requires good ==> Reliable(disk) && CanAlloc(heap.Blocks, SECTOR)
      modifies heap.mem, heap`Blocks, this`commands
      ensures Ready() && Settled(old(heap.Blocks), heap.Blocks, SECTOR) && next < LBA28
      ensures good ==> ClusterAdded(old(heap.mem[..]), heap.mem[..], exec, done, c, Vol(), next)
    {
      ghost var bs, m0, data := heap.Blocks, heap.mem[..], ClusterBytes(Vol(), disk, c);
      ghost var i :| 0 <= i < |bs| && bs[i] == e;
      Inside(bs, heap.lo, heap.hi, i);
      var ok := AtaReadSectors(ClusterSector(Vol(), c), spc, exec + bytes);
      ghost var m1 := heap.mem[..];
      next := GetNextCluster(c);
      LiveUntouched(m1, heap.mem[..], bs, heap.lo, heap.hi, i, SECTOR);
      if good && Holds(m0, exec, done) {
        HoldsMore(m0, m1, exec, done, data);
        HoldsKept(m1, heap.mem[..], exec, done + data);
      }
    }

    /** After n turns of the load loop: c and bytes as the source has them, and, when nothing failed,
        the clusters passed so far in memory. */
    ghost predicate Loading(m: seq<byte>, exec: nat, c: nat, bytes: nat, n: nat, first: nat, vol: Volume, good: bool) {
      && bytes == Total(n, vol.ClusterSize())
      && (good ==> && c == Reached(vol, disk, first, n) && Unbroken(vol, disk, first, n)
                   && Holds(m, exec, Passed(vol, disk, first, n)))
    }

    lemma LoadingStep(m: seq<byte>, m': seq<byte>, exec: nat, c: nat, bytes: nat, n: nat, first: nat, vol: Volume,
                      good: bool, c': nat, bytes': nat)
      requires bytes' == bytes + vol.ClusterSize()
      requires Loading(m, exec, c, bytes, n, first, vol, good) && c < END_OF_CHAIN
      requires good ==> ClusterAdded(m, m', exec, Passed(vol, disk, first, n), c, vol, c')
      ensures Loading(m', exec, c', bytes', n + 1, first, vol, good)
    {
    }

    method LoadTurn(exec: nat, c: nat, bytes: nat, ghost n: nat, ghost first: nat, ghost e: Block, ghost vol: Volume,
                    ghost good: bool) returns (c': nat, bytes': nat)
      requires Ready() && vol == Vol() && spc > 0 && c < END_OF_CHAIN
      requires good ==> Reliable(disk) && CanAlloc(heap.Blocks, SECTOR)
      requires e in heap.Blocks && !e.free && exec == e.Payload()
      requires bytes + vol.ClusterSize() <= e.size && bytes + vol.ClusterSize() < U32
      requires |Passed(vol, disk, first, n)| == bytes
      requires Loading(heap.mem[..], exec, c, bytes, n, first, vol, good)
      modifies heap.mem, heap`Blocks, this`commands
      ensures Ready() && Settled(old(heap.Blocks), heap.Blocks, SECTOR)
      ensures Loading(heap.mem[..], exec, c', bytes', n + 1, first, vol, good)
      ensures bytes < bytes' && c' < U32
    {
      ghost var m := heap.mem[..];
      c' := LoadCluster(exec, bytes, c, e, Passed(vol, disk, first, n), good);
      bytes' := (bytes + SECTOR * spc) % U32;
      LoadingStep(m, heap.mem[..], exec, c, bytes, n, first, vol, good, c', bytes');
    }

    lemma LoadedTheFile(m: seq<byte>, exec: nat, c: nat, bytes: nat, n: nat, first: nat, size: nat, vol: Volume)
      requires Loading(m, exec, c, bytes, n, first, vol, true) && vol.spc > 0
      requires n <= CeilDiv(size, vol.ClusterSize()) && (c >= END_OF_CHAIN || bytes >= size)
      ensures Holds(m, exec, AbstractFile(vol, disk, first, size))
    {
      StoppedWithTheFile(vol, disk, first, n, size);
    }

    /** The load loop of ExecuteFirstFile: whole clusters into `exec`, whether a read succeeds or not. */
    method LoadChain(exec: nat, first: nat, size: nat, ghost e: Block) returns (ghost n: nat)
      requires Ready() && spc > 0 && first < U32 && size + Vol().ClusterSize() <= U32
      requires e in heap.Blocks && !e.free && exec == e.Payload()
      requires CeilDiv(size, Vol().ClusterSize()) * Vol().ClusterSize() <= e.size
      modifies heap.mem, heap`Blocks, this`commands
      ensures Ready() && Settled(old(heap.Blocks), heap.Blocks, SECTOR)
      ensures n <= CeilDiv(size, Vol().ClusterSize())
      ensures Reliable(disk) && CanAlloc(old(heap.Blocks), SECTOR) ==>
                Holds(heap.mem[..], exec, AbstractFile(Vol(), disk, first, size))
    {
      var c: nat, bytes: nat := first, 0;
      n := 0;
      ghost var vol, bs, good := Vol(), heap.Blocks, Reliable(disk) && CanAlloc(heap.Blocks, SECTOR);
      MemberInside(bs, heap.lo, heap.hi, e);
      while c < END_OF_CHAIN && bytes < size
        invariant Ready() && Settled(bs, heap.Blocks, SECTOR) && Vol() == vol && c < U32
        invariant n <= CeilDiv(size, vol.ClusterSize())
        invariant Loading(heap.mem[..], exec, c, bytes, n, first, vol, good)
        decreases size - bytes
      {
        ghost var before := heap.Blocks;
        NextTurn(vol, disk, first, n, size, e.size);
        c, bytes := LoadTurn(exec, c, bytes, n, first, e, vol, good);
        SettledOn(bs, before, heap.Blocks, SECTOR);
        n := n + 1;
      }
      if good { LoadedTheFile(heap.mem[..], exec, c, bytes, n, first, size, vol); }
    }

    /** After n turns of the autopsy loop, `whole` of whose data reads delivered a cluster: what has been drawn,
        and where the walk stands. */
    ghost predicate Drawing(c: nat, drawn: seq<byte>, n: nat, whole: nat, first: nat, size: nat, vol: Volume,
                            good: bool) {
      && |drawn| == Min(Total(whole, vol.ClusterSize()), size)
      && (good ==> c == Reached(vol, disk, first, n) && Unbroken(vol, disk, first, n)
                   && drawn == Cut(Passed(vol, disk, first, n), size))
    }

    lemma DrawingStep(c: nat, drawn: seq<byte>, n: nat, whole: nat, first: nat, size: nat, vol: Volume, good: bool,
                      ok: bool, c': nat, drawn': seq<byte>, whole': nat)
      requires whole' == if ok then whole + 1 else whole
      requires Drawing(c, drawn, n, whole, first, size, vol, good) && c < END_OF_CHAIN
      requires drawn' == if ok then drawn + Cut(ClusterBytes(vol, disk, c), size - |drawn|) else drawn
      requires good ==> ok && c' == Next(vol, disk, c)
      ensures Drawing(c', drawn', n + 1, whole', first, size, vol, good)
    {
      if good { CutGrows(Passed(vol, disk, first, n), ClusterBytes(vol, disk, c), size); }
    }

    method DrawBytes(buffer: nat, drawn: seq<byte>, size: nat, ghost data: seq<byte>) returns (drawn': seq<byte>)
      requires |drawn| <= size && |data| == SECTOR * spc && Holds(heap.mem[..], buffer, data)
      ensures drawn' == drawn + Cut(data, size - |drawn|)
    {
      drawn' := drawn;
      var b := 0;
      while b < SECTOR * spc && |drawn'| < size
        invariant b <= SECTOR * spc && |drawn'| == |drawn| + b <= size
        invariant drawn' == drawn + data[..b]
      {
        assert heap.mem[buffer + b] == data[b];
        drawn' := drawn' + [heap.mem[buffer + b]];
        b := b + 1;
      }
    }

    /** A cluster into a fresh buffer, its bytes drawn up to the file size, the buffer given back.  The
        buffer is not checked: a NULL one is the memory at address 0. */
    method DrawCluster(c: nat, drawn: seq<byte>, size: nat) returns (drawn': seq<byte>, ok: bool)
      requires Ready() && c < U32 && |drawn| <= size
      modifies heap.mem, heap`Blocks, this`commands
      ensures Ready() && Settled(old(heap.Blocks), heap.Blocks, SECTOR)
      ensures commands == old(commands) + 1 && ok == (disk.delivered(old(commands)) >= spc)
      ensures drawn' == if ok then drawn + Cut(ClusterBytes(Vol(), disk, c), size - |drawn|) else drawn
    {
      ghost var bs, n, data := heap.Blocks, SECTOR * spc, ClusterBytes(Vol(), disk, c);
      BufferPlace(bs, heap.lo, heap.hi, n);
      var buffer := heap.Malloc(SECTOR * spc);
      ok := AtaReadSectors(ClusterSector(Vol(), c), spc, buffer);
      drawn' := drawn;
      if ok {
        drawn' := DrawBytes(buffer, drawn, size, data);
      }
      GiveBack(buffer, bs, n);
    }

    /** The commands one turn issues: a data read and, when there is a buffer for it, a FAT read. */
    ghost function Stride(bs: Blocks): nat { if CanAlloc(bs, SECTOR) then 2 else 1 }

    ghost function Whole(vol: Volume, t: nat, bs: Blocks, n: nat): nat { WholeReads(vol, disk, t, Stride(bs), n) }

    /** The loop after n turns of which the first issued command t. */
    ghost predicate Walking(c: nat, drawn: seq<byte>, n: nat, t: nat, bs: Blocks, first: nat, size: nat, vol: Volume,
                            good: bool)
      requires vol.spc > 0
    {
      && Whole(vol, t, bs, n) <= CeilDiv(size, vol.ClusterSize())
      && Drawing(c, drawn, n, Whole(vol, t, bs, n), first, size, vol, good)
    }

    lemma WalkingStep(c: nat, drawn: seq<byte>, n: nat, t: nat, bs: Blocks, first: nat, size: nat, vol: Volume,
                      good: bool, ok: bool, c': nat, drawn': seq<byte>)
      requires vol.spc > 0 && Walking(c, drawn, n, t, bs, first, size, vol, good) && c < END_OF_CHAIN && |drawn| < size
      requires ok == (disk.delivered(t + Total(n, Stride(bs))) >= vol.spc)
      requires drawn' == if ok then drawn + Cut(ClusterBytes(vol, disk, c), size - |drawn|) else drawn
      requires good ==> ok && c' == Next(vol, disk, c)
      ensures Walking(c', drawn', n + 1, t, bs, first, size, vol, good)
    {
      var whole := Whole(vol, t, bs, n);
      var whole' := Whole(vol, t, bs, n + 1);
      assert whole' == if ok then whole + 1 else whole;
      MissingBytes(vol, size, whole);
      DrawingStep(c, drawn, n, whole, first, size, vol, good, ok, c', drawn', whole');
    }

    method AutopsyTurn(c: nat, drawn: seq<byte>, size: nat, ghost n: nat, ghost t: nat, ghost bs: Blocks,
                       ghost first: nat, ghost good: bool) returns (c': nat, drawn': seq<byte>)
      requires Ready() && Settled(bs, heap.Blocks, SECTOR) && spc > 0 && c < END_OF_CHAIN && |drawn| < size
      requires good ==> Reliable(disk) && CanAlloc(bs, SECTOR)
      requires commands == t + Total(n, Stride(bs))
      requires Walking(c, drawn, n, t, bs, first, size, Vol(), good)
      modifies heap.mem, heap`Blocks, this`commands
      ensures Ready() && Settled(bs, heap.Blocks, SECTOR) && c' < U32
      ensures commands == t + Total(n + 1, Stride(bs))
      ensures Walking(c', drawn', n + 1, t, bs, first, size, Vol(), good)
    {
      ghost var v, bs0 := Vol(), heap.Blocks;
      var ok;
      drawn', ok := DrawCluster(c, drawn, size);
      ghost var bs1 := heap.Blocks;
      SettledOn(bs, bs0, bs1, SECTOR);
      c' := GetNextCluster(c);
      SettledOn(bs, bs1, heap.Blocks, SECTOR);
      WalkingStep(c, drawn, n, t, bs, first, size, v, good, ok, c', drawn');
    }

    /** What the loop's counters say when it stops, whatever was read. */
    ghost predicate Bounded(drawn: seq<byte>, n: nat, size: nat, fuel: nat, finished: bool, whole: nat, vol: Volume)
      requires vol.spc > 0
    {
      && n <= fuel && (!finished ==> n == fuel && whole < CeilDiv(size, vol.ClusterSize()))
      && whole <= CeilDiv(size, vol.ClusterSize()) && |drawn| == Min(Total(whole, vol.ClusterSize()), size)
    }

    lemma WalkEnds(c: nat, drawn: seq<byte>, n: nat, t: nat, bs: Blocks, first: nat, size: nat, vol: Volume,
                   good: bool, fuel: nat)
      requires vol.spc > 0 && vol.InRange() && Walking(c, drawn, n, t, bs, first, size, vol, good) && n <= fuel
      requires good ==> Reliable(disk)
      requires n == fuel || c >= END_OF_CHAIN || |drawn| >= size
      ensures Bounded(drawn, n, size, fuel, c >= END_OF_CHAIN || |drawn| >= size, Whole(vol, t, bs, n), vol)
      ensures good && (c >= END_OF_CHAIN || |drawn| >= size) ==> drawn == AbstractFile(vol, disk, first, size)
    {
      MissingBytes(vol, size, Whole(vol, t, bs, n));
      if good && (c >= END_OF_CHAIN || |drawn| >= size) {
        NoReadFails(vol, disk, t, Stride(bs), n);
        StoppedWithTheFile(vol, disk, first, n, size);
      }
    }

    /** The autopsy loop, given `fuel` turns: with reads that fail forever on a cyclic chain it need not
        end.  Of its turns at most ceil(size / cluster size) read a whole cluster, on any FAT, so it ends within
        that many when no data read fails. */
    method AutopsyChain(first: nat, size: nat, fuel: nat) returns (finished: bool, drawn: seq<byte>, n: nat)
      requires Ready() && spc > 0 && first < U32
      modifies heap.mem, heap`Blocks, this`commands
      ensures Ready() && Settled(old(heap.Blocks), heap.Blocks, SECTOR)
      ensures commands == old(commands) + Total(n, Stride(old(heap.Blocks)))
      ensures Bounded(drawn, n, size, fuel, finished, Whole(Vol(), old(commands), old(heap.Blocks), n), Vol())
      ensures finished && Reliable(disk) && CanAlloc(old(heap.Blocks), SECTOR) ==>
                drawn == AbstractFile(Vol(), disk, first, size)
    {
      var c: nat := first;
      drawn, n := [], 0;
      ghost var vol, bs, t, good := Vol(), heap.Blocks, commands, Reliable(disk) && CanAlloc(heap.Blocks, SECTOR);
      while c < END_OF_CHAIN && |drawn| < size && n < fuel
        invariant Ready() && Settled(bs, heap.Blocks, SECTOR) && Vol() == vol && c < U32 && n <= fuel
        invariant commands == t + Total(n, Stride(bs)) && Walking(c, drawn, n, t, bs, first, size, vol, good)
        decreases fuel - n
      {
        c, drawn := AutopsyTurn(c, drawn, size, n, t, bs, first, good);
        n := n + 1;
      }
      finished := c >= END_OF_CHAIN || |drawn| >= size;
      WalkEnds(c, drawn, n, t, bs, first, size, vol, good, fuel);
    }

    // ------------------------------------------------------------ the commands

    /** The scan both file commands start with, over the directory cluster in `buffer`. */
    method FindFirstFile(buffer: nat, ghost dir: seq<byte>) returns (found: Option<nat>)
      requires |dir| == SECTOR * spc && Holds(heap.mem[..], buffer, dir)
      ensures found == FirstFile(dir, 0)
    {
      var i := 0;
      while i < SECTOR * spc / ENTRY
        invariant i <= EntryCount(dir) && FirstFile(dir, 0) == FirstFile(dir, i)
      {
        var name, attr := heap.mem[buffer + ENTRY * i], heap.mem[buffer + ENTRY * i + 11];
        assert name == dir[ENTRY * i] && attr == dir[ENTRY * i + 11];
        if name == 0 { break; }
        if name == 0xE5 || attr == 0x10 || attr == 0x0F { i := i + 1; continue; }
        return Some(i);
      }
      found := None;
    }

    /** Entry i of the directory in `buffer`: its first cluster and its size. */
    method ReadEntry(buffer: nat, i: nat, ghost dir: seq<byte>) returns (cluster: nat, size: nat)
      requires Holds(heap.mem[..], buffer, dir) && i < EntryCount(dir)
      ensures cluster == EntryCluster(dir, i) && size == EntrySize(dir, i)
    {
      var e := buffer + ENTRY * i;
      LoadHeld(heap.mem[..], buffer, dir, ENTRY * i + 20, 2);
      LoadHeld(heap.mem[..], buffer, dir, ENTRY * i + 26, 2);
      LoadHeld(heap.mem[..], buffer, dir, ENTRY * i + 28, 4);
      cluster := LoadLE(heap.mem[..], e + 20, 2) * 0x1_0000 + LoadLE(heap.mem[..], e + 26, 2);
      size := LoadLE(heap.mem[..], e + 28, 4);
    }

    /** One line of the listing. */
    method ReadRow(buffer: nat, i: nat, ghost dir: seq<byte>) returns (row: Row)
      requires Holds(heap.mem[..], buffer, dir) && i < EntryCount(dir)
      ensures row == RowOf(dir, i)
    {
      var e := buffer + ENTRY * i;
      LoadHeld(heap.mem[..], buffer, dir, ENTRY * i + 28, 4);
      assert heap.mem[e..e + 11] == dir[ENTRY * i..ENTRY * i + 11] && heap.mem[e + 11] == dir[ENTRY * i + 11];
      if heap.mem[e + 11] / 0x10 % 2 == 1 {
        row := Directory(heap.mem[e..e + 11]);
      } else {
        row := File(heap.mem[e..e + 11], LoadLE(heap.mem[..], e + 28, 4));
      }
    }

    method ListEntries(buffer: nat, ghost dir: seq<byte>) returns (rows: seq<Row>)
      requires |dir| == SECTOR * spc && Holds(heap.mem[..], buffer, dir)
      ensures rows == Listing(dir)
    {
      rows := [];
      var i := 0;
      ghost var shown: seq<nat> := [];
      while i < SECTOR * spc / ENTRY
        invariant i <= EntryCount(dir) && shown + Listed(dir, i) == Listed(dir, 0)
        invariant |rows| == |shown|
        invariant forall j :: 0 <= j < |rows| ==> shown[j] < EntryCount(dir) && rows[j] == RowOf(dir, shown[j])
      {
        var name, attr := heap.mem[buffer + ENTRY * i], heap.mem[buffer + ENTRY * i + 11];
        assert name == dir[ENTRY * i] && attr == dir[ENTRY * i + 11];
        if name == 0 { break; }
        if name != 0xE5 && attr != 0x0F {
          var row := ReadRow(buffer, i, dir);
          assert shown + ([i] + Listed(dir, i + 1)) == (shown + [i]) + Listed(dir, i + 1);
          rows, shown := rows + [row], shown + [i];
        }
        i := i + 1;
      }
      assert shown == Listed(dir, 0);
    }

    /** The directory cluster into `buffer` and the listing of it. */
    method ReadRows(buffer: nat) returns (rows: seq<Row>)
      requires Ready() && buffer + SECTOR * spc <= heap.mem.Length
      requires NoHeader(heap.Blocks, heap.lo, heap.hi, buffer, buffer + SECTOR * spc)
      modifies heap.mem, this`commands
      ensures Ready() && commands == old(commands) + 1
      ensures rows == if disk.delivered(old(commands)) >= spc then Listing(ClusterBytes(Vol(), disk, root)) else []
    {
      var ok := AtaReadSectors(ClusterSector(Vol(), root), spc, buffer);
      rows := [];
      if ok {
        rows := ListEntries(buffer, ClusterBytes(Vol(), disk, root));
      }
    }

    /** The listing by way of a buffer taken on list bs. */
    method ListFrom(buffer: nat, ghost bs: Blocks, ghost n: nat) returns (rows: seq<Row>)
      requires Ready() && n == SECTOR * spc && Tiles(bs, heap.lo, heap.hi)
      requires heap.Blocks == Malloc(bs, n) && buffer == MallocPtr(bs, n) && buffer + n <= heap.mem.Length
      requires NoHeader(heap.Blocks, heap.lo, heap.hi, buffer, buffer + n)
      modifies heap.mem, heap`Blocks, this`commands
      ensures Ready() && Returned(bs, heap.Blocks, n, SECTOR)
      ensures rows == if disk.delivered(old(commands)) >= spc then Listing(ClusterBytes(Vol(), disk, root)) else []
    {
      rows := ReadRows(buffer);
      GiveBack(buffer, bs, n);
    }

    method ListRootDirectory() returns (rows: seq<Row>)
      requires Ready()
      modifies heap.mem, heap`Blocks, this`commands
      ensures Ready() && Returned(old(heap.Blocks), heap.Blocks, SECTOR * spc, SECTOR)
      ensures rows == if CanAlloc(old(heap.Blocks), SECTOR * spc) && disk.delivered(old(commands)) >= spc
                      then Listing(ClusterBytes(Vol(), disk, root)) else []
    {
      ghost var bs, n := heap.Blocks, SECTOR * spc;
      rows := [];
      var buffer := heap.Malloc(SECTOR * spc);
      if buffer == 0 {
        NothingTaken(bs, n);
      } else {
        GrantedBlock(bs, heap.lo, heap.hi, n);
        rows := ListFrom(buffer, bs, n);
      }
    }

    /** The directory cluster into `dir` and the scan over it. */
    method ReadRoot(dir: nat) returns (entry: Option<nat>)
      requires Ready() && dir + SECTOR * spc <= heap.mem.Length
      requires NoHeader(heap.Blocks, heap.lo, heap.hi, dir, dir + SECTOR * spc)
      modifies heap.mem, this`commands
      ensures Ready() && commands == old(commands) + 1
      ensures entry == if disk.delivered(old(commands)) >= spc
                       then FirstFile(ClusterBytes(Vol(), disk, root), 0) else None
      ensures entry.Some? ==> Holds(heap.mem[..], dir, ClusterBytes(Vol(), disk, root))
    {
      var ok := AtaReadSectors(ClusterSector(Vol(), root), spc, dir);
      entry := None;
      if ok {
        entry := FindFirstFile(dir, ClusterBytes(Vol(), disk, root));
      }
    }

    /** Directory cluster into a fresh buffer and the scan over it; when it names no file the buffer goes
        back at once. */
    method OpenRoot() returns (dir: nat, entry: Option<nat>)
      requires Ready()
      modifies heap.mem, heap`Blocks, this`commands
      ensures Ready() && dir == MallocPtr(old(heap.Blocks), SECTOR * spc)
      ensures entry.None? ==> Settled(old(heap.Blocks), heap.Blocks, SECTOR)
      ensures entry.Some? ==> spc > 0 && heap.Blocks == Malloc(old(heap.Blocks), SECTOR * spc)
      ensures entry.Some? ==> CanAlloc(old(heap.Blocks), SECTOR * spc)
                              && Holds(heap.mem[..], dir, ClusterBytes(Vol(), disk, root))
      ensures entry == if CanAlloc(old(heap.Blocks), SECTOR * spc) && disk.delivered(old(commands)) >= spc
                       then FirstFile(ClusterBytes(Vol(), disk, root), 0) else None
      ensures commands == old(commands) + if CanAlloc(old(heap.Blocks), SECTOR * spc) then 1 else 0
    {
      ghost var bs, n := heap.Blocks, SECTOR * spc;
      GrantedIf(bs, heap.lo, heap.hi, n);
      dir := heap.Malloc(SECTOR * spc);
      if dir == 0 {
        NothingTaken(bs, n);
        return dir, None;
      }
      entry := ReadRoot(dir);
      if entry.None? { GiveBack(dir, bs, n); }
    }

    /** In `fuel` turns fewer data reads deliver than the first file has clusters. */
    ghost predicate Starved(bs: Blocks, v: Volume, t: nat, fuel: nat)
      requires v.spc > 0
    {
      var dir, mid := ClusterBytes(v, disk, v.root), Malloc(bs, v.ClusterSize());
      var f := FirstFile(dir, 0);
      f.Some? && Whole(v, t, mid, fuel) < CeilDiv(EntrySize(dir, f.value), v.ClusterSize())
    }

    lemma ReliableIsEnough(bs: Blocks, v: Volume, t: nat, fuel: nat)
      requires Reliable(disk) && v.InRange() && v.spc > 0 && fuel >= U32
      ensures !Starved(bs, v, t, fuel)
    {
      NoReadFails(v, disk, t, Stride(Malloc(bs, v.ClusterSize())), fuel);
      var dir := ClusterBytes(v, disk, v.root);
      var f := FirstFile(dir, 0);
      if f.Some? { FewTurns(EntrySize(dir, f.value), v.ClusterSize()); }
    }

    /** The autopsy loop over directory entry i, and the directory buffer back. */
    method DrawEntry(dir: nat, i: nat, fuel: nat, ghost bs: Blocks) returns (finished: bool, drawn: seq<byte>)
      requires Ready() && spc > 0 && heap.Blocks == Malloc(bs, SECTOR * spc) && dir == MallocPtr(bs, SECTOR * spc)
      requires Tiles(bs, heap.lo, heap.hi) && CanAlloc(bs, SECTOR * spc)
      requires Holds(heap.mem[..], dir, ClusterBytes(Vol(), disk, root))
      requires FirstFile(ClusterBytes(Vol(), disk, root), 0) == Some(i)
      modifies heap.mem, heap`Blocks, this`commands
      ensures finished ==> Ready() && Kept(bs, heap.Blocks)
      ensures !finished ==> Starved(bs, Vol(), old(commands), fuel)
      ensures finished && Serves(bs, Vol(), disk) ==> drawn == TheFile(Vol(), disk)
    {
      var cluster, size := ReadEntry(dir, i, ClusterBytes(Vol(), disk, root));
      var turns;
      finished, drawn, turns := AutopsyChain(cluster, size, fuel);
      HeldAndFreed(bs, heap.lo, heap.hi, SECTOR * spc, heap.Blocks);
      if finished { heap.Free(dir); }
    }

    /** `autopsy`: with a heap that can serve the two buffers and a drive that does not fail, the bytes
        drawn are the file's; whatever fails, once the command returns live blocks are where they were and a
        coalesced list is as it was, and it returns unless the turns it is given see too few whole data reads. */
    method AutopsyFirstFile(fuel: nat) returns (finished: bool, drawn: seq<byte>)
      requires Ready()
      modifies heap.mem, heap`Blocks, this`commands
      ensures finished ==> Ready() && Kept(old(heap.Blocks), heap.Blocks)
      ensures !finished ==> spc > 0 && Starved(old(heap.Blocks), Vol(), old(commands) + 1, fuel)
      ensures Reliable(disk) && fuel >= U32 ==> finished
      ensures finished && Serves(old(heap.Blocks), Vol(), disk) ==> drawn == TheFile(Vol(), disk)
    {
      ghost var bs := heap.Blocks;
      var dir, entry := OpenRoot();
      finished, drawn := true, [];
      if entry.Some? {
        if Reliable(disk) && fuel >= U32 { ReliableIsEnough(bs, Vol(), commands, fuel); }
        finished, drawn := DrawEntry(dir, entry.value, fuel, bs);
      }
    }

    method LoadFile(cluster: nat, size: nat) returns (exec: nat)
      requires Ready() && spc > 0 && cluster < U32 && Fits(heap.Blocks, Vol(), size)
      modifies heap.mem, heap`Blocks, this`commands
      ensures Ready() && Settled(Malloc(old(heap.Blocks), (size + 512) % U32), heap.Blocks, SECTOR)
      ensures exec == MallocPtr(old(heap.Blocks), (size + 512) % U32)
      ensures Reliable(disk) && CanAlloc(Malloc(old(heap.Blocks), (size + 512) % U32), SECTOR) ==>
                Holds(heap.mem[..], exec, AbstractFile(Vol(), disk, cluster, size))
    {
      ghost var bs, n := heap.Blocks, (size + 512) % U32;
      exec := heap.Malloc((size + 512) % U32);
      ghost var e := Grant(bs, n);
      GrantOnList(bs, n);
      ghost var turns := LoadChain(exec, cluster, size, e);
    }

    /** Directory entry i of the buffer `dir`, which was granted on the list `bs`, is loaded. */
    method LoadEntry(dir: nat, i: nat, ghost bs: Blocks) returns (exec: nat, size: nat)
      requires Ready() && CanAlloc(bs, SECTOR * spc) && heap.Blocks == Malloc(bs, SECTOR * spc)
      requires dir == MallocPtr(bs, SECTOR * spc)
      requires FileBufferFits(bs, Vol(), disk) && Holds(heap.mem[..], dir, ClusterBytes(Vol(), disk, root))
      requires FirstFile(ClusterBytes(Vol(), disk, root), 0) == Some(i)
      modifies heap.mem, heap`Blocks, this`commands
      ensures Ready() && BuffersTaken(bs, heap.Blocks, Vol(), dir, exec, size)
      ensures size == EntrySize(ClusterBytes(Vol(), disk, root), i)
      ensures LoadServes(bs, Vol(), disk, size) ==> Holds(heap.mem[..], exec, TheFile(Vol(), disk))
    {
      ghost var v, m1 := Vol(), heap.Blocks;
      FirstFileFits(bs, v, disk, i);
      var cluster;
      cluster, size := ReadEntry(dir, i, ClusterBytes(Vol(), disk, root));
      exec := LoadFile(cluster, size);
      BuffersAre(bs, m1, heap.Blocks, v, dir, exec, size);
    }

    /** `run`, up to the payload: directory buffer, file buffer, load loop.  The file buffer is not
        checked, so its request must succeed and cover the whole clusters the loop writes. */
    method LoadFirstFile() returns (dir: nat, exec: nat, found: bool, size: nat)
      requires Ready() && FileBufferFits(heap.Blocks, Vol(), disk)
      modifies heap.mem, heap`Blocks, this`commands
      ensures Ready() && (!found ==> Kept(old(heap.Blocks), heap.Blocks))
      ensures found == (CanAlloc(old(heap.Blocks), SECTOR * spc) && disk.delivered(old(commands)) >= spc
                        && FirstFile(ClusterBytes(Vol(), disk, root), 0).Some?)
      ensures found ==> size == FirstSize(Vol(), disk)
      ensures found ==> BuffersTaken(old(heap.Blocks), heap.Blocks, Vol(), dir, exec, size)
      ensures found && LoadServes(old(heap.Blocks), Vol(), disk, size) ==>
                Holds(heap.mem[..], exec, TheFile(Vol(), disk))
    {
      var entry;
      ghost var bs := heap.Blocks;
      exec, found, size := 0, false, 0;
      dir, entry := OpenRoot();
      if entry.Some? {
        found := true;
        exec, size := LoadEntry(dir, entry.value, bs);
      }
    }

    /** The end of `run` for a raw binary: both buffers back, last one first. */
    method Unload(dir: nat, exec: nat, ghost bs: Blocks, ghost size: nat)
      requires Ready() && Tiles(bs, heap.lo, heap.hi) && BuffersTaken(bs, heap.Blocks, Vol(), dir, exec, size)
      modifies heap.mem, heap`Blocks
      ensures Ready() && Kept(bs, heap.Blocks)
    {
      ghost var m1 := Malloc(bs, SECTOR * spc);
      MallocTiles(bs, heap.lo, heap.hi, SECTOR * spc);
      HeldAndFreed(m1, heap.lo, heap.hi, (size + 512) % U32, heap.Blocks);
      heap.Free(exec);
      HeldAndFreed(bs, heap.lo, heap.hi, SECTOR * spc, heap.Blocks);
      heap.Free(dir);
    }
  }
}
