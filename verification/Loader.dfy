/** The PE path of `run` over the kernel heap: the file buffer, the image and the import tables share
    memory with the block list (src/fat32.c, ExecuteFirstFile). */
module Loader {
  import opened Bytes
  import opened HeapSpec
  import opened Memory
  import FatSpec
  import Fat32
  import Sections
  import Imports
  import EntryScan

  const IMAGE: nat := 0x20_0000        // the 2 MiB sandbox

  /** A live block and the block granted next never meet. */
  lemma FileApartFromImage(bs: Blocks, lo: nat, hi: nat, e: Block, n: nat)
    requires Tiles(bs, lo, hi) && e in bs && !e.free && CanAlloc(bs, n)
    ensures Sections.Place(e.Payload(), e.size, MallocPtr(bs, n), n).Within(hi)
    ensures Fat32.Granted(bs, n).End() <= e.addr || e.End() <= Fat32.Granted(bs, n).addr
  {
    var i :| 0 <= i < |bs| && bs[i] == e;
    var f := FirstFit(bs, n);
    Inside(bs, lo, hi, i);
    Inside(bs, lo, hi, f);
    if i < f { InOrder(bs, lo, hi, i, f); }
    if f < i { InOrder(bs, lo, hi, f, i); }
  }

  /** The image byte at `off` is the byte of file m0 that the last section covering it puts there. */
  ghost predicate FromFile(m0: seq<byte>, m: seq<byte>, secs: seq<Sections.Section>, p: Sections.Place, off: nat)
    requires p.Within(|m0|) && |m| == |m0| && off < p.imageSize && Sections.InBounds(secs, p.fileSize, p.imageSize)
  {
    var s := Sections.LastCover(secs, |secs|, off);
    s.Some? ==> m[p.image + off] == m0[p.file + secs[s.value].raw + off - secs[s.value].va]
  }

  ghost predicate ImageOf(m0: seq<byte>, m: seq<byte>, secs: seq<Sections.Section>, p: Sections.Place) {
    && p.Within(|m0|) && |m| == |m0| && Sections.InBounds(secs, p.fileSize, p.imageSize)
    && forall off :: 0 <= off < p.imageSize ==> FromFile(m0, m, secs, p, off)
  }

  lemma MappedFromFile(m0: seq<byte>, m1: seq<byte>, m: seq<byte>, secs: seq<Sections.Section>, p: Sections.Place)
    requires p.Within(|m0|) && |m1| == |m0| && Sections.InBounds(secs, p.fileSize, p.imageSize)
    requires Agree(m0, m1, p.file, p.file + p.fileSize) && Sections.MappedUpTo(m1, m, secs, |secs|, p)
    ensures ImageOf(m0, m, secs, p)
  {
    forall off | 0 <= off < p.imageSize ensures FromFile(m0, m, secs, p, off) {
      assert Sections.ByteMapped(m1, m, secs, |secs|, p, off);
    }
  }

  method FillImage(heap: Heap, p: Sections.Place, ghost m0: seq<byte>)
    requires heap.Valid() && NoHeader(heap.Blocks, heap.lo, heap.hi, p.image, p.image + p.imageSize)
    requires p.Within(heap.mem.Length) && Sections.HasTable(heap.mem[..], p.file, p.fileSize)
    requires Sections.InBounds(Sections.FileSections(heap.mem[..], p.file, p.fileSize), p.fileSize, p.imageSize)
    requires |m0| == heap.mem.Length && Agree(m0, heap.mem[..], p.file, p.file + p.fileSize)
    modifies heap.mem
    ensures heap.Valid() && Agree(m0, heap.mem[..], p.file, p.file + p.fileSize)
    ensures ImageOf(m0, heap.mem[..], old(Sections.FileSections(heap.mem[..], p.file, p.fileSize)), p)
  {
    ghost var m1 := heap.mem[..];
    Sections.MapImage(heap.mem, p);
    MappedFromFile(m0, m1, heap.mem[..], Sections.FileSections(m1, p.file, p.fileSize), p);
    ListKept(m1, heap.mem[..], heap.Blocks, heap.lo, heap.hi, p.image, p.image + p.imageSize);
  }

  /** The image is allocated beside the live file buffer and the sections are copied into it: every covered
      image byte is the file byte of the last section covering it, and neither the file nor the block
      list suffers. */
  method LoadImage(heap: Heap, exec: nat, size: nat, ghost e: Block) returns (image: nat)
    requires heap.Valid() && e in heap.Blocks && !e.free && exec == e.Payload() && size <= e.size
    requires CanAlloc(heap.Blocks, IMAGE)
    requires Sections.HasTable(heap.mem[..], exec, size)
    requires Sections.InBounds(Sections.FileSections(heap.mem[..], exec, size), size, IMAGE)
    modifies heap.mem, heap`Blocks
    ensures heap.Valid() && heap.Blocks == Malloc(old(heap.Blocks), 2 * 1024 * 1024)
    ensures image == MallocPtr(old(heap.Blocks), 2 * 1024 * 1024)
    ensures Agree(old(heap.mem[..]), heap.mem[..], exec, exec + size)
    ensures ImageOf(old(heap.mem[..]), heap.mem[..], old(Sections.FileSections(heap.mem[..], exec, size)),
                    Sections.Place(exec, size, image, IMAGE))
  {
    ghost var m0, bs := heap.mem[..], heap.Blocks;
    FileApartFromImage(bs, heap.lo, heap.hi, e, IMAGE);
    Fat32.GrantedBlock(bs, heap.lo, heap.hi, IMAGE);
    image := heap.Malloc(IMAGE);
    Sections.FileSame(m0, heap.mem[..], exec, size);
    FillImage(heap, Sections.Place(exec, size, image, IMAGE), m0);
  }

  /** What binding the imports writes is the pool and the slots. */
  lemma BindingWrites(m: seq<byte>, ss: seq<Imports.Slot>, l: Imports.Loader, a: nat)
    requires l.pool + Imports.POOL <= |m| && Imports.Room(ss, l.pool, |m|) && a < |m|
    requires Imports.TRAMPOLINE * Imports.Names(ss) <= Imports.POOL
    requires Imports.Patch(Imports.Zeroed(m, l.pool, Imports.POOL), ss, l.pool, l.img, l.trap)[a] != m[a]
    ensures l.pool <= a < l.pool + Imports.POOL || exists s :: s in ss && s.ByName() && s.addr <= a < s.addr + 8
  {
    if !Imports.Written(ss, l.pool, a) {
      Imports.PatchFrame(Imports.Zeroed(m, l.pool, Imports.POOL), ss, l.pool, l.img, l.trap, a);
    }
  }

  lemma NoHeaderPart(bs: Blocks, lo: nat, hi: nat, x: nat, y: nat, a: nat)
    requires NoHeader(bs, lo, hi, x, y) && x <= a < y
    ensures NoHeader(bs, lo, hi, a, a + 1)
  {
  }

  lemma BoundList(m: seq<byte>, m': seq<byte>, bs: Blocks, lo: nat, hi: nat, ss: seq<Imports.Slot>, l: Imports.Loader)
    requires ListIn(m, bs) && Tiles(bs, lo, hi) && NoHeader(bs, lo, hi, l.img, l.img + IMAGE)
    requires l.pool + Imports.POOL <= lo && l.pool + Imports.POOL <= |m| && Imports.Room(ss, l.pool, |m|)
    requires Imports.TRAMPOLINE * Imports.Names(ss) <= Imports.POOL
    requires forall s :: s in ss ==> l.img <= s.addr && s.addr + 8 <= l.img + IMAGE
    requires m' == Imports.Patch(Imports.Zeroed(m, l.pool, Imports.POOL), ss, l.pool, l.img, l.trap)
    ensures ListIn(m', bs)
  {
    forall a: nat | a < |m| && m[a] != m'[a] ensures NoHeader(bs, lo, hi, a, a + 1) {
      BindingWrites(m, ss, l, a);
      if lo < a + 1 && a < hi { NoHeaderPart(bs, lo, hi, l.img, l.img + IMAGE, a); }
    }
    ListKeptBytes(m, m', bs, lo, hi);
  }

  /** What the loader relies on when it binds an image. */
  ghost predicate Bindable(heap: Heap, directory: nat, l: Imports.Loader, imports: seq<Imports.Import>)
    reads heap, heap.mem
  {
    && heap.Valid() && NoHeader(heap.Blocks, heap.lo, heap.hi, l.img, l.img + IMAGE)
    && l.trap < U64 && l.pool + Imports.POOL <= heap.lo <= heap.mem.Length
    && Imports.DirectoryAt(heap.mem[..], l.img, directory, imports)
    && Imports.WellPlaced(directory, imports, l.pool, heap.mem.Length)
    && Imports.Misses(directory, imports, l.pool, Imports.POOL)
    && Imports.TRAMPOLINE * Imports.Names(Imports.Flatten(imports)) <= Imports.POOL
    && forall s :: s in Imports.Flatten(imports) ==> l.img <= s.addr && s.addr + 8 <= l.img + IMAGE
  }

  /** Binding the imports of a loaded image leaves the block list alone. */
  method BindImage(heap: Heap, directory: nat, l: Imports.Loader, ghost imports: seq<Imports.Import>)
    requires Bindable(heap, directory, l, imports)
    modifies heap.mem
    ensures heap.Valid() && Imports.Room(Imports.Flatten(imports), l.pool, heap.mem.Length)
    ensures heap.mem[..] == Imports.Bound(old(heap.mem[..]), imports, l)
    ensures Imports.TablesApart(imports, l.pool, Imports.POOL) ==>
              Imports.AllBound(old(heap.mem[..]), heap.mem[..], imports, l)
  {
    ghost var m := heap.mem[..];
    Imports.PatchImports(heap.mem, directory, l, imports);
    BoundList(m, heap.mem[..], heap.Blocks, heap.lo, heap.hi, Imports.Flatten(imports), l);
  }

  // --------------------------------------------------------- from disk to entry

  /** A file with a section table whose sections lie in the file and in the image. */
  predicate IsProgram(f: seq<byte>) {
    Sections.HasTable(f, 0, |f|) && Sections.InBounds(Sections.FileSections(f, 0, |f|), |f|, IMAGE)
  }

  /** Image offset `off` holds the byte that the last section covering it has in file f. */
  predicate ProgramByte(f: seq<byte>, m: seq<byte>, image: nat, off: nat)
    requires IsProgram(f) && image + IMAGE <= |m| && off < IMAGE
  {
    var secs := Sections.FileSections(f, 0, |f|);
    var s := Sections.LastCover(secs, |secs|, off);
    s.Some? ==> m[image + off] == f[secs[s.value].raw + off - secs[s.value].va]
  }

  ghost predicate ProgramIn(f: seq<byte>, m: seq<byte>, image: nat) {
    IsProgram(f) && image + IMAGE <= |m| && forall off :: 0 <= off < IMAGE ==> ProgramByte(f, m, image, off)
  }

  lemma SectionMoved(m: seq<byte>, file: nat, f: seq<byte>, h: nat)
    requires Fat32.Holds(m, file, f) && h + Sections.SECTION_HEADER <= |f|
    ensures Sections.SectionAt(m, file + h) == Sections.SectionAt(f, h)
  {
    Fat32.LoadHeld(m, file, f, h + 12, 4);
    Fat32.LoadHeld(m, file, f, h + 16, 4);
    Fat32.LoadHeld(m, file, f, h + 20, 4);
  }

  lemma HeadersStep(m: seq<byte>, a: nat, f: seq<byte>, b: nat, count: nat)
    requires 0 < count && a + Sections.SECTION_HEADER * count <= |m| && b + Sections.SECTION_HEADER * count <= |f|
    requires Sections.SectionAt(m, a) == Sections.SectionAt(f, b)
    requires Sections.Headers(m, a + Sections.SECTION_HEADER, count - 1)
          == Sections.Headers(f, b + Sections.SECTION_HEADER, count - 1)
    ensures Sections.Headers(m, a, count) == Sections.Headers(f, b, count)
  {
  }

  lemma {:induction false} HeadersMoved(m: seq<byte>, file: nat, f: seq<byte>, table: nat, count: nat)
    requires Fat32.Holds(m, file, f) && table + Sections.SECTION_HEADER * count <= |f|
    ensures Sections.Headers(m, file + table, count) == Sections.Headers(f, table, count)
    decreases count
  {
    if count == 0 {
    } else {
      SectionMoved(m, file, f, table);
      HeadersMoved(m, file, f, table + Sections.SECTION_HEADER, count - 1);
      HeadersStep(m, file + table, f, table, count);
    }
  }

  lemma FieldsMoved(m: seq<byte>, file: nat, f: seq<byte>)
    requires Fat32.Holds(m, file, f) && Sections.HasTable(f, 0, |f|)
    ensures Sections.NtHeaders(m, file) == file + Sections.NtHeaders(f, 0)
    ensures Sections.TableCount(m, file) == Sections.TableCount(f, 0)
    ensures Sections.TableStart(m, file) == file + Sections.TableStart(f, 0)
  {
    var nt := Sections.NtHeaders(f, 0);
    Fat32.LoadHeld(m, file, f, 60, 4);
    Fat32.LoadHeld(m, file, f, nt + 6, 2);
    Fat32.LoadHeld(m, file, f, nt + 20, 2);
  }

  /** The section table is the same read in memory and read in the file. */
  lemma TableMoved(m: seq<byte>, file: nat, f: seq<byte>, size: nat)
    requires Fat32.Holds(m, file, f) && Sections.HasTable(f, 0, |f|) && |f| <= size && file + size <= |m|
    ensures Sections.HasTable(m, file, size)
    ensures Sections.FileSections(m, file, size) == Sections.FileSections(f, 0, |f|)
  {
    FieldsMoved(m, file, f);
    HeadersMoved(m, file, f, Sections.TableStart(f, 0), Sections.TableCount(f, 0));
  }

  lemma HeldByte(m: seq<byte>, a: nat, f: seq<byte>, k: nat)
    requires Fat32.Holds(m, a, f) && k < |f|
    ensures m[a + k] == f[k]
  {
    assert m[a..a + |f|][k] == f[k];
  }

  lemma ImageOfProgram(m0: seq<byte>, m: seq<byte>, f: seq<byte>, p: Sections.Place)
    requires IsProgram(f) && Fat32.Holds(m0, p.file, f) && |f| <= p.fileSize && p.imageSize == IMAGE
    requires ImageOf(m0, m, Sections.FileSections(f, 0, |f|), p)
    ensures ProgramIn(f, m, p.image)
  {
    var secs := Sections.FileSections(f, 0, |f|);
    forall off | 0 <= off < IMAGE ensures ProgramByte(f, m, p.image, off) {
      assert FromFile(m0, m, secs, p, off);
      var s := Sections.LastCover(secs, |secs|, off);
      if s.Some? { HeldByte(m0, p.file, f, secs[s.value].raw + off - secs[s.value].va); }
    }
  }

  /** The drive delivers, the three buffers are to be had, and the volume's first file is a program. */
  ghost predicate ProgramLoads(bs: Blocks, v: FatSpec.Volume, d: FatSpec.Disk) {
    && v.spc > 0 && FatSpec.FirstFile(FatSpec.ClusterBytes(v, d, v.root), 0).Some?
    && CanAlloc(bs, v.ClusterSize()) && Fat32.LoadServes(bs, v, d, Fat32.FirstSize(v, d))
    && CanAlloc(Fat32.Loaded(bs, v.ClusterSize(), Fat32.FirstSize(v, d)), IMAGE)
    && IsProgram(FatSpec.TheFile(v, d))
  }

  /** A loaded file into an image of its own. */
  method MapProgram(heap: Heap, exec: nat, size: nat, ghost e: Block, ghost f: seq<byte>) returns (image: nat)
    requires heap.Valid() && e in heap.Blocks && !e.free && exec == e.Payload() && |f| <= size <= e.size
    requires CanAlloc(heap.Blocks, IMAGE) && Fat32.Holds(heap.mem[..], exec, f) && IsProgram(f)
    modifies heap.mem, heap`Blocks
    ensures heap.Valid() && heap.Blocks == Malloc(old(heap.Blocks), IMAGE)
    ensures image == MallocPtr(old(heap.Blocks), IMAGE)
    ensures NoHeader(heap.Blocks, heap.lo, heap.hi, image, image + IMAGE) && heap.lo <= image
    ensures ProgramIn(f, heap.mem[..], image)
  {
    ghost var m0 := heap.mem[..];
    Fat32.GrantedBlock(heap.Blocks, heap.lo, heap.hi, IMAGE);
    Fat32.MemberInside(heap.Blocks, heap.lo, heap.hi, e);
    TableMoved(m0, exec, f, size);
    image := LoadImage(heap, exec, size, e);
    ImageOfProgram(m0, heap.mem[..], f, Sections.Place(exec, size, image, IMAGE));
  }

  lemma LoadedBlock(bs: Blocks, bs': Blocks, v: FatSpec.Volume, d: FatSpec.Disk, dir: nat, exec: nat) returns (e: Block)
    requires ProgramLoads(bs, v, d) && Fat32.FileBufferFits(bs, v, d)
    requires Fat32.BuffersTaken(bs, bs', v, dir, exec, Fat32.FirstSize(v, d))
    ensures e in bs' && !e.free && e.Payload() == exec && |FatSpec.TheFile(v, d)| <= Fat32.FirstSize(v, d) <= e.size
    ensures CanAlloc(bs', IMAGE)
  {
    e := Fat32.FileBlock(bs, bs', v, d, dir, exec);
  }

  /** From the disk to the image: every covered image byte is the byte that the volume's first file has at its
      raw offset. */
  method LoadProgram(fs: Fat32.FileSystem) returns (image: nat)
    requires fs.Ready() && Fat32.FileBufferFits(fs.heap.Blocks, fs.Vol(), fs.disk)
    requires ProgramLoads(fs.heap.Blocks, fs.Vol(), fs.disk)
    modifies fs.heap.mem, fs.heap`Blocks, fs`commands
    ensures fs.Ready() && ProgramIn(FatSpec.TheFile(fs.Vol(), fs.disk), fs.heap.mem[..], image)
    ensures NoHeader(fs.heap.Blocks, fs.heap.lo, fs.heap.hi, image, image + IMAGE) && fs.heap.lo <= image
  {
    ghost var bs, v, d, f := fs.heap.Blocks, fs.Vol(), fs.disk, FatSpec.TheFile(fs.Vol(), fs.disk);
    var dir, exec, found, size := fs.LoadFirstFile();
    ghost var e := LoadedBlock(bs, fs.heap.Blocks, v, d, dir, exec);
    image := MapProgram(fs.heap, exec, size, e, f);
  }

  /** The memory as the scanner's pointers see it. */
  function Flat(m: seq<byte>): nat -> byte {
    (a: nat) => if a < |m| then m[a] else 0
  }

  /** After the imports are bound, image byte `off` is the file's unless a by-name slot covers it. */
  ghost predicate BoundByte(f: seq<byte>, m: seq<byte>, image: nat, imports: seq<Imports.Import>, off: nat)
    requires IsProgram(f) && image + IMAGE <= |m| && off < IMAGE
  {
    !Imports.NamedSlot(Imports.Flatten(imports), image + off) ==> ProgramByte(f, m, image, off)
  }

  lemma BoundProgram(f: seq<byte>, m: seq<byte>, m': seq<byte>, l: Imports.Loader, imports: seq<Imports.Import>)
    requires ProgramIn(f, m, l.img) && |m'| == |m| && Imports.AllBound(m, m', imports, l)
    requires l.pool + Imports.POOL <= l.img
    ensures forall off :: 0 <= off < IMAGE ==> BoundByte(f, m', l.img, imports, off)
  {
    forall off | 0 <= off < IMAGE ensures BoundByte(f, m', l.img, imports, off) {
      assert ProgramByte(f, m, l.img, off) && Imports.Untouched(m, m', imports, l, l.img + off);
    }
  }

  /** The imports bound and the entry point looked for: all but the by-name slots is still the file's, every import is
      bound exactly, no heap header is touched, and the entry is what the scan of that memory gives. */
  method StartProgram(heap: Heap, directory: nat, l: Imports.Loader, entry: nat, ghost imports: seq<Imports.Import>,
                      ghost f: seq<byte>) returns (start: nat)
    requires Bindable(heap, directory, l, imports) && Imports.TablesApart(imports, l.pool, Imports.POOL)
    requires ProgramIn(f, heap.mem[..], l.img) && heap.lo <= l.img && entry < U64
    modifies heap.mem
    ensures heap.Valid() && |old(heap.mem[..])| == |heap.mem[..]|
    ensures Imports.AllBound(old(heap.mem[..]), heap.mem[..], imports, l)
    ensures forall off :: 0 <= off < IMAGE ==> BoundByte(f, heap.mem[..], l.img, imports, off)
    ensures exists x :: EntryScan.Verdict(EntryScan.From(Flat(heap.mem[..]), entry), x)
                     && EntryScan.Answers(EntryScan.From(Flat(heap.mem[..]), entry), x) && start == (entry + x) % U64
  {
    ghost var m := heap.mem[..];
    BindImage(heap, directory, l, imports);
    BoundProgram(f, m, heap.mem[..], l, imports);
    start := EntryScan.FindOriginalEntryPoint(Flat(heap.mem[..]), entry);
  }
}
