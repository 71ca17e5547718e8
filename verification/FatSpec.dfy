/** A FAT32 volume as the kernel sees it: the disk, the sector arithmetic, and the bytes of a file.
    Microsoft FAT32 File System Specification, version 1.03. */
module FatSpec {
  import opened Arith
  import opened Bytes

  /** `image(k)` is byte k of the drive.  `delivered(t)` is the number of sectors the drive hands over
      for the t-th read command before it reports an error or stays silent. */
  datatype Disk = Disk(image: nat -> byte, delivered: nat -> nat)

  ghost predicate Reliable(d: Disk) { forall t :: d.delivered(t) >= 256 }

  const SECTOR: nat := 512
  const LBA28: nat := 0x1000_0000
  const END_OF_CHAIN: nat := 0x0FFF_FFF8

  /** The four globals InitFAT32 fills; `spc` is sectors_per_cluster. */
  datatype Volume = Volume(fatStart: nat, dataStart: nat, root: nat, spc: nat) {
    /** The FAT starts behind the reserved sectors, counted in 16 bits. */
    predicate InRange() { fatStart < 0x1_0000 && dataStart < U32 && root < U32 && spc < 256 }
    function ClusterSize(): nat { SECTOR * spc }
  }

  /** The fields of the BIOS parameter block: offsets 13, 14, 16, 36 and 44. */
  function ParseBpb(b: seq<byte>): (v: Volume)
    requires |b| >= SECTOR
    ensures v.InRange()
  {
    Widths();
    Volume(LoadLE(b, 14, 2), (LoadLE(b, 14, 2) + b[16] * LoadLE(b, 36, 4)) % U32, LoadLE(b, 44, 4), b[13])
  }

  /** A boot sector that spells its fields is read as what it says: the data follows the reserved sectors and the
      FATs. */
  lemma BootSectorReads(b: seq<byte>, spc: byte, reserved: nat, fats: byte, fatSize: nat, root: nat)
    requires |b| >= 512 && b[13] == spc && Spells2(b, 14, reserved) && b[16] == fats
    requires Spells4(b, 36, fatSize) && Spells4(b, 44, root)
    ensures ParseBpb(b) == Volume(reserved, (reserved + fats * fatSize) % 0x1_0000_0000, root, spc)
  {
    Load2Spelt(b, 14, reserved);
    Load4Spelt(b, 36, fatSize);
    Load4Spelt(b, 44, root);
  }

  /** What a read command for `count` sectors at `lba` delivers; the drive is given 28 address bits. */
  function ReadBytes(d: Disk, lba: nat, count: nat): (s: seq<byte>)
    ensures |s| == SECTOR * count
  {
    seq<byte>(SECTOR * count, (k: int) requires 0 <= k => d.image(SECTOR * (lba % LBA28) + k))
  }

  // 32-bit unsigned arithmetic, as the C expressions compute it
  function FatSector(v: Volume, c: nat): nat { (v.fatStart + (c * 4 % U32) / SECTOR) % U32 }
  function FatOffset(c: nat): (o: nat)
    ensures o + 4 <= SECTOR
  {
    (c * 4 % U32) % SECTOR
  }

  function ClusterSector(v: Volume, c: nat): nat { (v.dataStart + (c - 2) * v.spc) % U32 }

  function Next(v: Volume, d: Disk, c: nat): nat {
    LoadLE(ReadBytes(d, FatSector(v, c), 1), FatOffset(c), 4) % LBA28
  }

  function ClusterBytes(v: Volume, d: Disk, c: nat): (s: seq<byte>)
    ensures |s| == v.ClusterSize()
  {
    ReadBytes(d, ClusterSector(v, c), v.spc)
  }

  function Min(a: nat, b: nat): nat { if a < b then a else b }

  // ---------------------------------------------------------- FAT addressing

  function BytesAt(d: Disk, p: nat): nat {
    FromBytes(d.image(p), d.image(p + 1), d.image(p + 2), d.image(p + 3))
  }

  /** The FAT entry of cluster c by the specification: the low 28 bits of the little-endian 32-bit
      number at byte 4c of the table. */
  function FatEntry(v: Volume, d: Disk, c: nat): nat {
    BytesAt(d, 512 * v.fatStart + 4 * c) % 0x1000_0000
  }

  /** Nothing wraps: the sector is one the drive can name, and the entry is at byte 4c of the table. */
  lemma EntryPosition(v: Volume, c: nat)
    requires v.InRange() && c < END_OF_CHAIN
    ensures FatSector(v, c) == v.fatStart + c / 128 < LBA28
    ensures SECTOR * FatSector(v, c) + FatOffset(c) == SECTOR * v.fatStart + 4 * c
  {
    assert c * 4 % U32 == c * 4;
    assert c * 4 / SECTOR == c / 128;
  }

  lemma LoadFromSector(d: Disk, s: nat, o: nat)
    requires s < LBA28 && o + 4 <= SECTOR
    ensures LoadLE(ReadBytes(d, s, 1), o, 4) == BytesAt(d, SECTOR * s + o)
  {
    var b, p := ReadBytes(d, s, 1), SECTOR * s + o;
    LoadFour(b, o);
    assert b[o] == d.image(p + 0) && b[o + 1] == d.image(p + 1);
    assert b[o + 2] == d.image(p + 2) && b[o + 3] == d.image(p + 3);
  }

  lemma NextFrom(v: Volume, d: Disk, c: nat, s: nat, o: nat, p: nat)
    requires s == FatSector(v, c) && o == FatOffset(c) && s < LBA28 && p == SECTOR * s + o
    ensures Next(v, d, c) == BytesAt(d, p) % LBA28
  {
    LoadFromSector(d, s, o);
  }

  lemma EntryPlace(v: Volume, c: nat) returns (s: nat, o: nat, p: nat)
    requires v.InRange() && c < END_OF_CHAIN
    ensures s == FatSector(v, c) && o == FatOffset(c) && s < LBA28
    ensures p == SECTOR * s + o && p == SECTOR * v.fatStart + 4 * c
  {
    EntryPosition(v, c);
    s, o, p := FatSector(v, c), FatOffset(c), SECTOR * v.fatStart + 4 * c;
  }

  /** With sectors of 512 bytes, whatever else was mounted, the entry is read from the right place. */
  lemma NextReadsTheEntry(v: Volume, d: Disk, c: nat)
    requires v.InRange() && c < END_OF_CHAIN
    ensures Next(v, d, c) == FatEntry(v, d, c)
  {
    var s, o, p := EntryPlace(v, c);
    NextFrom(v, d, c, s, o, p);
  }

  /** Distinct clusters own disjoint entries, each within one sector. */
  lemma EntriesDisjoint(v: Volume, c: nat, c': nat)
    requires v.InRange() && c < c' < END_OF_CHAIN
    ensures FatOffset(c) + 4 <= SECTOR && FatOffset(c') + 4 <= SECTOR
    ensures SECTOR * FatSector(v, c) + FatOffset(c) + 4 <= SECTOR * FatSector(v, c') + FatOffset(c')
  {
    EntryPosition(v, c);
    EntryPosition(v, c');
  }

  lemma OneOfFour(b0: nat, b1: nat, b2: nat, b3: nat)
    requires b0 + b1 + b2 + b3 <= 1
    ensures FromBytes(b0, b1, b2, b3) % LBA28 == 1 <==> b0 == 1
  {
    var v := FromBytes(b0, b1, b2, b3);
    if b0 + b1 + b2 + b3 == 0 {
      assert v == 0;
    } else if b0 == 1 {
      assert v == 1;
    } else if b1 == 1 {
      assert v == 0x100;
    } else if b2 == 1 {
      assert v == 0x1_0000;
    } else {
      assert v == 0x100_0000;
    }
    DivIs(v, LBA28, 0, v);
  }

  function Bit(k: nat, p: nat): (b: byte)
    ensures b == 1 <==> k == p
  {
    if k == p then 1 else 0
  }

  /** A disk that is zero but for a one at p. */
  function OneAt(p: nat): Disk { Disk((k: nat) => Bit(k, p), (t: nat) => 0) }

  lemma ReadOne(p: nat, q: nat)
    ensures BytesAt(OneAt(p), q) % LBA28 == 1 <==> q == p
  {
    OneOfFour(Bit(q, p), Bit(q + 1, p), Bit(q + 2, p), Bit(q + 3, p));
    assert BytesAt(OneAt(p), q) == FromBytes(Bit(q, p), Bit(q + 1, p), Bit(q + 2, p), Bit(q + 3, p));
  }

  function BytesPerSector(b: seq<byte>): nat
    requires |b| >= SECTOR
  {
    LoadLE(b, 11, 2)
  }

  /** Where the specification places the entry of cluster c: `start` sectors of `size` bytes are reserved. */
  function SpecPosition(size: nat, start: nat, c: nat): nat { size * start + 4 * c }

  lemma SectorSizes(size: nat, start: nat, c: nat)
    ensures SpecPosition(size, start, c) == SECTOR * start + 4 * c <==> start == 0 || size == SECTOR
  {
    if size < SECTOR && start > 0 { MulMono(1, start, SECTOR - size); }
    if size > SECTOR && start > 0 { MulMono(1, start, size - SECTOR); }
    assert size * start - SECTOR * start == (size - SECTOR) * start;
  }

  lemma SizeMatters(v: Volume, size: nat, c: nat)
    requires v.InRange() && c < END_OF_CHAIN
    ensures (forall d {:trigger Next(v, d, c)} ::
               Next(v, d, c) == BytesAt(d, SpecPosition(size, v.fatStart, c)) % LBA28)
       <==> v.fatStart == 0 || size == SECTOR
  {
    var p, q := 512 * v.fatStart + 4 * c, SpecPosition(size, v.fatStart, c);
    SectorSizes(size, v.fatStart, c);
    forall d ensures Next(v, d, c) == BytesAt(d, p) % LBA28 { NextReadsTheEntry(v, d, c); }
    if p != q {
      ReadOne(p, p);
      ReadOne(p, q);
      assert Next(v, OneAt(p), c) != BytesAt(OneAt(p), q) % LBA28;
    }
  }

  /** The bytes per sector of a boot sector are never looked at, so the lookup is right on every disk exactly when
      they are 512, or no sector is reserved. */
  lemma SectorSizeMatters(b: seq<byte>, c: nat)
    requires |b| >= SECTOR && c < END_OF_CHAIN
    ensures var v, size := ParseBpb(b), BytesPerSector(b);
            ((forall d {:trigger Next(v, d, c)} ::
                Next(v, d, c) == BytesAt(d, SpecPosition(size, v.fatStart, c)) % LBA28)
             <==> v.fatStart == 0 || size == SECTOR)
  {
    SizeMatters(ParseBpb(b), BytesPerSector(b), c);
  }

  // --------------------------------------------------------- data addressing

  /** Where a cluster's data lies by the specification. */
  function FirstDataSector(v: Volume, c: nat): nat
    requires c >= 2
  {
    v.dataStart + (c - 2) * v.spc
  }

  /** Cluster 2 comes first, and each is followed by the next. */
  lemma DataSectors(v: Volume, c: nat)
    requires c >= 2
    ensures FirstDataSector(v, 2) == v.dataStart && FirstDataSector(v, c + 1) == FirstDataSector(v, c) + v.spc
  {
    assert (c - 1) * v.spc == (c - 2) * v.spc + v.spc;
  }

  function SpecBytes(v: Volume, d: Disk, c: nat): (s: seq<byte>)
    requires c >= 2
    ensures |s| == 512 * v.spc
  {
    seq<byte>(512 * v.spc, (k: int) requires 0 <= k => d.image(512 * FirstDataSector(v, c) + k))
  }

  /** On a volume whose sectors fit 32 bits the sector computed is the one the specification gives, and no
      two clusters share a sector. */
  lemma ClustersDisjoint(v: Volume, c: nat, c': nat)
    requires v.spc > 0 && 2 <= c < c' && FirstDataSector(v, c') + v.spc <= U32
    ensures ClusterSector(v, c) == FirstDataSector(v, c) && ClusterSector(v, c') == FirstDataSector(v, c')
    ensures FirstDataSector(v, c) + v.spc <= FirstDataSector(v, c')
  {
    var k := v.spc;
    MulMono(c - 1, c' - 2, k);
    assert (c - 1) * k == (c - 2) * k + k;
    MulMono(0, c - 2, k);
  }

  /** The 28 address bits the drive is given are those of the specification's sector, wrapped or not. */
  lemma SectorAsked(v: Volume, c: nat)
    requires c >= 2
    ensures ClusterSector(v, c) % LBA28 == FirstDataSector(v, c) % LBA28
  {
    MulMono(0, c - 2, v.spc);
  }

  /** The drive reads a cluster's own bytes, whatever they are, exactly when its first sector can be named
      in 28 bits. */
  lemma DriveReadsTheCluster(v: Volume, c: nat)
    requires v.spc > 0 && c >= 2
    ensures (forall d {:trigger ClusterBytes(v, d, c)} :: ClusterBytes(v, d, c) == SpecBytes(v, d, c))
       <==> FirstDataSector(v, c) < 0x1000_0000
  {
    SectorAsked(v, c);
    if FirstDataSector(v, c) < LBA28 {
      forall d ensures ClusterBytes(v, d, c) == SpecBytes(v, d, c) {}
    } else {
      var d := Disk((k: nat) => if k < SECTOR * LBA28 then 0 else 1, (t: nat) => 0);
      assert ClusterBytes(v, d, c)[0] == 0 && SpecBytes(v, d, c)[0] == 1;
    }
  }

  /** Two clusters of a volume that fits 32 bits, with 64 sectors a cluster and room for two FATs that hold both
      entries, which the drive cannot tell apart. */
  lemma ClustersConfused(d: Disk)
    ensures var v := Volume(32, 65570, 2, 64);
            && v.InRange() && FatSector(v, 0x40_0002) < 32 + 32769 && 32 + 2 * 32769 == v.dataStart
            && FirstDataSector(v, 0x40_0002) + v.spc <= U32
            && FirstDataSector(v, 2) + v.spc <= FirstDataSector(v, 0x40_0002)
            && ClusterBytes(v, d, 2) == ClusterBytes(v, d, 0x40_0002)
  {
  }

  // ------------------------------------------------------- the abstract file

  /** Up to n clusters of the chain that starts at c. */
  function Chain(v: Volume, d: Disk, c: nat, n: nat): seq<nat>
    decreases n
  {
    if n == 0 || c >= END_OF_CHAIN then [] else [c] + Chain(v, d, Next(v, d, c), n - 1)
  }

  function Concat(v: Volume, d: Disk, cs: seq<nat>): seq<byte> {
    if cs == [] then [] else ClusterBytes(v, d, cs[0]) + Concat(v, d, cs[1..])
  }

  function CeilDiv(n: nat, k: nat): nat
    requires k > 0
  {
    (n + k - 1) / k
  }

  function Cut(s: seq<byte>, size: nat): (r: seq<byte>)
    ensures |r| == Min(|s|, size) && r <= s
  {
    s[..Min(|s|, size)]
  }

  /** The file as the kernel's lookups and sector numbers give it: the clusters of its chain in order, cut to
      the file size. */
  function AbstractFile(v: Volume, d: Disk, c: nat, size: nat): seq<byte>
    requires v.spc > 0
  {
    Cut(Concat(v, d, Chain(v, d, c, CeilDiv(size, v.ClusterSize()))), size)
  }

  // ------------------------------------------- the file by the specification

  /** The first n clusters of the chain from c are data clusters that the drive can address, or it ends. */
  predicate Legal(v: Volume, d: Disk, c: nat, n: nat)
    decreases n
  {
    || n == 0 || c >= 0x0FFF_FFF8
    || (c >= 2 && FirstDataSector(v, c) < 0x1000_0000 && Legal(v, d, FatEntry(v, d, c), n - 1))
  }

  function SpecContents(v: Volume, d: Disk, c: nat, n: nat): seq<byte>
    requires Legal(v, d, c, n)
    decreases n
  {
    if n == 0 || c >= 0x0FFF_FFF8 then [] else SpecBytes(v, d, c) + SpecContents(v, d, FatEntry(v, d, c), n - 1)
  }

  lemma {:induction false} ContentsBySpec(v: Volume, d: Disk, c: nat, n: nat)
    requires v.InRange() && v.spc > 0 && Legal(v, d, c, n)
    ensures Concat(v, d, Chain(v, d, c, n)) == SpecContents(v, d, c, n)
    decreases n
  {
    if n == 0 || c >= END_OF_CHAIN {
    } else {
      NextReadsTheEntry(v, d, c);
      DriveReadsTheCluster(v, c);
      ContentsBySpec(v, d, FatEntry(v, d, c), n - 1);
      assert Chain(v, d, c, n)[1..] == Chain(v, d, FatEntry(v, d, c), n - 1);
    }
  }

  /** The specification's own account of a file: FAT entries, data sectors and bytes as it places them. */
  function SpecFile(v: Volume, d: Disk, c: nat, size: nat): seq<byte>
    requires v.spc > 0 && Legal(v, d, c, CeilDiv(size, 512 * v.spc))
  {
    Cut(SpecContents(v, d, c, CeilDiv(size, 512 * v.spc)), size)
  }

  /** On a legal chain the kernel's file is the specification's. */
  lemma FileBySpec(v: Volume, d: Disk, c: nat, size: nat)
    requires v.InRange() && v.spc > 0 && Legal(v, d, c, CeilDiv(size, 512 * v.spc))
    ensures AbstractFile(v, d, c, size) == SpecFile(v, d, c, size)
  {
    ContentsBySpec(v, d, c, CeilDiv(size, v.ClusterSize()));
  }

  // ------------------------------------------------ the file as a loop meets it

  /** The cluster reached after n turns, the bytes of those n clusters, and how many bytes that is. */
  function Reached(v: Volume, d: Disk, c: nat, n: nat): nat {
    if n == 0 then c else Next(v, d, Reached(v, d, c, n - 1))
  }

  function Passed(v: Volume, d: Disk, c: nat, n: nat): seq<byte> {
    if n == 0 then [] else Passed(v, d, c, n - 1) + ClusterBytes(v, d, Reached(v, d, c, n - 1))
  }

  function Total(n: nat, k: nat): nat {
    if n == 0 then 0 else Total(n - 1, k) + k
  }

  /** None of the n clusters passed was an end-of-chain mark. */
  predicate Unbroken(v: Volume, d: Disk, c: nat, n: nat) {
    n == 0 || (Unbroken(v, d, c, n - 1) && Reached(v, d, c, n - 1) < END_OF_CHAIN)
  }

  lemma {:induction false} PassedPrefix(v: Volume, d: Disk, c: nat, n: nat, more: nat)
    requires Unbroken(v, d, c, n)
    ensures Concat(v, d, Chain(v, d, c, n + more))
         == Passed(v, d, c, n) + Concat(v, d, Chain(v, d, Reached(v, d, c, n), more))
    decreases n
  {
    if n == 0 {
    } else {
      var last := Reached(v, d, c, n - 1);
      PassedPrefix(v, d, c, n - 1, more + 1);
      var cs := Chain(v, d, last, more + 1);
      assert cs[0] == last && cs[1..] == Chain(v, d, Next(v, d, last), more);
    }
  }

  lemma {:induction false} PassedLength(v: Volume, d: Disk, c: nat, n: nat)
    ensures |Passed(v, d, c, n)| == Total(n, v.ClusterSize()) == n * v.ClusterSize()
  {
    if n == 0 {
    } else {
      PassedLength(v, d, c, n - 1);
      assert n * v.ClusterSize() == (n - 1) * v.ClusterSize() + v.ClusterSize();
    }
  }

  lemma CeilDivBounds(size: nat, k: nat)
    requires k > 0
    ensures size <= CeilDiv(size, k) * k < size + k
  {
    var q, r := (size + k - 1) / k, (size + k - 1) % k;
    assert size + k - 1 == q * k + r;
  }

  /** Another turn is taken only while a cluster of the file is missing, and its cluster still fits in
      the rounded-up size. */
  lemma TurnFits(v: Volume, d: Disk, c: nat, n: nat, size: nat)
    requires v.spc > 0 && Total(n, v.ClusterSize()) < size
    ensures var k := v.ClusterSize();
            n < CeilDiv(size, k) && Total(n, k) + k <= CeilDiv(size, k) * k < size + k
  {
    var k := v.ClusterSize();
    PassedLength(v, d, c, n);
    CeilDivBounds(size, k);
    if CeilDiv(size, k) <= n { MulMono(CeilDiv(size, k), n, k); }
    MulMono(n + 1, CeilDiv(size, k), k);
    assert (n + 1) * k == n * k + k;
  }

  /** A loop that stops at the end of the chain, or with the size reached, has passed the whole file. */
  lemma StoppedWithTheFile(v: Volume, d: Disk, c: nat, n: nat, size: nat)
    requires v.spc > 0 && Unbroken(v, d, c, n)
    requires n <= CeilDiv(size, v.ClusterSize())
    requires Reached(v, d, c, n) >= END_OF_CHAIN || size <= Total(n, v.ClusterSize())
    ensures Cut(Passed(v, d, c, n), size) == AbstractFile(v, d, c, size)
  {
    var k, m := v.ClusterSize(), CeilDiv(size, v.ClusterSize());
    PassedPrefix(v, d, c, n, m - n);
    PassedLength(v, d, c, n);
  }

  // ---------------------------------------------------------- the directory

  const ENTRY: nat := 32

  function EntryCount(dir: seq<byte>): nat { |dir| / ENTRY }

  /** An entry both file commands pass over: deleted, a plain directory, or a long-name part. */
  predicate Skipped(dir: seq<byte>, i: nat)
    requires i < EntryCount(dir)
  {
    dir[ENTRY * i] == 0xE5 || dir[ENTRY * i + 11] == 0x10 || dir[ENTRY * i + 11] == 0x0F
  }

  /** Index of the first file from entry i on: the scan stops at a name that starts with 0. */
  function FirstFile(dir: seq<byte>, i: nat): (r: Option<nat>)
    decreases EntryCount(dir) - i
    ensures r.Some? ==> i <= r.value < EntryCount(dir) && !Skipped(dir, r.value)
  {
    if i >= EntryCount(dir) || dir[ENTRY * i] == 0 then None
    else if Skipped(dir, i) then FirstFile(dir, i + 1)
    else Some(i)
  }

  /** The entries `ls` shows from entry i on: it passes over deleted entries and long-name parts only. */
  function Listed(dir: seq<byte>, i: nat): seq<nat>
    decreases EntryCount(dir) - i
  {
    if i >= EntryCount(dir) || dir[ENTRY * i] == 0 then []
    else if dir[ENTRY * i] == 0xE5 || dir[ENTRY * i + 11] == 0x0F then Listed(dir, i + 1)
    else [i] + Listed(dir, i + 1)
  }

  /** `ls` shows the file that `autopsy` and `run` pick, and shows no file before it. */
  lemma {:induction false} FirstFileIsListed(dir: seq<byte>, i: nat)
    ensures FirstFile(dir, i).Some? ==>
              var f := FirstFile(dir, i).value;
              f in Listed(dir, i) && forall k :: k in Listed(dir, i) && k < f ==> dir[ENTRY * k + 11] == 0x10
    ensures forall k :: k in Listed(dir, i) ==> i <= k < EntryCount(dir)
    decreases EntryCount(dir) - i
  {
    if i >= EntryCount(dir) || dir[ENTRY * i] == 0 {
    } else {
      FirstFileIsListed(dir, i + 1);
    }
  }

  function EntryCluster(dir: seq<byte>, i: nat): (c: nat)
    requires i < EntryCount(dir)
    ensures c < U32
  {
    Widths();
    LoadLE(dir, ENTRY * i + 20, 2) * 0x1_0000 + LoadLE(dir, ENTRY * i + 26, 2)
  }

  function EntrySize(dir: seq<byte>, i: nat): (n: nat)
    requires i < EntryCount(dir)
    ensures n < U32
  {
    Widths();
    LoadLE(dir, ENTRY * i + 28, 4)
  }

  /** An entry's bytes spell first cluster c, its high half before its low half, and size `size`. */
  predicate EntrySpells(dir: seq<byte>, i: nat, c: nat, size: nat)
    requires i < |dir| / 32
  {
    && c < 0x1_0000_0000 && Spells2(dir, 32 * i + 20, c / 0x1_0000) && Spells2(dir, 32 * i + 26, c % 0x1_0000)
    && Spells4(dir, 32 * i + 28, size)
  }

  /** Such an entry is read as exactly that. */
  lemma EntryReads(dir: seq<byte>, i: nat, c: nat, size: nat)
    requires i < |dir| / 32 && EntrySpells(dir, i, c, size)
    ensures i < EntryCount(dir) && EntryCluster(dir, i) == c && EntrySize(dir, i) == size
  {
    Load2Spelt(dir, 32 * i + 20, c / 0x1_0000);
    Load2Spelt(dir, 32 * i + 26, c % 0x1_0000);
    Load4Spelt(dir, 32 * i + 28, size);
  }

  /** First cluster and size by the specification, from the bytes of the entry. */
  function SpecCluster(dir: seq<byte>, i: nat): nat
    requires i < |dir| / 32
  {
    FromBytes(dir[32 * i + 26], dir[32 * i + 27], dir[32 * i + 20], dir[32 * i + 21])
  }

  function SpecSize(dir: seq<byte>, i: nat): nat
    requires i < |dir| / 32
  {
    FromBytes(dir[32 * i + 28], dir[32 * i + 29], dir[32 * i + 30], dir[32 * i + 31])
  }

  lemma EntryBySpec(dir: seq<byte>, i: nat)
    requires i < EntryCount(dir)
    ensures i < |dir| / 32 && EntryCluster(dir, i) == SpecCluster(dir, i) && EntrySize(dir, i) == SpecSize(dir, i)
  {
    LoadTwo(dir, 32 * i + 20);
    LoadTwo(dir, 32 * i + 26);
    LoadFour(dir, 32 * i + 28);
  }

  /** In the words of the source: a name to show, that is no deleted entry, plain directory or long-name part. */
  predicate NamesFile(dir: seq<byte>, i: nat)
    requires i < |dir| / 32
  {
    dir[32 * i] != 0 && dir[32 * i] != 0xE5 && dir[32 * i + 11] != 0x10 && dir[32 * i + 11] != 0x0F
  }

  predicate NamesNothing(dir: seq<byte>, i: nat)
    requires i < |dir| / 32
  {
    dir[32 * i] != 0 && (dir[32 * i] == 0xE5 || dir[32 * i + 11] == 0x10 || dir[32 * i + 11] == 0x0F)
  }

  /** The first file is the entry that names a file behind entries that name nothing. */
  lemma {:induction false} FirstFileExactly(dir: seq<byte>, i: nat, f: nat)
    requires i <= f
    ensures FirstFile(dir, i) == Some(f)
       <==> f < |dir| / 32 && NamesFile(dir, f) && forall k :: i <= k < f ==> NamesNothing(dir, k)
    decreases EntryCount(dir) - i
  {
    if i >= EntryCount(dir) {
    } else if Skipped(dir, i) && dir[ENTRY * i] != 0 {
      if i < f { FirstFileExactly(dir, i + 1, f); }
    } else {
      assert !NamesNothing(dir, i);
    }
  }

  predicate EndMark(dir: seq<byte>, i: nat)
    requires i < |dir| / 32
  {
    dir[32 * i] == 0
  }

  /** The listing shows, in order, exactly the entries before an end mark that are neither deleted nor long-name
      parts. */
  lemma {:induction false} ListedExactly(dir: seq<byte>, i: nat, e: nat)
    requires i <= e
    ensures e in Listed(dir, i)
       <==> && e < |dir| / 32 && dir[32 * e] != 0xE5 && dir[32 * e + 11] != 0x0F
            && forall k :: i <= k <= e ==> !EndMark(dir, k)
    decreases EntryCount(dir) - i
  {
    FirstFileIsListed(dir, i);
    if i >= EntryCount(dir) {
    } else if dir[ENTRY * i] == 0 {
      assert EndMark(dir, i);
    } else {
      FirstFileIsListed(dir, i + 1);
      if i < e { ListedExactly(dir, i + 1, e); }
    }
  }

  lemma {:induction false} ListedInOrder(dir: seq<byte>, i: nat, j: nat, k: nat)
    requires j < k < |Listed(dir, i)|
    ensures Listed(dir, i)[j] < Listed(dir, i)[k]
    decreases EntryCount(dir) - i
  {
    if dir[ENTRY * i] == 0xE5 || dir[ENTRY * i + 11] == 0x0F {
      ListedInOrder(dir, i + 1, j, k);
    } else {
      var more := Listed(dir, i + 1);
      assert Listed(dir, i) == [i] + more;
      FirstFileIsListed(dir, i + 1);
      if j == 0 { assert more[k - 1] in more; } else { ListedInOrder(dir, i + 1, j - 1, k - 1); }
    }
  }

  /** A line of the listing: the 11 bytes of the name, and the size of what is not a directory. */
  datatype Row = Directory(name: seq<byte>) | File(name: seq<byte>, size: nat)

  function RowOf(dir: seq<byte>, i: nat): Row
    requires i < EntryCount(dir)
  {
    var name := dir[ENTRY * i..ENTRY * i + 11];
    if dir[ENTRY * i + 11] / 0x10 % 2 == 1 then Directory(name) else File(name, EntrySize(dir, i))
  }

  lemma AttributeBit(attr: byte)
    ensures attr / 0x10 % 2 == 1 <==> attr % 0x20 >= 0x10
  {
    BitOf(attr, 0x10);
  }

  /** A row is the entry's name with its size, or, when attribute bit 4 is set, without. */
  lemma RowReads(dir: seq<byte>, i: nat)
    requires i < EntryCount(dir)
    ensures i < |dir| / 32
    ensures RowOf(dir, i) == if dir[32 * i + 11] % 0x20 >= 0x10 then Directory(dir[32 * i..32 * i + 11])
                             else File(dir[32 * i..32 * i + 11], SpecSize(dir, i))
  {
    AttributeBit(dir[32 * i + 11]);
    EntryBySpec(dir, i);
  }

  lemma {:induction false} ListedInRange(dir: seq<byte>, i: nat)
    ensures forall j :: 0 <= j < |Listed(dir, i)| ==> Listed(dir, i)[j] < EntryCount(dir)
    decreases EntryCount(dir) - i
  {
    if i >= EntryCount(dir) || dir[ENTRY * i] == 0 {
    } else {
      ListedInRange(dir, i + 1);
    }
  }

  function Rows(dir: seq<byte>, shown: seq<nat>): seq<Row>
    requires forall j :: 0 <= j < |shown| ==> shown[j] < EntryCount(dir)
  {
    seq(|shown|, (j: int) requires 0 <= j < |shown| => RowOf(dir, shown[j]))
  }

  /** What `ls` shows: a line for every entry listed. */
  function Listing(dir: seq<byte>): seq<Row> {
    ListedInRange(dir, 0);
    Rows(dir, Listed(dir, 0))
  }

  /** The file that `autopsy` shows and `run` loads. */
  function TheFile(v: Volume, d: Disk): seq<byte>
    requires v.spc > 0
  {
    var dir := ClusterBytes(v, d, v.root);
    match FirstFile(dir, 0)
    case None => []
    case Some(i) => AbstractFile(v, d, EntryCluster(dir, i), EntrySize(dir, i))
  }

  // ------------------------------------- the first file by the specification

  /** The scan from entry i on meets an end mark before any file. */
  predicate Ended(dir: seq<byte>, i: nat)
    decreases EntryCount(dir) - i
  {
    i < EntryCount(dir) && (dir[ENTRY * i] == 0 || (Skipped(dir, i) && Ended(dir, i + 1)))
  }

  function Later(r: Option<nat>, n: nat): Option<nat> {
    match r
    case None => None
    case Some(i) => Some(i + n)
  }

  /** Entry i of `b` is entry i + EntryCount(a) of a + b. */
  lemma EntryMoved(a: seq<byte>, b: seq<byte>, i: nat)
    requires |a| % ENTRY == 0 && i < EntryCount(b)
    ensures var k := i + EntryCount(a);
            && k < EntryCount(a + b)
            && (a + b)[ENTRY * k] == b[ENTRY * i] && (a + b)[ENTRY * k + 11] == b[ENTRY * i + 11]
  {
  }

  lemma {:induction false} ScanMoved(a: seq<byte>, b: seq<byte>, i: nat)
    requires |a| % ENTRY == 0
    ensures FirstFile(a + b, i + EntryCount(a)) == Later(FirstFile(b, i), EntryCount(a))
    decreases EntryCount(b) - i
  {
    if i >= EntryCount(b) {
    } else {
      EntryMoved(a, b, i);
      ScanMoved(a, b, i + 1);
    }
  }

  /** A scan over two stretches of a directory stops in the first or goes on in the second. */
  lemma {:induction false} ScanOfTwo(a: seq<byte>, b: seq<byte>, i: nat)
    requires |a| % ENTRY == 0 && i <= EntryCount(a)
    ensures FirstFile(a + b, i) == if FirstFile(a, i).Some? || Ended(a, i) then FirstFile(a, i)
                                   else Later(FirstFile(b, 0), EntryCount(a))
    decreases EntryCount(a) - i
  {
    if i == EntryCount(a) {
      ScanMoved(a, b, 0);
    } else {
      assert (a + b)[ENTRY * i] == a[ENTRY * i] && (a + b)[ENTRY * i + 11] == a[ENTRY * i + 11];
      ScanOfTwo(a, b, i + 1);
    }
  }

  /** Looking at `a` alone finds what a look at all of it finds exactly when `a` names a file or ends the directory,
      or the rest names none. */
  predicate FirstClusterDecides(a: seq<byte>, b: seq<byte>) {
    FirstFile(a, 0).Some? || Ended(a, 0) || FirstFile(b, 0).None?
  }

  lemma OneClusterOfTheRoot(a: seq<byte>, b: seq<byte>)
    requires |a| % ENTRY == 0
    ensures FirstFile(a + b, 0) == FirstFile(a, 0) <==> FirstClusterDecides(a, b)
  {
    ScanOfTwo(a, b, 0);
  }

  lemma {:induction false} AllSkipped(dir: seq<byte>, i: nat)
    requires forall k {:trigger dir[ENTRY * k]} :: 0 <= k < EntryCount(dir) ==> dir[ENTRY * k] == 0xE5
    ensures FirstFile(dir, i) == None && !Ended(dir, i)
    decreases EntryCount(dir) - i
  {
    if i >= EntryCount(dir) {
    } else {
      AllSkipped(dir, i + 1);
    }
  }

  /** A root cluster of deleted entries only, and a file in the next: the commands find none. */
  lemma FileBehindTheFirstCluster(b: seq<byte>)
    requires FirstFile(b, 0) == Some(0)
    ensures var a := seq<byte>(SECTOR, (k: int) => 0xE5);
            FirstFile(a, 0) == None && FirstFile(a + b, 0) == Some(16)
  {
    var a := seq<byte>(SECTOR, (k: int) => 0xE5);
    AllSkipped(a, 0);
    ScanOfTwo(a, b, 0);
  }

  /** A volume whose root directory, up to n clusters of it, and first file lie where the drive can read them. */
  predicate LegalVolume(v: Volume, d: Disk, n: nat) {
    && v.InRange() && v.spc > 0 && n > 0 && v.root < 0x0FFF_FFF8 && Legal(v, d, v.root, n)
    && var dir := SpecContents(v, d, v.root, n);
       var f := FirstFile(dir, 0);
       f.Some? ==> Legal(v, d, SpecCluster(dir, f.value), CeilDiv(SpecSize(dir, f.value), 512 * v.spc))
  }

  /** The first file, by the commands' own choice of entry, of the root directory's whole chain. */
  function SpecFirstFile(v: Volume, d: Disk, n: nat): seq<byte>
    requires LegalVolume(v, d, n)
  {
    var dir := SpecContents(v, d, v.root, n);
    match FirstFile(dir, 0)
    case None => []
    case Some(i) => SpecFile(v, d, SpecCluster(dir, i), SpecSize(dir, i))
  }

  lemma LoadPrefix(a: seq<byte>, b: seq<byte>, x: nat, n: nat)
    requires x + n <= |a|
    ensures LoadLE(a + b, x, n) == LoadLE(a, x, n)
  {
    assert (a + b)[x..x + n] == a[x..x + n];
    LoadMoved(a + b, x, a, x, n);
  }

  /** The fields of an entry of the first stretch are those of the whole directory. */
  lemma EntryInBoth(a: seq<byte>, b: seq<byte>, i: nat)
    requires i < EntryCount(a)
    ensures i < EntryCount(a + b)
    ensures EntryCluster(a + b, i) == EntryCluster(a, i) && EntrySize(a + b, i) == EntrySize(a, i)
  {
    var e := ENTRY * i;
    LoadPrefix(a, b, e + 20, 2);
    LoadPrefix(a, b, e + 26, 2);
    LoadPrefix(a, b, e + 28, 4);
  }

  lemma WholeEntries(spc: nat)
    ensures SECTOR * spc % ENTRY == 0
  {
    DivIs(SECTOR * spc, ENTRY, 16 * spc, 0);
  }

  lemma RootCluster(v: Volume, d: Disk, n: nat)
    requires v.spc > 0 && n > 0 && v.root < END_OF_CHAIN && Legal(v, d, v.root, n)
    ensures SpecContents(v, d, v.root, n)
         == ClusterBytes(v, d, v.root) + SpecContents(v, d, FatEntry(v, d, v.root), n - 1)
    ensures |ClusterBytes(v, d, v.root)| % ENTRY == 0
  {
    DriveReadsTheCluster(v, v.root);
    assert ClusterBytes(v, d, v.root) == SpecBytes(v, d, v.root);
    WholeEntries(v.spc);
  }

  /** The commands look at the root's first cluster only.  They find the entry that the whole chain of the root
      gives exactly when that cluster decides, and then what they show is the file as the specification places it. */
  lemma TheFileBySpec(v: Volume, d: Disk, n: nat)
    requires LegalVolume(v, d, n)
    ensures var a, b := ClusterBytes(v, d, v.root), SpecContents(v, d, FatEntry(v, d, v.root), n - 1);
            && (FirstFile(SpecContents(v, d, v.root, n), 0) == FirstFile(a, 0) <==> FirstClusterDecides(a, b))
            && (FirstClusterDecides(a, b) ==> TheFile(v, d) == SpecFirstFile(v, d, n))
  {
    var a, b := ClusterBytes(v, d, v.root), SpecContents(v, d, FatEntry(v, d, v.root), n - 1);
    RootCluster(v, d, n);
    OneClusterOfTheRoot(a, b);
    if FirstClusterDecides(a, b) && FirstFile(a, 0).Some? {
      var i := FirstFile(a, 0).value;
      EntryInBoth(a, b, i);
      EntryBySpec(a + b, i);
      FileBySpec(v, d, EntryCluster(a, i), EntrySize(a, i));
    }
  }

  // ------------------------------------------------------------ failing reads

  /** Of the data reads of n turns, how many deliver a whole cluster; turn i reads by command
      t + stride * i. */
  function WholeReads(v: Volume, d: Disk, t: nat, stride: nat, n: nat): (k: nat)
    ensures k <= n
  {
    if n == 0 then 0
    else WholeReads(v, d, t, stride, n - 1) + if d.delivered(t + Total(n - 1, stride)) >= v.spc then 1 else 0
  }

  lemma {:induction false} NoReadFails(v: Volume, d: Disk, t: nat, stride: nat, n: nat)
    requires forall i :: 0 <= i < n ==> d.delivered(t + Total(i, stride)) >= v.spc
    ensures WholeReads(v, d, t, stride, n) == n
    decreases n
  {
    if n == 0 {
    } else {
      NoReadFails(v, d, t, stride, n - 1);
    }
  }

  // ------------------------------------------- the load loop's 32-bit counter

  /** bytes_read after n turns. */
  function Counter(n: nat, k: nat): nat { n * k % U32 }

  /** Some turn is not taken: the chain has ended, or the counter has reached the size. */
  ghost predicate LoadStops(v: Volume, d: Disk, first: nat, size: nat) {
    exists n: nat :: Reached(v, d, first, n) >= END_OF_CHAIN || Counter(n, v.ClusterSize()) >= size
  }

  lemma ZeroEntry(v: Volume, d: Disk, c: nat)
    requires d.image == ((k: nat) => 0)
    ensures Next(v, d, c) == 0
  {
    LoadFour(ReadBytes(d, FatSector(v, c), 1), FatOffset(c));
  }

  lemma {:induction false} NextOfZeros(v: Volume, d: Disk, first: nat, n: nat)
    requires d.image == ((k: nat) => 0) && first < END_OF_CHAIN
    ensures Reached(v, d, first, n) < END_OF_CHAIN
  {
    if n == 0 {
    } else {
      ZeroEntry(v, d, Reached(v, d, first, n - 1));
    }
  }

  lemma CounterBelow(n: nat, k: nat, q: nat)
    requires k > 0 && U32 == q * k
    ensures Counter(n, k) <= U32 - k
  {
    var r := n % q;
    var t := n / q;
    assert n == t * q + r;
    assert n * k == t * U32 + r * k by { assert (t * q + r) * k == t * (q * k) + r * k; }
    MulMono(r + 1, q, k);
    assert (r + 1) * k == r * k + k;
    DivIs(n * k, U32, t, r * k);
  }

  lemma LastCounter(q: nat, k: nat)
    requires k > 0 && U32 == q * k
    ensures q > 0 && Counter(q - 1, k) == U32 - k
  {
    assert (q - 1) * k == q * k - k;
  }

  /** For clusters whose size divides 2^32, as every power of two does, the load loop stops on every FAT, cyclic ones
      included, exactly when the size is at most 2^32 less a cluster. */
  lemma LoadStopsIff(v: Volume, size: nat, q: nat)
    requires v.spc > 0 && U32 == q * v.ClusterSize()
    ensures (forall d, first {:trigger LoadStops(v, d, first, size)} :: LoadStops(v, d, first, size))
       <==> size <= U32 - v.ClusterSize()
  {
    var k := v.ClusterSize();
    if size <= U32 - k {
      LastCounter(q, k);
      forall d, first ensures LoadStops(v, d, first, size) {
        var n: nat := q - 1;
        assert Counter(n, k) >= size;
      }
    } else {
      var d := Disk((k: nat) => 0, (t: nat) => 0);
      forall n: nat ensures Reached(v, d, 2, n) < END_OF_CHAIN && Counter(n, k) < size {
        NextOfZeros(v, d, 2, n);
        CounterBelow(n, k, q);
      }
      assert !LoadStops(v, d, 2, size);
    }
  }
}
