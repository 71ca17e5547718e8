/** Mapping the sections of a PE file into the image (src/fat32.c, ExecuteFirstFile).  Microsoft PE/COFF
    specification, "Section Table (Section Headers)". */
module Sections {
  import opened Bytes

  const SECTION_HEADER: nat := 40

  datatype Section = Section(va: nat, size: nat, raw: nat) {
    predicate Covers(off: int) { va <= off < va + size }
  }

  /** VirtualAddress at +12, SizeOfRawData at +16, PointerToRawData at +20. */
  function SectionAt(m: seq<byte>, header: nat): Section
    requires header + SECTION_HEADER <= |m|
  {
    Section(LoadLE(m, header + 12, 4), LoadLE(m, header + 16, 4), LoadLE(m, header + 20, 4))
  }

  /** The section table: `count` headers from `table` on. */
  function Headers(m: seq<byte>, table: nat, count: nat): (secs: seq<Section>)
    requires table + SECTION_HEADER * count <= |m|
    ensures |secs| == count
    decreases count
  {
    if count == 0 then [] else [SectionAt(m, table)] + Headers(m, table + SECTION_HEADER, count - 1)
  }

  lemma {:induction false} HeaderIndex(m: seq<byte>, table: nat, count: nat, s: nat)
    requires table + SECTION_HEADER * count <= |m| && s < count
    ensures Headers(m, table, count)[s] == SectionAt(m, table + SECTION_HEADER * s)
    decreases count
  {
    if s == 0 {
    } else {
      HeaderIndex(m, table + SECTION_HEADER, count - 1, s - 1);
    }
  }

  /** The highest-numbered of the first n sections that covers image offset `off`. */
  function LastCover(secs: seq<Section>, n: nat, off: int): (r: Option<nat>)
    requires n <= |secs|
    ensures r.Some? ==> r.value < n && secs[r.value].Covers(off)
    ensures forall s :: (if r.Some? then r.value + 1 else 0) <= s < n ==> !secs[s].Covers(off)
  {
    if n == 0 then None
    else if secs[n - 1].Covers(off) then Some(n - 1)
    else LastCover(secs, n - 1, off)
  }

  /** Every section's raw data lies in the file and its place in the image. */
  predicate InBounds(secs: seq<Section>, fileSize: nat, imageSize: nat) {
    forall s :: 0 <= s < |secs| && secs[s].size > 0 ==>
      secs[s].va + secs[s].size <= imageSize && secs[s].raw + secs[s].size <= fileSize
  }

  predicate Apart(a: nat, n: nat, b: nat, k: nat) { a + n <= b || b + k <= a }

  /** Where the file and the image lie in memory; the heap keeps them apart. */
  datatype Place = Place(file: nat, fileSize: nat, image: nat, imageSize: nat) {
    predicate Within(n: nat) {
      file + fileSize <= n && image + imageSize <= n && Apart(file, fileSize, image, imageSize)
    }
  }

  /** The byte at image offset `off` once the first n sections are mapped. */
  function Mapped(m: seq<byte>, secs: seq<Section>, n: nat, p: Place, off: nat): byte
    requires n <= |secs| && p.Within(|m|) && InBounds(secs, p.fileSize, p.imageSize) && off < p.imageSize
  {
    match LastCover(secs, n, off)
    case Some(s) => m[p.file + secs[s].raw + off - secs[s].va]
    case None => m[p.image + off]
  }

  ghost predicate ByteMapped(m0: seq<byte>, m: seq<byte>, secs: seq<Section>, n: nat, p: Place, off: nat)
    requires n <= |secs| && p.Within(|m0|) && InBounds(secs, p.fileSize, p.imageSize)
    requires off < p.imageSize && |m| == |m0|
  {
    m[p.image + off] == Mapped(m0, secs, n, p, off)
  }

  /** Sections 0 to n are mapped; the file and all else are as they were. */
  ghost predicate MappedUpTo(m0: seq<byte>, m: seq<byte>, secs: seq<Section>, n: nat, p: Place)
    requires n <= |secs| && p.Within(|m0|) && InBounds(secs, p.fileSize, p.imageSize)
  {
    && |m| == |m0| && Agree(m0, m, 0, p.image) && Agree(m0, m, p.image + p.imageSize, |m|)
    && forall off :: 0 <= off < p.imageSize ==> ByteMapped(m0, m, secs, n, p, off)
  }

  function NtHeaders(m: seq<byte>, file: nat): nat
    requires file + 64 <= |m|
  {
    file + LoadLE(m, file + 60, 4)
  }

  /** NumberOfSections at +6 and SizeOfOptionalHeader at +20 of the NT headers. */
  function TableCount(m: seq<byte>, file: nat): nat
    requires file + 64 <= |m| && NtHeaders(m, file) + 24 <= |m|
  {
    LoadLE(m, NtHeaders(m, file) + 6, 2)
  }

  function TableStart(m: seq<byte>, file: nat): nat
    requires file + 64 <= |m| && NtHeaders(m, file) + 24 <= |m|
  {
    NtHeaders(m, file) + 24 + LoadLE(m, NtHeaders(m, file) + 20, 2)
  }

  /** The NT headers at e_lfanew and the section table behind them lie within the file. */
  predicate HasTable(m: seq<byte>, file: nat, fileSize: nat) {
    && file + fileSize <= |m| && 64 <= fileSize
    && NtHeaders(m, file) + 24 <= file + fileSize
    && TableStart(m, file) + SECTION_HEADER * TableCount(m, file) <= file + fileSize
  }

  function FileSections(m: seq<byte>, file: nat, fileSize: nat): seq<Section>
    requires HasTable(m, file, fileSize)
  {
    Headers(m, TableStart(m, file), TableCount(m, file))
  }

  lemma SameHeader(m: seq<byte>, m': seq<byte>, h: nat)
    requires |m| == |m'| && h + SECTION_HEADER <= |m| && Agree(m, m', h, h + SECTION_HEADER)
    ensures SectionAt(m, h) == SectionAt(m', h)
  {
    LoadAgree(m, m', h + 12, 4);
    LoadAgree(m, m', h + 16, 4);
    LoadAgree(m, m', h + 20, 4);
  }

  lemma {:induction false} HeadersSame(m: seq<byte>, m': seq<byte>, table: nat, count: nat)
    requires |m| == |m'| && table + SECTION_HEADER * count <= |m| && Agree(m, m', table, table + SECTION_HEADER * count)
    ensures Headers(m, table, count) == Headers(m', table, count)
    decreases count
  {
    if count == 0 {
    } else {
      var rest := table + SECTION_HEADER;
      SameHeader(m, m', table);
      HeadersSame(m, m', rest, count - 1);
      assert Headers(m, table, count) == [SectionAt(m, table)] + Headers(m, rest, count - 1);
    }
  }

  lemma HeaderFieldsSame(m: seq<byte>, m': seq<byte>, file: nat, end: nat)
    requires |m| == |m'| && end <= |m| && file + 64 <= end && NtHeaders(m, file) + 24 <= end && Agree(m, m', file, end)
    ensures NtHeaders(m', file) == NtHeaders(m, file)
    ensures TableCount(m', file) == TableCount(m, file) && TableStart(m', file) == TableStart(m, file)
  {
    var nt := NtHeaders(m, file);
    LoadAgree(m, m', file + 60, 4);
    LoadAgree(m, m', nt + 6, 2);
    LoadAgree(m, m', nt + 20, 2);
  }

  predicate HeaderSpells(f: seq<byte>, h: nat, sec: Section) {
    Spells4(f, h + 12, sec.va) && Spells4(f, h + 16, sec.size) && Spells4(f, h + 20, sec.raw)
  }

  lemma {:induction false} HeadersSpelt(f: seq<byte>, table: nat, secs: seq<Section>)
    requires table + 40 * |secs| <= |f| && forall s :: 0 <= s < |secs| ==> HeaderSpells(f, table + 40 * s, secs[s])
    ensures table + SECTION_HEADER * |secs| <= |f| && Headers(f, table, |secs|) == secs
    decreases |secs|
  {
    if secs == [] {
    } else {
      assert HeaderSpells(f, table + 40 * 0, secs[0]);
      Load4Spelt(f, table + 12, secs[0].va);
      Load4Spelt(f, table + 16, secs[0].size);
      Load4Spelt(f, table + 20, secs[0].raw);
      forall s | 0 <= s < |secs[1..]| ensures HeaderSpells(f, table + 40 + 40 * s, secs[1..][s]) {
        assert HeaderSpells(f, table + 40 * (s + 1), secs[s + 1]);
      }
      HeadersSpelt(f, table + 40, secs[1..]);
    }
  }

  /** A file whose bytes spell where its NT headers are, how many sections it has, how long its optional header is and,
      behind that, what each section is, is read as exactly those sections. */
  lemma TableReads(f: seq<byte>, nt: nat, optional: nat, secs: seq<Section>)
    requires |f| >= 64 && Spells4(f, 60, nt) && nt + 24 + optional + 40 * |secs| <= |f|
    requires Spells2(f, nt + 6, |secs|) && Spells2(f, nt + 20, optional)
    requires forall s :: 0 <= s < |secs| ==> HeaderSpells(f, nt + 24 + optional + 40 * s, secs[s])
    ensures HasTable(f, 0, |f|) && FileSections(f, 0, |f|) == secs
  {
    Load4Spelt(f, 60, nt);
    Load2Spelt(f, nt + 6, |secs|);
    Load2Spelt(f, nt + 20, optional);
    HeadersSpelt(f, nt + 24 + optional, secs);
  }

  /** The section table is the file's own. */
  lemma FileSame(m: seq<byte>, m': seq<byte>, file: nat, fileSize: nat)
    requires HasTable(m, file, fileSize) && |m| == |m'| && Agree(m, m', file, file + fileSize)
    ensures HasTable(m', file, fileSize) && FileSections(m, file, fileSize) == FileSections(m', file, fileSize)
  {
    HeaderFieldsSame(m, m', file, file + fileSize);
    HeadersSame(m, m', TableStart(m, file), TableCount(m, file));
  }

  lemma CopyFits(secs: seq<Section>, n: nat, p: Place, top: nat)
    requires p.Within(top) && InBounds(secs, p.fileSize, p.imageSize) && n < |secs| && secs[n].size > 0
    ensures var dest, src := p.image + secs[n].va, p.file + secs[n].raw;
            dest + secs[n].size <= top && src + secs[n].size <= top && Apart(dest, secs[n].size, src, secs[n].size)
  {
  }

  lemma EmptySection(m0: seq<byte>, m: seq<byte>, secs: seq<Section>, n: nat, p: Place)
    requires n < |secs| && p.Within(|m0|) && InBounds(secs, p.fileSize, p.imageSize) && secs[n].size == 0
    requires MappedUpTo(m0, m, secs, n, p)
    ensures MappedUpTo(m0, m, secs, n + 1, p)
  {
    var next := n + 1;
    forall off | 0 <= off < p.imageSize ensures ByteMapped(m0, m, secs, next, p, off) {
      assert ByteMapped(m0, m, secs, n, p, off);
      assert Mapped(m0, secs, n + 1, p, off) == Mapped(m0, secs, n, p, off);
    }
  }

  ghost predicate Copied(m: seq<byte>, m': seq<byte>, dest: nat, src: nat, n: nat) {
    && |m| == |m'| && dest + n <= |m| && src + n <= |m|
    && Agree(m, m', 0, dest) && Agree(m, m', dest + n, |m|)
    && forall a :: dest <= a < dest + n ==> m'[a] == m[src + a - dest]
  }

  /** The byte-by-byte copy of one section. */
  method Copy(mem: array<byte>, dest: nat, src: nat, n: nat)
    requires dest + n <= mem.Length && src + n <= mem.Length && Apart(dest, n, src, n)
    modifies mem
    ensures Copied(old(mem[..]), mem[..], dest, src, n)
  {
    for b := 0 to n
      invariant Copied(old(mem[..]), mem[..], dest, src, b)
    {
      mem[dest + b] := mem[src + b];
    }
  }

  lemma SectionCopied(m0: seq<byte>, m: seq<byte>, m': seq<byte>, secs: seq<Section>, n: nat, p: Place)
    requires n < |secs| && p.Within(|m0|) && InBounds(secs, p.fileSize, p.imageSize) && secs[n].size > 0
    requires MappedUpTo(m0, m, secs, n, p)
    requires Copied(m, m', p.image + secs[n].va, p.file + secs[n].raw, secs[n].size)
    ensures MappedUpTo(m0, m', secs, n + 1, p)
  {
    var sec := secs[n];
    var next := n + 1;
    forall off | 0 <= off < p.imageSize ensures ByteMapped(m0, m', secs, next, p, off) {
      assert ByteMapped(m0, m, secs, n, p, off);
      if sec.Covers(off) {
        assert m'[p.image + off] == m[p.file + sec.raw + off - sec.va];
      } else {
        assert m'[p.image + off] == m[p.image + off];
      }
    }
  }

  lemma HeaderIntact(m0: seq<byte>, m: seq<byte>, secs: seq<Section>, n: nat, p: Place, h: nat)
    requires n < |secs| && p.Within(|m0|) && InBounds(secs, p.fileSize, p.imageSize) && MappedUpTo(m0, m, secs, n, p)
    requires h + SECTION_HEADER <= |m0| && Apart(h, SECTION_HEADER, p.image, p.imageSize)
    ensures |m| == |m0| && SectionAt(m, h) == SectionAt(m0, h)
  {
    SameHeader(m0, m, h);
  }

  method MapSection(mem: array<byte>, h: nat, p: Place, ghost m0: seq<byte>, ghost secs: seq<Section>, ghost n: nat)
    requires p.Within(mem.Length) && |m0| == mem.Length && InBounds(secs, p.fileSize, p.imageSize)
    requires h + SECTION_HEADER <= mem.Length && Apart(h, SECTION_HEADER, p.image, p.imageSize)
    requires n < |secs| && secs[n] == SectionAt(m0, h) && MappedUpTo(m0, mem[..], secs, n, p)
    modifies mem
    ensures MappedUpTo(m0, mem[..], secs, n + 1, p)
  {
    ghost var m1 := mem[..];
    HeaderIntact(m0, m1, secs, n, p, h);
    var sec := SectionAt(mem[..], h);
    if sec.size > 0 {
      CopyFits(secs, n, p, mem.Length);
      Copy(mem, p.image + sec.va, p.file + sec.raw, sec.size);
      SectionCopied(m0, m1, mem[..], secs, n, p);
    } else {
      EmptySection(m0, m1, secs, n, p);
    }
  }

  method MapSections(mem: array<byte>, table: nat, count: nat, p: Place)
    requires p.Within(mem.Length)
    requires table + SECTION_HEADER * count <= mem.Length && Apart(table, SECTION_HEADER * count, p.image, p.imageSize)
    requires InBounds(Headers(mem[..], table, count), p.fileSize, p.imageSize)
    modifies mem
    ensures MappedUpTo(old(mem[..]), mem[..], old(Headers(mem[..], table, count)), count, p)
  {
    ghost var m0, secs := mem[..], Headers(mem[..], table, count);
    for s := 0 to count
      invariant MappedUpTo(m0, mem[..], secs, s, p)
    {
      HeaderIndex(m0, table, count, s);
      MapSection(mem, table + SECTION_HEADER * s, p, m0, secs, s);
    }
  }

  method MapImage(mem: array<byte>, p: Place)
    requires p.Within(mem.Length) && HasTable(mem[..], p.file, p.fileSize)
    requires InBounds(FileSections(mem[..], p.file, p.fileSize), p.fileSize, p.imageSize)
    modifies mem
    ensures var secs := old(FileSections(mem[..], p.file, p.fileSize));
            MappedUpTo(old(mem[..]), mem[..], secs, |secs|, p)
  {
    var nt := p.file + LoadLE(mem[..], p.file + 60, 4);
    var table := nt + 4 + 20 + LoadLE(mem[..], nt + 20, 2);
    MapSections(mem, table, LoadLE(mem[..], nt + 6, 2), p);
  }

  /** No other section with raw data meets section s. */
  predicate Alone(secs: seq<Section>, s: nat)
    requires s < |secs|
  {
    forall t :: 0 <= t < |secs| && t != s && secs[t].size > 0 ==>
      Apart(secs[s].va, secs[s].size, secs[t].va, secs[t].size)
  }

  lemma AloneCovers(secs: seq<Section>, s: nat, off: int)
    requires s < |secs| && Alone(secs, s) && secs[s].Covers(off)
    ensures LastCover(secs, |secs|, off) == Some(s)
  {
    assert forall t :: 0 <= t < |secs| && t != s ==> !secs[t].Covers(off);
  }

  lemma CoveredByte(m0: seq<byte>, m: seq<byte>, secs: seq<Section>, p: Place, s: nat, k: nat)
    requires p.Within(|m0|) && InBounds(secs, p.fileSize, p.imageSize) && MappedUpTo(m0, m, secs, |secs|, p)
    requires s < |secs| && k < secs[s].size && Alone(secs, s)
    ensures m[p.image + secs[s].va + k] == m0[p.file + secs[s].raw + k]
  {
    AloneCovers(secs, s, secs[s].va + k);
    assert ByteMapped(m0, m, secs, |secs|, p, secs[s].va + k);
  }

  /** A section that overlaps no other is in the image, in full. */
  lemma DisjointSectionsComplete(m0: seq<byte>, m: seq<byte>, secs: seq<Section>, p: Place, s: nat)
    requires p.Within(|m0|) && InBounds(secs, p.fileSize, p.imageSize) && MappedUpTo(m0, m, secs, |secs|, p)
    requires s < |secs| && secs[s].size > 0 && Alone(secs, s)
    ensures var dest, src, n := p.image + secs[s].va, p.file + secs[s].raw, secs[s].size;
            dest + n <= |m| && src + n <= |m0| && m[dest..dest + n] == m0[src..src + n]
  {
    var sec := secs[s];
    var dest, src := p.image + sec.va, p.file + sec.raw;
    var x, y := m[dest..dest + sec.size], m0[src..src + sec.size];
    forall k | 0 <= k < sec.size ensures x[k] == y[k] {
      CoveredByte(m0, m, secs, p, s, k);
    }
  }
}
