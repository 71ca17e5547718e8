/** The synthetic DLL image whose every export leads to the API trap (src/api_manifold.c), and a resolver
    that reads it.  Microsoft PE/COFF specification, ".edata section". */
module ExportImage {
  import opened Bytes

  const EXPORT_DIR: nat := 0x100
  const FUNCTIONS: nat := 0x200
  const NAMES: nat := 0x400
  const ORDINALS: nat := 0x600
  const STRINGS: nat := 0x800
  const TRAMPOLINES: nat := 0x2000
  const STRING_SIZE: nat := 64
  const TRAMPOLINE: nat := 32
  const CAPACITY: nat := 96            // (TRAMPOLINES - STRINGS) / STRING_SIZE
  const IMAGE: nat := 0x2C00           // TRAMPOLINES + CAPACITY * TRAMPOLINE

  /** A C string without its final zero. */
  predicate IsText(s: seq<byte>) { forall k :: 0 <= k < |s| ==> s[k] != 0 }

  predicate IsTable(names: seq<seq<byte>>) {
    |names| <= CAPACITY && forall i :: 0 <= i < |names| ==> |names[i]| < STRING_SIZE && IsText(names[i])
  }

  function Clipped(s: seq<byte>): (r: seq<byte>)
    ensures |r| <= 127 && r <= s
  {
    if |s| <= 127 then s else s[..127]
  }

  /** The text `s` and its final zero at address a. */
  predicate TextAt(m: seq<byte>, a: nat, s: seq<byte>) {
    a + |s| < |m| && m[a..a + |s|] == s && m[a + |s|] == 0
  }

  method CopyApiName(mem: array<byte>, src: seq<byte>, dest: nat)
    requires IsText(src) && dest + |Clipped(src)| < mem.Length
    modifies mem
    ensures TextAt(mem[..], dest, Clipped(src))
    ensures Agree(old(mem[..]), mem[..], 0, dest)
    ensures Agree(old(mem[..]), mem[..], dest + |Clipped(src)| + 1, mem.Length)
  {
    var i := 0;
    while i < |src| && i < 127
      invariant i <= |Clipped(src)| && mem[dest..dest + i] == src[..i]
      invariant Agree(old(mem[..]), mem[..], 0, dest) && Agree(old(mem[..]), mem[..], dest + i, mem.Length)
    {
      mem[dest + i] := src[i];
      i := i + 1;
    }
    mem[dest + i] := 0;
  }

  // ----------------------------------------------------------- the trampoline

  /** mov ecx, index; mov rax, trap; jmp rax: (index, trap), if that is what is at t. */
  function Decode(m: seq<byte>, t: nat): Option<(nat, nat)> {
    if t + TRAMPOLINE <= |m| && m[t] == 0xB9 && m[t + 5] == 0x48 && m[t + 6] == 0xB8
       && m[t + 15] == 0xFF && m[t + 16] == 0xE0
    then Some((LoadLE(m, t + 1, 4), LoadLE(m, t + 7, 8)))
    else None
  }

  method Emit(mem: array<byte>, t: nat, index: nat, trap: nat)
    requires t + TRAMPOLINE <= mem.Length && index < U32 && trap < U64
    modifies mem
    ensures Decode(mem[..], t) == Some((index, trap))
    ensures Agree(old(mem[..]), mem[..], 0, t) && Agree(old(mem[..]), mem[..], t + TRAMPOLINE, mem.Length)
  {
    Widths();
    mem[t] := 0xB9;
    ghost var m0 := mem[..];
    Store(mem, t + 1, 4, index);
    ghost var m1 := mem[..];
    mem[t + 5], mem[t + 6] := 0x48, 0xB8;
    ghost var m2 := mem[..];
    Store(mem, t + 7, 8, trap);
    ghost var m3 := mem[..];
    mem[t + 15], mem[t + 16] := 0xFF, 0xE0;
    LoadStored(m0, t + 1, 4, index);
    LoadStored(m2, t + 7, 8, trap);
    LoadAgree(m1, mem[..], t + 1, 4);
    LoadAgree(m3, mem[..], t + 7, 8);
  }

  // ---------------------------------------------------------------- the image

  predicate FieldsOk(m: seq<byte>, base: nat) {
    && base + EXPORT_DIR <= |m|
    && LoadLE(m, base, 2) == 0x5A4D && LoadLE(m, base + 0x3C, 4) == 0x40
    && LoadLE(m, base + 0x40, 4) == 0x4550 && LoadLE(m, base + 0x54, 2) == 0xF0 && LoadLE(m, base + 0x58, 2) == 0x20B
    && LoadLE(m, base + 0xC8, 4) == EXPORT_DIR && LoadLE(m, base + 0xCC, 4) == 0x100
  }

  predicate DirectoryOk(m: seq<byte>, dir: nat, count: nat) {
    && dir + 0x28 <= |m|
    && LoadLE(m, dir + 0x0C, 4) == 0x180
    && LoadLE(m, dir + 0x14, 4) == count && LoadLE(m, dir + 0x18, 4) == count
    && LoadLE(m, dir + 0x1C, 4) == FUNCTIONS && LoadLE(m, dir + 0x20, 4) == NAMES
    && LoadLE(m, dir + 0x24, 4) == ORDINALS
  }

  /** DOS magic and e_lfanew, PE signature, optional header, export data directory, export directory. */
  predicate HeaderOk(m: seq<byte>, base: nat, count: nat) {
    base + IMAGE <= |m| && FieldsOk(m, base) && DirectoryOk(m, base + EXPORT_DIR, count)
  }

  /** What entry i of the image consists of. */
  predicate EntryOk(m: seq<byte>, base: nat, i: nat, name: seq<byte>, trap: nat) {
    && base + IMAGE <= |m| && i < CAPACITY
    && LoadLE(m, base + NAMES + 4 * i, 4) == STRINGS + STRING_SIZE * i
    && LoadLE(m, base + ORDINALS + 2 * i, 2) == i
    && LoadLE(m, base + FUNCTIONS + 4 * i, 4) == TRAMPOLINES + TRAMPOLINE * i
    && TextAt(m, base + STRINGS + STRING_SIZE * i, name)
    && Decode(m, base + TRAMPOLINES + TRAMPOLINE * i) == Some((i, trap))
  }

  /** The first k entries are in place. */
  ghost predicate Built(m: seq<byte>, base: nat, names: seq<seq<byte>>, dll: seq<byte>, trap: nat, k: nat)
    requires k <= |names|
  {
    && HeaderOk(m, base, |names|) && TextAt(m, base + 0x180, Clipped(dll))
    && forall i :: 0 <= i < k ==> EntryOk(m, base, i, names[i], trap)
  }

  /** The bytes that belong to entry i. */
  predicate OfEntry(base: nat, i: nat, a: int) {
    || base + FUNCTIONS + 4 * i <= a < base + FUNCTIONS + 4 * i + 4
    || base + NAMES + 4 * i <= a < base + NAMES + 4 * i + 4
    || base + ORDINALS + 2 * i <= a < base + ORDINALS + 2 * i + 2
    || base + STRINGS + STRING_SIZE * i <= a < base + STRINGS + STRING_SIZE * (i + 1)
    || base + TRAMPOLINES + TRAMPOLINE * i <= a < base + TRAMPOLINES + TRAMPOLINE * (i + 1)
  }

  ghost predicate OutsideEntry(m: seq<byte>, m': seq<byte>, base: nat, i: nat) {
    |m| == |m'| && forall a :: 0 <= a < |m| && !OfEntry(base, i, a) ==> m'[a] == m[a]
  }

  lemma TextKept(m: seq<byte>, m': seq<byte>, a: nat, s: seq<byte>)
    requires TextAt(m, a, s) && |m| == |m'| && Agree(m, m', a, a + |s| + 1)
    ensures TextAt(m', a, s)
  {
  }

  lemma NameStays(m: seq<byte>, m': seq<byte>, base: nat, i: nat, name: seq<byte>)
    requires |m| == |m'| && base + IMAGE <= |m| && i < CAPACITY && |name| < STRING_SIZE
    requires Agree(m, m', base + FUNCTIONS + 4 * i + 4, base + TRAMPOLINES + TRAMPOLINE * i)
    requires TextAt(m, base + STRINGS + STRING_SIZE * i, name)
    ensures LoadLE(m', base + NAMES + 4 * i, 4) == LoadLE(m, base + NAMES + 4 * i, 4)
    ensures LoadLE(m', base + ORDINALS + 2 * i, 2) == LoadLE(m, base + ORDINALS + 2 * i, 2)
    ensures TextAt(m', base + STRINGS + STRING_SIZE * i, name)
  {
    LoadAgree(m, m', base + NAMES + 4 * i, 4);
    LoadAgree(m, m', base + ORDINALS + 2 * i, 2);
    TextKept(m, m', base + STRINGS + STRING_SIZE * i, name);
  }

  lemma TargetInEntry(m0: seq<byte>, m: seq<byte>, m': seq<byte>, base: nat, i: nat)
    requires OutsideEntry(m0, m, base, i) && |m| == |m'|
    requires Agree(m, m', 0, base + FUNCTIONS + 4 * i)
    requires Agree(m, m', base + FUNCTIONS + 4 * i + 4, base + TRAMPOLINES + TRAMPOLINE * i)
    requires Agree(m, m', base + TRAMPOLINES + TRAMPOLINE * i + TRAMPOLINE, |m|)
    ensures OutsideEntry(m0, m', base, i)
  {
  }

  method WriteNumber(mem: array<byte>, a: nat, n: nat, v: nat)
    requires a + n <= mem.Length && v < Pow256(n)
    modifies mem
    ensures LoadLE(mem[..], a, n) == v
    ensures Agree(old(mem[..]), mem[..], 0, a) && Agree(old(mem[..]), mem[..], a + n, mem.Length)
  {
    LoadStored(mem[..], a, n, v);
    Store(mem, a, n, v);
  }

  method WriteIndices(mem: array<byte>, base: nat, i: nat, stringRva: nat)
    requires base + IMAGE <= mem.Length && i < CAPACITY && stringRva < TRAMPOLINES
    modifies mem
    ensures LoadLE(mem[..], base + NAMES + 4 * i, 4) == stringRva && LoadLE(mem[..], base + ORDINALS + 2 * i, 2) == i
    ensures Agree(old(mem[..]), mem[..], 0, base + NAMES + 4 * i)
    ensures Agree(old(mem[..]), mem[..], base + NAMES + 4 * i + 4, base + ORDINALS + 2 * i)
    ensures Agree(old(mem[..]), mem[..], base + ORDINALS + 2 * i + 2, mem.Length)
  {
    Widths();
    WriteNumber(mem, base + NAMES + i * 4, 4, stringRva);
    ghost var m := mem[..];
    WriteNumber(mem, base + ORDINALS + i * 2, 2, i);
    LoadAgree(m, mem[..], base + NAMES + 4 * i, 4);
  }

  method WriteName(mem: array<byte>, base: nat, i: nat, name: seq<byte>, stringRva: nat)
    requires base + IMAGE <= mem.Length && i < CAPACITY && |name| < STRING_SIZE && IsText(name)
    requires stringRva == STRINGS + STRING_SIZE * i
    modifies mem
    ensures LoadLE(mem[..], base + NAMES + 4 * i, 4) == stringRva && LoadLE(mem[..], base + ORDINALS + 2 * i, 2) == i
    ensures TextAt(mem[..], base + stringRva, name) && OutsideEntry(old(mem[..]), mem[..], base, i)
  {
    CopyApiName(mem, name, base + stringRva);
    ghost var m1 := mem[..];
    WriteIndices(mem, base, i, stringRva);
    TextKept(m1, mem[..], base + stringRva, name);
  }

  lemma DecodeKept(m: seq<byte>, m': seq<byte>, t: nat)
    requires t + TRAMPOLINE <= |m| == |m'| && Agree(m, m', t, t + TRAMPOLINE)
    ensures Decode(m, t) == Decode(m', t)
  {
    LoadAgree(m, m', t + 1, 4);
    LoadAgree(m, m', t + 7, 8);
  }

  method WriteTarget(mem: array<byte>, base: nat, i: nat, trap: nat, trampRva: nat)
    requires base + IMAGE <= mem.Length && i < CAPACITY && trap < U64 && trampRva == TRAMPOLINES + TRAMPOLINE * i
    modifies mem
    ensures LoadLE(mem[..], base + FUNCTIONS + 4 * i, 4) == trampRva
    ensures Decode(mem[..], base + trampRva) == Some((i, trap))
    ensures Agree(old(mem[..]), mem[..], 0, base + FUNCTIONS + 4 * i)
    ensures Agree(old(mem[..]), mem[..], base + FUNCTIONS + 4 * i + 4, base + trampRva)
    ensures Agree(old(mem[..]), mem[..], base + trampRva + TRAMPOLINE, mem.Length)
  {
    Widths();
    Emit(mem, base + trampRva, i, trap);
    ghost var m := mem[..];
    WriteNumber(mem, base + FUNCTIONS + i * 4, 4, trampRva);
    DecodeKept(m, mem[..], base + trampRva);
  }

  /** One turn of the builder's loop. */
  method WriteEntry(mem: array<byte>, base: nat, i: nat, name: seq<byte>, trap: nat, stringRva: nat, trampRva: nat)
    requires base + IMAGE <= mem.Length && i < CAPACITY && |name| < STRING_SIZE && IsText(name) && trap < U64
    requires stringRva == STRINGS + STRING_SIZE * i && trampRva == TRAMPOLINES + TRAMPOLINE * i
    modifies mem
    ensures EntryOk(mem[..], base, i, name, trap) && OutsideEntry(old(mem[..]), mem[..], base, i)
  {
    ghost var m0 := mem[..];
    WriteName(mem, base, i, name, stringRva);
    ghost var m := mem[..];
    WriteTarget(mem, base, i, trap, trampRva);
    NameStays(m, mem[..], base, i, name);
    TargetInEntry(m0, m, mem[..], base, i);
  }

  lemma GapKept(m: seq<byte>, m': seq<byte>, base: nat, i: nat, x: nat, y: nat)
    requires OutsideEntry(m, m', base, i) && forall a :: x <= a < y ==> !OfEntry(base, i, a)
    ensures Agree(m, m', x, y)
  {
  }

  lemma NumbersKept(m: seq<byte>, m': seq<byte>, base: nat, j: nat, i: nat)
    requires OutsideEntry(m, m', base, i) && j < i < CAPACITY && base + IMAGE <= |m|
    ensures LoadLE(m, base + NAMES + 4 * j, 4) == LoadLE(m', base + NAMES + 4 * j, 4)
    ensures LoadLE(m, base + ORDINALS + 2 * j, 2) == LoadLE(m', base + ORDINALS + 2 * j, 2)
    ensures LoadLE(m, base + FUNCTIONS + 4 * j, 4) == LoadLE(m', base + FUNCTIONS + 4 * j, 4)
  {
    GapKept(m, m', base, i, base + NAMES + 4 * j, base + NAMES + 4 * j + 4);
    LoadAgree(m, m', base + NAMES + 4 * j, 4);
    GapKept(m, m', base, i, base + ORDINALS + 2 * j, base + ORDINALS + 2 * j + 2);
    LoadAgree(m, m', base + ORDINALS + 2 * j, 2);
    GapKept(m, m', base, i, base + FUNCTIONS + 4 * j, base + FUNCTIONS + 4 * j + 4);
    LoadAgree(m, m', base + FUNCTIONS + 4 * j, 4);
  }

  lemma StringKept(m: seq<byte>, m': seq<byte>, base: nat, j: nat, name: seq<byte>, i: nat)
    requires OutsideEntry(m, m', base, i) && j < i < CAPACITY && |name| < STRING_SIZE && base + IMAGE <= |m|
    requires TextAt(m, base + STRINGS + STRING_SIZE * j, name)
    ensures TextAt(m', base + STRINGS + STRING_SIZE * j, name)
  {
    var a := base + STRINGS + STRING_SIZE * j;
    GapKept(m, m', base, i, a, a + STRING_SIZE);
    TextKept(m, m', a, name);
  }

  lemma TrampolineKept(m: seq<byte>, m': seq<byte>, base: nat, j: nat, i: nat)
    requires OutsideEntry(m, m', base, i) && j < i < CAPACITY && base + IMAGE <= |m|
    ensures Decode(m', base + TRAMPOLINES + TRAMPOLINE * j) == Decode(m, base + TRAMPOLINES + TRAMPOLINE * j)
  {
    var a := base + TRAMPOLINES + TRAMPOLINE * j;
    GapKept(m, m', base, i, a, a + TRAMPOLINE);
    DecodeKept(m, m', a);
  }

  lemma EntryKept(m: seq<byte>, m': seq<byte>, base: nat, j: nat, name: seq<byte>, trap: nat, i: nat)
    requires EntryOk(m, base, j, name, trap) && OutsideEntry(m, m', base, i) && j < i < CAPACITY && |name| < STRING_SIZE
    ensures EntryOk(m', base, j, name, trap)
  {
    NumbersKept(m, m', base, j, i);
    StringKept(m, m', base, j, name, i);
    TrampolineKept(m, m', base, j, i);
  }

  lemma FieldsKept(m: seq<byte>, m': seq<byte>, base: nat)
    requires FieldsOk(m, base) && |m| == |m'| && Agree(m, m', base, base + EXPORT_DIR)
    ensures FieldsOk(m', base)
  {
    LoadAgree(m, m', base, 2);
    LoadAgree(m, m', base + 0x3C, 4);
    LoadAgree(m, m', base + 0x40, 4);
    LoadAgree(m, m', base + 0x54, 2);
    LoadAgree(m, m', base + 0x58, 2);
    LoadAgree(m, m', base + 0xC8, 4);
    LoadAgree(m, m', base + 0xCC, 4);
  }

  lemma DirectoryKept(m: seq<byte>, m': seq<byte>, dir: nat, count: nat)
    requires DirectoryOk(m, dir, count) && |m| == |m'| && Agree(m, m', dir, dir + 0x28)
    ensures DirectoryOk(m', dir, count)
  {
    LoadAgree(m, m', dir + 0x0C, 4);
    LoadAgree(m, m', dir + 0x14, 4);
    LoadAgree(m, m', dir + 0x18, 4);
    LoadAgree(m, m', dir + 0x1C, 4);
    LoadAgree(m, m', dir + 0x20, 4);
    LoadAgree(m, m', dir + 0x24, 4);
  }

  lemma HeaderKept(m: seq<byte>, m': seq<byte>, base: nat, count: nat)
    requires HeaderOk(m, base, count) && |m| == |m'| && Agree(m, m', base, base + 0x180)
    ensures HeaderOk(m', base, count)
  {
    FieldsKept(m, m', base);
    DirectoryKept(m, m', base + EXPORT_DIR, count);
  }

  /** A store, for the fields it sets and every field it leaves. */
  method Field(mem: array<byte>, a: nat, n: nat, v: nat)
    requires a + n <= mem.Length && v < Pow256(n)
    modifies mem
    ensures LoadLE(mem[..], a, n) == v
    ensures forall b: nat, k: nat {:trigger LoadLE(mem[..], b, k)} ::
              b + k <= mem.Length && (b + k <= a || a + n <= b) ==>
              LoadLE(mem[..], b, k) == old(LoadLE(mem[..], b, k))
    ensures Agree(old(mem[..]), mem[..], 0, a) && Agree(old(mem[..]), mem[..], a + n, mem.Length)
  {
    ghost var m := mem[..];
    Store(mem, a, n, v);
    LoadStored(m, a, n, v);
    forall b: nat, k: nat | b + k <= mem.Length && (b + k <= a || a + n <= b)
      ensures LoadLE(mem[..], b, k) == LoadLE(m, b, k)
    {
      LoadOther(m, a, n, v, b, k);
    }
  }

  method WriteDirectory(mem: array<byte>, dir: nat, count: nat)
    requires dir + 0x28 <= mem.Length && count < U32
    modifies mem
    ensures DirectoryOk(mem[..], dir, count)
    ensures Agree(old(mem[..]), mem[..], 0, dir) && Agree(old(mem[..]), mem[..], dir + 0x28, mem.Length)
  {
    Widths();
    Field(mem, dir + 0x0C, 4, 0x180);
    Field(mem, dir + 0x14, 4, count);
    Field(mem, dir + 0x18, 4, count);
    Field(mem, dir + 0x1C, 4, FUNCTIONS);
    Field(mem, dir + 0x20, 4, NAMES);
    Field(mem, dir + 0x24, 4, ORDINALS);
  }

  method WriteFields(mem: array<byte>, base: nat)
    requires base + EXPORT_DIR <= mem.Length
    modifies mem
    ensures FieldsOk(mem[..], base)
    ensures Agree(old(mem[..]), mem[..], 0, base) && Agree(old(mem[..]), mem[..], base + EXPORT_DIR, mem.Length)
  {
    Widths();
    Field(mem, base, 2, 0x5A4D);
    Field(mem, base + 0x3C, 4, 0x40);
    Field(mem, base + 0x40, 4, 0x4550);
    Field(mem, base + 0x54, 2, 0xF0);
    Field(mem, base + 0x58, 2, 0x20B);
    Field(mem, base + 0xC8, 4, EXPORT_DIR);
    Field(mem, base + 0xCC, 4, 0x100);
  }

  method WriteHeader(mem: array<byte>, base: nat, count: nat)
    requires base + IMAGE <= mem.Length && count < U32
    modifies mem
    ensures HeaderOk(mem[..], base, count)
    ensures Agree(old(mem[..]), mem[..], 0, base) && Agree(old(mem[..]), mem[..], base + 0x180, mem.Length)
  {
    WriteFields(mem, base);
    ghost var m := mem[..];
    WriteDirectory(mem, base + EXPORT_DIR, count);
    FieldsKept(m, mem[..], base);
  }

  lemma BuiltStep(m: seq<byte>, m': seq<byte>, base: nat, names: seq<seq<byte>>, dll: seq<byte>, trap: nat, i: nat)
    requires IsTable(names) && i < |names| && Built(m, base, names, dll, trap, i)
    requires OutsideEntry(m, m', base, i) && EntryOk(m', base, i, names[i], trap)
    ensures Built(m', base, names, dll, trap, i + 1)
  {
    HeaderKept(m, m', base, |names|);
    TextKept(m, m', base + 0x180, Clipped(dll));
    forall j | 0 <= j < i ensures EntryOk(m', base, j, names[j], trap) {
      EntryKept(m, m', base, j, names[j], trap, i);
    }
  }

  /** The whole builder, for any table of names that fits the pools. */
  method BuildUniversalExportTable(mem: array<byte>, base: nat, dll: seq<byte>, names: seq<seq<byte>>, trap: nat)
    requires base + IMAGE <= mem.Length && IsText(dll) && IsTable(names) && trap < U64
    modifies mem
    ensures Built(mem[..], base, names, dll, trap, |names|)
    ensures Agree(old(mem[..]), mem[..], 0, base) && Agree(old(mem[..]), mem[..], base + IMAGE, mem.Length)
  {
    ghost var m0 := mem[..];
    WriteHeader(mem, base, |names|);
    ghost var m1 := mem[..];
    CopyApiName(mem, dll, base + 0x180);
    HeaderKept(m1, mem[..], base, |names|);
    var stringRva, trampRva := STRINGS, TRAMPOLINES;
    for i := 0 to |names|
      invariant stringRva == STRINGS + STRING_SIZE * i && trampRva == TRAMPOLINES + TRAMPOLINE * i
      invariant Built(mem[..], base, names, dll, trap, i)
      invariant Agree(m0, mem[..], 0, base) && Agree(m0, mem[..], base + IMAGE, mem.Length)
    {
      ghost var m := mem[..];
      WriteEntry(mem, base, i, names[i], trap, stringRva, trampRva);
      BuiltStep(m, mem[..], base, names, dll, trap, i);
      stringRva, trampRva := stringRva + 64, trampRva + 32;
    }
  }

  /** The finished image in the numbers of the source: its headers, and what entry i consists of. */
  lemma HeaderLayout(m: seq<byte>, base: nat, count: nat)
    requires HeaderOk(m, base, count)
    ensures base + 0x2C00 <= |m|
    ensures LoadLE(m, base, 2) == 0x5A4D && LoadLE(m, base + 0x3C, 4) == 0x40 && LoadLE(m, base + 0x40, 4) == 0x4550
    ensures LoadLE(m, base + 0xC8, 4) == 0x100 && LoadLE(m, base + 0xCC, 4) == 0x100
    ensures LoadLE(m, base + 0x10C, 4) == 0x180
    ensures LoadLE(m, base + 0x114, 4) == count && LoadLE(m, base + 0x118, 4) == count
    ensures LoadLE(m, base + 0x11C, 4) == 0x200 && LoadLE(m, base + 0x120, 4) == 0x400
    ensures LoadLE(m, base + 0x124, 4) == 0x600
  {
  }

  /** mov ecx, index; mov rax, trap; jmp rax */
  predicate JumpsTo(m: seq<byte>, t: nat, index: nat, trap: nat) {
    && t + 17 <= |m|
    && m[t] == 0xB9 && LoadLE(m, t + 1, 4) == index
    && m[t + 5] == 0x48 && m[t + 6] == 0xB8 && LoadLE(m, t + 7, 8) == trap
    && m[t + 15] == 0xFF && m[t + 16] == 0xE0
  }

  lemma EntryLayout(m: seq<byte>, base: nat, i: nat, name: seq<byte>, trap: nat)
    requires EntryOk(m, base, i, name, trap)
    ensures base + 0x2C00 <= |m| && i < 96
    ensures LoadLE(m, base + 0x200 + 4 * i, 4) == 0x2000 + 32 * i
    ensures LoadLE(m, base + 0x400 + 4 * i, 4) == 0x800 + 64 * i && LoadLE(m, base + 0x600 + 2 * i, 2) == i
    ensures TextAt(m, base + 0x800 + 64 * i, name) && JumpsTo(m, base + 0x2000 + 32 * i, i, trap)
  {
  }

  // ------------------------------------------------------------- the resolver

  function Peek(m: seq<byte>, a: nat, n: nat): nat { if a + n <= |m| then LoadLE(m, a, n) else 0 }

  /** Export directory: entry 0 of the data directories, 0x88 into the NT headers at e_lfanew. */
  function Directory(m: seq<byte>, base: nat): nat { base + Peek(m, base + Peek(m, base + 0x3C, 4) + 0x88, 4) }

  function DirectorySize(m: seq<byte>, base: nat): nat { Peek(m, base + Peek(m, base + 0x3C, 4) + 0x8C, 4) }

  function Count(m: seq<byte>, base: nat): nat { Peek(m, Directory(m, base) + 0x18, 4) }

  function TextFrom(m: seq<byte>, a: nat): seq<byte>
    decreases |m| - a
  {
    if a >= |m| || m[a] == 0 then [] else [m[a]] + TextFrom(m, a + 1)
  }

  function NameOf(m: seq<byte>, base: nat, i: nat): seq<byte> {
    TextFrom(m, base + Peek(m, base + Peek(m, Directory(m, base) + 0x20, 4) + 4 * i, 4))
  }

  function OrdinalOf(m: seq<byte>, base: nat, i: nat): nat {
    Peek(m, base + Peek(m, Directory(m, base) + 0x24, 4) + 2 * i, 2)
  }

  function FunctionRva(m: seq<byte>, base: nat, ordinal: nat): nat {
    Peek(m, base + Peek(m, Directory(m, base) + 0x1C, 4) + 4 * ordinal, 4)
  }

  /** Where the export with name number i leads. */
  function Target(m: seq<byte>, base: nat, i: nat): Option<(nat, nat)> {
    Decode(m, base + FunctionRva(m, base, OrdinalOf(m, base, i)))
  }

  /** A resolver that tries the names in order, from number i on. */
  function Search(m: seq<byte>, base: nat, name: seq<byte>, i: nat): Option<(nat, nat)>
    decreases Count(m, base) - i
  {
    if i >= Count(m, base) then None
    else if NameOf(m, base, i) == name then Target(m, base, i)
    else Search(m, base, name, i + 1)
  }

  /** strcmp: negative, zero or positive. */
  function Compare(s: seq<byte>, t: seq<byte>): int {
    if s == [] then (if t == [] then 0 else -1)
    else if t == [] then 1
    else if s[0] != t[0] then s[0] - t[0]
    else Compare(s[1..], t[1..])
  }

  /** A resolver that halves the range [lo, hi) of the sorted names. */
  function BinarySearch(m: seq<byte>, base: nat, name: seq<byte>, lo: nat, hi: nat): Option<(nat, nat)>
    decreases hi - lo
  {
    if lo >= hi then None
    else
      var mid := (lo + hi) / 2;
      var c := Compare(name, NameOf(m, base, mid));
      if c == 0 then Target(m, base, mid)
      else if c < 0 then BinarySearch(m, base, name, lo, mid)
      else BinarySearch(m, base, name, mid + 1, hi)
  }

  // --------------------------------------------------------- the round trip

  lemma {:induction false} TextReadBack(m: seq<byte>, a: nat, s: seq<byte>)
    requires TextAt(m, a, s) && IsText(s)
    ensures TextFrom(m, a) == s
    decreases |s|
  {
    if s == [] {
    } else {
      assert m[a] == m[a..a + |s|][0] == s[0];
      assert m[a + 1..a + 1 + |s[1..]|] == m[a..a + |s|][1..];
      TextReadBack(m, a + 1, s[1..]);
    }
  }

  lemma HeaderReads(m: seq<byte>, base: nat, count: nat)
    requires HeaderOk(m, base, count)
    ensures Directory(m, base) == base + EXPORT_DIR && DirectorySize(m, base) == 0x100 && Count(m, base) == count
    ensures Peek(m, Directory(m, base) + 0x1C, 4) == FUNCTIONS
    ensures Peek(m, Directory(m, base) + 0x20, 4) == NAMES
    ensures Peek(m, Directory(m, base) + 0x24, 4) == ORDINALS
  {
  }

  lemma NameReads(m: seq<byte>, base: nat, count: nat, i: nat, name: seq<byte>, trap: nat)
    requires HeaderOk(m, base, count) && EntryOk(m, base, i, name, trap) && IsText(name)
    ensures NameOf(m, base, i) == name && OrdinalOf(m, base, i) == i
  {
    HeaderReads(m, base, count);
    TextReadBack(m, base + STRINGS + STRING_SIZE * i, name);
  }

  lemma TargetReads(m: seq<byte>, base: nat, count: nat, i: nat, name: seq<byte>, trap: nat)
    requires HeaderOk(m, base, count) && EntryOk(m, base, i, name, trap)
    ensures Count(m, base) == count && Directory(m, base) == base + EXPORT_DIR && DirectorySize(m, base) == 0x100
    ensures FunctionRva(m, base, i) == TRAMPOLINES + TRAMPOLINE * i
    ensures Decode(m, base + FunctionRva(m, base, i)) == Some((i, trap))
  {
    HeaderReads(m, base, count);
  }

  /** Every name of the finished image leads back to its index and the trap, by way of the name, ordinal
      and function arrays; no function address is taken for a forwarder. */
  lemma EntryReads(m: seq<byte>, base: nat, names: seq<seq<byte>>, dll: seq<byte>, trap: nat, i: nat)
    requires IsTable(names) && Built(m, base, names, dll, trap, |names|) && i < |names|
    ensures Count(m, base) == |names| && NameOf(m, base, i) == names[i] && OrdinalOf(m, base, i) == i
    ensures Target(m, base, i) == Some((i, trap))
    ensures var rva := FunctionRva(m, base, i);
            !(Directory(m, base) <= base + rva < Directory(m, base) + DirectorySize(m, base))
  {
    NameReads(m, base, |names|, i, names[i], trap);
    TargetReads(m, base, |names|, i, names[i], trap);
  }

  predicate Distinct(names: seq<seq<byte>>) { forall i, j :: 0 <= i < j < |names| ==> names[i] != names[j] }

  predicate Sorted(names: seq<seq<byte>>) { forall i, j :: 0 <= i < j < |names| ==> Compare(names[i], names[j]) < 0 }

  /** All a resolver gets to see of the image. */
  ghost predicate Reads(m: seq<byte>, base: nat, names: seq<seq<byte>>, trap: nat) {
    && Count(m, base) == |names|
    && forall i {:trigger NameOf(m, base, i)} :: 0 <= i < |names| ==>
         NameOf(m, base, i) == names[i] && Target(m, base, i) == Some((i, trap))
  }

  lemma ImageReads(m: seq<byte>, base: nat, names: seq<seq<byte>>, dll: seq<byte>, trap: nat)
    requires IsTable(names) && Built(m, base, names, dll, trap, |names|)
    ensures Reads(m, base, names, trap)
  {
    HeaderReads(m, base, |names|);
    forall i: nat | i < |names| ensures NameOf(m, base, i) == names[i] && Target(m, base, i) == Some((i, trap)) {
      EntryReads(m, base, names, dll, trap, i);
    }
  }

  lemma {:induction false} SearchFinds(m: seq<byte>, base: nat, names: seq<seq<byte>>, trap: nat, i: nat, k: nat)
    requires Reads(m, base, names, trap) && Distinct(names) && i <= k < |names|
    ensures Search(m, base, names[k], i) == Some((k, trap))
    decreases k - i
  {
    assert NameOf(m, base, i) == names[i];
    if i < k { SearchFinds(m, base, names, trap, i + 1, k); }
  }

  lemma {:induction false} SearchMisses(m: seq<byte>, base: nat, names: seq<seq<byte>>, trap: nat, other: seq<byte>,
                                        i: nat)
    requires Reads(m, base, names, trap) && other !in names
    ensures Search(m, base, other, i) == None
    decreases |names| - i
  {
    if i >= |names| {
    } else {
      assert NameOf(m, base, i) == names[i];
      SearchMisses(m, base, names, trap, other, i + 1);
    }
  }

  lemma {:induction false} CompareLaws(s: seq<byte>, t: seq<byte>)
    ensures Compare(s, t) == 0 <==> s == t
    ensures Compare(s, t) < 0 <==> Compare(t, s) > 0
    decreases |s|
  {
    if s != [] && t != [] && s[0] == t[0] {
      CompareLaws(s[1..], t[1..]);
      assert s == [s[0]] + s[1..] && t == [t[0]] + t[1..];
    }
  }

  /** Binary search over the names themselves. */
  function Bisect(names: seq<seq<byte>>, name: seq<byte>, lo: nat, hi: nat): Option<nat>
    requires hi <= |names|
    decreases hi - lo
  {
    if lo >= hi then None
    else
      var mid := (lo + hi) / 2;
      var c := Compare(name, names[mid]);
      if c == 0 then Some(mid) else if c < 0 then Bisect(names, name, lo, mid) else Bisect(names, name, mid + 1, hi)
  }

  function WithTrap(r: Option<nat>, trap: nat): Option<(nat, nat)> {
    match r
    case None => None
    case Some(i) => Some((i, trap))
  }

  lemma ReadsAt(m: seq<byte>, base: nat, names: seq<seq<byte>>, trap: nat, i: nat)
    requires Reads(m, base, names, trap) && i < |names|
    ensures NameOf(m, base, i) == names[i] && Target(m, base, i) == Some((i, trap))
  {
  }

  /** The search in the image is the search over the names. */
  lemma {:induction false} ImageBisects(m: seq<byte>, base: nat, names: seq<seq<byte>>, trap: nat, name: seq<byte>,
                                        lo: nat, hi: nat)
    requires Reads(m, base, names, trap) && hi <= |names|
    ensures BinarySearch(m, base, name, lo, hi) == WithTrap(Bisect(names, name, lo, hi), trap)
    decreases hi - lo
  {
    if lo >= hi {
    } else {
      var mid := (lo + hi) / 2;
      ReadsAt(m, base, names, trap, mid);
      ImageBisects(m, base, names, trap, name, lo, mid);
      ImageBisects(m, base, names, trap, name, mid + 1, hi);
    }
  }

  /** The comparison is the one of dictionaries: by the first byte that differs, or by length. */
  lemma {:induction false} CompareLexically(s: seq<byte>, t: seq<byte>, k: nat)
    requires k <= |s| && k <= |t| && s[..k] == t[..k]
    requires k == |s| || k == |t| || s[k] != t[k]
    ensures Compare(s, t) < 0 <==> k < |t| && (k == |s| || s[k] < t[k])
    ensures Compare(s, t) == 0 <==> k == |s| == |t|
    decreases k
  {
    if k == 0 {
    } else {
      assert s[0] == s[..k][0] == t[..k][0] == t[0];
      assert s[1..][..k - 1] == s[..k][1..] && t[1..][..k - 1] == t[..k][1..];
      CompareLexically(s[1..], t[1..], k - 1);
    }
  }

  /** On which side of name k name i is. */
  lemma Sides(names: seq<seq<byte>>, i: nat, k: nat)
    requires Sorted(names) && i < |names| && k < |names|
    ensures i < k <==> Compare(names[i], names[k]) < 0
    ensures i == k <==> Compare(names[i], names[k]) == 0
  {
    CompareLaws(names[i], names[k]);
    CompareLaws(names[k], names[i]);
  }

  lemma {:induction false} BinarySearchFinds(names: seq<seq<byte>>, i: nat, lo: nat, hi: nat)
    requires Sorted(names) && lo <= i < hi <= |names|
    ensures Bisect(names, names[i], lo, hi) == Some(i)
    decreases hi - lo
  {
    var mid := (lo + hi) / 2;
    Sides(names, i, mid);
    if i < mid {
      BinarySearchFinds(names, i, lo, mid);
    } else if mid < i {
      BinarySearchFinds(names, i, mid + 1, hi);
    }
  }

  lemma {:induction false} BinarySearchMisses(names: seq<seq<byte>>, other: seq<byte>, lo: nat, hi: nat)
    requires other !in names && hi <= |names|
    ensures Bisect(names, other, lo, hi) == None
    decreases hi - lo
  {
    if lo >= hi {
    } else {
      var mid := (lo + hi) / 2;
      CompareLaws(other, names[mid]);
      BinarySearchMisses(names, other, lo, mid);
      BinarySearchMisses(names, other, mid + 1, hi);
    }
  }

  lemma SortedIsDistinct(names: seq<seq<byte>>)
    requires Sorted(names)
    ensures Distinct(names)
  {
    forall i, j | 0 <= i < j < |names| ensures names[i] != names[j] { CompareLaws(names[i], names[j]); }
  }

  /** The round trip: whatever was in memory before, both resolvers find in the finished image exactly the
      names of a sorted table, each with its own index and the trap. */
  lemma ExportRoundTrip(m: seq<byte>, base: nat, names: seq<seq<byte>>, dll: seq<byte>, trap: nat, name: seq<byte>)
    requires IsTable(names) && Sorted(names) && Built(m, base, names, dll, trap, |names|)
    ensures Search(m, base, name, 0) == BinarySearch(m, base, name, 0, Count(m, base))
    ensures Search(m, base, name, 0).Some? <==> name in names
    ensures forall i :: 0 <= i < |names| && names[i] == name ==> Search(m, base, name, 0) == Some((i, trap))
  {
    ImageReads(m, base, names, dll, trap);
    SortedIsDistinct(names);
    ImageBisects(m, base, names, trap, name, 0, |names|);
    if name in names {
      var i :| 0 <= i < |names| && names[i] == name;
      SearchFinds(m, base, names, trap, 0, i);
      BinarySearchFinds(names, i, 0, |names|);
    } else {
      SearchMisses(m, base, names, trap, name, 0);
      BinarySearchMisses(names, name, 0, |names|);
    }
  }

  // ------------------------------------------------------------ the capacity

  /** Byte a belongs to two of n entries. */
  ghost predicate Shared(base: nat, n: nat, a: int) {
    exists i, j :: 0 <= i < j < n && OfEntry(base, i, a) && OfEntry(base, j, a)
  }

  lemma EntriesClear(base: nat, i: nat, j: nat, a: int)
    requires i < j < CAPACITY
    ensures !(OfEntry(base, i, a) && OfEntry(base, j, a))
  {
  }

  /** No byte of the image is shared by two entries exactly when there are at most 96 of them: the text of entry 96 lies
      where the trampoline of entry 0 does. */
  lemma CapacityIsExact(base: nat, n: nat)
    ensures (forall a :: !Shared(base, n, a)) <==> n <= CAPACITY
  {
    if n <= CAPACITY {
      forall a ensures !Shared(base, n, a) {
        if Shared(base, n, a) {
          var i, j :| 0 <= i < j < n && OfEntry(base, i, a) && OfEntry(base, j, a);
          EntriesClear(base, i, j, a);
        }
      }
    } else {
      assert OfEntry(base, 0, base + TRAMPOLINES) && OfEntry(base, CAPACITY, base + TRAMPOLINES);
      assert Shared(base, n, base + TRAMPOLINES);
    }
  }

  /** A 97th name of plain text undoes the first trampoline. */
  lemma NameOverTrampoline(m: seq<byte>, base: nat, name: seq<byte>)
    requires TextAt(m, base + STRINGS + STRING_SIZE * CAPACITY, name) && (name != [] ==> name[0] < 0x80)
    ensures Decode(m, base + TRAMPOLINES) == None
  {
    if name != [] { assert m[base + TRAMPOLINES] == name[0]; }
  }

  // ------------------------------------------------------------------ the trap

  const ABYSS: nat := 999

  /** UniversalApiTrap as far as its memory: the name of the call goes to GlobalLastAPI. */
  method UniversalApiTrap(lastApi: array<byte>, index: nat, names: seq<seq<byte>>, abyss: seq<byte>)
    requires lastApi.Length == 128 && IsTable(names) && IsText(abyss)
    modifies lastApi
    ensures index < |names| ==> TextAt(lastApi[..], 0, names[index])
    ensures index == 999 ==> TextAt(lastApi[..], 0, Clipped(abyss))
    ensures index != 999 && index >= |names| ==> lastApi[..] == old(lastApi[..])
  {
    if index == ABYSS {
      CopyApiName(lastApi, abyss, 0);
    } else if index < |names| {
      CopyApiName(lastApi, names[index], 0);
    }
  }
}
