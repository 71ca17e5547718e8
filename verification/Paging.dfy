/** The identity map of the first 8 GiB (SetupPaging, main.c) against a 4-level page walk.  Intel SDM
    volume 3A, section 4.5, "4-Level Paging". */
module Paging {
  import opened Arith
  import opened Bytes

  const PRESENT_RW: nat := 0x03
  const PRESENT_RW_LARGE: nat := 0x83
  const PAGE: nat := 0x1000
  const LARGE_PAGE: nat := 0x20_0000
  const HUGE_PAGE: nat := 0x4000_0000
  const PML4_SPAN: nat := 0x80_0000_0000
  const MAPPED: nat := 0x2_0000_0000       // 8 GiB

  // -------------------------------------------------------------- bitwise or

  function BitOr(x: nat, y: nat): nat {
    if x == 0 then y else if y == 0 then x
    else (if x % 2 == 1 || y % 2 == 1 then 1 else 0) + 2 * BitOr(x / 2, y / 2)
  }

  function Pow2(k: nat): (p: nat)
    ensures p > 0
  {
    if k == 0 then 1 else 2 * Pow2(k - 1)
  }

  /** Flags or-ed into an address aligned beyond them are added to it. */
  lemma {:induction false} OrIntoAligned(q: nat, k: nat, flags: nat)
    requires flags < Pow2(k)
    ensures BitOr(q * Pow2(k), flags) == q * Pow2(k) + flags
    decreases k
  {
    if k > 0 && q > 0 && flags > 0 {
      var x, p := q * Pow2(k), Pow2(k - 1);
      assert x == 2 * (q * p);
      OrIntoAligned(q, k - 1, flags / 2);
    }
  }

  lemma OrFlags(x: nat)
    ensures x % PAGE == 0 ==> BitOr(x, PRESENT_RW) == x + PRESENT_RW
    ensures x % LARGE_PAGE == 0 ==> BitOr(x, PRESENT_RW_LARGE) == x + PRESENT_RW_LARGE
  {
    assert Pow2(12) == PAGE && Pow2(21) == LARGE_PAGE by {
      assert Pow2(4) == 16 && Pow2(8) == 16 * Pow2(4) && Pow2(12) == 16 * Pow2(8);
      assert Pow2(16) == 16 * Pow2(12) && Pow2(21) == 32 * Pow2(16);
    }
    if x % PAGE == 0 { OrIntoAligned(x / PAGE, 12, PRESENT_RW); }
    if x % LARGE_PAGE == 0 { OrIntoAligned(x / LARGE_PAGE, 21, PRESENT_RW_LARGE); }
  }

  // ------------------------------------------------------------- the walker

  function Slot(m: seq<byte>, table: nat, i: nat): nat {
    if table + 8 * i + 8 <= |m| then LoadLE(m, table + 8 * i, 8) else 0
  }

  predicate Present(e: nat) { e % 2 == 1 }

  predicate Large(e: nat) { (e / 0x80) % 2 == 1 }

  /** Bits 51 to `unit` of an entry: the frame or the table it points to. */
  function Frame(e: nat, unit: nat): nat
    requires unit > 0
  {
    (e % 0x10_0000_0000_0000) / unit * unit
  }

  /** What the processor makes of an address: nothing, or a place, and whether it may be written. */
  datatype Translation = NotPresent | Page(address: nat, size: nat, writable: bool)

  predicate Writable(e: nat) { e / 2 % 2 == 1 }

  /** The processor's walk for linear address va, from the PML4 table in CR3: 9 bits a level, and a page that may be
      written only if every level allows it. */
  function Walk(m: seq<byte>, cr3: nat, va: nat): Translation {
    var e4 := Slot(m, Frame(cr3, 0x1000), va / 0x80_0000_0000 % 512);
    if !Present(e4) then NotPresent else
    var e3 := Slot(m, Frame(e4, 0x1000), va / 0x4000_0000 % 512);
    if !Present(e3) then NotPresent else
    var w3 := Writable(e4) && Writable(e3);
    if Large(e3) then Page(Frame(e3, 0x4000_0000) + va % 0x4000_0000, 0x4000_0000, w3) else
    var e2 := Slot(m, Frame(e3, 0x1000), va / 0x20_0000 % 512);
    if !Present(e2) then NotPresent else
    var w2 := w3 && Writable(e2);
    if Large(e2) then Page(Frame(e2, 0x20_0000) + va % 0x20_0000, 0x20_0000, w2) else
    var e1 := Slot(m, Frame(e2, 0x1000), va / 0x1000 % 512);
    if !Present(e1) then NotPresent else Page(Frame(e1, 0x1000) + va % 0x1000, 0x1000, w2 && Writable(e1))
  }

  /** Bits 63 to 47 all equal. */
  predicate Canonical(va: nat) { va < 0x8000_0000_0000 || U64 - 0x8000_0000_0000 <= va < U64 }

  // -------------------------------------------------------------- the tables

  /** Three 4096-aligned areas apart from each other, below the 52-bit physical limit. */
  datatype Place = Place(pml4: nat, pdpt: nat, pd: nat) {
    predicate Ok(top: nat) {
      && pml4 % PAGE == 0 && pdpt % PAGE == 0 && pd % PAGE == 0 && top <= 0x10_0000_0000_0000
      && pml4 + PAGE <= top && pdpt + PAGE <= top && pd + 8 * PAGE <= top
      && (pml4 + PAGE <= pdpt || pdpt + PAGE <= pml4)
      && (pml4 + PAGE <= pd || pd + 8 * PAGE <= pml4)
      && (pdpt + PAGE <= pd || pd + 8 * PAGE <= pdpt)
    }
  }

  ghost predicate Filled(m: seq<byte>, table: nat, n: nat, f: nat -> nat) {
    table + 8 * n <= |m| && forall k {:trigger Slot(m, table, k)} :: 0 <= k < n ==> Slot(m, table, k) == f(k)
  }

  ghost predicate Tables(m: seq<byte>, p: Place) {
    && Filled(m, p.pml4, 512, k => if k == 0 then p.pdpt + PRESENT_RW else 0)
    && Filled(m, p.pdpt, 512, k => if k < 8 then p.pd + PAGE * k + PRESENT_RW else 0)
    && Filled(m, p.pd, 4096, k => LARGE_PAGE * k + PRESENT_RW_LARGE)
  }

  lemma FilledKept(m: seq<byte>, m': seq<byte>, table: nat, n: nat, f: nat -> nat)
    requires Filled(m, table, n, f) && |m| == |m'| && Agree(m, m', table, table + 8 * n)
    ensures Filled(m', table, n, f)
  {
    forall k: nat | k < n ensures Slot(m', table, k) == f(k) {
      assert Slot(m, table, k) == f(k);
      LoadAgree(m, m', table + 8 * k, 8);
    }
  }

  lemma FilledMore(m: seq<byte>, m': seq<byte>, table: nat, n: nat, f: nat -> nat)
    requires Filled(m, table, n, f) && |m| == |m'| && table + 8 * n + 8 <= |m|
    requires Agree(m, m', table, table + 8 * n) && LoadLE(m', table + 8 * n, 8) == f(n)
    ensures Filled(m', table, n + 1, f)
  {
    FilledKept(m, m', table, n, f);
  }

  method SetSlot(mem: array<byte>, table: nat, i: nat, v: nat)
    requires table + 8 * i + 8 <= mem.Length && v < U64
    modifies mem
    ensures LoadLE(mem[..], table + 8 * i, 8) == v
    ensures Agree(old(mem[..]), mem[..], 0, table + 8 * i)
    ensures Agree(old(mem[..]), mem[..], table + 8 * i + 8, mem.Length)
  {
    Widths();
    LoadStored(mem[..], table + 8 * i, 8, v);
    Store(mem, table + 8 * i, 8, v);
  }

  /** The first clearing loop: both upper tables, entry by entry. */
  method ClearUpper(mem: array<byte>, p: Place)
    requires p.Ok(mem.Length)
    modifies mem
    ensures Filled(mem[..], p.pml4, 512, k => 0) && Filled(mem[..], p.pdpt, 512, k => 0)
  {
    ghost var zero: nat -> nat := k => 0;
    for i := 0 to 512
      invariant Filled(mem[..], p.pml4, i, zero) && Filled(mem[..], p.pdpt, i, zero)
    {
      ghost var m0 := mem[..];
      SetSlot(mem, p.pml4, i, 0);
      ghost var m1 := mem[..];
      FilledMore(m0, m1, p.pml4, i, zero);
      FilledKept(m0, m1, p.pdpt, i, zero);
      SetSlot(mem, p.pdpt, i, 0);
      FilledKept(m1, mem[..], p.pml4, i + 1, zero);
      FilledMore(m1, mem[..], p.pdpt, i, zero);
    }
  }

  /** The second clearing loop: the eight page directories. */
  method ClearDirectories(mem: array<byte>, pd: nat)
    requires pd + 8 * PAGE <= mem.Length
    modifies mem
    ensures Agree(old(mem[..]), mem[..], 0, pd) && Agree(old(mem[..]), mem[..], pd + 8 * PAGE, mem.Length)
  {
    for i := 0 to 8
      invariant Agree(old(mem[..]), mem[..], 0, pd) && Agree(old(mem[..]), mem[..], pd + 8 * PAGE, mem.Length)
    {
      for j := 0 to 512
        invariant Agree(old(mem[..]), mem[..], 0, pd) && Agree(old(mem[..]), mem[..], pd + 8 * PAGE, mem.Length)
      {
        SetSlot(mem, pd + PAGE * i, j, 0);
      }
    }
  }

  function Pointers(pd: nat, n: nat): nat -> nat { k => if k < n then pd + PAGE * k + PRESENT_RW else 0 }

  lemma FilledUpdate(m: seq<byte>, m': seq<byte>, table: nat, n: nat, f: nat -> nat, i: nat, v: nat, g: nat -> nat)
    requires Filled(m, table, n, f) && |m| == |m'| && i < n
    requires Agree(m, m', 0, table + 8 * i) && Agree(m, m', table + 8 * i + 8, |m|)
    requires LoadLE(m', table + 8 * i, 8) == v
    requires forall k: nat :: k < n ==> g(k) == if k == i then v else f(k)
    ensures Filled(m', table, n, g)
  {
    forall k: nat | k < n ensures Slot(m', table, k) == g(k) {
      if k != i {
        assert Slot(m, table, k) == f(k);
        LoadAgree(m, m', table + 8 * k, 8);
      }
    }
  }

  /** The PDPT loop: one page directory after the other. */
  method LinkDirectories(mem: array<byte>, p: Place)
    requires p.Ok(mem.Length) && Filled(mem[..], p.pdpt, 512, k => 0)
    modifies mem
    ensures Filled(mem[..], p.pdpt, 512, Pointers(p.pd, 8))
    ensures Agree(old(mem[..]), mem[..], 0, p.pdpt) && Agree(old(mem[..]), mem[..], p.pdpt + PAGE, mem.Length)
  {
    for i := 0 to 8
      invariant Filled(mem[..], p.pdpt, 512, Pointers(p.pd, i))
      invariant Agree(old(mem[..]), mem[..], 0, p.pdpt) && Agree(old(mem[..]), mem[..], p.pdpt + PAGE, mem.Length)
    {
      ghost var m := mem[..];
      OrFlags(p.pd + PAGE * i);
      SetSlot(mem, p.pdpt, i, BitOr(p.pd + PAGE * i, PRESENT_RW));
      FilledUpdate(m, mem[..], p.pdpt, 512, Pointers(p.pd, i), i, p.pd + PAGE * i + PRESENT_RW, Pointers(p.pd, i + 1));
    }
  }

  /** The nested loops with the running physical address: 2 MiB pages in order. */
  method FillDirectories(mem: array<byte>, pd: nat)
    requires pd + 8 * PAGE <= mem.Length
    modifies mem
    ensures Filled(mem[..], pd, 4096, k => LARGE_PAGE * k + PRESENT_RW_LARGE)
    ensures Agree(old(mem[..]), mem[..], 0, pd) && Agree(old(mem[..]), mem[..], pd + 8 * PAGE, mem.Length)
  {
    ghost var pages: nat -> nat := k => LARGE_PAGE * k + PRESENT_RW_LARGE;
    var physical := 0;
    for i := 0 to 8
      invariant physical == LARGE_PAGE * (512 * i) && Filled(mem[..], pd, 512 * i, pages)
      invariant Agree(old(mem[..]), mem[..], 0, pd) && Agree(old(mem[..]), mem[..], pd + 8 * PAGE, mem.Length)
    {
      for j := 0 to 512
        invariant physical == LARGE_PAGE * (512 * i + j) && Filled(mem[..], pd, 512 * i + j, pages)
        invariant Agree(old(mem[..]), mem[..], 0, pd) && Agree(old(mem[..]), mem[..], pd + 8 * PAGE, mem.Length)
      {
        ghost var m := mem[..];
        OrFlags(physical);
        SetSlot(mem, pd + PAGE * i, j, BitOr(physical, PRESENT_RW_LARGE));
        FilledMore(m, mem[..], pd, 512 * i + j, pages);
        physical := physical + LARGE_PAGE;
      }
    }
  }

  function Top(pdpt: nat): nat -> nat { k => if k == 0 then pdpt + PRESENT_RW else 0 }

  /** The one entry of the PML4 table. */
  method LinkTop(mem: array<byte>, p: Place)
    requires p.Ok(mem.Length) && Filled(mem[..], p.pml4, 512, k => 0) && Filled(mem[..], p.pdpt, 512, k => 0)
    modifies mem
    ensures Filled(mem[..], p.pml4, 512, Top(p.pdpt)) && Filled(mem[..], p.pdpt, 512, k => 0)
  {
    ghost var m := mem[..];
    OrFlags(p.pdpt);
    SetSlot(mem, p.pml4, 0, BitOr(p.pdpt, PRESENT_RW));
    FilledUpdate(m, mem[..], p.pml4, 512, k => 0, 0, p.pdpt + PRESENT_RW, Top(p.pdpt));
    FilledKept(m, mem[..], p.pdpt, 512, k => 0);
  }

  method SetupPaging(mem: array<byte>, p: Place)
    requires p.Ok(mem.Length)
    modifies mem
    ensures Tables(mem[..], p)
  {
    ClearUpper(mem, p);
    ghost var m0 := mem[..];
    ClearDirectories(mem, p.pd);
    FilledKept(m0, mem[..], p.pml4, 512, k => 0);
    FilledKept(m0, mem[..], p.pdpt, 512, k => 0);
    LinkTop(mem, p);
    ghost var m2 := mem[..];
    LinkDirectories(mem, p);
    ghost var m3 := mem[..];
    FilledKept(m2, m3, p.pml4, 512, Top(p.pdpt));
    FillDirectories(mem, p.pd);
    FilledKept(m3, mem[..], p.pml4, 512, Top(p.pdpt));
    FilledKept(m3, mem[..], p.pdpt, 512, Pointers(p.pd, 8));
  }

  // --------------------------------------------------------- the identity map

  lemma FrameOf(x: nat, flags: nat, unit: nat)
    requires unit > 0 && x % unit == 0 && flags < unit && x + flags < 0x10_0000_0000_0000
    ensures Frame(x + flags, unit) == x
  {
    DivIs(x + flags, unit, x / unit, flags);
  }

  /** The present bit and the page-size bit of 0x100 * y + 0x80 * b + 3. */
  lemma LowBits(y: nat, b: nat)
    requires b < 2
    ensures var x := 0x80 * (2 * y + b) + 3; x % 2 == 1 && x / 2 % 2 == 1 && x / 0x80 % 2 == b
  {
    var x := 0x80 * (2 * y + b) + 3;
    DivIs(x, 2, 0x80 * y + 0x40 * b + 1, 1);
    DivIs(0x80 * y + 0x40 * b + 1, 2, 0x40 * y + 0x20 * b, 1);
    DivIs(x, 0x80, 2 * y + b, 3);
    DivIs(2 * y + b, 2, y, b);
  }

  lemma PointerBits(q: nat)
    ensures var x := PAGE * q + PRESENT_RW; x % 2 == 1 && x / 2 % 2 == 1 && x / 0x80 % 2 == 0
  {
    LowBits(0x10 * q, 0);
  }

  lemma PointerEntry(x: nat)
    requires x % PAGE == 0 && x + PAGE <= 0x10_0000_0000_0000
    ensures Present(x + PRESENT_RW) && Writable(x + PRESENT_RW) && !Large(x + PRESENT_RW)
    ensures Frame(x + PRESENT_RW, PAGE) == x
  {
    FrameOf(x, PRESENT_RW, PAGE);
    PointerBits(x / PAGE);
  }

  lemma UpperLevels(m: seq<byte>, p: Place, i: nat)
    requires p.Ok(|m|) && Tables(m, p) && i < 8
    ensures var e := Slot(m, p.pml4, 0); Present(e) && Writable(e) && Frame(e, PAGE) == p.pdpt
    ensures var e := Slot(m, p.pdpt, i); Present(e) && Writable(e) && !Large(e) && Frame(e, PAGE) == p.pd + PAGE * i
  {
    assert Slot(m, p.pml4, 0) == p.pdpt + PRESENT_RW;
    PointerEntry(p.pdpt);
    assert Slot(m, p.pdpt, i) == p.pd + PAGE * i + PRESENT_RW;
    PointerEntry(p.pd + PAGE * i);
  }

  lemma LargeBits(k: nat)
    ensures var x := LARGE_PAGE * k + PRESENT_RW_LARGE; x % 2 == 1 && x / 2 % 2 == 1 && x / 0x80 % 2 == 1
  {
    LowBits(0x2000 * k, 1);
  }

  lemma LargeEntry(k: nat)
    requires k < 4096
    ensures var e := LARGE_PAGE * k + PRESENT_RW_LARGE;
            Present(e) && Writable(e) && Large(e) && Frame(e, LARGE_PAGE) == LARGE_PAGE * k
  {
    LargeBits(k);
    FrameOf(LARGE_PAGE * k, PRESENT_RW_LARGE, LARGE_PAGE);
  }

  lemma LastLevel(m: seq<byte>, p: Place, i: nat, j: nat)
    requires p.Ok(|m|) && Tables(m, p) && i < 8 && j < 512
    ensures var e := Slot(m, p.pd + PAGE * i, j);
            Present(e) && Writable(e) && Large(e) && Frame(e, LARGE_PAGE) == LARGE_PAGE * (512 * i + j)
  {
    assert Slot(m, p.pd, 512 * i + j) == LARGE_PAGE * (512 * i + j) + PRESENT_RW_LARGE;
    LargeEntry(512 * i + j);
  }

  lemma Indices(va: nat)
    requires va < MAPPED
    ensures va / PML4_SPAN % 512 == 0 && va / HUGE_PAGE % 512 == va / HUGE_PAGE < 8
    ensures LARGE_PAGE * (512 * (va / HUGE_PAGE) + va / LARGE_PAGE % 512) + va % LARGE_PAGE == va
  {
  }

  /** Every address below 8 GiB is mapped to itself by a 2 MiB page that may be written. */
  lemma IdentityBelow8GiB(m: seq<byte>, p: Place, va: nat)
    requires p.Ok(|m|) && Tables(m, p) && va < 0x2_0000_0000
    ensures Walk(m, p.pml4, va) == Page(va, 0x20_0000, true)
  {
    Indices(va);
    FrameOf(p.pml4, 0, PAGE);
    UpperLevels(m, p, va / HUGE_PAGE);
    LastLevel(m, p, va / HUGE_PAGE, va / LARGE_PAGE % 512);
  }

  /** Every other canonical address is not present. */
  lemma NothingElseMapped(m: seq<byte>, p: Place, va: nat)
    requires p.Ok(|m|) && Tables(m, p) && Canonical(va) && va >= 0x2_0000_0000
    ensures Walk(m, p.pml4, va) == NotPresent
  {
    var h, i := va / PML4_SPAN % 512, va / HUGE_PAGE % 512;
    FrameOf(p.pml4, 0, PAGE);
    if h == 0 {
      assert va < PML4_SPAN && i == va / HUGE_PAGE >= 8;
      assert Slot(m, p.pml4, 0) == p.pdpt + PRESENT_RW;
      FrameOf(p.pdpt, PRESENT_RW, PAGE);
      assert Slot(m, p.pdpt, i) == 0;
    } else {
      assert Slot(m, p.pml4, h) == 0;
    }
  }
}
