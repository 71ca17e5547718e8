/** Rewriting the import address table of a mapped image so that every import by name goes through a
    trampoline (src/fat32.c, ExecuteFirstFile).  Microsoft PE/COFF specification, "Import Directory
    Table", "Import Lookup Table" and "Import Address Table". */
module Imports {
  import opened Bytes

  const DESCRIPTOR: nat := 20
  const TRAMPOLINE: nat := 32
  const POOL: nat := 0x5000
  const ORDINAL_FLAG: nat := 0x8000_0000_0000_0000

  /** One import descriptor: where its lookup table and its address table lie, and the lookup entries.
      With OriginalFirstThunk = 0 the two tables are one. */
  datatype Import = Import(lookup: nat, slots: nat, thunks: seq<nat>)

  /** An address-table slot and the lookup entry it belongs to. */
  datatype Slot = Slot(addr: nat, thunk: nat) {
    predicate ByName() { thunk < ORDINAL_FLAG }
  }

  function SlotsOf(addr: nat, thunks: seq<nat>): (ss: seq<Slot>)
    ensures |ss| == |thunks|
    decreases |thunks|
  {
    if thunks == [] then [] else [Slot(addr, thunks[0])] + SlotsOf(addr + 8, thunks[1..])
  }

  function Flatten(imports: seq<Import>): seq<Slot> {
    if imports == [] then [] else SlotsOf(imports[0].slots, imports[0].thunks) + Flatten(imports[1..])
  }

  /** The table in memory: these entries, all non-zero, then a zero. */
  predicate TableAt(m: seq<byte>, at: nat, thunks: seq<nat>)
    decreases |thunks|
  {
    at + 8 <= |m|
    && if thunks == [] then LoadLE(m, at, 8) == 0
       else LoadLE(m, at, 8) == thunks[0] != 0 && TableAt(m, at + 8, thunks[1..])
  }

  /** The import directory in memory: OriginalFirstThunk at +0, Name at +12, FirstThunk at +16; a
      descriptor without a name ends it. */
  predicate DirectoryAt(m: seq<byte>, img: nat, desc: nat, imports: seq<Import>)
    decreases |imports|
  {
    desc + DESCRIPTOR <= |m|
    && if imports == [] then LoadLE(m, desc + 12, 4) == 0
       else
         && LoadLE(m, desc + 12, 4) != 0
         && imports[0].slots == img + LoadLE(m, desc + 16, 4)
         && imports[0].lookup == (if LoadLE(m, desc, 4) == 0 then imports[0].slots else img + LoadLE(m, desc, 4))
         && TableAt(m, imports[0].lookup, imports[0].thunks)
         && DirectoryAt(m, img, desc + DESCRIPTOR, imports[1..])
  }

  predicate Apart(a: nat, n: nat, b: nat, k: nat) { a + n <= b || b + k <= a }

  /** [x, x + n) holds no descriptor and no lookup entry of these imports, end marks included. */
  predicate Misses(desc: nat, imports: seq<Import>, x: nat, n: nat)
    decreases |imports|
  {
    && Apart(x, n, desc, DESCRIPTOR)
    && (imports != [] ==>
          && Apart(x, n, imports[0].lookup, 8 * (|imports[0].thunks| + 1))
          && Misses(desc + DESCRIPTOR, imports[1..], x, n))
  }

  /** What the loader relies on: each address table lies clear of the pool, of the directory entries and
      lookup tables after it, and of its own lookup table unless it is that table. */
  predicate WellPlaced(desc: nat, imports: seq<Import>, pool: nat, top: nat)
    decreases |imports|
  {
    imports != [] ==>
      var d := imports[0];
      var n := 8 * |d.thunks|;
      && d.slots + n <= top && Apart(d.slots, n, pool, POOL)
      && (d.slots == d.lookup || Apart(d.slots, n, d.lookup, n + 8))
      && Misses(desc + DESCRIPTOR, imports[1..], d.slots, n)
      && WellPlaced(desc + DESCRIPTOR, imports[1..], pool, top)
  }

  // ----------------------------------------------------------- the trampoline

  /** mov rcx, name; mov rax, trap; jmp rax */
  function Emit(m: seq<byte>, t: nat, name: nat, trap: nat): seq<byte>
    requires t + TRAMPOLINE <= |m|
  {
    var a := StoreLE(m[t := 0x48][t + 1 := 0xB9], t + 2, 8, name);
    var b := StoreLE(a[t + 10 := 0x48][t + 11 := 0xB8], t + 12, 8, trap);
    b[t + 20 := 0xFF][t + 21 := 0xE0]
  }

  /** What a processor would do at `t`, if the bytes there are a trampoline: (argument, target). */
  function Decode(m: seq<byte>, t: nat): Option<(nat, nat)>
    requires t + TRAMPOLINE <= |m|
  {
    if m[t] == 0x48 && m[t + 1] == 0xB9 && m[t + 10] == 0x48 && m[t + 11] == 0xB8 && m[t + 20] == 0xFF
       && m[t + 21] == 0xE0
    then Some((LoadLE(m, t + 2, 8), LoadLE(m, t + 12, 8)))
    else None
  }

  lemma EmitDecodes(m: seq<byte>, t: nat, name: nat, trap: nat)
    requires t + TRAMPOLINE <= |m| && name < U64 && trap < U64
    ensures Decode(Emit(m, t, name, trap), t) == Some((name, trap))
    ensures |Emit(m, t, name, trap)| == |m|
    ensures Agree(m, Emit(m, t, name, trap), 0, t) && Agree(m, Emit(m, t, name, trap), t + TRAMPOLINE, |m|)
  {
    Widths();
    var m1 := m[t := 0x48][t + 1 := 0xB9];
    var a := StoreLE(m1, t + 2, 8, name);
    var a1 := a[t + 10 := 0x48][t + 11 := 0xB8];
    var b := StoreLE(a1, t + 12, 8, trap);
    var e := b[t + 20 := 0xFF][t + 21 := 0xE0];
    LoadStored(m1, t + 2, 8, name);
    LoadStored(a1, t + 12, 8, trap);
    LoadAgree(a, e, t + 2, 8);
    LoadAgree(b, e, t + 12, 8);
  }

  lemma DecodeKept(m: seq<byte>, m': seq<byte>, t: nat)
    requires t + TRAMPOLINE <= |m| == |m'| && Agree(m, m', t, t + TRAMPOLINE)
    ensures Decode(m, t) == Decode(m', t)
  {
    LoadAgree(m, m', t + 2, 8);
    LoadAgree(m, m', t + 12, 8);
  }

  // -------------------------------------------------------------- the rewrite

  /** The address of the name an entry points at: the hint is skipped. */
  function NameAddr(img: nat, thunk: nat): nat { (img + thunk % 0x8000_0000 + 2) % U64 }

  function Names(ss: seq<Slot>): nat {
    if ss == [] then 0 else (if ss[0].ByName() then 1 else 0) + Names(ss[1..])
  }

  predicate Room(ss: seq<Slot>, t: nat, top: nat) {
    (forall s :: s in ss ==> s.addr + 8 <= top) && t + TRAMPOLINE * Names(ss) <= top
  }

  /** A trampoline for the slot's name at t, and the slot pointing to it. */
  function Serve(m: seq<byte>, s: Slot, t: nat, img: nat, trap: nat): (r: seq<byte>)
    requires s.addr + 8 <= |m| && t + TRAMPOLINE <= |m|
    ensures |r| == |m|
  {
    StoreLE(Emit(m, t, NameAddr(img, s.thunk), trap), s.addr, 8, t)
  }

  /** Memory after the slots are served in order, the next trampoline going to t. */
  function Patch(m: seq<byte>, ss: seq<Slot>, t: nat, img: nat, trap: nat): (r: seq<byte>)
    requires Room(ss, t, |m|)
    ensures |r| == |m|
    decreases |ss|
  {
    if ss == [] then m
    else if ss[0].ByName() then Patch(Serve(m, ss[0], t, img, trap), ss[1..], t + TRAMPOLINE, img, trap)
    else Patch(m, ss[1..], t, img, trap)
  }

  /** The slots share no byte with each other or with [pool, pool + n). */
  predicate Separate(ss: seq<Slot>, pool: nat, n: nat)
    decreases |ss|
  {
    ss != [] ==>
      && Apart(ss[0].addr, 8, pool, n)
      && (forall s :: s in ss[1..] ==> Apart(ss[0].addr, 8, s.addr, 8))
      && Separate(ss[1..], pool, n)
  }

  predicate Written(ss: seq<Slot>, t: nat, a: nat) {
    || t <= a < t + TRAMPOLINE * Names(ss)
    || exists s :: s in ss && s.ByName() && s.addr <= a < s.addr + 8
  }

  lemma ServeFrame(m: seq<byte>, s: Slot, t: nat, img: nat, trap: nat, a: nat)
    requires s.addr + 8 <= |m| && t + TRAMPOLINE <= |m| && a < |m|
    requires !(t <= a < t + TRAMPOLINE) && !(s.addr <= a < s.addr + 8)
    ensures Serve(m, s, t, img, trap)[a] == m[a]
  {
  }

  /** Only trampolines and by-name slots change. */
  lemma {:induction false} PatchFrame(m: seq<byte>, ss: seq<Slot>, t: nat, img: nat, trap: nat, a: nat)
    requires Room(ss, t, |m|) && a < |m| && !Written(ss, t, a)
    ensures Patch(m, ss, t, img, trap)[a] == m[a]
    decreases |ss|
  {
    if ss != [] {
      if ss[0].ByName() {
        ServeFrame(m, ss[0], t, img, trap, a);
        PatchFrame(Serve(m, ss[0], t, img, trap), ss[1..], t + TRAMPOLINE, img, trap, a);
      } else {
        PatchFrame(m, ss[1..], t, img, trap, a);
      }
    }
  }

  lemma PatchKeeps(m: seq<byte>, ss: seq<Slot>, t: nat, img: nat, trap: nat, x: nat, n: nat)
    requires Room(ss, t, |m|) && x + n <= |m|
    requires forall a :: x <= a < x + n ==> !Written(ss, t, a)
    ensures Agree(m, Patch(m, ss, t, img, trap), x, x + n)
  {
    forall a | x <= a < x + n ensures Patch(m, ss, t, img, trap)[a] == m[a] { PatchFrame(m, ss, t, img, trap, a); }
  }

  lemma ServeServes(m: seq<byte>, s: Slot, t: nat, img: nat, trap: nat)
    requires s.addr + 8 <= |m| <= U64 && t + TRAMPOLINE <= |m| && trap < U64 && Apart(s.addr, 8, t, TRAMPOLINE)
    ensures var r := Serve(m, s, t, img, trap);
            LoadLE(r, s.addr, 8) == t && Decode(r, t) == Some((NameAddr(img, s.thunk), trap))
  {
    Widths();
    var e := Emit(m, t, NameAddr(img, s.thunk), trap);
    EmitDecodes(m, t, NameAddr(img, s.thunk), trap);
    LoadStored(e, s.addr, 8, t);
    DecodeKept(e, Serve(m, s, t, img, trap), t);
  }

  /** The slot at index i, once all are served: a by-name slot points to its own trampoline, which leads
      to the trap with its name; a by-ordinal slot is untouched. */
  ghost predicate Served(m: seq<byte>, r: seq<byte>, ss: seq<Slot>, t: nat, img: nat, trap: nat, i: nat)
    requires |r| == |m| && Room(ss, t, |m|) && i < |ss|
  {
    var own := t + TRAMPOLINE * Names(ss[..i]);
    && ss[i].addr + 8 <= |m|
    && (ss[i].ByName() ==>
          && own + TRAMPOLINE <= t + TRAMPOLINE * Names(ss)
          && LoadLE(r, ss[i].addr, 8) == own
          && Decode(r, own) == Some((NameAddr(img, ss[i].thunk), trap)))
    && (!ss[i].ByName() ==> LoadLE(r, ss[i].addr, 8) == LoadLE(m, ss[i].addr, 8))
  }

  lemma {:induction false} SeparateShrinks(ss: seq<Slot>, pool: nat, n: nat, pool': nat, n': nat)
    requires Separate(ss, pool, n) && pool <= pool' && pool' + n' <= pool + n
    ensures Separate(ss, pool', n')
    decreases |ss|
  {
    if ss == [] {
    } else {
      SeparateShrinks(ss[1..], pool, n, pool', n');
    }
  }

  lemma {:induction false} SeparateFromPool(ss: seq<Slot>, pool: nat, n: nat, s: Slot)
    requires Separate(ss, pool, n) && s in ss
    ensures Apart(s.addr, 8, pool, n)
    decreases |ss|
  {
    if s == ss[0] {
    } else {
      SeparateFromPool(ss[1..], pool, n, s);
    }
  }

  lemma NamesStep(ss: seq<Slot>, i: nat)
    requires 0 < i <= |ss|
    ensures Names(ss[..i]) == (if ss[0].ByName() then 1 else 0) + Names(ss[1..][..i - 1])
  {
    assert ss[..i][1..] == ss[1..][..i - 1];
  }

  /** What the head slot got is not disturbed by the slots after it. */
  lemma HeadStays(m: seq<byte>, ss: seq<Slot>, t: nat, img: nat, trap: nat)
    requires ss != [] && Room(ss, t, |m|) && Separate(ss, t, TRAMPOLINE * Names(ss))
    requires ss[0].ByName() && Room(ss[1..], t + TRAMPOLINE, |m|)
    ensures var r := Patch(m, ss[1..], t + TRAMPOLINE, img, trap);
            LoadLE(r, ss[0].addr, 8) == LoadLE(m, ss[0].addr, 8) && Decode(r, t) == Decode(m, t)
  {
    var rest, t1 := ss[1..], t + TRAMPOLINE;
    var r := Patch(m, rest, t1, img, trap);
    forall s | s in rest ensures Apart(s.addr, 8, t, TRAMPOLINE * Names(ss)) {
      SeparateFromPool(ss, t, TRAMPOLINE * Names(ss), s);
    }
    PatchKeeps(m, rest, t1, img, trap, ss[0].addr, 8);
    PatchKeeps(m, rest, t1, img, trap, t, TRAMPOLINE);
    LoadAgree(m, r, ss[0].addr, 8);
    DecodeKept(m, r, t);
  }

  lemma TailServed(m: seq<byte>, m1: seq<byte>, r: seq<byte>, ss: seq<Slot>, t: nat, t1: nat, img: nat, trap: nat,
                   i: nat)
    requires |r| == |m| == |m1| && 0 < i < |ss| && Room(ss, t, |m|) && Room(ss[1..], t1, |m|)
    requires t1 == t + if ss[0].ByName() then TRAMPOLINE else 0
    requires LoadLE(m1, ss[i].addr, 8) == LoadLE(m, ss[i].addr, 8)
    requires Served(m1, r, ss[1..], t1, img, trap, i - 1)
    ensures Served(m, r, ss, t, img, trap, i)
  {
    NamesStep(ss, i);
  }

  lemma OrdinalHeadStays(m: seq<byte>, ss: seq<Slot>, t: nat, img: nat, trap: nat)
    requires ss != [] && !ss[0].ByName() && Room(ss, t, |m|) && Separate(ss, t, TRAMPOLINE * Names(ss))
    ensures LoadLE(Patch(m, ss, t, img, trap), ss[0].addr, 8) == LoadLE(m, ss[0].addr, 8)
  {
    PatchKeeps(m, ss, t, img, trap, ss[0].addr, 8);
    LoadAgree(m, Patch(m, ss, t, img, trap), ss[0].addr, 8);
  }

  lemma HeadServed(m: seq<byte>, ss: seq<Slot>, t: nat, img: nat, trap: nat)
    requires ss != [] && Room(ss, t, |m|) && |m| <= U64 && trap < U64 && Separate(ss, t, TRAMPOLINE * Names(ss))
    ensures Served(m, Patch(m, ss, t, img, trap), ss, t, img, trap, 0)
  {
    if ss[0].ByName() {
      ServeServes(m, ss[0], t, img, trap);
      HeadStays(Serve(m, ss[0], t, img, trap), ss, t, img, trap);
    } else {
      OrdinalHeadStays(m, ss, t, img, trap);
    }
  }

  lemma OtherSlotKept(m: seq<byte>, s: Slot, t: nat, img: nat, trap: nat, x: nat)
    requires s.addr + 8 <= |m| && t + TRAMPOLINE <= |m| && x + 8 <= |m|
    requires Apart(s.addr, 8, x, 8) && Apart(x, 8, t, TRAMPOLINE)
    ensures LoadLE(Serve(m, s, t, img, trap), x, 8) == LoadLE(m, x, 8)
  {
    LoadAgree(m, Serve(m, s, t, img, trap), x, 8);
  }

  /** A slot behind a by-name slot is served as it is in the rest, from what the head leaves. */
  lemma ServedBehindNamed(m: seq<byte>, m1: seq<byte>, r: seq<byte>, ss: seq<Slot>, t: nat, img: nat, trap: nat, i: nat)
    requires |r| == |m| && 0 < i < |ss| && Room(ss, t, |m|) && Separate(ss, t, TRAMPOLINE * Names(ss)) && ss[0].ByName()
    requires ss[0].addr + 8 <= |m| && m1 == Serve(m, ss[0], t, img, trap) && Room(ss[1..], t + TRAMPOLINE, |m|)
    requires Served(m1, r, ss[1..], t + TRAMPOLINE, img, trap, i - 1)
    ensures Served(m, r, ss, t, img, trap, i)
  {
    SeparateFromPool(ss, t, TRAMPOLINE * Names(ss), ss[i]);
    assert ss[i] in ss[1..] by { assert ss[1..][i - 1] == ss[i]; }
    OtherSlotKept(m, ss[0], t, img, trap, ss[i].addr);
    TailServed(m, m1, r, ss, t, t + TRAMPOLINE, img, trap, i);
  }

  lemma RestRoom(ss: seq<Slot>, t: nat, top: nat)
    requires ss != [] && Room(ss, t, top)
    ensures ss[0].ByName() ==> ss[0].addr + 8 <= top && t + TRAMPOLINE <= top && Room(ss[1..], t + TRAMPOLINE, top)
    ensures !ss[0].ByName() ==> Room(ss[1..], t, top)
  {
    assert ss[0] in ss && forall s :: s in ss[1..] ==> s in ss;
  }

  lemma RestSeparate(ss: seq<Slot>, t: nat)
    requires ss != [] && ss[0].ByName() && Separate(ss, t, TRAMPOLINE * Names(ss))
    ensures Separate(ss[1..], t + TRAMPOLINE, TRAMPOLINE * Names(ss[1..]))
  {
    SeparateShrinks(ss[1..], t, TRAMPOLINE * Names(ss), t + TRAMPOLINE, TRAMPOLINE * Names(ss[1..]));
  }

  /** Every slot gets what it should, for any number of imports. */
  lemma {:induction false} PatchExact(m: seq<byte>, ss: seq<Slot>, t: nat, img: nat, trap: nat, i: nat)
    requires Room(ss, t, |m|) && |m| <= U64 && trap < U64 && i < |ss|
    requires Separate(ss, t, TRAMPOLINE * Names(ss))
    ensures Served(m, Patch(m, ss, t, img, trap), ss, t, img, trap, i)
    decreases |ss|
  {
    RestRoom(ss, t, |m|);
    if i == 0 {
      HeadServed(m, ss, t, img, trap);
    } else if ss[0].ByName() {
      var m1 := Serve(m, ss[0], t, img, trap);
      RestSeparate(ss, t);
      PatchExact(m1, ss[1..], t + TRAMPOLINE, img, trap, i - 1);
      ServedBehindNamed(m, m1, Patch(m1, ss[1..], t + TRAMPOLINE, img, trap), ss, t, img, trap, i);
    } else {
      PatchExact(m, ss[1..], t, img, trap, i - 1);
      TailServed(m, m, Patch(m, ss[1..], t, img, trap), ss, t, t, img, trap, i);
    }
  }

  // ------------------------------------------------------- the finished image

  datatype Loader = Loader(img: nat, trap: nat, pool: nat)

  function Zeroed(m: seq<byte>, a: nat, n: nat): (r: seq<byte>)
    requires a + n <= |m|
    ensures |r| == |m|
  {
    seq(|m|, (k: int) requires 0 <= k < |m| => if a <= k < a + n then 0 else m[k])
  }

  lemma {:induction false} SlotsPlaced(addr: nat, thunks: seq<nat>, s: Slot)
    requires s in SlotsOf(addr, thunks)
    ensures addr <= s.addr && s.addr + 8 <= addr + 8 * |thunks|
    decreases |thunks|
  {
    if s == Slot(addr, thunks[0]) {
    } else {
      SlotsPlaced(addr + 8, thunks[1..], s);
    }
  }

  lemma {:induction false} PlacedInMemory(desc: nat, imports: seq<Import>, pool: nat, top: nat)
    requires WellPlaced(desc, imports, pool, top)
    ensures forall s :: s in Flatten(imports) ==> s.addr + 8 <= top && Apart(s.addr, 8, pool, POOL)
    decreases |imports|
  {
    if imports == [] {
    } else {
      PlacedInMemory(desc + DESCRIPTOR, imports[1..], pool, top);
      forall s | s in SlotsOf(imports[0].slots, imports[0].thunks)
        ensures s.addr + 8 <= top && Apart(s.addr, 8, pool, POOL)
      {
        SlotsPlaced(imports[0].slots, imports[0].thunks, s);
      }
    }
  }

  /** Memory once the pool is cleared and every slot of every import is served. */
  function Bound(m: seq<byte>, imports: seq<Import>, l: Loader): (r: seq<byte>)
    requires l.pool + POOL <= |m| && Room(Flatten(imports), l.pool, |m|)
    ensures |r| == |m|
  {
    Patch(Zeroed(m, l.pool, POOL), Flatten(imports), l.pool, l.img, l.trap)
  }

  /** The address tables share no byte with each other or with [pool, pool + n). */
  predicate TablesApart(imports: seq<Import>, pool: nat, n: nat)
    decreases |imports|
  {
    imports != [] ==>
      && Apart(imports[0].slots, 8 * |imports[0].thunks|, pool, n)
      && (forall d :: d in imports[1..] ==> Apart(imports[0].slots, 8 * |imports[0].thunks|, d.slots, 8 * |d.thunks|))
      && TablesApart(imports[1..], pool, n)
  }

  lemma {:induction false} TableSeparate(addr: nat, thunks: seq<nat>, pool: nat, n: nat)
    requires Apart(addr, 8 * |thunks|, pool, n)
    ensures Separate(SlotsOf(addr, thunks), pool, n)
    decreases |thunks|
  {
    if thunks == [] {
    } else {
      var rest := SlotsOf(addr + 8, thunks[1..]);
      TableSeparate(addr + 8, thunks[1..], pool, n);
      assert SlotsOf(addr, thunks)[1..] == rest;
      forall s | s in rest ensures Apart(addr, 8, s.addr, 8) { SlotsPlaced(addr + 8, thunks[1..], s); }
    }
  }

  lemma {:induction false} SeparateConcat(a: seq<Slot>, b: seq<Slot>, pool: nat, n: nat)
    requires Separate(a, pool, n) && Separate(b, pool, n)
    requires forall x, y :: x in a && y in b ==> Apart(x.addr, 8, y.addr, 8)
    ensures Separate(a + b, pool, n)
    decreases |a|
  {
    if a == [] {
      assert a + b == b;
    } else {
      SeparateConcat(a[1..], b, pool, n);
      assert (a + b)[1..] == a[1..] + b;
    }
  }

  lemma {:induction false} SlotOfSome(imports: seq<Import>, s: Slot) returns (d: Import)
    requires s in Flatten(imports)
    ensures d in imports && d.slots <= s.addr && s.addr + 8 <= d.slots + 8 * |d.thunks|
    decreases |imports|
  {
    if s in SlotsOf(imports[0].slots, imports[0].thunks) {
      d := imports[0];
      SlotsPlaced(d.slots, d.thunks, s);
    } else {
      d := SlotOfSome(imports[1..], s);
    }
  }

  /** Address tables apart make slots apart. */
  lemma {:induction false} TablesSeparate(imports: seq<Import>, pool: nat, n: nat)
    requires TablesApart(imports, pool, n)
    ensures Separate(Flatten(imports), pool, n)
    decreases |imports|
  {
    if imports == [] {
    } else {
      var d := imports[0];
      var head := SlotsOf(d.slots, d.thunks);
      TableSeparate(d.slots, d.thunks, pool, n);
      TablesSeparate(imports[1..], pool, n);
      forall x, y | x in head && y in Flatten(imports[1..]) ensures Apart(x.addr, 8, y.addr, 8) {
        SlotsPlaced(d.slots, d.thunks, x);
        var e := SlotOfSome(imports[1..], y);
      }
      SeparateConcat(head, Flatten(imports[1..]), pool, n);
    }
  }

  /** How many slots come before those of import d. */
  function Before(imports: seq<Import>, d: nat): nat
    requires d <= |imports|
  {
    if d == 0 then 0 else |imports[0].thunks| + Before(imports[1..], d - 1)
  }

  lemma {:induction false} SlotsAt(addr: nat, thunks: seq<nat>, k: nat)
    requires k < |thunks|
    ensures SlotsOf(addr, thunks)[k] == Slot(addr + 8 * k, thunks[k])
    decreases k
  {
    if k == 0 {
    } else {
      SlotsAt(addr + 8, thunks[1..], k - 1);
    }
  }

  /** Where entry k of import d is served. */
  lemma {:induction false} FlattenAt(imports: seq<Import>, d: nat, k: nat)
    requires d < |imports| && k < |imports[d].thunks|
    ensures Before(imports, d) + k < |Flatten(imports)|
    ensures Flatten(imports)[Before(imports, d) + k] == Slot(imports[d].slots + 8 * k, imports[d].thunks[k])
    decreases d
  {
    if d == 0 {
      SlotsAt(imports[0].slots, imports[0].thunks, k);
    } else {
      FlattenAt(imports[1..], d - 1, k);
    }
  }

  /** Entry k of import d in the finished memory r: by name, its slot points to its own trampoline, numbered
      in the order of the directory, which leads to the trap with the name; by ordinal, it is as in m. */
  predicate EntryBound(m: seq<byte>, r: seq<byte>, imports: seq<Import>, l: Loader, d: nat, k: nat)
    requires |r| == |m| && d < |imports| && k < |imports[d].thunks|
  {
    var slot, thunk := imports[d].slots + 8 * k, imports[d].thunks[k];
    FlattenAt(imports, d, k);
    var own := l.pool + TRAMPOLINE * Names(Flatten(imports)[..Before(imports, d) + k]);
    && slot + 8 <= |r|
    && if thunk < ORDINAL_FLAG then
         && own + TRAMPOLINE <= l.pool + POOL && own + TRAMPOLINE <= |r| && LoadLE(r, slot, 8) == own
         && Decode(r, own) == Some((NameAddr(l.img, thunk), l.trap))
       else LoadLE(r, slot, 8) == LoadLE(m, slot, 8)
  }

  predicate NamedSlot(ss: seq<Slot>, a: nat) { exists s :: s in ss && s.ByName() && s.addr <= a < s.addr + 8 }

  predicate Untouched(m: seq<byte>, r: seq<byte>, imports: seq<Import>, l: Loader, a: nat)
    requires |r| == |m| && a < |m|
  {
    Apart(a, 1, l.pool, POOL) && !NamedSlot(Flatten(imports), a) ==> r[a] == m[a]
  }

  /** The whole promise of the rewrite. */
  ghost predicate AllBound(m: seq<byte>, r: seq<byte>, imports: seq<Import>, l: Loader) {
    && |r| == |m|
    && (forall d, k :: 0 <= d < |imports| && 0 <= k < |imports[d].thunks| ==> EntryBound(m, r, imports, l, d, k))
    && (forall a :: 0 <= a < |m| ==> Untouched(m, r, imports, l, a))
  }

  lemma SlotRewritten(m: seq<byte>, ss: seq<Slot>, l: Loader, i: nat)
    requires |m| <= U64 && l.trap < U64 && l.pool + POOL <= |m| && Room(ss, l.pool, |m|) && i < |ss|
    requires TRAMPOLINE * Names(ss) <= POOL && Separate(ss, l.pool, POOL)
    ensures var z := Zeroed(m, l.pool, POOL);
            && Served(z, Patch(z, ss, l.pool, l.img, l.trap), ss, l.pool, l.img, l.trap, i)
            && LoadLE(z, ss[i].addr, 8) == LoadLE(m, ss[i].addr, 8)
  {
    SeparateShrinks(ss, l.pool, POOL, l.pool, TRAMPOLINE * Names(ss));
    PatchExact(Zeroed(m, l.pool, POOL), ss, l.pool, l.img, l.trap, i);
    SeparateFromPool(ss, l.pool, POOL, ss[i]);
    LoadAgree(m, Zeroed(m, l.pool, POOL), ss[i].addr, 8);
  }

  lemma ServedIsBound(m: seq<byte>, z: seq<byte>, r: seq<byte>, imports: seq<Import>, l: Loader, d: nat, k: nat, i: nat)
    requires |r| == |z| == |m| && d < |imports| && k < |imports[d].thunks| && i == Before(imports, d) + k
    requires i < |Flatten(imports)| && Flatten(imports)[i] == Slot(imports[d].slots + 8 * k, imports[d].thunks[k])
    requires Room(Flatten(imports), l.pool, |m|)
    requires l.pool + TRAMPOLINE * Names(Flatten(imports)) <= l.pool + POOL <= |m|
    requires Served(z, r, Flatten(imports), l.pool, l.img, l.trap, i)
    requires LoadLE(z, imports[d].slots + 8 * k, 8) == LoadLE(m, imports[d].slots + 8 * k, 8)
    ensures EntryBound(m, r, imports, l, d, k)
  {
  }

  lemma EntryIsBound(m: seq<byte>, imports: seq<Import>, l: Loader, d: nat, k: nat)
    requires |m| <= U64 && l.trap < U64 && l.pool + POOL <= |m| && Room(Flatten(imports), l.pool, |m|)
    requires TRAMPOLINE * Names(Flatten(imports)) <= POOL && Separate(Flatten(imports), l.pool, POOL)
    requires d < |imports| && k < |imports[d].thunks|
    ensures EntryBound(m, Bound(m, imports, l), imports, l, d, k)
  {
    var i := Before(imports, d) + k;
    FlattenAt(imports, d, k);
    SlotRewritten(m, Flatten(imports), l, i);
    ServedIsBound(m, Zeroed(m, l.pool, POOL), Bound(m, imports, l), imports, l, d, k, i);
  }

  lemma ByteUntouched(m: seq<byte>, imports: seq<Import>, l: Loader, a: nat)
    requires l.pool + POOL <= |m| && Room(Flatten(imports), l.pool, |m|) && a < |m|
    requires TRAMPOLINE * Names(Flatten(imports)) <= POOL
    ensures Untouched(m, Bound(m, imports, l), imports, l, a)
  {
    var ss := Flatten(imports);
    if Apart(a, 1, l.pool, POOL) && !NamedSlot(ss, a) {
      assert !Written(ss, l.pool, a);
      PatchFrame(Zeroed(m, l.pool, POOL), ss, l.pool, l.img, l.trap, a);
    }
  }

  /** Tables apart are all that exactness takes. */
  lemma BoundExactly(m: seq<byte>, imports: seq<Import>, l: Loader)
    requires |m| <= U64 && l.trap < U64 && l.pool + POOL <= |m| && Room(Flatten(imports), l.pool, |m|)
    requires TRAMPOLINE * Names(Flatten(imports)) <= POOL && TablesApart(imports, l.pool, POOL)
    ensures AllBound(m, Bound(m, imports, l), imports, l)
  {
    TablesSeparate(imports, l.pool, POOL);
    var r := Bound(m, imports, l);
    forall d, k | 0 <= d < |imports| && 0 <= k < |imports[d].thunks| ensures EntryBound(m, r, imports, l, d, k) {
      EntryIsBound(m, imports, l, d, k);
    }
    forall a | 0 <= a < |m| ensures Untouched(m, r, imports, l, a) { ByteUntouched(m, imports, l, a); }
  }

  // What it comes to, in the bytes of the directory and of the names.

  lemma {:induction false} TableEntry(m: seq<byte>, at: nat, thunks: seq<nat>, k: nat)
    requires TableAt(m, at, thunks) && k <= |thunks|
    ensures at + 8 * k + 8 <= |m|
    ensures LoadLE(m, at + 8 * k, 8) == if k < |thunks| then thunks[k] else 0
    ensures k < |thunks| ==> thunks[k] != 0
    decreases k
  {
    if k == 0 {
    } else {
      TableEntry(m, at + 8, thunks[1..], k - 1);
    }
  }

  /** Where descriptor d is and what its fields say; a descriptor without a name follows the last. */
  lemma {:induction false} DescriptorReads(m: seq<byte>, img: nat, desc: nat, imports: seq<Import>, d: nat)
    requires DirectoryAt(m, img, desc, imports) && d <= |imports|
    ensures desc + 20 * d + 20 <= |m| && (LoadLE(m, desc + 20 * d + 12, 4) == 0 <==> d == |imports|)
    ensures d < |imports| ==>
              var at := desc + 20 * d;
              && imports[d].slots == img + LoadLE(m, at + 16, 4)
              && imports[d].lookup == img + LoadLE(m, if LoadLE(m, at, 4) == 0 then at + 16 else at, 4)
              && TableAt(m, imports[d].lookup, imports[d].thunks)
    decreases d
  {
    if d == 0 {
    } else {
      DescriptorReads(m, img, desc + 20, imports[1..], d - 1);
    }
  }

  /** A text and its final zero at address a. */
  predicate TextAt(m: seq<byte>, a: nat, name: seq<byte>) {
    a + |name| < |m| && m[a..a + |name|] == name && m[a + |name|] == 0
  }

  /** No byte of [a, a + n) is in the pool or in a by-name slot. */
  predicate Spared(imports: seq<Import>, pool: nat, a: nat, n: nat) {
    forall x :: a <= x < a + n ==> Apart(x, 1, pool, 0x5000) && !NamedSlot(Flatten(imports), x)
  }

  lemma SparedText(m: seq<byte>, r: seq<byte>, imports: seq<Import>, l: Loader, a: nat, name: seq<byte>)
    requires AllBound(m, r, imports, l) && TextAt(m, a, name) && Spared(imports, l.pool, a, |name| + 1)
    ensures TextAt(r, a, name)
  {
    forall x | a <= x < a + |name| + 1 ensures r[x] == m[x] {
      assert Untouched(m, r, imports, l, x);
    }
  }

  /** The trampoline at t: mov rcx, a; mov rax, trap; jmp rax. */
  predicate JumpsTo(r: seq<byte>, t: nat, a: nat, trap: nat) {
    && t + 22 <= |r|
    && r[t] == 0x48 && r[t + 1] == 0xB9 && LoadLE(r, t + 2, 8) == a
    && r[t + 10] == 0x48 && r[t + 11] == 0xB8 && LoadLE(r, t + 12, 8) == trap
    && r[t + 20] == 0xFF && r[t + 21] == 0xE0
  }

  /** The low 31 bits of an entry, and the hint behind them. */
  lemma EntryAddress(img: nat, high: nat, rva: nat, top: nat)
    requires rva < 0x8000_0000 && img + rva + 2 < top <= U64
    ensures NameAddr(img, high * 0x8000_0000 + rva) == img + rva + 2
  {
    assert (high * 0x8000_0000 + rva) % 0x8000_0000 == rva;
  }

  lemma EntryIn(m: seq<byte>, r: seq<byte>, imports: seq<Import>, l: Loader, d: nat, k: nat)
    requires AllBound(m, r, imports, l) && d < |imports| && k < |imports[d].thunks|
    ensures EntryBound(m, r, imports, l, d, k)
  {
  }

  /** A trampoline of its own, in the pool's row of 32-byte places. */
  predicate InRow(pool: nat, t: nat) { pool <= t && t + 32 <= pool + 0x5000 && (t - pool) % 32 == 0 }

  lemma RowPlace(pool: nat, n: nat)
    requires pool + 32 * n + 32 <= pool + 0x5000
    ensures InRow(pool, pool + 32 * n)
  {
  }

  lemma SlotJumps(m: seq<byte>, r: seq<byte>, imports: seq<Import>, l: Loader, d: nat, k: nat)
    requires |r| == |m| && d < |imports| && k < |imports[d].thunks| && EntryBound(m, r, imports, l, d, k)
    requires imports[d].thunks[k] < 0x8000_0000_0000_0000
    ensures var slot := imports[d].slots + 8 * k;
            && slot + 8 <= |r| && InRow(l.pool, LoadLE(r, slot, 8))
            && JumpsTo(r, LoadLE(r, slot, 8), NameAddr(l.img, imports[d].thunks[k]), l.trap)
  {
    FlattenAt(imports, d, k);
    RowPlace(l.pool, Names(Flatten(imports)[..Before(imports, d) + k]));
  }

  /** An import by name, in the finished memory: behind the two hint bytes that the entry's low 31 bits point at
      there is a text, and the slot's trampoline jumps to the trap with the address of that text. */
  lemma NameReached(m: seq<byte>, r: seq<byte>, imports: seq<Import>, l: Loader, d: nat, k: nat, high: nat, rva: nat,
                    name: seq<byte>) returns (a: nat)
    requires AllBound(m, r, imports, l) && |m| <= U64 && d < |imports| && k < |imports[d].thunks|
    requires imports[d].thunks[k] == high * 0x8000_0000 + rva < 0x8000_0000_0000_0000 && rva < 0x8000_0000
    requires TextAt(m, l.img + rva + 2, name) && Spared(imports, l.pool, l.img + rva + 2, |name| + 1)
    ensures var slot := imports[d].slots + 8 * k;
            && slot + 8 <= |r| && InRow(l.pool, LoadLE(r, slot, 8))
            && JumpsTo(r, LoadLE(r, slot, 8), a, l.trap) && TextAt(r, a, name)
  {
    a := l.img + rva + 2;
    EntryIn(m, r, imports, l, d, k);
    SlotJumps(m, r, imports, l, d, k);
    EntryAddress(l.img, high, rva, |m|);
    SparedText(m, r, imports, l, a, name);
  }

  /** An import by ordinal, its entry's highest bit set, keeps its slot. */
  lemma OrdinalKept(m: seq<byte>, r: seq<byte>, imports: seq<Import>, l: Loader, d: nat, k: nat)
    requires AllBound(m, r, imports, l) && d < |imports| && k < |imports[d].thunks|
    requires imports[d].thunks[k] >= 0x8000_0000_0000_0000
    ensures var slot := imports[d].slots + 8 * k; slot + 8 <= |r| && LoadLE(r, slot, 8) == LoadLE(m, slot, 8)
  {
    assert EntryBound(m, r, imports, l, d, k);
  }

  /** The rest of the pool's 0x5000 bytes is cleared. */
  lemma PoolCleared(m: seq<byte>, imports: seq<Import>, l: Loader, a: nat)
    requires l.pool + POOL <= |m| && Room(Flatten(imports), l.pool, |m|) && !NamedSlot(Flatten(imports), a)
    requires l.pool + 32 * Names(Flatten(imports)) <= a < l.pool + 0x5000
    ensures a < |m| && Bound(m, imports, l)[a] == 0
  {
    assert !Written(Flatten(imports), l.pool, a);
    PatchFrame(Zeroed(m, l.pool, POOL), Flatten(imports), l.pool, l.img, l.trap, a);
  }

  // Two images, one with a separate lookup table and one without.

  lemma {:induction false} StoreAgree(m: seq<byte>, m': seq<byte>, a: nat, n: nat, v: nat, x: nat)
    requires |m| == |m'| && a + n <= |m| && x < |m| && (m[x] == m'[x] || a <= x < a + n)
    ensures StoreLE(m, a, n, v)[x] == StoreLE(m', a, n, v)[x]
    decreases n, |m|
  {
    if n == 0 {
    } else {
      StoreAgree(m[a := v % 256], m'[a := v % 256], a + 1, n - 1, v / 256, x);
    }
  }

  lemma EmitAgree(m: seq<byte>, m': seq<byte>, t: nat, name: nat, trap: nat, x: nat)
    requires |m| == |m'| && t + TRAMPOLINE <= |m| && x < |m| && m[x] == m'[x]
    ensures Emit(m, t, name, trap)[x] == Emit(m', t, name, trap)[x]
  {
    var m1, m1' := m[t := 0x48][t + 1 := 0xB9], m'[t := 0x48][t + 1 := 0xB9];
    StoreAgree(m1, m1', t + 2, 8, name, x);
    var a, a' := StoreLE(m1, t + 2, 8, name), StoreLE(m1', t + 2, 8, name);
    StoreAgree(a[t + 10 := 0x48][t + 11 := 0xB8], a'[t + 10 := 0x48][t + 11 := 0xB8], t + 12, 8, trap, x);
  }

  lemma EmitLength(m: seq<byte>, t: nat, name: nat, trap: nat)
    requires t + TRAMPOLINE <= |m|
    ensures |Emit(m, t, name, trap)| == |m|
  {
  }

  lemma ServeAgree(m: seq<byte>, m': seq<byte>, s: Slot, t: nat, l: Loader, x: nat)
    requires |m| == |m'| && s.addr + 8 <= |m| && t + TRAMPOLINE <= |m| && x < |m|
    requires m[x] == m'[x] || s.addr <= x < s.addr + 8
    ensures Serve(m, s, t, l.img, l.trap)[x] == Serve(m', s, t, l.img, l.trap)[x]
  {
    var name := NameAddr(l.img, s.thunk);
    if m[x] == m'[x] { EmitAgree(m, m', t, name, l.trap, x); }
    EmitLength(m, t, name, l.trap);
    EmitLength(m', t, name, l.trap);
    StoreAgree(Emit(m, t, name, l.trap), Emit(m', t, name, l.trap), s.addr, 8, t, x);
  }

  lemma {:induction false} PatchAgree(m: seq<byte>, m': seq<byte>, ss: seq<Slot>, t: nat, l: Loader, x: nat)
    requires |m| == |m'| && Room(ss, t, |m|) && x < |m| && (m[x] == m'[x] || NamedSlot(ss, x))
    ensures Patch(m, ss, t, l.img, l.trap)[x] == Patch(m', ss, t, l.img, l.trap)[x]
    decreases |ss|
  {
    if ss == [] {
    } else {
      assert NamedSlot(ss, x) ==> NamedSlot([ss[0]], x) || NamedSlot(ss[1..], x);
      if ss[0].ByName() {
        var n, n' := Serve(m, ss[0], t, l.img, l.trap), Serve(m', ss[0], t, l.img, l.trap);
        if !NamedSlot(ss[1..], x) { ServeAgree(m, m', ss[0], t, l, x); }
        PatchAgree(n, n', ss[1..], t + TRAMPOLINE, l, x);
      } else {
        PatchAgree(m, m', ss[1..], t, l, x);
      }
    }
  }

  /** Import e of m' is import d of m with its lookup table elsewhere: same address table, same entries. */
  predicate Twins(m: seq<byte>, d: Import, m': seq<byte>, e: Import) {
    var n := 8 * |d.thunks| + 8;
    && d.slots == e.slots && d.lookup + n <= |m| && e.lookup + n <= |m'|
    && m[d.lookup..d.lookup + n] == m'[e.lookup..e.lookup + n]
  }

  lemma {:induction false} TableIn(m: seq<byte>, img: nat, desc: nat, imports: seq<Import>, d: nat)
    requires DirectoryAt(m, img, desc, imports) && d < |imports|
    ensures TableAt(m, imports[d].lookup, imports[d].thunks)
    decreases d
  {
    if d == 0 {
    } else {
      TableIn(m, img, desc + DESCRIPTOR, imports[1..], d - 1);
    }
  }

  lemma {:induction false} SameEntries(m: seq<byte>, at: nat, th: seq<nat>, m': seq<byte>, at': nat, th': seq<nat>)
    requires TableAt(m, at, th) && TableAt(m', at', th')
    requires at + 8 * |th| + 8 <= |m| && at' + 8 * |th| + 8 <= |m'|
    requires m[at..at + 8 * |th| + 8] == m'[at'..at' + 8 * |th| + 8]
    ensures th == th'
    decreases |th|
  {
    assert m[at..at + 8] == m[at..at + 8 * |th| + 8][..8] == m'[at'..at' + 8];
    LoadMoved(m, at, m', at', 8);
    if th == [] {
    } else {
      var n := 8 * |th| + 8;
      assert m[at + 8..at + n] == m[at..at + n][8..] == m'[at' + 8..at' + n];
      SameEntries(m, at + 8, th[1..], m', at' + 8, th'[1..]);
    }
  }

  lemma {:induction false} SameSlots(a: seq<Import>, b: seq<Import>)
    requires |a| == |b| && forall d :: 0 <= d < |a| ==> a[d].slots == b[d].slots && a[d].thunks == b[d].thunks
    ensures Flatten(a) == Flatten(b)
    decreases |a|
  {
    if a == [] {
    } else {
      SameSlots(a[1..], b[1..]);
    }
  }

  lemma TwinsSame(m: seq<byte>, a: seq<Import>, m': seq<byte>, b: seq<Import>, desc: nat, img: nat, d: nat)
    requires DirectoryAt(m, img, desc, a) && DirectoryAt(m', img, desc, b)
    requires |a| == |b| && d < |a| && Twins(m, a[d], m', b[d])
    ensures a[d].slots == b[d].slots && a[d].thunks == b[d].thunks
  {
    TableIn(m, img, desc, a, d);
    TableIn(m', img, desc, b, d);
    SameEntries(m, a[d].lookup, a[d].thunks, m', b[d].lookup, b[d].thunks);
  }

  lemma BoundAgree(m: seq<byte>, a: seq<Import>, m': seq<byte>, b: seq<Import>, l: Loader, x: nat)
    requires |m| == |m'| && l.pool + POOL <= |m| && Room(Flatten(a), l.pool, |m|) && x < |m| && Flatten(a) == Flatten(b)
    requires m[x] == m'[x] || !Apart(x, 1, l.pool, POOL) || NamedSlot(Flatten(a), x)
    ensures Bound(m, a, l)[x] == Bound(m', b, l)[x]
  {
    PatchAgree(Zeroed(m, l.pool, POOL), Zeroed(m', l.pool, POOL), Flatten(a), l.pool, l, x);
  }

  /** An image whose lookup tables are the address tables, and one with separate lookup tables of equal
      contents: where the two agreed they still do, and in the pool and the by-name slots they agree
      whatever was there. */
  lemma InPlaceMakesNoDifference(m: seq<byte>, a: seq<Import>, m': seq<byte>, b: seq<Import>, desc: nat, l: Loader,
                                 x: nat)
    requires DirectoryAt(m, l.img, desc, a) && DirectoryAt(m', l.img, desc, b)
    requires |a| == |b| && forall d :: 0 <= d < |a| ==> Twins(m, a[d], m', b[d])
    requires |m| == |m'| && l.pool + POOL <= |m| && Room(Flatten(a), l.pool, |m|) && x < |m|
    requires m[x] == m'[x] || !Apart(x, 1, l.pool, POOL) || NamedSlot(Flatten(a), x)
    ensures Room(Flatten(b), l.pool, |m'|) && Bound(m, a, l)[x] == Bound(m', b, l)[x]
  {
    forall d | 0 <= d < |a| ensures a[d].slots == b[d].slots && a[d].thunks == b[d].thunks {
      TwinsSame(m, a, m', b, desc, l.img, d);
    }
    SameSlots(a, b);
    BoundAgree(m, a, m', b, l, x);
  }

  // ------------------------------------------------------------ the two loops

  lemma {:induction false} TableKept(m: seq<byte>, m': seq<byte>, at: nat, thunks: seq<nat>)
    requires TableAt(m, at, thunks) && |m| == |m'| && Agree(m, m', at, at + 8 * (|thunks| + 1))
    ensures TableAt(m', at, thunks)
    decreases |thunks|
  {
    LoadAgree(m, m', at, 8);
    if thunks == [] {
    } else {
      TableKept(m, m', at + 8, thunks[1..]);
    }
  }

  /** Writing where no directory entry and no lookup table lies leaves the directory as it is. */
  lemma {:induction false} DirectoryKept(m: seq<byte>, m': seq<byte>, img: nat, desc: nat, imports: seq<Import>,
                                         x: nat, n: nat)
    requires DirectoryAt(m, img, desc, imports) && |m| == |m'| && Misses(desc, imports, x, n)
    requires Agree(m, m', 0, x) && Agree(m, m', x + n, |m|)
    ensures DirectoryAt(m', img, desc, imports)
    decreases |imports|
  {
    LoadAgree(m, m', desc, 4);
    LoadAgree(m, m', desc + 12, 4);
    LoadAgree(m, m', desc + 16, 4);
    if imports == [] {
    } else {
      TableKept(m, m', imports[0].lookup, imports[0].thunks);
      DirectoryKept(m, m', img, desc + DESCRIPTOR, imports[1..], x, n);
    }
  }

  /** The stores of one by-name import. */
  method ServeSlot(mem: array<byte>, funcRef: nat, tramp: nat, name: nat, trap: nat)
    requires funcRef + 8 <= mem.Length && tramp + TRAMPOLINE <= mem.Length
    modifies mem
    ensures mem[..] == StoreLE(Emit(old(mem[..]), tramp, name, trap), funcRef, 8, tramp)
  {
    ghost var m := mem[..];
    mem[tramp], mem[tramp + 1] := 0x48, 0xB9;
    assert mem[..] == m[tramp := 0x48][tramp + 1 := 0xB9];
    Store(mem, tramp + 2, 8, name);
    ghost var a := mem[..];
    mem[tramp + 10], mem[tramp + 11] := 0x48, 0xB8;
    assert mem[..] == a[tramp + 10 := 0x48][tramp + 11 := 0xB8];
    Store(mem, tramp + 12, 8, trap);
    ghost var b := mem[..];
    mem[tramp + 20], mem[tramp + 21] := 0xFF, 0xE0;
    assert mem[..] == b[tramp + 20 := 0xFF][tramp + 21 := 0xE0];
    Store(mem, funcRef, 8, tramp);
  }

  /** The slots `ss` are still to be served, and serving them gives `target`. */
  ghost predicate Due(m: seq<byte>, ss: seq<Slot>, t: nat, l: Loader, target: seq<byte>) {
    && Room(ss, t, |m|) && l.pool <= t && t + TRAMPOLINE * Names(ss) <= l.pool + POOL
    && Patch(m, ss, t, l.img, l.trap) == target
  }

  /** The tables still to be read, `th` of the current one and those of the imports `rest`, lie clear of
      the pool and of what is still to be written. */
  ghost predicate Reading(m: seq<byte>, thunkRef: nat, funcRef: nat, th: seq<nat>, desc: nat, rest: seq<Import>,
                          l: Loader) {
    && TableAt(m, thunkRef, th) && DirectoryAt(m, l.img, desc, rest)
    && Apart(thunkRef, 8 * |th| + 8, l.pool, POOL) && Misses(desc, rest, l.pool, POOL)
    && (funcRef == thunkRef || Apart(funcRef, 8 * |th|, thunkRef, 8 * |th| + 8))
    && Apart(funcRef, 8 * |th|, l.pool, POOL) && Misses(desc, rest, funcRef, 8 * |th|)
  }

  /** The inner loop between two slots. */
  ghost predicate InTable(m: seq<byte>, thunkRef: nat, funcRef: nat, t: nat, th: seq<nat>, desc: nat, rest: seq<Import>,
                          l: Loader, target: seq<byte>) {
    Reading(m, thunkRef, funcRef, th, desc, rest, l) && Due(m, SlotsOf(funcRef, th) + Flatten(rest), t, l, target)
  }

  lemma {:induction false} MissesPart(desc: nat, imports: seq<Import>, x: nat, n: nat, x': nat, n': nat)
    requires Misses(desc, imports, x, n) && x <= x' && x' + n' <= x + n
    ensures Misses(desc, imports, x', n')
    decreases |imports|
  {
    if imports == [] {
    } else {
      MissesPart(desc + DESCRIPTOR, imports[1..], x, n, x', n');
    }
  }

  lemma DueSkipped(m: seq<byte>, ss: seq<Slot>, t: nat, l: Loader, target: seq<byte>)
    requires ss != [] && !ss[0].ByName() && Due(m, ss, t, l, target)
    ensures Due(m, ss[1..], t, l, target)
  {
    assert forall s :: s in ss[1..] ==> s in ss;
  }

  lemma DueServed(m: seq<byte>, ss: seq<Slot>, t: nat, l: Loader, target: seq<byte>)
    requires ss != [] && ss[0].ByName() && Due(m, ss, t, l, target)
    ensures ss[0].addr + 8 <= |m| && t + TRAMPOLINE <= |m| && l.pool <= t && t + TRAMPOLINE <= l.pool + POOL
    ensures Due(Serve(m, ss[0], t, l.img, l.trap), ss[1..], t + TRAMPOLINE, l, target)
  {
    assert ss[0] in ss && forall s :: s in ss[1..] ==> s in ss;
  }

  lemma HeadSlot(funcRef: nat, th: seq<nat>, more: seq<Slot>)
    requires th != []
    ensures var ss := SlotsOf(funcRef, th) + more;
            ss != [] && ss[0] == Slot(funcRef, th[0]) && ss[1..] == SlotsOf(funcRef + 8, th[1..]) + more
  {
  }

  lemma ReadingNext(m: seq<byte>, thunkRef: nat, funcRef: nat, th: seq<nat>, desc: nat, rest: seq<Import>, l: Loader)
    requires th != [] && Reading(m, thunkRef, funcRef, th, desc, rest, l)
    ensures Reading(m, thunkRef + 8, funcRef + 8, th[1..], desc, rest, l)
  {
    MissesPart(desc, rest, funcRef, 8 * |th|, funcRef + 8, 8 * |th[1..]|);
  }

  lemma ServeKeeps(m: seq<byte>, s: Slot, t: nat, l: Loader, at: nat, th: seq<nat>, desc: nat, rest: seq<Import>)
    requires s.addr + 8 <= |m| && t + TRAMPOLINE <= |m|
    requires TableAt(m, at, th) && DirectoryAt(m, l.img, desc, rest)
    requires Apart(s.addr, 8, at, 8 * |th| + 8) && Apart(t, TRAMPOLINE, at, 8 * |th| + 8)
    requires Misses(desc, rest, s.addr, 8) && Misses(desc, rest, t, TRAMPOLINE)
    ensures TableAt(Serve(m, s, t, l.img, l.trap), at, th)
    ensures DirectoryAt(Serve(m, s, t, l.img, l.trap), l.img, desc, rest)
  {
    var e, r := Emit(m, t, NameAddr(l.img, s.thunk), l.trap), Serve(m, s, t, l.img, l.trap);
    TableKept(m, r, at, th);
    DirectoryKept(m, e, l.img, desc, rest, t, TRAMPOLINE);
    DirectoryKept(e, r, l.img, desc, rest, s.addr, 8);
  }

  lemma ReadingServed(m: seq<byte>, thunkRef: nat, funcRef: nat, th: seq<nat>, desc: nat, rest: seq<Import>,
                      l: Loader, t: nat)
    requires th != [] && Reading(m, thunkRef, funcRef, th, desc, rest, l)
    requires funcRef + 8 <= |m| && t + TRAMPOLINE <= |m| && l.pool <= t && t + TRAMPOLINE <= l.pool + POOL
    ensures Reading(Serve(m, Slot(funcRef, th[0]), t, l.img, l.trap), thunkRef + 8, funcRef + 8, th[1..], desc, rest, l)
  {
    MissesPart(desc, rest, funcRef, 8 * |th|, funcRef, 8);
    MissesPart(desc, rest, l.pool, POOL, t, TRAMPOLINE);
    ReadingNext(m, thunkRef, funcRef, th, desc, rest, l);
    ServeKeeps(m, Slot(funcRef, th[0]), t, l, thunkRef + 8, th[1..], desc, rest);
  }

  lemma SlotTurn(m: seq<byte>, thunkRef: nat, funcRef: nat, t: nat, th: seq<nat>, desc: nat, rest: seq<Import>,
                 l: Loader, target: seq<byte>)
    requires th != [] && InTable(m, thunkRef, funcRef, t, th, desc, rest, l, target)
    ensures thunkRef + 8 <= |m| && LoadLE(m, thunkRef, 8) == th[0]
    ensures if th[0] < ORDINAL_FLAG then
              && funcRef + 8 <= |m| && t + TRAMPOLINE <= |m|
              && InTable(Serve(m, Slot(funcRef, th[0]), t, l.img, l.trap), thunkRef + 8, funcRef + 8, t + TRAMPOLINE,
                         th[1..],
                         desc, rest, l, target)
            else
              InTable(m, thunkRef + 8, funcRef + 8, t, th[1..], desc, rest, l, target)
  {
    var ss := SlotsOf(funcRef, th) + Flatten(rest);
    HeadSlot(funcRef, th, Flatten(rest));
    if th[0] < ORDINAL_FLAG {
      DueServed(m, ss, t, l, target);
      ReadingServed(m, thunkRef, funcRef, th, desc, rest, l, t);
    } else {
      DueSkipped(m, ss, t, l, target);
      ReadingNext(m, thunkRef, funcRef, th, desc, rest, l);
    }
  }

  /** One turn of the inner loop. */
  method PatchSlot(mem: array<byte>, thunkRef: nat, funcRef: nat, t: nat, l: Loader,
                   ghost th: seq<nat>, ghost desc: nat, ghost rest: seq<Import>,
                   ghost target: seq<byte>) returns (t': nat)
    requires th != [] && InTable(mem[..], thunkRef, funcRef, t, th, desc, rest, l, target)
    modifies mem
    ensures InTable(mem[..], thunkRef + 8, funcRef + 8, t', th[1..], desc, rest, l, target)
  {
    SlotTurn(mem[..], thunkRef, funcRef, t, th, desc, rest, l, target);
    var thunk := LoadLE(mem[..], thunkRef, 8);
    t' := t;
    if thunk < ORDINAL_FLAG {
      ServeSlot(mem, funcRef, t, (l.img + thunk % 0x8000_0000 + 2) % U64, l.trap);
      t' := t + TRAMPOLINE;
    }
  }

  lemma TableHead(m: seq<byte>, thunkRef: nat, funcRef: nat, t: nat, th: seq<nat>, desc: nat, rest: seq<Import>,
                  l: Loader, target: seq<byte>)
    requires InTable(m, thunkRef, funcRef, t, th, desc, rest, l, target)
    ensures thunkRef + 8 <= |m| && (LoadLE(m, thunkRef, 8) != 0 <==> th != [])
    ensures th == [] ==> DirectoryAt(m, l.img, desc, rest) && Due(m, Flatten(rest), t, l, target)
  {
    if th == [] { assert SlotsOf(funcRef, th) + Flatten(rest) == Flatten(rest); }
  }

  /** The inner loop over one table. */
  method PatchTable(mem: array<byte>, lookup: nat, slots: nat, t: nat, l: Loader,
                    ghost thunks: seq<nat>, ghost desc: nat, ghost rest: seq<Import>,
                    ghost target: seq<byte>) returns (t': nat)
    requires InTable(mem[..], lookup, slots, t, thunks, desc, rest, l, target)
    modifies mem
    ensures DirectoryAt(mem[..], l.img, desc, rest) && Due(mem[..], Flatten(rest), t', l, target)
  {
    var thunkRef: nat, funcRef: nat := lookup, slots;
    ghost var th := thunks;
    t' := t;
    TableHead(mem[..], thunkRef, funcRef, t', th, desc, rest, l, target);
    while LoadLE(mem[..], thunkRef, 8) != 0
      invariant thunkRef + 8 <= mem.Length && (LoadLE(mem[..], thunkRef, 8) != 0 <==> th != [])
      invariant th == [] ==> DirectoryAt(mem[..], l.img, desc, rest) && Due(mem[..], Flatten(rest), t', l, target)
      invariant InTable(mem[..], thunkRef, funcRef, t', th, desc, rest, l, target)
      decreases |th|
    {
      t' := PatchSlot(mem, thunkRef, funcRef, t', l, th, desc, rest, target);
      thunkRef, funcRef := thunkRef + 8, funcRef + 8;
      th := th[1..];
      TableHead(mem[..], thunkRef, funcRef, t', th, desc, rest, l, target);
    }
  }

  /** The outer loop between two descriptors. */
  ghost predicate InDirectory(m: seq<byte>, desc: nat, t: nat, imports: seq<Import>, l: Loader, target: seq<byte>) {
    && DirectoryAt(m, l.img, desc, imports) && WellPlaced(desc, imports, l.pool, |m|)
    && Misses(desc, imports, l.pool, POOL) && Due(m, Flatten(imports), t, l, target)
  }

  lemma EnterTable(m: seq<byte>, desc: nat, t: nat, imports: seq<Import>, l: Loader, target: seq<byte>, lookup: nat,
                   slots: nat)
    requires imports != [] && InDirectory(m, desc, t, imports, l, target)
    requires lookup == imports[0].lookup && slots == imports[0].slots
    ensures var d := imports[0];
            && InTable(m, lookup, slots, t, d.thunks, desc + DESCRIPTOR, imports[1..], l, target)
            && WellPlaced(desc + DESCRIPTOR, imports[1..], l.pool, |m|)
            && Misses(desc + DESCRIPTOR, imports[1..], l.pool, POOL)
  {
  }

  /** memset_custom(p, 0, n) */
  method Clear(mem: array<byte>, a: nat, n: nat)
    requires a + n <= mem.Length
    modifies mem
    ensures mem[..] == Zeroed(old(mem[..]), a, n)
  {
    for k := 0 to n
      invariant forall x :: 0 <= x < mem.Length ==> mem[x] == if a <= x < a + k then 0 else old(mem[x])
    {
      mem[a + k] := 0;
    }
  }

  lemma DescriptorFields(m: seq<byte>, img: nat, desc: nat, imports: seq<Import>)
    requires imports != [] && DirectoryAt(m, img, desc, imports)
    ensures desc + DESCRIPTOR <= |m| && imports[0].slots == img + LoadLE(m, desc + 16, 4)
    ensures imports[0].lookup == if LoadLE(m, desc, 4) == 0 then imports[0].slots else img + LoadLE(m, desc, 4)
  {
  }

  /** One turn of the outer loop. */
  method PatchDescriptor(mem: array<byte>, desc: nat, t: nat, l: Loader, ghost imports: seq<Import>,
                         ghost target: seq<byte>)
    returns (t': nat)
    requires imports != [] && InDirectory(mem[..], desc, t, imports, l, target)
    modifies mem
    ensures InDirectory(mem[..], desc + DESCRIPTOR, t', imports[1..], l, target)
  {
    DescriptorFields(mem[..], l.img, desc, imports);
    var funcRef := l.img + LoadLE(mem[..], desc + 16, 4);
    var thunkRef := if LoadLE(mem[..], desc, 4) == 0 then funcRef else l.img + LoadLE(mem[..], desc, 4);
    EnterTable(mem[..], desc, t, imports, l, target, thunkRef, funcRef);
    t' := PatchTable(mem, thunkRef, funcRef, t, l, imports[0].thunks, desc + DESCRIPTOR, imports[1..], target);
  }

  /** The outer loop. */
  method PatchDirectory(mem: array<byte>, directory: nat, l: Loader, ghost imports: seq<Import>,
                        ghost target: seq<byte>)
    requires InDirectory(mem[..], directory, l.pool, imports, l, target)
    modifies mem
    ensures mem[..] == target
  {
    var desc: nat, t: nat := directory, l.pool;
    ghost var left := imports;
    while LoadLE(mem[..], desc + 12, 4) != 0
      invariant InDirectory(mem[..], desc, t, left, l, target)
      decreases |left|
    {
      t := PatchDescriptor(mem, desc, t, l, left, target);
      desc, left := desc + DESCRIPTOR, left[1..];
    }
  }

  /** The whole rewrite: the pool cleared, then every slot of every import served in order. */
  method PatchImports(mem: array<byte>, directory: nat, l: Loader, ghost imports: seq<Import>)
    requires mem.Length <= U64 && l.trap < U64 && l.pool + POOL <= mem.Length
    requires DirectoryAt(mem[..], l.img, directory, imports) && WellPlaced(directory, imports, l.pool, mem.Length)
    requires Misses(directory, imports, l.pool, POOL) && TRAMPOLINE * Names(Flatten(imports)) <= POOL
    modifies mem
    ensures Room(Flatten(imports), l.pool, mem.Length)
    ensures mem[..] == Bound(old(mem[..]), imports, l)
    ensures TablesApart(imports, l.pool, POOL) ==> AllBound(old(mem[..]), mem[..], imports, l)
  {
    ghost var m0 := mem[..];
    Clear(mem, l.pool, POOL);
    DirectoryKept(m0, mem[..], l.img, directory, imports, l.pool, POOL);
    PlacedInMemory(directory, imports, l.pool, mem.Length);
    PatchDirectory(mem, directory, l, imports, Bound(m0, imports, l));
    if TablesApart(imports, l.pool, POOL) { BoundExactly(m0, imports, l); }
  }
}
