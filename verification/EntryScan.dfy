/** The compiler-signature scanner that looks for main() behind the C runtime stub
    (FindOriginalEntryPoint, src/fat32.c). */
module EntryScan {
  import opened Bytes

  /** The bytes around the entry point, by signed distance from it. */
  type View = int -> byte

  /** The 64-bit address space seen from address e; pointer arithmetic wraps. */
  function From(mem: nat -> byte, e: nat): View {
    (x: int) => mem((e + x) % U64)
  }

  /** The signed 32-bit displacement at distance a. */
  function Rel(v: View, a: int): int {
    var b0: int, b1: int, b2: int, b3: int := v(a), v(a + 1), v(a + 2), v(a + 3);
    var u := b0 + 0x100 * b1 + 0x1_0000 * b2 + 0x100_0000 * b3;
    if u >= 0x8000_0000 then u - U32 else u
  }

  // ------------------------------------------------------------ the patterns

  /** sub rsp, 28h; call */
  predicate MsvcStub(v: View) {
    v(0) == 0x48 && v(1) == 0x83 && v(2) == 0xEC && v(3) == 0x28 && v(4) == 0xE8
  }

  /** Where the jmp at distance i leads: the instruction's end plus its displacement. */
  function CommonMain(v: View, i: int): int { i + 5 + Rel(v, i + 1) }

  /** lea rcx, [rip + displacement] */
  predicate LeaAt(v: View, a: int) {
    v(a) == 0x48 && v(a + 1) == 0x8D && v(a + 2) == 0x0D
  }

  predicate MsvcHit(v: View, i: int, k: int) {
    5 <= i < 32 && 0 <= k < 128 && MsvcStub(v) && v(i) == 0xE9 && LeaAt(v, CommonMain(v, i) + k)
  }

  function MsvcTarget(v: View, i: int, k: int): int {
    CommonMain(v, i) + k + 7 + Rel(v, CommonMain(v, i) + k + 3)
  }

  /** call; then mov ecx, eax or mov rcx, rax; then call */
  predicate GccHit(v: View, i: int) {
    && 0 <= i < 2048 && v(i) == 0xE8
    && (|| (v(i + 5) == 0x89 && v(i + 6) == 0xC1 && v(i + 7) == 0xE8)
        || (v(i + 5) == 0x48 && v(i + 6) == 0x89 && v(i + 7) == 0xC1 && v(i + 8) == 0xE8))
  }

  function CallTarget(v: View, i: int): int { i + 5 + Rel(v, i + 1) }

  // ------------------------------------------------------------- the verdict

  ghost predicate FirstMsvc(v: View, i: int, k: int) {
    && MsvcHit(v, i, k)
    && forall i', k' :: MsvcHit(v, i', k') ==> i < i' || (i == i' && k <= k')
  }

  ghost predicate FirstGcc(v: View, i: int) {
    GccHit(v, i) && forall i' :: GccHit(v, i') ==> i <= i'
  }

  ghost predicate NoMsvc(v: View) { forall i, k :: !MsvcHit(v, i, k) }

  ghost predicate NoGcc(v: View) { forall i :: !GccHit(v, i) }

  /** What the scan must find, as a distance from the entry point: the target of the first MSVC chain,
      else of the first GCC call, else the entry point itself. */
  ghost predicate Verdict(v: View, off: int) {
    || (exists i, k :: FirstMsvc(v, i, k) && off == MsvcTarget(v, i, k))
    || (NoMsvc(v) && exists i :: FirstGcc(v, i) && off == CallTarget(v, i))
    || (NoMsvc(v) && NoGcc(v) && off == 0)
  }

  /** The first stage: the stub at the entry, then every jump of its window, then every lea behind the jump. */
  method FindMsvc(v: View) returns (found: bool, off: int)
    ensures found ==> exists i, k :: FirstMsvc(v, i, k) && off == MsvcTarget(v, i, k)
    ensures !found ==> NoMsvc(v)
  {
    if v(0) == 0x48 && v(1) == 0x83 && v(2) == 0xEC && v(3) == 0x28 && v(4) == 0xE8 {
      var i := 5;
      while i < 32
        invariant 5 <= i <= 32
        invariant forall i', k' :: i' < i ==> !MsvcHit(v, i', k')
      {
        if v(i) == 0xE9 {
          var main := CommonMain(v, i);
          var k := 0;
          while k < 128
            invariant 0 <= k <= 128
            invariant forall k' :: k' < k ==> !MsvcHit(v, i, k')
          {
            if v(main + k) == 0x48 && v(main + k + 1) == 0x8D && v(main + k + 2) == 0x0D {
              assert FirstMsvc(v, i, k);
              return true, main + k + 7 + Rel(v, main + k + 3);
            }
            k := k + 1;
          }
        }
        i := i + 1;
      }
    }
    found, off := false, 0;
  }

  /** The second stage: every call of a longer window. */
  method FindGcc(v: View) returns (off: int)
    ensures (exists i :: FirstGcc(v, i) && off == CallTarget(v, i)) || (NoGcc(v) && off == 0)
  {
    var i := 0;
    while i < 2048
      invariant 0 <= i <= 2048
      invariant forall i' :: i' < i ==> !GccHit(v, i')
    {
      if v(i) == 0xE8 {
        if v(i + 5) == 0x89 && v(i + 6) == 0xC1 && v(i + 7) == 0xE8 {
          assert FirstGcc(v, i);
          return i + 5 + Rel(v, i + 1);
        }
        if v(i + 5) == 0x48 && v(i + 6) == 0x89 && v(i + 7) == 0xC1 && v(i + 8) == 0xE8 {
          assert FirstGcc(v, i);
          return i + 5 + Rel(v, i + 1);
        }
      }
      i := i + 1;
    }
    off := 0;
  }

  method Scan(v: View) returns (off: int)
    ensures Verdict(v, off)
  {
    var found;
    found, off := FindMsvc(v);
    if !found {
      off := FindGcc(v);
    }
  }

  /** The verdict determines the result. */
  lemma VerdictUnique(v: View, off: int, off': int)
    requires Verdict(v, off) && Verdict(v, off')
    ensures off == off'
  {
    if !NoMsvc(v) {
      var i, k :| FirstMsvc(v, i, k) && off == MsvcTarget(v, i, k);
      var i', k' :| FirstMsvc(v, i', k') && off' == MsvcTarget(v, i', k');
      assert MsvcHit(v, i, k) && MsvcHit(v, i', k');
    } else if !NoGcc(v) {
      var i :| FirstGcc(v, i) && off == CallTarget(v, i);
      var i' :| FirstGcc(v, i') && off' == CallTarget(v, i');
      assert GccHit(v, i) && GccHit(v, i');
    }
  }

  // ------------------------------------------------- the result, byte by byte

  /** The four bytes at distance a spell the signed displacement d, lowest byte first. */
  predicate Displaced(v: View, a: int, d: int) {
    -0x8000_0000 <= d < 0x8000_0000
    && var u := if d < 0 then d + 0x1_0000_0000 else d;
       && v(a) == u % 0x100 && v(a + 1) == u / 0x100 % 0x100
       && v(a + 2) == u / 0x1_0000 % 0x100 && v(a + 3) == u / 0x100_0000
  }

  /** Displacements are read with their sign. */
  lemma DisplacementReads(v: View, a: int, d: int)
    requires Displaced(v, a, d)
    ensures Rel(v, a) == d
  {
    FourDigits(if d < 0 then d + 0x1_0000_0000 else d);
  }

  lemma ByteDigits(b0: byte, b1: byte, b2: byte, b3: byte)
    ensures var u := FromBytes(b0, b1, b2, b3);
            && u % 0x100 == b0 && u / 0x100 % 0x100 == b1 && u / 0x1_0000 % 0x100 == b2 && u / 0x100_0000 == b3
  {
    var u := FromBytes(b0, b1, b2, b3);
    assert u / 0x100 == b1 + 0x100 * b2 + 0x1_0000 * b3;
    assert u / 0x1_0000 == b2 + 0x100 * b3;
  }

  /** Any four bytes spell one. */
  lemma AlwaysDisplaced(v: View, a: int)
    ensures Displaced(v, a, Rel(v, a))
  {
    ByteDigits(v(a), v(a + 1), v(a + 2), v(a + 3));
  }

  /** The MSVC chain: the stub at the entry, at i a jump with displacement d1, and k bytes behind its target a lea with
      displacement d2. */
  predicate Chain(v: View, i: int, k: int, d1: int, d2: int) {
    && v(0) == 0x48 && v(1) == 0x83 && v(2) == 0xEC && v(3) == 0x28 && v(4) == 0xE8
    && 5 <= i < 32 && v(i) == 0xE9 && Displaced(v, i + 1, d1) && 0 <= k < 128
    && var a := i + 5 + d1 + k;
       v(a) == 0x48 && v(a + 1) == 0x8D && v(a + 2) == 0x0D && Displaced(v, a + 3, d2)
  }

  ghost predicate FirstChain(v: View, i: int, k: int, d1: int, d2: int) {
    && Chain(v, i, k, d1, d2)
    && forall i', k', e1, e2 :: Chain(v, i', k', e1, e2) ==> i < i' || (i == i' && k <= k')
  }

  ghost predicate NoChain(v: View) { forall i, k, d1, d2 :: !Chain(v, i, k, d1, d2) }

  /** The GCC call at i with displacement d, the result moved to ecx or rcx, and another call. */
  predicate Call(v: View, i: int, d: int) {
    && 0 <= i < 2048 && v(i) == 0xE8 && Displaced(v, i + 1, d)
    && (|| (v(i + 5) == 0x89 && v(i + 6) == 0xC1 && v(i + 7) == 0xE8)
        || (v(i + 5) == 0x48 && v(i + 6) == 0x89 && v(i + 7) == 0xC1 && v(i + 8) == 0xE8))
  }

  ghost predicate FirstCall(v: View, i: int, d: int) {
    Call(v, i, d) && forall i', d' :: Call(v, i', d') ==> i <= i'
  }

  ghost predicate NoCall(v: View) { forall i, d :: !Call(v, i, d) }

  lemma ChainHits(v: View, i: int, k: int, d1: int, d2: int)
    requires Chain(v, i, k, d1, d2)
    ensures MsvcHit(v, i, k) && MsvcTarget(v, i, k) == i + 5 + d1 + k + 7 + d2
  {
    DisplacementReads(v, i + 1, d1);
    DisplacementReads(v, i + 5 + d1 + k + 3, d2);
  }

  lemma HitChains(v: View, i: int, k: int)
    requires MsvcHit(v, i, k)
    ensures Chain(v, i, k, Rel(v, i + 1), Rel(v, CommonMain(v, i) + k + 3))
  {
    AlwaysDisplaced(v, i + 1);
    AlwaysDisplaced(v, CommonMain(v, i) + k + 3);
  }

  lemma CallHits(v: View, i: int, d: int)
    requires Call(v, i, d)
    ensures GccHit(v, i) && CallTarget(v, i) == i + 5 + d
  {
    DisplacementReads(v, i + 1, d);
  }

  lemma HitCalls(v: View, i: int)
    requires GccHit(v, i)
    ensures Call(v, i, Rel(v, i + 1))
  {
    AlwaysDisplaced(v, i + 1);
  }

  lemma NoChainNoHit(v: View)
    requires NoChain(v)
    ensures NoMsvc(v)
  {
    forall i, k ensures !MsvcHit(v, i, k) {
      if MsvcHit(v, i, k) { HitChains(v, i, k); }
    }
  }

  /** What the result is when the bytes hold an MSVC chain, when they hold none but a GCC call, and when they hold
      neither: the end of the instruction plus its signed displacement, or the entry point. */
  lemma ResultOfChain(v: View, off: int, i: int, k: int, d1: int, d2: int)
    requires Verdict(v, off) && FirstChain(v, i, k, d1, d2)
    ensures off == i + 5 + d1 + k + 7 + d2
  {
    ChainHits(v, i, k, d1, d2);
    forall i', k' | MsvcHit(v, i', k') ensures i < i' || (i == i' && k <= k') { HitChains(v, i', k'); }
    assert FirstMsvc(v, i, k);
    VerdictUnique(v, off, MsvcTarget(v, i, k));
  }

  lemma ResultOfCall(v: View, off: int, i: int, d: int)
    requires Verdict(v, off) && NoChain(v) && FirstCall(v, i, d)
    ensures off == i + 5 + d
  {
    NoChainNoHit(v);
    CallHits(v, i, d);
    forall i' | GccHit(v, i') ensures i <= i' { HitCalls(v, i'); }
    assert FirstGcc(v, i);
    VerdictUnique(v, off, CallTarget(v, i));
  }

  lemma ResultOfNothing(v: View, off: int)
    requires Verdict(v, off) && NoChain(v) && NoCall(v)
    ensures off == 0
  {
    NoChainNoHit(v);
    forall i ensures !GccHit(v, i) {
      if GccHit(v, i) { HitCalls(v, i); }
    }
    VerdictUnique(v, off, 0);
  }

  ghost predicate ChainAnswer(v: View, off: int, i: int, k: int, d1: int, d2: int) {
    FirstChain(v, i, k, d1, d2) ==> off == i + 5 + d1 + k + 7 + d2
  }

  ghost predicate CallAnswer(v: View, off: int, i: int, d: int) {
    NoChain(v) && FirstCall(v, i, d) ==> off == i + 5 + d
  }

  /** The distance found, in terms of the bytes alone: the end of the instruction plus its signed displacement, for
      the first chain, else for the first call, else none. */
  ghost predicate Answers(v: View, off: int) {
    && (forall i, k, d1, d2 :: ChainAnswer(v, off, i, k, d1, d2))
    && (forall i, d :: CallAnswer(v, off, i, d))
    && (NoChain(v) && NoCall(v) ==> off == 0)
  }

  lemma ChainFinds(v: View, off: int, i: int, k: int, d1: int, d2: int)
    requires Verdict(v, off)
    ensures ChainAnswer(v, off, i, k, d1, d2)
  {
    if FirstChain(v, i, k, d1, d2) { ResultOfChain(v, off, i, k, d1, d2); }
  }

  lemma CallFinds(v: View, off: int, i: int, d: int)
    requires Verdict(v, off)
    ensures CallAnswer(v, off, i, d)
  {
    if NoChain(v) && FirstCall(v, i, d) { ResultOfCall(v, off, i, d); }
  }

  lemma NothingFinds(v: View, off: int)
    requires Verdict(v, off)
    ensures NoChain(v) && NoCall(v) ==> off == 0
  {
    if NoChain(v) && NoCall(v) { ResultOfNothing(v, off); }
  }

  lemma VerdictAnswers(v: View, off: int)
    requires Verdict(v, off)
    ensures Answers(v, off)
  {
    forall i, k, d1, d2 ensures ChainAnswer(v, off, i, k, d1, d2) { ChainFinds(v, off, i, k, d1, d2); }
    forall i, d ensures CallAnswer(v, off, i, d) { CallFinds(v, off, i, d); }
    NothingFinds(v, off);
  }

  method FindOriginalEntryPoint(mem: nat -> byte, e: nat) returns (r: nat)
    requires e < U64
    ensures exists off :: Verdict(From(mem, e), off) && Answers(From(mem, e), off) && r == (e + off) % U64
  {
    var off := Scan(From(mem, e));
    r := (e + off) % U64;
    VerdictAnswers(From(mem, e), off);
  }

  // ------------------------------------------------------------- relocation

  const WINDOW: nat := 2056            // bytes from the entry point on
  const MAIN_WINDOW: nat := 134        // bytes from a common main on

  /** The jump at distance i is followed. */
  predicate Followed(v: View, i: int) { 5 <= i < 32 && MsvcStub(v) && v(i) == 0xE9 }

  /** The distances at which the scan may look. */
  ghost predicate Reads(v: View, x: int) {
    || 0 <= x < WINDOW
    || exists i :: Followed(v, i) && CommonMain(v, i) <= x < CommonMain(v, i) + MAIN_WINDOW
  }

  /** v' shows what v shows wherever the scan of v looks. */
  ghost predicate Alike(v: View, v': View) { forall x :: Reads(v, x) ==> v(x) == v'(x) }

  lemma AlikeNear(v: View, v': View)
    requires Alike(v, v')
    ensures forall x :: 0 <= x < WINDOW ==> v(x) == v'(x)
  {
    assert forall x :: 0 <= x < WINDOW ==> Reads(v, x);
  }

  lemma AlikeFollowed(v: View, v': View, i: int)
    requires Alike(v, v') && 5 <= i < 32
    ensures MsvcStub(v) == MsvcStub(v') && Followed(v, i) == Followed(v', i) && CommonMain(v, i) == CommonMain(v', i)
  {
    AlikeNear(v, v');
  }

  lemma AlikeMain(v: View, v': View, i: int, k: int)
    requires Alike(v, v') && Followed(v, i) && 0 <= k < 128
    ensures var a := CommonMain(v, i) + k; LeaAt(v, a) == LeaAt(v', a) && Rel(v, a + 3) == Rel(v', a + 3)
  {
    var a := CommonMain(v, i) + k;
    forall x | a <= x < a + 7 ensures v(x) == v'(x) {
      assert Reads(v, x);
    }
  }

  lemma AlikeMsvc(v: View, v': View, i: int, k: int)
    requires Alike(v, v')
    ensures MsvcHit(v, i, k) == MsvcHit(v', i, k)
    ensures MsvcHit(v, i, k) ==> MsvcTarget(v, i, k) == MsvcTarget(v', i, k)
  {
    if 5 <= i < 32 {
      AlikeFollowed(v, v', i);
      if Followed(v, i) && 0 <= k < 128 { AlikeMain(v, v', i, k); }
    }
  }

  lemma AlikeGcc(v: View, v': View, i: int)
    requires Alike(v, v')
    ensures GccHit(v, i) == GccHit(v', i)
    ensures GccHit(v, i) ==> CallTarget(v, i) == CallTarget(v', i)
  {
    AlikeNear(v, v');
  }

  lemma MsvcMoves(v: View, v': View, off: int)
    requires !NoMsvc(v) && Verdict(v, off) && forall i, k :: MsvcHit(v, i, k) == MsvcHit(v', i, k)
    requires forall i, k :: MsvcHit(v, i, k) ==> MsvcTarget(v, i, k) == MsvcTarget(v', i, k)
    ensures Verdict(v', off)
  {
    var i, k :| FirstMsvc(v, i, k) && off == MsvcTarget(v, i, k);
    assert FirstMsvc(v', i, k);
  }

  lemma GccMoves(v: View, v': View, off: int)
    requires NoMsvc(v) && NoMsvc(v') && Verdict(v, off) && forall i :: GccHit(v, i) == GccHit(v', i)
    requires forall i :: GccHit(v, i) ==> CallTarget(v, i) == CallTarget(v', i)
    ensures Verdict(v', off)
  {
    if !NoGcc(v) {
      var i :| FirstGcc(v, i) && off == CallTarget(v, i);
      assert FirstGcc(v', i);
    }
  }

  /** The result is settled by the bytes the scan looks at. */
  lemma AlikeVerdict(v: View, v': View, off: int)
    requires Alike(v, v') && Verdict(v, off)
    ensures Verdict(v', off)
  {
    forall i, k ensures MsvcHit(v, i, k) == MsvcHit(v', i, k)
                        && (MsvcHit(v, i, k) ==> MsvcTarget(v, i, k) == MsvcTarget(v', i, k)) {
      AlikeMsvc(v, v', i, k);
    }
    if !NoMsvc(v) {
      MsvcMoves(v, v', off);
    } else {
      forall i ensures GccHit(v, i) == GccHit(v', i) && (GccHit(v, i) ==> CallTarget(v, i) == CallTarget(v', i)) {
        AlikeGcc(v, v', i);
      }
      GccMoves(v, v', off);
    }
  }

  lemma ModEqual(a: int, b: int)
    requires (a - b) % U64 == 0
    ensures a % U64 == b % U64
  {
  }

  lemma WrappedSum(a: int, b: int)
    ensures (a % U64 + b) % U64 == (a + b) % U64
  {
    ModEqual(a % U64 + b, a + b);
  }

  lemma MovedTarget(e: int, d: int, off: int)
    ensures ((e + d) % U64 + off) % U64 == ((e + off) % U64 + d) % U64
  {
    WrappedSum(e + d, off);
    WrappedSum(e + off, d);
    assert e + d + off == e + off + d;
  }

  /** Byte x from the entry point is found at the moved address in the new memory. */
  ghost predicate MovedByte(mem: nat -> byte, mem': nat -> byte, e: nat, d: int, x: int) {
    mem'(((e + x) % U64 + d) % U64) == mem((e + x) % U64)
  }

  lemma ByteMoves(mem: nat -> byte, mem': nat -> byte, e: nat, d: int, x: int)
    requires MovedByte(mem, mem', e, d, x)
    ensures From(mem, e)(x) == From(mem', (e + d) % U64)(x)
  {
    MovedTarget(e, d, x);
  }

  lemma MovedView(mem: nat -> byte, mem': nat -> byte, e: nat, d: int)
    requires forall x :: Reads(From(mem, e), x) ==> MovedByte(mem, mem', e, d, x)
    ensures Alike(From(mem, e), From(mem', (e + d) % U64))
  {
    forall x | Reads(From(mem, e), x) ensures From(mem, e)(x) == From(mem', (e + d) % U64)(x) {
      ByteMoves(mem, mem', e, d, x);
    }
  }

  /** When the bytes the scan looks at are moved by d, whatever becomes of the rest of memory, the result moves
      by d, modulo 2^64. */
  lemma ScanMovesWithTheImage(mem: nat -> byte, mem': nat -> byte, e: nat, d: int, off: int)
    requires forall x :: Reads(From(mem, e), x) ==> MovedByte(mem, mem', e, d, x)
    requires Verdict(From(mem, e), off)
    ensures Verdict(From(mem', (e + d) % U64), off)
    ensures ((e + d) % U64 + off) % U64 == ((e + off) % U64 + d) % U64
  {
    MovedTarget(e, d, off);
    MovedView(mem, mem', e, d);
    AlikeVerdict(From(mem, e), From(mem', (e + d) % U64), off);
  }
}
