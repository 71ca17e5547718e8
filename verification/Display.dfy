/** The framebuffer under the mouse cursor: interrupts that move the mouse, and the main loop that
    redraws it (src/display.c, src/mouse.c, the loop of efi_main in main.c). */
module Display {
  import opened Arith
  import opened Bytes

  const RED: nat := 0x00FF_0000
  const SIDE: nat := 5                 // the cursor is SIDE by SIDE

  type Pixels = seq<nat>

  datatype Mode = Mode(width: nat, height: nat, pitch: nat) {
    /** A mode at least as large as the cursor, whose pixel indices fit 32 bits. */
    predicate Ok() { SIDE <= width <= pitch && SIDE <= height < 0x8000_0000 && pitch * height < 0x8000_0000 }
  }

  /** Position in the framebuffer of cell k of a cursor at (x, y), or -1 when it is off the screen. */
  function Cell(d: Mode, x: int, y: int, k: nat): int {
    if 0 <= y + k / SIDE < d.height && 0 <= x + k % SIDE < d.width
    then (y + k / SIDE) * d.pitch + (x + k % SIDE)
    else -1
  }

  /** Position p is under one of the first n cells. */
  predicate Covered(d: Mode, x: int, y: int, n: nat, p: int) {
    exists k :: 0 <= k < n && Cell(d, x, y, k) == p
  }

  lemma CoveredStep(d: Mode, x: int, y: int, k: nat, p: int)
    ensures Covered(d, x, y, k + 1, p) <==> Covered(d, x, y, k, p) || Cell(d, x, y, k) == p
  {
    if Covered(d, x, y, k + 1, p) {
      var k' :| 0 <= k' < k + 1 && Cell(d, x, y, k') == p;
    }
  }

  /** The picture with a clipped cursor drawn at (x, y). */
  function Cursored(d: Mode, pic: Pixels, x: int, y: int): (r: Pixels)
    ensures |r| == |pic|
  {
    seq(|pic|, (p: int) requires 0 <= p < |pic| => if Covered(d, x, y, SIDE * SIDE, p) then RED else pic[p])
  }

  lemma CellInside(d: Mode, x: int, y: int, k: nat)
    requires d.Ok() && Cell(d, x, y, k) != -1
    ensures 0 <= Cell(d, x, y, k) < d.pitch * d.height
  {
    var r := y + k / SIDE;
    MulMono(r + 1, d.height, d.pitch);
    assert (r + 1) * d.pitch == r * d.pitch + d.pitch;
    MulMono(0, r, d.pitch);
  }

  /** Cell number SIDE * i + j is the one in row i and column j. */
  lemma CellAt(d: Mode, x: nat, y: nat, i: nat, j: nat)
    requires i < SIDE && j < SIDE
    ensures var k := SIDE * i + j;
            && k / SIDE == i && k % SIDE == j
            && Cell(d, x, y, k) == if y + i < d.height && x + j < d.width then (y + i) * d.pitch + (x + j) else -1
  {
    DivIs(SIDE * i + j, SIDE, i, j);
  }

  /** In rows and columns: the cursor covers exactly the on-screen part of its square. */
  lemma CursorShape(d: Mode, x: nat, y: nat, r: nat, c: nat)
    requires d.Ok() && r < d.height && c < d.pitch
    ensures Covered(d, x, y, SIDE * SIDE, r * d.pitch + c)
       <==> y <= r < y + SIDE && x <= c < x + SIDE && c < d.width
  {
    var p := r * d.pitch + c;
    if Covered(d, x, y, SIDE * SIDE, p) {
      var k: nat :| k < SIDE * SIDE && Cell(d, x, y, k) == p;
      MulMono(0, r, d.pitch);
      QuotientUnique(r, c, y + k / SIDE, x + k % SIDE, d.pitch);
    }
    if y <= r < y + SIDE && x <= c < x + SIDE && c < d.width {
      var k := (r - y) * SIDE + (c - x);
      assert k / SIDE == r - y && k % SIDE == c - x;
      assert Cell(d, x, y, k) == p;
    }
  }

  lemma PixelInside(d: Mode, r: nat, c: nat)
    requires d.Ok() && r < d.height && c < d.pitch
    ensures r * d.pitch + c < d.pitch * d.height
  {
    MulMono(r + 1, d.height, d.pitch);
    assert (r + 1) * d.pitch == r * d.pitch + d.pitch;
  }

  lemma CursoredAt(d: Mode, pic: Pixels, x: int, y: int, p: nat)
    requires p < |pic|
    ensures Cursored(d, pic, x, y)[p] == if Covered(d, x, y, SIDE * SIDE, p) then RED else pic[p]
  {
  }

  /** The picture with the cursor, in rows and columns: red on the on-screen part of the 5 by 5 square, and the picture
      elsewhere. */
  lemma CursorPixels(d: Mode, pic: Pixels, x: nat, y: nat, r: nat, c: nat)
    requires d.Ok() && |pic| >= d.pitch * d.height && r < d.height && c < d.pitch
    ensures var p := r * d.pitch + c;
            && p < |pic|
            && Cursored(d, pic, x, y)[p]
               == if y <= r < y + 5 && x <= c < x + 5 && c < d.width then 0x00FF_0000 else pic[p]
  {
    PixelInside(d, r, c);
    CursorShape(d, x, y, r, c);
    CursoredAt(d, pic, x, y, r * d.pitch + c);
  }

  // --------------------------------------------------------------- the mouse

  /** A byte of the PS/2 packet as the driver keeps it: INT8. */
  function Signed(b: byte): int { if b >= 128 then b - 256 else b }

  datatype Mouse = Mouse(x: int, y: int, moved: bool, cycle: nat, packet: seq<byte>)

  function Clamp(v: int, limit: int): int {
    if v < 0 then (if 0 >= limit then limit else 0) else if v >= limit then limit else v
  }

  predicate Overflowed(flags: byte) { (flags / 0x80) % 2 == 1 || (flags / 0x40) % 2 == 1 }

  /** What one interrupt does: nothing unless the byte is the mouse's; the third byte of a packet moves
      the mouse, unless the packet reports an overflow, and keeps it inside the screen. */
  function Handled(d: Mode, s: Mouse, status: byte, data: byte): Mouse
    requires |s.packet| == 3 && s.cycle < 3
  {
    if (status / 0x20) % 2 == 0 then s
    else
      var packet := s.packet[s.cycle := data];
      if s.cycle < 2 then s.(cycle := s.cycle + 1, packet := packet)
      else if Overflowed(packet[0]) then s.(cycle := 0, packet := packet)
      else Mouse(Clamp(s.x + Signed(packet[1]), d.width - SIDE), Clamp(s.y - Signed(packet[2]), d.height - SIDE),
                 true, 0, packet)
  }

  /** Whatever the bytes say, the mouse never leaves the screen once it is inside, and only a set flag
      tells the main loop of a move. */
  lemma MouseStaysInside(d: Mode, s: Mouse, status: byte, data: byte)
    requires d.Ok() && |s.packet| == 3 && s.cycle < 3
    ensures var s' := Handled(d, s, status, data);
            && |s'.packet| == 3 && s'.cycle < 3 && (s.moved ==> s'.moved)
            && (!s'.moved ==> s'.x == s.x && s'.y == s.y)
            && ((s'.x == s.x && s'.y == s.y) || (0 <= s'.x <= d.width - SIDE && 0 <= s'.y <= d.height - SIDE))
  {
  }

  /** The bytes of a run of interrupts that are the mouse's. */
  function MouseBytes(irqs: seq<(byte, byte)>): seq<byte> {
    if irqs == [] then []
    else (if (irqs[0].0 / 0x20) % 2 == 0 then [] else [irqs[0].1]) + MouseBytes(irqs[1..])
  }

  /** A stream of mouse bytes cut into packets of three, each moving the mouse. */
  function Moves(d: Mode, x: int, y: int, stream: seq<byte>): (int, int)
    decreases |stream|
  {
    if |stream| < 3 then (x, y)
    else if Overflowed(stream[0]) then Moves(d, x, y, stream[3..])
    else Moves(d, Clamp(x + Signed(stream[1]), d.width - SIDE), Clamp(y - Signed(stream[2]), d.height - SIDE),
               stream[3..])
  }

  function HandledAll(d: Mode, s: Mouse, irqs: seq<(byte, byte)>): Mouse
    requires |s.packet| == 3 && s.cycle < 3
    decreases |irqs|
  {
    if irqs == [] then s else HandledAll(d, Handled(d, s, irqs[0].0, irqs[0].1), irqs[1..])
  }

  /** One mouse byte: held back until its packet is whole, then the packet is applied. */
  lemma ByteHandled(d: Mode, s: Mouse, status: byte, data: byte, rest: seq<byte>)
    requires |s.packet| == 3 && s.cycle < 3 && (status / 0x20) % 2 != 0
    ensures var s' := Handled(d, s, status, data);
            && |s'.packet| == 3 && s'.cycle == (s.cycle + 1) % 3
            && Moves(d, s.x, s.y, s.packet[..s.cycle] + ([data] + rest))
               == Moves(d, s'.x, s'.y, s'.packet[..s'.cycle] + rest)
  {
    var packet, stream := s.packet[s.cycle := data], s.packet[..s.cycle] + ([data] + rest);
    if s.cycle < 2 {
      assert stream == packet[..s.cycle + 1] + rest;
    } else {
      assert stream == packet + rest && stream[3..] == rest && packet[..0] + rest == rest;
    }
  }

  /** Mouse r is what the stream of mouse bytes makes of mouse s. */
  predicate Follows(d: Mode, s: Mouse, stream: seq<byte>, r: Mouse)
    requires |s.packet| == 3 && s.cycle < 3
  {
    (r.x, r.y) == Moves(d, s.x, s.y, s.packet[..s.cycle] + stream) && r.cycle == (s.cycle + |stream|) % 3
  }

  lemma NextCycle(cycle: nat, n: nat)
    requires cycle < 3
    ensures ((cycle + 1) % 3 + n) % 3 == (cycle + (1 + n)) % 3
  {
  }

  lemma FollowsByte(d: Mode, s: Mouse, s': Mouse, data: byte, rest: seq<byte>, r: Mouse)
    requires |s.packet| == 3 && s.cycle < 3 && |s'.packet| == 3 && s'.cycle == (s.cycle + 1) % 3
    requires Moves(d, s.x, s.y, s.packet[..s.cycle] + ([data] + rest))
          == Moves(d, s'.x, s'.y, s'.packet[..s'.cycle] + rest)
    requires Follows(d, s', rest, r)
    ensures Follows(d, s, [data] + rest, r)
  {
    NextCycle(s.cycle, |rest|);
  }

  lemma MouseBytesStep(irqs: seq<(byte, byte)>)
    requires irqs != []
    ensures var rest := MouseBytes(irqs[1..]);
            MouseBytes(irqs) == if (irqs[0].0 / 0x20) % 2 == 0 then rest else [irqs[0].1] + rest
  {
  }

  /** Byte by byte over any interrupts, the mouse is where its packets, taken whole, move it. */
  lemma {:induction false} MouseFollowsPackets(d: Mode, s: Mouse, irqs: seq<(byte, byte)>)
    requires |s.packet| == 3 && s.cycle < 3
    ensures Follows(d, s, MouseBytes(irqs), HandledAll(d, s, irqs))
    decreases |irqs|
  {
    if irqs == [] {
    } else {
      var (status, data) := irqs[0];
      MouseBytesStep(irqs);
      MouseFollowsPackets(d, Handled(d, s, status, data), irqs[1..]);
      if (status / 0x20) % 2 != 0 {
        ByteHandled(d, s, status, data, MouseBytes(irqs[1..]));
        FollowsByte(d, s, Handled(d, s, status, data), data, MouseBytes(irqs[1..]), HandledAll(d, s, irqs));
      }
    }
  }

  /** Where a step from v by d ends on a screen with `size` pixels that way. */
  predicate Stepped(v: int, d: int, size: nat, v': int) {
    v' == if v + d < 0 then 0 else if v + d > size - 5 then size - 5 else v + d
  }

  /** Status bit 5: the byte is the mouse's. */
  predicate FromMouse(status: byte) { status % 0x40 >= 0x20 }

  lemma NotTheMouse(d: Mode, s: Mouse, status: byte, data: byte)
    requires |s.packet| == 3 && s.cycle < 3 && !FromMouse(status)
    ensures Handled(d, s, status, data) == s
  {
    BitOf(status, 0x20);
  }

  lemma ByteKept(d: Mode, s: Mouse, status: byte, data: byte)
    requires |s.packet| == 3 && s.cycle < 2 && FromMouse(status)
    ensures Handled(d, s, status, data) == s.(cycle := s.cycle + 1, packet := s.packet[s.cycle := data])
  {
    BitOf(status, 0x20);
  }

  predicate Spelt(step: int, b: byte) { -128 <= step < 128 && b == if step < 0 then step + 256 else step }

  lemma SignedStep(step: int, b: byte)
    requires Spelt(step, b)
    ensures Signed(b) == step
  {
  }

  lemma ClampSteps(v: int, d: int, size: nat)
    requires size >= 5
    ensures Stepped(v, d, size, Clamp(v + d, size - SIDE))
  {
  }

  lemma OverflowBits(flags: byte)
    ensures Overflowed(flags) <==> flags >= 0x40
  {
    BitOf(flags, 0x80);
    BitOf(flags, 0x40);
  }

  lemma PacketEnds(d: Mode, s: Mouse, status: byte, flags: byte, xb: byte, yb: byte, dx: int, dy: int)
    requires d.Ok() && |s.packet| == 3 && s.packet[0] == flags && s.packet[1] == xb && s.cycle == 2 && FromMouse(status)
    requires Spelt(dx, xb) && Spelt(dy, yb)
    ensures var r := Handled(d, s, status, yb);
            && r.cycle == 0
            && (flags < 0x40 ==> r.moved && Stepped(s.x, dx, d.width, r.x) && Stepped(s.y, -dy, d.height, r.y))
            && (flags >= 0x40 ==> r.moved == s.moved && r.x == s.x && r.y == s.y)
  {
    BitOf(status, 0x20);
    SignedStep(dx, xb);
    SignedStep(dy, yb);
    OverflowBits(flags);
    ClampSteps(s.x, dx, d.width);
    ClampSteps(s.y, -dy, d.height);
  }

  lemma HandledFirst(d: Mode, s: Mouse, a: (byte, byte), rest: seq<(byte, byte)>)
    requires |s.packet| == 3 && s.cycle < 3
    ensures HandledAll(d, s, [a] + rest) == HandledAll(d, Handled(d, s, a.0, a.1), rest)
  {
    assert ([a] + rest)[1..] == rest;
  }

  lemma HandledThree(d: Mode, s: Mouse, a: (byte, byte), b: (byte, byte), c: (byte, byte))
    requires |s.packet| == 3 && s.cycle < 3
    ensures HandledAll(d, s, [a, b, c])
         == Handled(d, Handled(d, Handled(d, s, a.0, a.1), b.0, b.1), c.0, c.1)
  {
    var s1 := Handled(d, s, a.0, a.1);
    var s2 := Handled(d, s1, b.0, b.1);
    assert [a, b, c] == [a] + [b, c] && [b, c] == [b] + [c] && [c] == [c] + [];
    HandledFirst(d, s, a, [b, c]);
    HandledFirst(d, s1, b, [c]);
    HandledFirst(d, s2, c, []);
  }

  /** A whole packet, by signed steps dx to the right and dy up: with bits 6 and 7 of the flags clear the mouse
      moves and stays on the screen, else nothing moves. */
  lemma PacketMoves(d: Mode, s: Mouse, status: byte, flags: byte, xb: byte, yb: byte, dx: int, dy: int)
    requires d.Ok() && |s.packet| == 3 && s.cycle == 0 && FromMouse(status) && Spelt(dx, xb) && Spelt(dy, yb)
    ensures var r := HandledAll(d, s, [(status, flags), (status, xb), (status, yb)]);
            && r.cycle == 0
            && (flags < 0x40 ==> r.moved && Stepped(s.x, dx, d.width, r.x) && Stepped(s.y, -dy, d.height, r.y))
            && (flags >= 0x40 ==> r.moved == s.moved && r.x == s.x && r.y == s.y)
  {
    HandledThree(d, s, (status, flags), (status, xb), (status, yb));
    ByteKept(d, s, status, flags);
    var s1 := Handled(d, s, status, flags);
    ByteKept(d, s1, status, xb);
    PacketEnds(d, Handled(d, s1, status, xb), status, flags, xb, yb, dx, dy);
  }

  datatype Event = Interrupt(status: byte, data: byte) | Turn

  class Screen {
    const fb: array<nat>
    const mode: Mode
    const mouseBg: array2<nat>
    const mouseByte: array<byte>
    var mouseX: int
    var mouseY: int
    var prevX: int
    var prevY: int
    var mouseMoved: bool
    var mouseCycle: nat

    /** The mouse starts at (500, 500), whatever the mode. */
    constructor (framebuffer: array<nat>, m: Mode)
      requires m.Ok() && framebuffer.Length >= m.pitch * m.height
      ensures Valid() && fb == framebuffer && mode == m && !mouseMoved
      ensures prevX == mouseX == 500 && prevY == mouseY == 500 && fresh(mouseBg) && fresh(mouseByte)
    {
      fb, mode := framebuffer, m;
      mouseBg, mouseByte := new nat[SIDE, SIDE], new byte[3];
      mouseX, mouseY, prevX, prevY, mouseMoved, mouseCycle := 500, 500, 500, 500, false, 0;
    }

    ghost predicate Valid()
      reads this
    {
      && mode.Ok() && fb.Length >= mode.pitch * mode.height && fb as object != mouseByte
      && mouseBg.Length0 == SIDE && mouseBg.Length1 == SIDE && mouseByte.Length == 3 && mouseCycle < 3
      && 0 <= mouseX && 0 <= mouseY && 0 <= prevX && 0 <= prevY
    }

    /** Cell k of the square at the previous position, if it is on the screen, is kept in mouseBg. */
    ghost predicate CellKept(pic: Pixels, k: nat)
      reads this`prevX, this`prevY, mouseBg
      requires mouseBg.Length0 == SIDE && mouseBg.Length1 == SIDE && k < SIDE * SIDE
    {
      var c := Cell(mode, prevX, prevY, k);
      0 <= c < |pic| ==> mouseBg[k / SIDE, k % SIDE] == pic[c]
    }

    ghost predicate Kept(pic: Pixels, n: nat)
      reads this`prevX, this`prevY, mouseBg
      requires mouseBg.Length0 == SIDE && mouseBg.Length1 == SIDE && n <= SIDE * SIDE
    {
      forall k :: 0 <= k < n ==> CellKept(pic, k)
    }

    /** The overlay invariant: the screen shows the picture with the cursor at the previous position, the
        pixels it hides are kept, and without a pending move that position is the mouse's. */
    ghost predicate Overlay(pic: Pixels)
      reads this, fb, mouseBg
    {
      && Valid() && |pic| == fb.Length
      && fb[..] == Cursored(mode, pic, prevX, prevY) && Kept(pic, SIDE * SIDE)
      && (!mouseMoved ==> prevX == mouseX && prevY == mouseY)
    }

    method SaveCell(i: nat, j: nat)
      requires Valid() && i < SIDE && j < SIDE && Kept(fb[..], SIDE * i + j)
      modifies mouseBg
      ensures Kept(fb[..], SIDE * i + j + 1)
    {
      ghost var k := SIDE * i + j;
      CellAt(mode, prevX, prevY, i, j);
      if prevY + i < mode.height && prevX + j < mode.width {
        CellInside(mode, prevX, prevY, k);
        mouseBg[i, j] := fb[(prevY + i) * mode.pitch + (prevX + j)];
      }
      forall q | 0 <= q < k ensures CellKept(fb[..], q) {
        assert old(CellKept(fb[..], q));
        assert q == SIDE * (q / SIDE) + q % SIDE;
      }
    }

    /** The hidden pixels, cell by cell. */
    method SaveMouseBg()
      requires Valid()
      modifies mouseBg
      ensures Kept(fb[..], SIDE * SIDE)
    {
      for i := 0 to SIDE
        invariant Kept(fb[..], SIDE * i)
      {
        for j := 0 to SIDE
          invariant Kept(fb[..], SIDE * i + j)
        {
          SaveCell(i, j);
        }
      }
    }

    /** The first n cells of the cursor at (x, y) show the picture again, the others may be red. */
    ghost predicate Shows(s: Pixels, pic: Pixels, x: int, y: int, n: nat) {
      |s| == |pic| && forall p :: 0 <= p < |s| ==>
        s[p] == if Covered(mode, x, y, SIDE * SIDE, p) && !Covered(mode, x, y, n, p) then RED else pic[p]
    }

    lemma CellRestored(s: Pixels, s': Pixels, pic: Pixels, x: int, y: int, k: nat)
      requires k < SIDE * SIDE && Shows(s, pic, x, y, k) && mode.Ok() && |pic| >= mode.pitch * mode.height
      requires var c := Cell(mode, x, y, k); (c == -1 ==> s' == s) && (c != -1 ==> 0 <= c < |s| && s' == s[c := pic[c]])
      ensures Shows(s', pic, x, y, k + 1)
    {
      forall p | 0 <= p < |s'|
        ensures s'[p] == if Covered(mode, x, y, SIDE * SIDE, p) && !Covered(mode, x, y, k + 1, p) then RED else pic[p]
      {
        CoveredStep(mode, x, y, k, p);
      }
    }

    method RestoreCell(i: nat, j: nat, ghost pic: Pixels)
      requires Valid() && i < SIDE && j < SIDE && |pic| == fb.Length && Kept(pic, SIDE * SIDE)
      requires Shows(fb[..], pic, prevX, prevY, SIDE * i + j)
      modifies fb
      ensures Shows(fb[..], pic, prevX, prevY, SIDE * i + j + 1)
    {
      ghost var k, before := SIDE * i + j, fb[..];
      CellAt(mode, prevX, prevY, i, j);
      assert CellKept(pic, k);
      if prevY + i < mode.height && prevX + j < mode.width {
        CellInside(mode, prevX, prevY, k);
        fb[(prevY + i) * mode.pitch + (prevX + j)] := mouseBg[i, j];
      }
      CellRestored(before, fb[..], pic, prevX, prevY, k);
    }

    /** Back to the picture, cell by cell. */
    method RestoreMouseBg(ghost pic: Pixels)
      requires Valid() && |pic| == fb.Length && fb[..] == Cursored(mode, pic, prevX, prevY) && Kept(pic, SIDE * SIDE)
      modifies fb
      ensures fb[..] == pic
    {
      for i := 0 to SIDE
        invariant Shows(fb[..], pic, prevX, prevY, SIDE * i)
      {
        for j := 0 to SIDE
          invariant Shows(fb[..], pic, prevX, prevY, SIDE * i + j)
        {
          RestoreCell(i, j, pic);
        }
      }
      assert fb[..] == pic;
    }

    ghost predicate Drawn(s: Pixels, pic: Pixels, x: int, y: int, n: nat) {
      |s| == |pic| && forall p :: 0 <= p < |s| ==> s[p] == if Covered(mode, x, y, n, p) then RED else pic[p]
    }

    lemma CellDrawn(s: Pixels, s': Pixels, pic: Pixels, x: int, y: int, k: nat)
      requires k < SIDE * SIDE && Drawn(s, pic, x, y, k) && mode.Ok() && |pic| >= mode.pitch * mode.height
      requires var c := Cell(mode, x, y, k); (c == -1 ==> s' == s) && (c != -1 ==> 0 <= c < |s| && s' == s[c := RED])
      ensures Drawn(s', pic, x, y, k + 1)
    {
      forall p | 0 <= p < |s'| ensures s'[p] == if Covered(mode, x, y, k + 1, p) then RED else pic[p] {
        CoveredStep(mode, x, y, k, p);
      }
    }

    /** The cursor at the mouse position, cell by cell. */
    method DrawMouseCursor()
      requires Valid()
      modifies fb
      ensures fb[..] == Cursored(mode, old(fb[..]), mouseX, mouseY)
    {
      ghost var pic := fb[..];
      for i := 0 to SIDE
        invariant Drawn(fb[..], pic, mouseX, mouseY, SIDE * i)
      {
        for j := 0 to SIDE
          invariant Drawn(fb[..], pic, mouseX, mouseY, SIDE * i + j)
        {
          ghost var k := SIDE * i + j;
          CellAt(mode, mouseX, mouseY, i, j);
          ghost var before := fb[..];
          if mouseY + i < mode.height && mouseX + j < mode.width {
            CellInside(mode, mouseX, mouseY, k);
            fb[(mouseY + i) * mode.pitch + (mouseX + j)] := RED;
          }
          CellDrawn(before, fb[..], pic, mouseX, mouseY, k);
        }
      }
    }

    ghost function MouseState(): Mouse
      reads this, mouseByte
    {
      Mouse(mouseX, mouseY, mouseMoved, mouseCycle, mouseByte[..])
    }

    /** A whole packet moves the mouse. */
    method Move()
      requires Valid()
      modifies this`mouseX, this`mouseY, this`mouseMoved
      ensures mouseMoved && mouseX == Clamp(old(mouseX) + Signed(mouseByte[1]), mode.width - SIDE)
      ensures mouseY == Clamp(old(mouseY) - Signed(mouseByte[2]), mode.height - SIDE)
    {
      mouseX := mouseX + Signed(mouseByte[1]);
      mouseY := mouseY - Signed(mouseByte[2]);
      if mouseX < 0 { mouseX := 0; }
      if mouseY < 0 { mouseY := 0; }
      if mouseX >= mode.width - 5 { mouseX := mode.width - 5; }
      if mouseY >= mode.height - 5 { mouseY := mode.height - 5; }
      mouseMoved := true;
    }

    /** One interrupt. */
    method MouseHandler(status: byte, data: byte)
      requires Valid()
      modifies this`mouseX, this`mouseY, this`mouseMoved, this`mouseCycle, mouseByte
      ensures Valid() && MouseState() == Handled(mode, old(MouseState()), status, data)
    {
      if (status / 0x20) % 2 == 0 { return; }
      ghost var packet := mouseByte[..][mouseCycle := data];
      mouseByte[mouseCycle] := data;
      assert mouseByte[..] == packet;
      if mouseCycle == 2 {
        mouseCycle := 0;
        if !Overflowed(mouseByte[0]) { Move(); }
      } else {
        mouseCycle := mouseCycle + 1;
      }
    }

    /** One pass of the main loop; interrupts are off while it redraws. */
    method Redraw(ghost pic: Pixels)
      requires Overlay(pic)
      modifies this`prevX, this`prevY, this`mouseMoved, fb, mouseBg
      ensures Overlay(pic) && !mouseMoved
    {
      if mouseMoved {
        RestoreMouseBg(pic);
        prevX := mouseX;
        prevY := mouseY;
        SaveMouseBg();
        DrawMouseCursor();
        mouseMoved := false;
      }
    }

    /** The main loop over any interleaving of interrupts and passes.  At any point RestoreMouseBg would give
        the picture back. */
    method MainLoop(events: seq<Event>, ghost pic: Pixels)
      requires Valid() && fb[..] == pic && !mouseMoved && prevX == mouseX && prevY == mouseY
      modifies this, fb, mouseBg, mouseByte
      ensures Overlay(pic)
    {
      SaveMouseBg();
      DrawMouseCursor();
      for i := 0 to |events|
        invariant Overlay(pic)
      {
        match events[i]
        case Interrupt(status, data) =>
          MouseStaysInside(mode, MouseState(), status, data);
          MouseHandler(status, data);
        case Turn => Redraw(pic);
      }
    }
  }
}
