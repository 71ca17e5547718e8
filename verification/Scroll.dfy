/** Scrolling the framebuffer by one text line, in place (ScrollScreen, src/display.c). */
module Scroll {
  import opened Arith
  import opened Bytes

  const LINE: nat := 8

  /** A framebuffer of `height` rows of `pitch` pixels, the first `width` of each visible. */
  datatype Area = Area(width: nat, height: nat, pitch: nat) {
    predicate Holds(n: nat) {
      width <= pitch && 0 < pitch && height < U32 && pitch * height <= n && pitch * height < U32
    }
    function Index(r: nat, c: nat): nat { r * pitch + c }
    predicate Has(r: nat, c: nat) { r < height && c < pitch }
  }

  lemma IndexInside(a: Area, n: nat, r: nat, c: nat)
    requires a.Holds(n) && a.Has(r, c)
    ensures a.Index(r, c) < n
  {
    MulMono(r + 1, a.height, a.pitch);
    assert (r + 1) * a.pitch == r * a.pitch + a.pitch;
    assert a.height * a.pitch == a.pitch * a.height;
  }

  function Pixel(s: seq<nat>, a: Area, r: nat, c: nat): nat
    requires a.Holds(|s|) && a.Has(r, c)
  {
    IndexInside(a, |s|, r, c);
    s[a.Index(r, c)]
  }

  /** The picture one text line up: the last rows are blank, what lies beyond the width is untouched. */
  function Scrolled(s: seq<nat>, a: Area, r: nat, c: nat): nat
    requires a.Holds(|s|) && a.Has(r, c)
  {
    if c >= a.width || a.height < 8 then Pixel(s, a, r, c)
    else if r + 8 < a.height then Pixel(s, a, r + 8, c)
    else 0
  }

  /** The picture while the copy stands at row y, column x: rows before are copied. */
  function Copied(s: seq<nat>, a: Area, y: nat, x: nat, r: nat, c: nat): nat
    requires a.Holds(|s|) && a.Has(r, c)
  {
    if c < a.width && r + LINE < a.height && (r + LINE < y || (r + LINE == y && c < x)) then Pixel(s, a, r + LINE, c)
    else Pixel(s, a, r, c)
  }

  ghost predicate CopiedTo(s0: seq<nat>, s: seq<nat>, a: Area, y: nat, x: nat) {
    && |s| == |s0| && a.Holds(|s|)
    && forall r: nat, c: nat {:trigger Pixel(s, a, r, c)} ::
         a.Has(r, c) ==> Pixel(s, a, r, c) == Copied(s0, a, y, x, r, c)
  }

  ghost predicate BlankedTo(s0: seq<nat>, s: seq<nat>, a: Area, y: nat, x: nat) {
    && |s| == |s0| && a.Holds(|s|)
    && forall r: nat, c: nat {:trigger Pixel(s, a, r, c)} :: a.Has(r, c) ==>
         Pixel(s, a, r, c) == if c < a.width && a.height <= r + LINE && (r < y || (r == y && c < x)) then 0
                              else Copied(s0, a, a.height, 0, r, c)
  }

  /** Writing one pixel changes that pixel only: rows do not overlap. */
  lemma PixelSet(s: seq<nat>, a: Area, r0: nat, c0: nat, v: nat, r: nat, c: nat)
    requires a.Holds(|s|) && a.Has(r0, c0) && a.Has(r, c)
    ensures a.Index(r0, c0) < |s|
    ensures Pixel(s[a.Index(r0, c0) := v], a, r, c) == if r == r0 && c == c0 then v else Pixel(s, a, r, c)
  {
    IndexInside(a, |s|, r0, c0);
    IndexInside(a, |s|, r, c);
    if a.Index(r, c) == a.Index(r0, c0) { QuotientUnique(r, c, r0, c0, a.pitch); }
  }

  lemma CopyStep(s0: seq<nat>, s: seq<nat>, a: Area, y: nat, x: nat)
    requires CopiedTo(s0, s, a, y, x) && LINE <= y < a.height && x < a.width
    ensures a.Index(y - LINE, x) < |s| && a.Index(y, x) < |s|
    ensures CopiedTo(s0, s[a.Index(y - LINE, x) := s[a.Index(y, x)]], a, y, x + 1)
  {
    IndexInside(a, |s|, y, x);
    IndexInside(a, |s|, y - LINE, x);
    var v := s[a.Index(y, x)];
    assert v == Pixel(s, a, y, x) == Pixel(s0, a, y, x);
    var s' := s[a.Index(y - LINE, x) := v];
    forall r: nat, c: nat | a.Has(r, c) ensures Pixel(s', a, r, c) == Copied(s0, a, y, x + 1, r, c) {
      PixelSet(s, a, y - LINE, x, v, r, c);
      assert Pixel(s, a, r, c) == Copied(s0, a, y, x, r, c);
    }
  }

  lemma CopyRowDone(s0: seq<nat>, s: seq<nat>, a: Area, y: nat)
    requires CopiedTo(s0, s, a, y, a.width)
    ensures CopiedTo(s0, s, a, y + 1, 0)
  {
  }

  lemma BlankStep(s0: seq<nat>, s: seq<nat>, a: Area, y: nat, x: nat)
    requires BlankedTo(s0, s, a, y, x) && a.height <= y + LINE && y < a.height && x < a.width
    ensures a.Index(y, x) < |s|
    ensures BlankedTo(s0, s[a.Index(y, x) := 0], a, y, x + 1)
  {
    IndexInside(a, |s|, y, x);
    var s', x' := s[a.Index(y, x) := 0], x + 1;
    forall r: nat, c: nat | a.Has(r, c)
      ensures Pixel(s', a, r, c) == if c < a.width && a.height <= r + LINE && (r < y || (r == y && c < x')) then 0
                                    else Copied(s0, a, a.height, 0, r, c)
    {
      PixelSet(s, a, y, x, 0, r, c);
    }
  }

  method CopyRow(fb: array<nat>, a: Area, y: nat, ghost s0: seq<nat>)
    requires CopiedTo(s0, fb[..], a, y, 0) && LINE <= y < a.height
    modifies fb
    ensures CopiedTo(s0, fb[..], a, y + 1, 0)
  {
    for x := 0 to a.width
      invariant CopiedTo(s0, fb[..], a, y, x)
    {
      CopyStep(s0, fb[..], a, y, x);
      ghost var s := fb[..];
      fb[(y - LINE) * a.pitch + x] := fb[y * a.pitch + x];
      assert fb[..] == s[a.Index(y - LINE, x) := s[a.Index(y, x)]];
    }
    CopyRowDone(s0, fb[..], a, y);
  }

  lemma BlankRowDone(s0: seq<nat>, s: seq<nat>, a: Area, y: nat)
    requires BlankedTo(s0, s, a, y, a.width)
    ensures BlankedTo(s0, s, a, y + 1, 0)
  {
  }

  method BlankRow(fb: array<nat>, a: Area, y: nat, ghost s0: seq<nat>)
    requires BlankedTo(s0, fb[..], a, y, 0) && y < a.height <= y + LINE
    modifies fb
    ensures BlankedTo(s0, fb[..], a, y + 1, 0)
  {
    for x := 0 to a.width
      invariant BlankedTo(s0, fb[..], a, y, x)
    {
      BlankStep(s0, fb[..], a, y, x);
      ghost var s := fb[..];
      fb[y * a.pitch + x] := 0;
      assert fb[..] == s[a.Index(y, x) := 0];
    }
    BlankRowDone(s0, fb[..], a, y);
  }

  ghost predicate IsScrolled(s0: seq<nat>, s: seq<nat>, a: Area) {
    && |s| == |s0| && a.Holds(|s|)
    && forall r: nat, c: nat {:trigger Pixel(s, a, r, c)} :: a.Has(r, c) ==> Pixel(s, a, r, c) == Scrolled(s0, a, r, c)
  }

  lemma NothingCopied(s: seq<nat>, a: Area)
    requires a.Holds(|s|)
    ensures CopiedTo(s, s, a, LINE, 0)
    ensures a.height < LINE ==> IsScrolled(s, s, a)
  {
  }

  lemma NothingBlanked(s0: seq<nat>, s: seq<nat>, a: Area)
    requires CopiedTo(s0, s, a, a.height, 0) && LINE <= a.height
    ensures BlankedTo(s0, s, a, a.height - LINE, 0)
  {
  }

  lemma AllBlanked(s0: seq<nat>, s: seq<nat>, a: Area)
    requires BlankedTo(s0, s, a, a.height, 0) && LINE <= a.height
    ensures IsScrolled(s0, s, a)
  {
  }

  /** Source and destination overlap, yet every visible row gets the old row LINE below it.  A screen of
      fewer than LINE rows is left alone: the start of the blanking loop wraps past its end. */
  method ScrollScreen(fb: array<nat>, a: Area)
    requires a.Holds(fb.Length)
    modifies fb
    ensures IsScrolled(old(fb[..]), fb[..], a)
  {
    ghost var s0 := fb[..];
    NothingCopied(s0, a);
    var y := LINE;
    while y < a.height
      invariant LINE <= y && (a.height < LINE ==> fb[..] == s0)
      invariant LINE <= a.height ==> y <= a.height && CopiedTo(s0, fb[..], a, y, 0)
    {
      CopyRow(fb, a, y, s0);
      y := y + 1;
    }
    y := (a.height - LINE) % U32;
    if LINE <= a.height { NothingBlanked(s0, fb[..], a); }
    while y < a.height
      invariant a.height < LINE ==> fb[..] == s0 && a.height <= y
      invariant LINE <= a.height ==> a.height - LINE <= y <= a.height && BlankedTo(s0, fb[..], a, y, 0)
    {
      BlankRow(fb, a, y, s0);
      y := y + 1;
    }
    if LINE <= a.height { AllBlanked(s0, fb[..], a); }
  }
}
