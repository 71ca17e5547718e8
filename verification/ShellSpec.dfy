/** The line editor, the tokenizer and the heap commands as a state machine over key strokes
    (src/keyboard.c, src/shell.c). */
module ShellSpec {
  import opened Bytes
  import opened HeapSpec
  import opened HexText

  const LINE_MAX: nat := 255
  const CLIP_MAX: nat := 63
  const CMD_MAX: nat := 31
  const ARG_MAX: nat := 63

  /** The keys of scancodes 0 to 57; '\0' where a key types nothing. */
  const SCANCODE_MAP: string :=
    "\0\01234567890-=\0\0" + "qwertyuiop[]\0\0" + "asdfghjkl;'`\0\\" + "zxcvbnm,./\0*\0 "

  /** What the keyboard and the shell keep between interrupts. */
  datatype Shell = Shell(text: string, caps: bool, leftShift: bool, rightShift: bool, ctrl: bool,
                         clip: string, blocks: Blocks)
  {
    predicate Ok() { |text| <= LINE_MAX && '\0' !in text && |clip| <= CLIP_MAX && '\0' !in clip }
  }

  // ------------------------------------------------------------ the tokenizer

  /** Length of the word that starts at s: up to a space, the end, or the limit. */
  function WordLength(s: string, limit: nat): (n: nat)
    ensures n <= |s| && n <= limit && ' ' !in s[..n]
  {
    if s == "" || s[0] == ' ' || limit == 0 then 0 else 1 + WordLength(s[1..], limit - 1)
  }

  /** The argument and, cut to its buffer, the rest of the line. */
  function Args(t: string): (string, string) {
    var k := WordLength(t, ARG_MAX);
    if k < |t| && t[k] == ' ' then
      var u := t[k + 1..];
      (t[..k], u[..if |u| < ARG_MAX then |u| else ARG_MAX])
    else (t[..k], "")
  }

  /** The three tokens of a line.  A command longer than its buffer leaves no argument. */
  function Tokens(s: string): (string, string, string) {
    var n := WordLength(s, CMD_MAX);
    if n < |s| && s[n] == ' ' then
      var (arg1, arg2) := Args(s[n + 1..]);
      (s[..n], arg1, arg2)
    else (s[..n], "", "")
  }

  /** Commands that only show something. */
  const SHOWING: set<string> := {"clear", "about", "recon", "pci", "mem"}

  /** Commands that need an argument, or two. */
  const WITH_ADDRESS: set<string> := {"alloc", "free", "read", "diskread", "write"}

  /** Commands that are not part of this state machine: they walk the disk or touch memory at large. */
  const ELSEWHERE: set<string> := {"sysinfo", "ls", "autopsy", "run", "read", "diskread", "write", "crash"}

  /** The heap commands; one without its arguments; one that only shows something; one of another part; an
      unknown one. */
  datatype Command = Alloc(size: nat) | Release(addr: nat) | Usage | Showing | Elsewhere | Unknown

  function Parse(s: string): Command {
    var (cmd, arg1, arg2) := Tokens(s);
    if cmd in WITH_ADDRESS && (arg1 == "" || (cmd == "write" && arg2 == "")) then Usage
    else if cmd == "alloc" then Alloc(ValueOf(arg1))
    else if cmd == "free" then Release(ValueOf(arg1))
    else if cmd in SHOWING then Showing
    else if cmd in ELSEWHERE then Elsewhere
    else Unknown
  }

  /** `free` takes any address; only NULL and payloads on the list are safe to give it. */
  predicate Safe(s: Shell) {
    match Parse(s.text)
    case Release(a) => a == 0 || OnList(s.blocks, a)
    case Elsewhere => false
    case _ => true
  }

  /** Enter.  An empty line does nothing; any other is executed and cleared. */
  function Execute(s: Shell): Shell
    requires Safe(s)
  {
    if s.text == "" then s
    else match Parse(s.text)
      case Alloc(n) =>
        var p := MallocPtr(s.blocks, n);
        s.(text := "", blocks := Malloc(s.blocks, n), clip := if p != 0 then HexOf(p) else s.clip)
      case Release(a) => s.(text := "", blocks := Free(s.blocks, a))
      case _ => s.(text := "")
  }

  // ------------------------------------------------------------- the keyboard

  const BREAK: nat := 0x80
  const CAPS_LOCK: nat := 0x3A
  const LEFT_SHIFT: nat := 0x2A
  const RIGHT_SHIFT: nat := 0x36
  const LEFT_CTRL: nat := 0x1D
  const V_KEY: nat := 0x2F
  const BACKSPACE: nat := 0x0E
  const ENTER: nat := 0x1C

  function Shifted(c: char, upper: bool): char {
    if upper && 'a' <= c <= 'z' then c - 32 as char else c
  }

  function Room(s: string): nat { if |s| < LINE_MAX then LINE_MAX - |s| else 0 }

  function Paste(text: string, clip: string): string {
    text + clip[..if |clip| < Room(text) then |clip| else Room(text)]
  }

  function TypeKey(s: Shell, scancode: nat): Shell
    requires scancode < 58
  {
    var c := SCANCODE_MAP[scancode];
    if c == '\0' || |s.text| >= LINE_MAX then s
    else s.(text := s.text + [Shifted(c, s.caps != (s.leftShift || s.rightShift))])
  }

  function ReleaseKey(s: Shell, key: nat): Shell {
    if key == LEFT_SHIFT then s.(leftShift := false)
    else if key == RIGHT_SHIFT then s.(rightShift := false)
    else if key == LEFT_CTRL then s.(ctrl := false)
    else s
  }

  /** One keyboard interrupt. */
  function Key(s: Shell, scancode: byte): Shell
    requires scancode == ENTER ==> Safe(s)
  {
    if scancode >= BREAK then ReleaseKey(s, scancode - BREAK)
    else if scancode == CAPS_LOCK then s.(caps := !s.caps)
    else if scancode == LEFT_SHIFT then s.(leftShift := true)
    else if scancode == RIGHT_SHIFT then s.(rightShift := true)
    else if scancode == LEFT_CTRL then s.(ctrl := true)
    else if scancode == V_KEY && s.ctrl then s.(text := Paste(s.text, s.clip))
    else if scancode == BACKSPACE then (if s.text == "" then s else s.(text := s.text[..|s.text| - 1]))
    else if scancode == ENTER then Execute(s)
    else if scancode < 58 then TypeKey(s, scancode)
    else s
  }

  // ---------------------------------------------------------- what keys do

  /** Modifiers: Caps Lock toggles, the others hold until they are released; no other release does anything. */
  lemma ModifierKeys(s: Shell, released: byte)
    requires released >= 0x80
    ensures Key(s, 0x3A) == s.(caps := !s.caps) && Key(s, 0x1D) == s.(ctrl := true)
    ensures Key(s, 0x2A) == s.(leftShift := true) && Key(s, 0x36) == s.(rightShift := true)
    ensures Key(s, released) == if released == 0xAA then s.(leftShift := false)
                                else if released == 0xB6 then s.(rightShift := false)
                                else if released == 0x9D then s.(ctrl := false) else s
  {
  }

  /** Backspace takes the last character away, when there is one; Ctrl+V pastes as far as 255 characters. */
  lemma EditingKeys(s: Shell)
    ensures |s.text| > 0 ==> Key(s, 0x0E) == s.(text := s.text[..|s.text| - 1])
    ensures s.text == "" ==> Key(s, 0x0E) == s
    ensures s.ctrl && |s.text| + |s.clip| <= 255 ==> Key(s, 0x2F) == s.(text := s.text + s.clip)
    ensures s.ctrl && |s.text| <= 255 < |s.text| + |s.clip| ==>
              Key(s, 0x2F) == s.(text := s.text + s.clip[..255 - |s.text|])
  {
  }

  /** The character is added while the line has room. */
  predicate Adds(s: Shell, scancode: byte, c: char)
    requires scancode != 0x1C
  {
    Key(s, scancode) == if |s.text| < 255 then s.(text := s.text + [c]) else s
  }

  /** Exactly one of Caps Lock and Shift makes upper case. */
  predicate Upper(s: Shell) { s.caps != (s.leftShift || s.rightShift) }

  /** The key is no modifier, no editing key and no paste. */
  predicate Ordinary(s: Shell, scancode: byte) {
    scancode < 58 && scancode !in {0x0E, 0x1C, 0x1D, 0x2A, 0x36} && !(scancode == 0x2F && s.ctrl)
  }

  lemma LetterKey(s: Shell, scancode: byte, lower: char, upper: char)
    requires Ordinary(s, scancode) && SCANCODE_MAP[scancode] == lower
    requires 'a' <= lower <= 'z' && upper == lower - 32 as char
    ensures Adds(s, scancode, if Upper(s) then upper else lower)
  {
  }

  lemma PlainKey(s: Shell, scancode: byte, c: char)
    requires Ordinary(s, scancode) && SCANCODE_MAP[scancode] == c != '\0' && !('a' <= c <= 'z')
    ensures Adds(s, scancode, c)
  {
  }

  lemma TopRow(s: Shell, j: nat)
    requires j < 10
    ensures Adds(s, 0x10 + j, if Upper(s) then "QWERTYUIOP"[j] else "qwertyuiop"[j])
  {
    LetterKey(s, 0x10 + j, "qwertyuiop"[j], "QWERTYUIOP"[j]);
  }

  lemma HomeRow(s: Shell, j: nat)
    requires j < 9
    ensures Adds(s, 0x1E + j, if Upper(s) then "ASDFGHJKL"[j] else "asdfghjkl"[j])
  {
    LetterKey(s, 0x1E + j, "asdfghjkl"[j], "ASDFGHJKL"[j]);
  }

  lemma BottomRow(s: Shell, j: nat)
    requires j < 7 && !(j == 3 && s.ctrl)
    ensures Adds(s, 0x2C + j, if Upper(s) then "ZXCVBNM"[j] else "zxcvbnm"[j])
  {
    LetterKey(s, 0x2C + j, "zxcvbnm"[j], "ZXCVBNM"[j]);
  }

  lemma NumberRow(s: Shell, j: nat)
    requires j < 12
    ensures Adds(s, 0x02 + j, "1234567890-="[j])
  {
    PlainKey(s, 0x02 + j, "1234567890-="[j]);
  }

  lemma OtherKeys(s: Shell, j: nat)
    requires j < 3
    ensures j < 2 ==> Adds(s, 0x1A + j, "[]"[j])
    ensures Adds(s, 0x27 + j, ";'`"[j]) && Adds(s, 0x33 + j, ",./"[j])
    ensures Adds(s, 0x2B, '\\') && Adds(s, 0x37, '*') && Adds(s, 0x39, ' ')
  {
    if j < 2 { PlainKey(s, 0x1A + j, "[]"[j]); }
    PlainKey(s, 0x27 + j, ";'`"[j]);
    PlainKey(s, 0x33 + j, ",./"[j]);
    PlainKey(s, 0x2B, '\\');
    PlainKey(s, 0x37, '*');
    PlainKey(s, 0x39, ' ');
  }

  /** A letter is typed in the case that Caps Lock and Shift give it. */
  lemma LetterKeys(s: Shell, j: nat)
    ensures j < 10 ==> Adds(s, 0x10 + j, if Upper(s) then "QWERTYUIOP"[j] else "qwertyuiop"[j])
    ensures j < 9 ==> Adds(s, 0x1E + j, if Upper(s) then "ASDFGHJKL"[j] else "asdfghjkl"[j])
    ensures j < 7 && !(j == 3 && s.ctrl) ==> Adds(s, 0x2C + j, if Upper(s) then "ZXCVBNM"[j] else "zxcvbnm"[j])
  {
    if j < 10 { TopRow(s, j); }
    if j < 9 { HomeRow(s, j); }
    if j < 7 && !(j == 3 && s.ctrl) { BottomRow(s, j); }
  }

  /** A run of key strokes; None when an unsafe line is entered. */
  function Keys(s: Shell, ks: seq<byte>): Option<Shell>
    decreases |ks|
  {
    if ks == [] then Some(s)
    else if ks[0] == ENTER && !Safe(s) then None
    else Keys(Key(s, ks[0]), ks[1..])
  }

  lemma ExecuteOk(s: Shell, lo: nat, hi: nat)
    requires s.Ok() && Safe(s) && Tiles(s.blocks, lo, hi) && hi <= U64
    ensures Execute(s).Ok() && Tiles(Execute(s).blocks, lo, hi)
  {
    if s.text != "" {
      match Parse(s.text)
      case Alloc(n) =>
        MallocTiles(s.blocks, lo, hi, n);
        if CanAlloc(s.blocks, n) {
          Inside(s.blocks, lo, hi, FirstFit(s.blocks, n));
          HexRoundTrip(MallocPtr(s.blocks, n));
        }
      case Release(a) => if a != 0 { ReleaseTiles(s.blocks, lo, hi, Find(s.blocks, a)); }
      case _ =>
    }
  }

  lemma TypeOk(s: Shell, scancode: byte)
    requires s.Ok() && scancode < 58
    ensures TypeKey(s, scancode).Ok()
  {
    var c := SCANCODE_MAP[scancode];
    if c != '\0' { assert Shifted(c, s.caps != (s.leftShift || s.rightShift)) != '\0'; }
  }

  lemma PlainKeyOk(s: Shell, scancode: byte)
    requires s.Ok() && scancode != ENTER && (scancode >= 58 || TypeKey(s, scancode).Ok())
    ensures Key(s, scancode).Ok() && Key(s, scancode).blocks == s.blocks
  {
  }

  /** Whatever is typed short of an unsafe line, the line and the clipboard stay within their buffers, and the
      list tiles the heap. */
  lemma KeyOk(s: Shell, scancode: byte, lo: nat, hi: nat)
    requires s.Ok() && (scancode == ENTER ==> Safe(s)) && Tiles(s.blocks, lo, hi) && hi <= U64
    ensures Key(s, scancode).Ok() && Tiles(Key(s, scancode).blocks, lo, hi)
  {
    if scancode == ENTER {
      ExecuteOk(s, lo, hi);
    } else {
      if scancode < 58 { TypeOk(s, scancode); }
      PlainKeyOk(s, scancode);
    }
  }

  lemma {:induction false} KeysOk(s: Shell, ks: seq<byte>, lo: nat, hi: nat)
    requires s.Ok() && Tiles(s.blocks, lo, hi) && hi <= U64
    ensures Keys(s, ks).Some? ==> Keys(s, ks).value.Ok() && Tiles(Keys(s, ks).value.blocks, lo, hi)
    decreases |ks|
  {
    if ks != [] && (ks[0] == ENTER ==> Safe(s)) {
      KeyOk(s, ks[0], lo, hi);
      KeysOk(Key(s, ks[0]), ks[1..], lo, hi);
    }
  }

  // ---------------------------------------------------- the clipboard round trip

  predicate Plain(s: Shell) { !s.caps && !s.leftShift && !s.rightShift && !s.ctrl }

  /** "free " typed key by key, pressed and released; Ctrl+V. */
  const TYPE_FREE: seq<byte> := [0x21, 0xA1, 0x13, 0x93, 0x12, 0x92, 0x12, 0x92, 0x39, 0xB9]
  const PASTE: seq<byte> := [0x1D, 0x2F, 0xAF, 0x9D]

  /** A key that types a character whatever the modifiers. */
  predicate Types(key: byte, c: char) {
    && key < 58 && key !in {CAPS_LOCK, LEFT_SHIFT, RIGHT_SHIFT, LEFT_CTRL, BACKSPACE, ENTER}
    && SCANCODE_MAP[key] == c != '\0'
  }

  lemma PressTypes(s: Shell, key: byte, c: char)
    requires Plain(s) && |s.text| < LINE_MAX && Types(key, c)
    ensures Key(s, key) == s.(text := s.text + [c])
  {
  }

  lemma FirstKey(s: Shell, key: byte, more: seq<byte>)
    requires key == ENTER ==> Safe(s)
    ensures Keys(s, [key] + more) == Keys(Key(s, key), more)
  {
    assert ([key] + more)[1..] == more;
  }

  /** Such a key pressed and released. */
  lemma Stroke(s: Shell, key: byte, c: char, more: seq<byte>, text: string)
    requires Plain(s) && |s.text| < LINE_MAX && Types(key, c) && text == s.text + [c]
    ensures Keys(s, [key, key + BREAK] + more) == Keys(s.(text := text), more)
  {
    assert [key, key + BREAK] + more == [key] + ([key + BREAK] + more);
    FirstKey(s, key, [key + BREAK] + more);
    PressTypes(s, key, c);
    FirstKey(s.(text := text), key + BREAK, more);
  }

  lemma TypeFree(s: Shell, more: seq<byte>)
    requires Plain(s) && |s.text| + 5 <= LINE_MAX
    ensures Keys(s, TYPE_FREE + more) == Keys(s.(text := s.text + "free "), more)
  {
    var t0 := [0x39, 0xB9] + more;
    var t1 := [0x12, 0x92] + t0;
    var t2 := [0x12, 0x92] + t1;
    var t3 := [0x13, 0x93] + t2;
    assert TYPE_FREE + more == [0x21, 0xA1] + t3;
    Stroke(s, 0x21, 'f', t3, s.text + "f");
    Stroke(s.(text := s.text + "f"), 0x13, 'r', t2, s.text + "fr");
    Stroke(s.(text := s.text + "fr"), 0x12, 'e', t1, s.text + "fre");
    Stroke(s.(text := s.text + "fre"), 0x12, 'e', t0, s.text + "free");
    Stroke(s.(text := s.text + "free"), 0x39, ' ', more, s.text + "free ");
  }

  /** Ctrl down, V, V up, Ctrl up: the clipboard as far as the line has room. */
  lemma CtrlV(s: Shell)
    requires Plain(s)
    ensures var t := s.(text := Paste(s.text, s.clip));
            && Key(s, 0x1D) == s.(ctrl := true) && Key(s.(ctrl := true), 0x2F) == t.(ctrl := true)
            && Key(t.(ctrl := true), 0xAF) == t.(ctrl := true) && Key(t.(ctrl := true), 0x9D) == t
  {
  }

  lemma PasteKeys(s: Shell, more: seq<byte>)
    requires Plain(s)
    ensures Keys(s, PASTE + more) == Keys(s.(text := Paste(s.text, s.clip)), more)
  {
    var t1, t2, t3 := [0x2F, 0xAF, 0x9D] + more, [0xAF, 0x9D] + more, [0x9D] + more;
    var s1 := s.(ctrl := true);
    var s2 := s.(text := Paste(s.text, s.clip), ctrl := true);
    CtrlV(s);
    assert PASTE + more == [0x1D] + t1 && t1 == [0x2F] + t2 && t2 == [0xAF] + t3;
    FirstKey(s, 0x1D, t1);
    FirstKey(s1, 0x2F, t2);
    FirstKey(s2, 0xAF, t3);
    FirstKey(s2, 0x9D, more);
  }

  lemma {:induction false} WordWhole(s: string, limit: nat)
    requires ' ' !in s && |s| <= limit
    ensures WordLength(s, limit) == |s|
    decreases |s|
  {
    if s == "" {
    } else {
      WordWhole(s[1..], limit - 1);
    }
  }

  lemma {:induction false} WordStops(w: string, rest: string, limit: nat)
    requires ' ' !in w && |w| <= limit
    ensures WordLength(w + [' '] + rest, limit) == |w|
    decreases |w|
  {
    if w == "" {
    } else {
      assert (w + [' '] + rest)[1..] == w[1..] + [' '] + rest;
      WordStops(w[1..], rest, limit - 1);
    }
  }

  /** The tokenizer undoes joining with spaces, for tokens that fit their buffers. */
  lemma TokensOfJoined(cmd: string, arg1: string, arg2: string)
    requires ' ' !in cmd && |cmd| <= CMD_MAX && ' ' !in arg1 && |arg1| <= ARG_MAX && |arg2| <= ARG_MAX
    ensures Tokens(cmd + [' '] + arg1) == (cmd, arg1, "")
    ensures Tokens(cmd + [' '] + (arg1 + [' '] + arg2)) == (cmd, arg1, arg2)
  {
    WordStops(cmd, arg1, CMD_MAX);
    WordWhole(arg1, ARG_MAX);
    var s := cmd + [' '] + arg1;
    assert s[..|cmd|] == cmd && s[|cmd|] == ' ' && s[|cmd| + 1..] == arg1 && arg1[..|arg1|] == arg1;
    var t := arg1 + [' '] + arg2;
    WordStops(cmd, t, CMD_MAX);
    WordStops(arg1, arg2, ARG_MAX);
    var u := cmd + [' '] + t;
    assert u[..|cmd|] == cmd && u[|cmd|] == ' ' && u[|cmd| + 1..] == t;
    assert t[..|arg1|] == arg1 && t[|arg1|] == ' ' && t[|arg1| + 1..] == arg2 && arg2[..|arg2|] == arg2;
  }

  lemma WordAlone(w: string)
    requires ' ' !in w && |w| <= CMD_MAX
    ensures Tokens(w) == (w, "", "")
  {
    WordWhole(w, CMD_MAX);
    assert w[..|w|] == w;
  }

  lemma AllocParses(arg: string)
    requires arg != "" && ' ' !in arg && |arg| <= 63
    ensures Parse("alloc " + arg) == Alloc(ValueOf(arg))
  {
    TokensOfJoined("alloc", arg, "");
    assert "alloc " + arg == "alloc" + [' '] + arg;
  }

  lemma FreeParses(arg: string)
    requires arg != "" && ' ' !in arg && |arg| <= 63
    ensures Parse("free " + arg) == Release(ValueOf(arg))
  {
    TokensOfJoined("free", arg, "");
    assert "free " + arg == "free" + [' '] + arg;
  }

  lemma BareCommands()
    ensures Parse("alloc") == Usage && Parse("free") == Usage
  {
    WordAlone("alloc");
    WordAlone("free");
  }

  /** The two heap commands hand the value of their argument on, and do nothing without one. */
  lemma Commands(arg: string)
    requires arg != "" && ' ' !in arg && |arg| <= 63
    ensures Parse("alloc " + arg) == Alloc(ValueOf(arg)) && Parse("free " + arg) == Release(ValueOf(arg))
    ensures Parse("alloc") == Usage && Parse("free") == Usage
  {
    AllocParses(arg);
    FreeParses(arg);
    BareCommands();
  }

  /** Enter on a line clears it, and does no more when it is no heap command or when nothing is granted. */
  lemma EnterClears(s: Shell)
    requires Safe(s)
    ensures s.text == "" ==> Key(s, 0x1C) == s
    ensures s.text != "" && !Parse(s.text).Alloc? && !Parse(s.text).Release? ==> Key(s, 0x1C) == s.(text := "")
    ensures s.text != "" && Parse(s.text).Alloc? && !CanAlloc(s.blocks, Parse(s.text).size) ==>
              Key(s, 0x1C) == s.(text := "")
  {
  }

  lemma FreeLineParses(v: nat)
    requires v < U64
    ensures Parse("free " + HexOf(v)) == Release(v)
  {
    HexRoundTrip(v);
    FreeParses(HexOf(v));
  }

  lemma ExecuteRelease(s: Shell, v: nat)
    requires s.text != "" && Parse(s.text) == Release(v) && (v == 0 || OnList(s.blocks, v))
    ensures Safe(s) && Key(s, ENTER) == s.(text := "", blocks := Free(s.blocks, v))
  {
  }

  lemma EnterFree(s: Shell, v: nat)
    requires s.text == "free " + HexOf(v) && v < U64 && (v == 0 || OnList(s.blocks, v))
    ensures Keys(s, [ENTER]) == Some(s.(text := "", blocks := Free(s.blocks, v)))
  {
    FreeLineParses(v);
    ExecuteRelease(s, v);
    assert [ENTER] + [] == [ENTER];
    FirstKey(s, ENTER, []);
  }

  lemma PasteAfterFree(v: nat)
    requires v < U64
    ensures Paste("free ", HexOf(v)) == "free " + HexOf(v)
  {
    assert |HexOf(v)| == 18;
    assert HexOf(v)[..18] == HexOf(v);
  }

  lemma FreePasted(s: Shell, v: nat, more: seq<byte>)
    requires Plain(s) && s.text == "" && s.clip == HexOf(v) && v < U64
    ensures Keys(s, TYPE_FREE + (PASTE + more)) == Keys(s.(text := "free " + HexOf(v)), more)
  {
    TypeFree(s, PASTE + more);
    assert "" + "free " == "free ";
    PasteKeys(s.(text := "free "), more);
    PasteAfterFree(v);
  }

  /** A printed value on the clipboard, whatever it is: typing "free " and pasting it on an empty line with the
      modifiers off makes a line that hands exactly that value to `free`, and Enter does so. */
  lemma ClipboardRoundTrip(s: Shell, v: nat)
    requires Plain(s) && s.text == "" && s.clip == HexOf(v) && v < U64
    ensures Keys(s, TYPE_FREE + PASTE) == Some(s.(text := "free " + HexOf(v)))
    ensures Parse("free " + HexOf(v)) == Release(v)
    ensures v == 0 || OnList(s.blocks, v) ==>
              Keys(s, TYPE_FREE + PASTE + [ENTER]) == Some(s.(blocks := Free(s.blocks, v)))
  {
    assert PASTE + [] == PASTE && TYPE_FREE + PASTE + [ENTER] == TYPE_FREE + (PASTE + [ENTER]);
    FreePasted(s, v, []);
    FreePasted(s, v, [ENTER]);
    FreeLineParses(v);
    if v == 0 || OnList(s.blocks, v) { EnterFree(s.(text := "free " + HexOf(v)), v); }
  }

  lemma EnterAlloc(s: Shell, n: nat, ks: seq<byte>)
    requires Parse(s.text) == Alloc(n) && CanAlloc(s.blocks, n)
    ensures Keys(s, [ENTER] + ks)
         == Keys(s.(text := "", blocks := Malloc(s.blocks, n), clip := HexOf(MallocPtr(s.blocks, n))), ks)
  {
    assert s.text != "" by { assert Tokens("").0 == ""; }
    assert Key(s, ENTER) == s.(text := "", blocks := Malloc(s.blocks, n), clip := HexOf(MallocPtr(s.blocks, n)));
    FirstKey(s, ENTER, ks);
  }

  /** `alloc`, then "free " with the pointer pasted from the clipboard: the block list is the one before
      exactly when the allocation was reversible, as it always is on a coalesced heap. */
  lemma AllocThenPasteFree(s: Shell, n: nat, lo: nat, hi: nat)
    requires Plain(s) && Tiles(s.blocks, lo, hi) && hi <= U64
    requires Parse(s.text) == Alloc(n) && CanAlloc(s.blocks, n)
    ensures var r := Keys(s, [ENTER] + (TYPE_FREE + PASTE + [ENTER]));
            && r.Some? && r.value.text == "" && r.value.clip == HexOf(MallocPtr(s.blocks, n))
            && (r.value.blocks == s.blocks <==> Reversible(s.blocks, n))
    ensures Coalesced(s.blocks) ==> Reversible(s.blocks, n)
  {
    var p := MallocPtr(s.blocks, n);
    var s1 := s.(text := "", blocks := Malloc(s.blocks, n), clip := HexOf(p));
    EnterAlloc(s, n, TYPE_FREE + PASTE + [ENTER]);
    Inside(s.blocks, lo, hi, FirstFit(s.blocks, n));
    FreeUndoesMalloc(s.blocks, lo, hi, n);
    if Coalesced(s.blocks) { CoalescedIsReversible(s.blocks, n); }
    ClipboardRoundTrip(s1, p);
  }
}
