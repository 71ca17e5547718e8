/** The line editor and the shell over their buffers (src/keyboard.c, src/shell.c), proved against the
    state machine of ShellSpec. */
module Shell {
  import opened Bytes
  import opened HeapSpec
  import opened HexText
  import opened ShellSpec
  import opened Memory

  class Console {
    const line: array<char>            // CommandBuffer
    const clipboard: array<char>
    const heap: Heap
    var bufferIndex: nat
    var capsLock: bool
    var leftShift: bool
    var rightShift: bool
    var leftCtrl: bool
    ghost var clip: string             // the text in the clipboard

    constructor (h: Heap)
      requires h.Valid()
      ensures Valid() && heap == h && State() == ShellSpec.Shell("", false, false, false, false, "", h.Blocks)
      ensures fresh(line) && fresh(clipboard)
    {
      heap, bufferIndex, clip := h, 0, "";
      line, clipboard := new char[256](_ => '\0'), new char[64](_ => '\0');
      capsLock, leftShift, rightShift, leftCtrl := false, false, false, false;
    }

    ghost predicate ClipIs(s: string, c: string) {
      |s| == 64 && |c| <= CLIP_MAX && '\0' !in c && s[..|c|] == c && s[|c|] == '\0'
    }

    ghost predicate Valid()
      reads this, line, clipboard, heap, heap.mem
    {
      && line.Length == 256 && clipboard.Length == 64 && line != clipboard && heap.Valid()
      && bufferIndex <= LINE_MAX && '\0' !in line[..bufferIndex]
      && ClipIs(clipboard[..], clip)
    }

    ghost function State(): ShellSpec.Shell
      reads this, line, heap
      requires bufferIndex <= line.Length
    {
      ShellSpec.Shell(line[..bufferIndex], capsLock, leftShift, rightShift, leftCtrl, clip, heap.Blocks)
    }

    // ---------------------------------------------------------- the keyboard

    method Append(c: char)
      requires line.Length == 256 && bufferIndex < LINE_MAX
      modifies this`bufferIndex, line
      ensures bufferIndex == old(bufferIndex) + 1 && line[..bufferIndex] == old(line[..bufferIndex]) + [c]
    {
      line[bufferIndex] := c;
      bufferIndex := bufferIndex + 1;
    }

    method TypeChar(scancode: nat)
      requires Valid() && scancode < 58
      modifies this`bufferIndex, line
      ensures Valid() && State() == TypeKey(old(State()), scancode)
    {
      var ascii := SCANCODE_MAP[scancode];
      if ascii != '\0' && bufferIndex < 255 {
        if 'a' <= ascii <= 'z' {
          if capsLock != (leftShift || rightShift) { ascii := ascii - 32 as char; }
        }
        Append(ascii);
      }
    }

    method Erase()
      requires Valid()
      modifies this`bufferIndex, line
      ensures Valid() && State() == Key(old(State()), BACKSPACE)
    {
      if bufferIndex > 0 {
        bufferIndex := bufferIndex - 1;
        line[bufferIndex] := '\0';
        assert line[..bufferIndex] == old(line[..bufferIndex])[..bufferIndex];
      }
    }

    /** The line after the first k characters of the clipboard. */
    ghost function Pasted(text: string, k: nat): string
      reads this`clip
      requires k <= |clip|
    {
      text + clip[..if k < Room(text) then k else Room(text)]
    }

    method PasteClipboard()
      requires Valid()
      modifies this`bufferIndex, line
      ensures Valid() && State() == old(State()).(text := Paste(old(State()).text, clip))
    {
      ghost var text := line[..bufferIndex];
      var k := 0;
      while clipboard[k] != '\0' && k < 63
        invariant k <= |clip| && Valid()
        invariant line[..bufferIndex] == Pasted(text, k)
        decreases 63 - k
      {
        assert clipboard[k] == clip[k];
        if bufferIndex < 255 {
          Append(clipboard[k]);
        }
        k := k + 1;
      }
    }

    // ------------------------------------------------------------- the shell

    /** A word from position i on, into a buffer of `limit` characters and a zero. */
    method NextWord(i: nat, limit: nat) returns (word: string, i': nat)
      requires Valid() && i <= bufferIndex && line[bufferIndex] == '\0'
      ensures i' == i + WordLength(line[i..bufferIndex], limit) && word == line[i..i']
    {
      word, i' := "", i;
      while line[i'] != ' ' && line[i'] != '\0' && |word| < limit
        invariant i <= i' <= bufferIndex && word == line[i..i'] && |word| <= limit
        invariant WordLength(line[i..bufferIndex], limit) == i' - i + WordLength(line[i'..bufferIndex], limit - |word|)
        decreases bufferIndex - i'
      {
        assert line[i'..bufferIndex][0] == line[i'] && line[i'..bufferIndex][1..] == line[i' + 1..bufferIndex];
        word := word + [line[i']];
        i' := i' + 1;
      }
      assert i' < bufferIndex ==> line[i'] in line[..bufferIndex] && line[i'..bufferIndex][0] == line[i'];
    }

    method Rest(i: nat) returns (word: string)
      requires Valid() && i <= bufferIndex && line[bufferIndex] == '\0'
      ensures var u := line[i..bufferIndex]; word == u[..if |u| < ARG_MAX then |u| else ARG_MAX]
    {
      word := "";
      var k := i;
      while line[k] != '\0' && |word| < 63
        invariant i <= k <= bufferIndex && word == line[i..k] && |word| <= 63
        decreases bufferIndex - k
      {
        word := word + [line[k]];
        k := k + 1;
      }
      assert k < bufferIndex ==> line[k] in line[..bufferIndex];
      assert line[i..bufferIndex][..k - i] == line[i..k];
    }

    method ReadArgs(i: nat) returns (arg1: string, arg2: string)
      requires Valid() && i <= bufferIndex && line[bufferIndex] == '\0'
      ensures (arg1, arg2) == Args(line[i..bufferIndex])
    {
      var k;
      arg2 := "";
      arg1, k := NextWord(i, 63);
      ghost var t := line[i..bufferIndex];
      assert t[..k - i] == arg1 && (k < bufferIndex ==> t[k - i] == line[k]);
      if line[k] == ' ' {
        arg2 := Rest(k + 1);
        assert t[k - i + 1..] == line[k + 1..bufferIndex];
      }
    }

    method Tokenize() returns (cmd: string, arg1: string, arg2: string)
      requires Valid() && line[bufferIndex] == '\0'
      ensures (cmd, arg1, arg2) == Tokens(line[..bufferIndex])
    {
      var i;
      arg1, arg2 := "", "";
      cmd, i := NextWord(0, 31);
      ghost var text := line[..bufferIndex];
      assert line[0..bufferIndex] == text && text[..i] == cmd && (i < bufferIndex ==> text[i] == line[i]);
      if line[i] == ' ' {
        arg1, arg2 := ReadArgs(i + 1);
        assert text[i + 1..] == line[i + 1..bufferIndex];
      }
    }

    /** strcpy_custom: up to and including the zero at position n of `src`. */
    method CopyString(src: array<char>, ghost n: nat)
      requires clipboard.Length == 64 && n < src.Length && n <= CLIP_MAX && src != clipboard
      requires src[n] == '\0' && '\0' !in src[..n]
      modifies clipboard, this`clip
      ensures clip == src[..n] && ClipIs(clipboard[..], clip)
    {
      forall q | 0 <= q < n ensures src[q] != '\0' { assert src[..n][q] == src[q]; }
      var k := 0;
      while src[k] != '\0'
        invariant k <= n && clipboard[..k] == src[..k]
        decreases n - k
      {
        clipboard[k] := src[k];
        k := k + 1;
      }
      clipboard[k] := '\0';
      clip := src[..n];
    }

    method CopyPointer(p: nat)
      requires clipboard.Length == 64 && p < U64
      modifies clipboard, this`clip
      ensures clip == HexOf(p) && ClipIs(clipboard[..], clip)
    {
      var hexBuf := new char[19];
      HexToString(p, hexBuf);
      HexRoundTrip(p);
      assert hexBuf[..18] == HexOf(p) && hexBuf[18] == '\0';
      CopyString(hexBuf, 18);
    }

    method AllocCommand(arg: string)
      requires Valid()
      modifies this`clip, clipboard, heap.mem, heap`Blocks
      ensures Valid() && heap.Blocks == Malloc(old(heap.Blocks), ValueOf(arg))
      ensures var p := MallocPtr(old(heap.Blocks), ValueOf(arg)); clip == if p != 0 then HexOf(p) else old(clip)
    {
      var size := HexToInt64(arg);
      ghost var bs := heap.Blocks;
      if CanAlloc(bs, size) { Inside(bs, heap.lo, heap.hi, FirstFit(bs, size)); }
      var p := heap.Malloc(size);
      if p != 0 { CopyPointer(p); }
    }

    method ClearLine()
      requires line.Length == 256
      modifies line, this`bufferIndex
      ensures bufferIndex == 0
    {
      for k := 0 to 256 { line[k] := '\0'; }
      bufferIndex := 0;
    }

    /** The heap commands; the commands of other parts are excluded by Safe. */
    method Dispatch(cmd: string, arg1: string, arg2: string, ghost s: ShellSpec.Shell)
      requires Valid() && heap.Blocks == s.blocks && clip == s.clip
      requires s.text != "" && (cmd, arg1, arg2) == Tokens(s.text) && Safe(s)
      modifies this`clip, clipboard, heap.mem, heap`Blocks
      ensures Valid() && heap.Blocks == Execute(s).blocks && clip == Execute(s).clip
    {
      if cmd == "alloc" {
        if arg1 != "" { AllocCommand(arg1); }
      } else if cmd == "free" {
        if arg1 != "" {
          var addr := HexToInt64(arg1);
          heap.Free(addr);
        }
      }
    }

    lemma ExecuteClears(s: ShellSpec.Shell)
      requires s.text != "" && Safe(s)
      ensures Execute(s) == s.(text := "", blocks := Execute(s).blocks, clip := Execute(s).clip)
    {
    }

    /** Enter. */
    method ExecuteCommand()
      requires Valid() && line[bufferIndex] == '\0' && Safe(State())
      modifies this`bufferIndex, this`clip, line, clipboard, heap.mem, heap`Blocks
      ensures Valid() && State() == Execute(old(State()))
    {
      if bufferIndex == 0 { return; }
      ghost var s := State();
      var cmd, arg1, arg2 := Tokenize();
      ExecuteClears(s);
      Dispatch(cmd, arg1, arg2, s);
      ClearLine();
    }

    method KeyReleased(released: nat)
      requires Valid()
      modifies this`leftShift, this`rightShift, this`leftCtrl
      ensures Valid() && State() == ReleaseKey(old(State()), released)
    {
      if released == LEFT_SHIFT { leftShift := false; }
      if released == RIGHT_SHIFT { rightShift := false; }
      if released == LEFT_CTRL { leftCtrl := false; }
    }

    /** One keyboard interrupt over the buffers. */
    method KeyboardHandler(scancode: byte)
      requires Valid() && (scancode == ENTER ==> Safe(State()))
      modifies this, line, clipboard, heap.mem, heap`Blocks
      ensures Valid() && State() == Key(old(State()), scancode)
    {
      if scancode >= BREAK {
        KeyReleased(scancode - BREAK);
        return;
      }
      if scancode == CAPS_LOCK { capsLock := !capsLock; }
      else if scancode == LEFT_SHIFT { leftShift := true; }
      else if scancode == RIGHT_SHIFT { rightShift := true; }
      else if scancode == LEFT_CTRL { leftCtrl := true; }
      else if scancode == V_KEY && leftCtrl { PasteClipboard(); }
      else if scancode == BACKSPACE { Erase(); }
      else if scancode == ENTER {
        line[bufferIndex] := '\0';
        ExecuteCommand();
      }
      else if scancode < 58 { TypeChar(scancode); }
    }
  }
}
