/**
 * The text console of kernel.c: `VIDEO_MEMORY` as cursor, column counter and scroll state, over the VGA text buffer.
 */
module Console {
  import opened Machine
  import opened CString

  const VIDEO_BASE: int := 0xb8000
  const VIDEO_END: int := 0xbffff
  const COLUMNS := 80
  const CELLS := 2000
  const NEWLINE: Byte := 10

  // ---------------------------------------------------------------- the abstract terminal

  /**
   * An 80x25 terminal: the cell the next character goes to, and the characters printed since the screen was cleared.
   */
  datatype Term = Term(pos: nat, shown: map<nat, Byte>)

  const CLEARED: Term := Term(0, map[])

  /** A newline goes to the next row; a full screen is cleared. */
  function Put(t: Term, ch: Byte): Term {
    var next := if ch == NEWLINE then (t.pos / COLUMNS + 1) * COLUMNS else t.pos + 1;
    if next >= CELLS then CLEARED
    else Term(next, if ch == NEWLINE then t.shown else t.shown[t.pos := ch])
  }

  lemma PositionIs(offset: nat)
    ensures offset / 160 * COLUMNS + offset / 2 % 80 == offset / 2
  {
  }

  lemma RowEnd(offset: nat)
    requires offset % 2 == 0
    ensures (offset + 158 - offset % 160) / 2 + 1 == (offset / 2 / COLUMNS + 1) * COLUMNS
    ensures (offset - offset % 160) % 2 == 0
  {
    assert offset == 160 * (offset / 160) + offset % 160;
    assert offset / 2 / COLUMNS == offset / 160;
  }

  lemma PutByCell(t: Term, ch: Byte, next: nat, shown: map<nat, Byte>)
    requires next == if ch == NEWLINE then (t.pos / COLUMNS + 1) * COLUMNS else t.pos + 1
    requires shown == if ch == NEWLINE then t.shown else t.shown[t.pos := ch]
    ensures Put(t, ch) == if next >= CELLS then CLEARED else Term(next, shown)
  {
  }

  function Type(t: Term, s: seq<Byte>): Term
    decreases |s|
  {
    if s == [] then t else Put(Type(t, s[..|s| - 1]), s[|s| - 1])
  }

  /** Nothing is shown at or behind the cursor. */
  ghost predicate Proper(t: Term) {
    t.pos < CELLS && forall k :: k in t.shown ==> k < t.pos
  }

  /** `u` still shows all that `t` shows. */
  ghost predicate Keeps(t: Term, u: Term) {
    forall k :: k in t.shown ==> k in u.shown && u.shown[k] == t.shown[k]
  }

  /** Text on the screen stands where it is until the screen is full; then all of it goes. */
  lemma {:induction false} TypeKeeps(t: Term, s: seq<Byte>)
    requires Proper(t)
    ensures Proper(Type(t, s))
    ensures (exists n :: 0 < n <= |s| && Type(t, s[..n]) == CLEARED)
      || (t.pos <= Type(t, s).pos && Keeps(t, Type(t, s)))
    decreases |s|
  {
    if s != [] {
      var m := |s| - 1;
      TypeKeeps(t, s[..m]);
      if n :| 0 < n <= m && Type(t, s[..m][..n]) == CLEARED {
        assert s[..m][..n] == s[..n];
      } else if Type(t, s) == CLEARED {
        assert s[..|s|] == s;
      }
    }
  }

  /** The text `s` stands on the screen from the cell `at` on. */
  ghost predicate Shows(u: Term, at: nat, s: seq<Byte>) {
    forall k :: at <= k < at + |s| ==> k in u.shown && u.shown[k] == s[k - at]
  }

  /** A text without newlines that fits appears cell by cell behind the cursor. */
  lemma {:induction false} TypeText(t: Term, s: seq<Byte>)
    requires NEWLINE !in s && t.pos + |s| < CELLS
    ensures Type(t, s).pos == t.pos + |s|
    ensures Shows(Type(t, s), t.pos, s)
    decreases |s|
  {
    if s != [] {
      TypeText(t, s[..|s| - 1]);
    }
  }

  lemma {:induction false} TypeConcat(t: Term, a: seq<Byte>, b: seq<Byte>)
    ensures Type(t, a + b) == Type(Type(t, a), b)
    decreases |b|
  {
    if b == [] {
      assert a + b == a;
    } else {
      assert (a + b)[..|a + b| - 1] == a + b[..|b| - 1];
      TypeConcat(t, a, b[..|b| - 1]);
    }
  }

  /** The rows that the lines take: a line of 80 characters or more wraps. */
  function Rows(lines: seq<seq<Byte>>): nat
    decreases |lines|
  {
    if lines == [] then 0 else Rows(lines[..|lines| - 1]) + |lines[|lines| - 1]| / COLUMNS + 1
  }

  /** Every line followed by a newline. */
  function Unlines(lines: seq<seq<Byte>>): seq<Byte>
    decreases |lines|
  {
    if lines == [] then [] else Unlines(lines[..|lines| - 1]) + (lines[|lines| - 1] + [NEWLINE])
  }

  /** One line of text and its newline, from the first column of a row. */
  lemma TypeLine(t: Term, rows: nat, line: seq<Byte>)
    requires Proper(t) && NEWLINE !in line && t.pos == COLUMNS * rows && rows + |line| / COLUMNS + 1 < 25
    ensures var u := Type(t, line + [NEWLINE]);
      && Proper(u) && Keeps(t, u) && u.pos == COLUMNS * (rows + |line| / COLUMNS + 1)
      && Shows(u, t.pos, line)
  {
    TypeText(t, line);
    TypeTextKeeps(t, line);
    assert (line + [NEWLINE])[..|line|] == line;
  }

  lemma {:induction false} TypeTextKeeps(t: Term, s: seq<Byte>)
    requires NEWLINE !in s && t.pos + |s| < CELLS && Proper(t)
    ensures Keeps(t, Type(t, s)) && Proper(Type(t, s))
    decreases |s|
  {
    if s != [] {
      TypeText(t, s[..|s| - 1]);
      TypeTextKeeps(t, s[..|s| - 1]);
    }
  }

  /** Lines printed on a cleared screen stand one below the other, each from the first column of its row. */
  lemma {:induction false} LinesLayout(lines: seq<seq<Byte>>, j: nat)
    requires forall k :: 0 <= k < |lines| ==> NEWLINE !in lines[k]
    requires Rows(lines) < 25
    ensures var u := Type(CLEARED, Unlines(lines));
      && Proper(u) && u.pos == COLUMNS * Rows(lines)
      && (j < |lines| ==> Shows(u, COLUMNS * Rows(lines[..j]), lines[j]))
    decreases |lines|
  {
    hide Type, Put;
    if lines == [] {
      TypeNothing(CLEARED);
    } else {
      var m := |lines| - 1;
      LinesLayout(lines[..m], j);
      var t := Type(CLEARED, Unlines(lines[..m]));
      TypeLine(t, Rows(lines[..m]), lines[m]);
      TypeConcat(CLEARED, Unlines(lines[..m]), lines[m] + [NEWLINE]);
      if j < m {
        assert lines[..m][..j] == lines[..j];
      }
    }
  }

  lemma TypeNothing(t: Term)
    ensures Type(t, []) == t
  {
  }

  // ---------------------------------------------------------------- the screen

  class Screen {
    /** The global `VIDEO_MEMORY`. */
    var VIDEO_MEMORY: int
    /** The bytes from 0xb8000 to 0xbffff: character and attribute of each cell in turn. */
    const mem: array<Byte>
    /** The CRT controller: the selected register, and the registers. */
    var index: Byte
    var regs: seq<Byte>

    /** The characters printed since the last clear, the cells ever printed to, and what the screen showed at boot. */
    ghost var shown: map<nat, Byte>
    ghost var ever: set<nat>
    ghost const boot: seq<Byte>

    function Offset(): int
      reads this`VIDEO_MEMORY
    {
      VIDEO_MEMORY - VIDEO_BASE
    }

    /** The cursor lies on a character byte of the buffer. */
    ghost predicate InBuffer()
      reads this
    {
      mem.Length == 0x8000 && |regs| == 256 && |boot| == CELLS && 0 <= Offset() < 0x7fff && Offset() % 2 == 0
    }

    /** A cell that shows no printed character is blank, or was never printed to and shows what it showed at boot. */
    ghost predicate CellOk(k: nat)
      requires mem.Length == 0x8000 && |boot| == CELLS && k < CELLS
      reads this`VIDEO_MEMORY, this`shown, this`ever, mem
    {
      if k in shown then 2 * k < Offset() && k in ever && mem[2 * k] == shown[k] && mem[2 * k + 1] == 5
      else mem[2 * k] == 0 || (k !in ever && mem[2 * k] == boot[k])
    }

    ghost predicate CellsOk()
      reads this, mem
    {
      InBuffer() && (forall k :: k in shown ==> k < CELLS) && forall k :: 0 <= k < CELLS ==> CellOk(k)
    }

    /** Between calls: the cursor is on the screen, and the screen shows the abstract terminal. */
    ghost predicate Valid()
      reads this, mem
    {
      CellsOk() && Offset() < 2 * CELLS
    }

    ghost function Terminal(): Term
      requires InBuffer()
      reads this
    {
      Term(Offset() / 2, shown)
    }

    /** The position that the cursor registers hold. */
    function Cursor(): int
      requires |regs| == 256
      reads this
    {
      256 * regs[0x0E] as int + regs[0x0F] as int
    }

    constructor (mem: array<Byte>)
      requires mem.Length == 0x8000
      ensures Valid() && this.mem == mem && Terminal() == CLEARED && ever == {}
    {
      this.mem := mem;
      VIDEO_MEMORY := VIDEO_BASE;
      index, regs := 0, seq(256, _ => 0);
      shown, ever := map[], {};
      boot := seq(CELLS, k requires 0 <= k < CELLS && mem.Length == 0x8000 reads mem => mem[2 * k]);
    }

    /** `outb` to the two ports of the CRT controller. */
    method Outb(port: int, value: Byte)
      requires |regs| == 256
      modifies this`index, this`regs
      ensures |regs| == 256
      ensures port == 0x3D4 ==> index == value && regs == old(regs)
      ensures port == 0x3D5 ==> index == old(index) && regs == old(regs)[index := value]
    {
      if port == 0x3D4 {
        index := value;
      } else if port == 0x3D5 {
        regs := regs[index := value];
      }
    }

    method UpdateCursor(x: int, y: int)
      requires |regs| == 256 && 0 <= x < COLUMNS && 0 <= y < 25
      modifies this`index, this`regs
      ensures |regs| == 256 && Cursor() == y * COLUMNS + x
    {
      var pos := y * 80 + x;
      Outb(0x3D4, 0x0F);
      Outb(0x3D5, pos % 256);
      Outb(0x3D4, 0x0E);
      Outb(0x3D5, pos / 256 % 256);
    }

    lemma TerminalIsProper()
      requires Valid()
      ensures Proper(Terminal())
    {
      forall k | k in shown ensures k < Offset() / 2 {
        assert CellOk(k);
      }
    }

    /** Blanks every cell from the cursor back to the first. */
    method ClearScreen()
      requires CellsOk()
      modifies this`VIDEO_MEMORY, this`index, this`regs, this`shown, mem
      ensures Valid() && Terminal() == CLEARED && Cursor() == 0
      ensures forall k :: 0 <= k <= old(Offset()) / 2 ==> mem[2 * k] == 0
      ensures forall k :: 0 <= k < old(Offset()) / 2 ==> mem[2 * k + 1] == 7
      ensures forall k :: old(Offset()) / 2 <= k < 0x4000 ==> mem[2 * k + 1] == old(mem[2 * k + 1])
    {
      UpdateCursor(0, 0);
      ghost var top := VIDEO_MEMORY - VIDEO_BASE;
      while VIDEO_MEMORY > VIDEO_BASE
        invariant 0 <= Offset() <= top && Offset() % 2 == 0 && |regs| == 256 && Cursor() == 0
        invariant forall k :: 0 <= k < 0x4000 ==>
          mem[2 * k] == if Offset() < 2 * k <= top then 0 else old(mem[2 * k])
        invariant forall k :: 0 <= k < 0x4000 ==>
          mem[2 * k + 1] == if Offset() < 2 * k + 1 <= top then 7 else old(mem[2 * k + 1])
      {
        mem[VIDEO_MEMORY - VIDEO_BASE] := 0;
        VIDEO_MEMORY := VIDEO_MEMORY - 1;
        mem[VIDEO_MEMORY - VIDEO_BASE] := 7;
        VIDEO_MEMORY := VIDEO_MEMORY - 1;
      }
      mem[VIDEO_MEMORY - VIDEO_BASE] := 0;
      shown := map[];
      forall k | 0 <= k < CELLS ensures CellOk(k) {
        assert old(CellOk(k));
      }
    }

    /** After a clear no character that was ever printed is left: every cell is blank, or untouched since boot. */
    lemma NothingSurvives(k: nat)
      requires Valid() && Terminal() == CLEARED && k < CELLS
      ensures mem[2 * k] == 0 || (k !in ever && mem[2 * k] == boot[k])
    {
      assert CellOk(k);
    }

    /** What is shown is in the buffer, in the colour of printed text. */
    lemma ShownCells(k: nat)
      requires Valid() && k in Terminal().shown
      ensures k < 2000 && mem[2 * k] == Terminal().shown[k] && mem[2 * k + 1] == 5
    {
      assert CellOk(k);
    }

    /** The two bytes of the cell at the cursor, which moves on; a NUL stands for the cell that a newline blanks. */
    method StoreCell(ch: Byte, ghost c: Byte)
      requires CellsOk() && Offset() + 2 <= 2 * CELLS && ch == if c == NEWLINE then 0 else c
      modifies this`VIDEO_MEMORY, this`shown, this`ever, mem
      ensures CellsOk() && Offset() == old(Offset()) + 2
      ensures mem[old(Offset())] == ch && mem[old(Offset()) + 1] == 5
      ensures shown == if c == NEWLINE then old(shown) else old(shown)[old(Offset()) / 2 := c]
      ensures ever == old(ever) + if c == NEWLINE then {} else {old(Offset()) / 2}
    {
      ghost var off := Offset();
      mem[VIDEO_MEMORY - VIDEO_BASE] := ch;
      VIDEO_MEMORY := VIDEO_MEMORY + 1;
      mem[VIDEO_MEMORY - VIDEO_BASE] := 5;
      VIDEO_MEMORY := VIDEO_MEMORY + 1;
      shown := if c == NEWLINE then shown else shown[off / 2 := c];
      ever := ever + if c == NEWLINE then {} else {off / 2};
      forall k | 0 <= k < CELLS ensures CellOk(k) {
        assert old(CellOk(k));
      }
    }

    /** The assignments of `print_char`: a newline blanks the last cell of its row, which nothing was printed to. */
    method PutCell(c: Byte)
      requires CellsOk() && Offset() < 2 * CELLS
      modifies this`VIDEO_MEMORY, this`shown, this`ever, mem
      ensures CellsOk() && Offset() <= 2 * CELLS
      ensures Offset() / 2 ==
        if c == NEWLINE then (old(Offset()) / 2 / COLUMNS + 1) * COLUMNS else old(Offset()) / 2 + 1
      ensures shown == if c == NEWLINE then old(shown) else old(shown)[old(Offset()) / 2 := c]
      ensures ever == old(ever) + if c == NEWLINE then {} else {old(Offset()) / 2}
    {
      var ch := c;
      RowEnd(Offset());
      if ch == NEWLINE {
        VIDEO_MEMORY := VIDEO_MEMORY + 158 - (VIDEO_MEMORY - VIDEO_BASE) % 160;
        ch := 0;
        forall k | 0 <= k < CELLS ensures CellOk(k) {
          assert old(CellOk(k));
        }
      }
      hide CellOk;
      StoreCell(ch, c);
    }

    /** Printing refines the abstract terminal, and leaves the hardware cursor on its position. */
    method PrintChar(c: Byte)
      requires CellsOk()
      modifies this, mem
      ensures Valid() && Cursor() == Offset() / 2
      ensures Terminal() == if old(Offset()) < 2 * CELLS then Put(old(Terminal()), c) else CLEARED
      ensures ever == old(ever) + if old(Offset()) < 2 * CELLS && c != NEWLINE then {old(Offset()) / 2} else {}
    {
      hide CellOk, Put;
      ghost var t := Terminal();
      if VIDEO_MEMORY < VIDEO_END && (VIDEO_MEMORY - VIDEO_BASE) / 160 < 25 {
        PutCell(c);
        PutByCell(t, c, Offset() / 2, shown);
        var posX := (VIDEO_MEMORY - VIDEO_BASE) / 2 % 80;
        var posY := (VIDEO_MEMORY - VIDEO_BASE) / 160;
        if posY >= 25 {
          ClearScreen();
          return;
        }
        PositionIs(Offset());
        // a remainder of 80 is below 80, so the correction of kernel.c:468-472 never applies
        assert posX < 80;
        UpdateCursor(posX, posY);
      } else {
        ClearScreen();
      }
    }

    /** `print`: a whole C string. */
    method Print(str: seq<Byte>)
      requires Valid() && Terminated(str, 0)
      modifies this, mem
      ensures Valid() && Terminal() == Type(old(Terminal()), Text(str, 0)) && old(ever) <= ever
      ensures Text(str, 0) != [] ==> Cursor() == Offset() / 2
    {
      var i := 0;
      ghost var t0 := Terminal();
      assert str[..0] == [];
      while str[i] != 0
        invariant 0 <= i <= End(str, 0)
        invariant Valid() && Terminal() == Type(t0, str[..i]) && old(ever) <= ever
        invariant i > 0 ==> Cursor() == Offset() / 2
        decreases |str| - i
      {
        assert str[..i + 1][..i] == str[..i] && str[..i + 1][i] == str[i];
        PrintChar(str[i]);
        i := i + 1;
      }
      EndUnique(str, 0, i);
      assert str[..i] == Text(str, 0);
    }

    /** The loop of `print_hex` that fills its buffer from the end. */
    method FillHex(num: nat) returns (buffer: array<Byte>)
      ensures fresh(buffer) && buffer[..] == Digits(num, 8) + [0]
      ensures num < TWO32 ==> HexValue(buffer[..8]) == Some(num)
    {
      if num < TWO32 {
        HexTextReads(num);
      }
      hide HexDigit, HexValue;
      buffer := new Byte[9];
      buffer[8] := 0;
      var rest := num;
      var i := 7;
      while i >= 0
        modifies buffer
        invariant -1 <= i <= 7 && buffer[8] == 0
        invariant Digits(num, 8) == Digits(rest, i + 1) + buffer[i + 1..8]
      {
        ghost var tail := buffer[i + 1..8];
        buffer[i] := HexDigit(rest % 16);
        assert buffer[i..8] == [HexDigit(rest % 16)] + tail;
        rest := rest / 16;
        i := i - 1;
      }
    }

    /** `print_hex`: "0x" and eight digits, which read as the number. */
    method PrintHex(num: nat)
      requires Valid() && num < TWO32
      modifies this, mem
      ensures Valid() && Terminal() == Type(old(Terminal()), HexText(num)) && Cursor() == Offset() / 2
      ensures HexText(num)[..2] == ['0' as int, 'x' as int] && HexValue(HexText(num)[2..]) == Some(num)
      ensures old(ever) <= ever
    {
      var buffer := FillHex(num);
      HexLiteral(num, buffer[..]);
      HexTextReads(num);
      hide Digits, HexText, Type, Text, Put, Valid, HexValue;
      ghost var t0 := Terminal();
      Print([48, 120, 0]);
      Print(buffer[..]);
      TypeConcat(t0, [48, 120], Digits(num, 8));
    }
  }

  // ---------------------------------------------------------------- hexadecimal

  function HexDigit(d: nat): (b: Byte)
    requires d < 16
    ensures b != 0 && b != NEWLINE
  {
    if d < 10 then 48 + d else 55 + d
  }

  /** The last `n` hexadecimal digits of `num`. */
  function Digits(num: nat, n: nat): (t: seq<Byte>)
    ensures |t| == n && 0 !in t && NEWLINE !in t
    decreases n
  {
    if n == 0 then [] else Digits(num / 16, n - 1) + [HexDigit(num % 16)]
  }

  function HexText(num: nat): (t: seq<Byte>)
    ensures |t| == 10 && NEWLINE !in t
  {
    [48, 120] + Digits(num, 8)
  }

  /** A hexadecimal digit as a reader takes it. */
  function DigitValue(b: Byte): Option<nat> {
    if '0' as int <= b <= '9' as int then Some(b - '0' as int)
    else if 'A' as int <= b <= 'F' as int then Some(10 + b - 'A' as int)
    else None
  }

  /** The number that a text of digits stands for. */
  function HexValue(t: seq<Byte>): Option<nat>
    decreases |t|
  {
    if t == [] then Some(0)
    else
      var high, low := HexValue(t[..|t| - 1]), DigitValue(t[|t| - 1]);
      if high.Some? && low.Some? then Some(16 * high.value + low.value) else None
  }

  function Power16(n: nat): nat {
    if n == 0 then 1 else 16 * Power16(n - 1)
  }

  lemma {:induction false} DigitsValue(num: nat, n: nat)
    requires num < Power16(n)
    ensures HexValue(Digits(num, n)) == Some(num)
    ensures forall k :: 0 <= k < n ==> DigitValue(Digits(num, n)[k]).Some?
    decreases n
  {
    if n > 0 {
      DigitsValue(num / 16, n - 1);
      assert Digits(num, n)[..n - 1] == Digits(num / 16, n - 1);
    }
  }

  /** What is printed reads as the number: eight hexadecimal digits behind "0x". */
  lemma HexTextReads(num: nat)
    requires num < TWO32
    ensures HexText(num)[..2] == ['0' as int, 'x' as int] && HexValue(HexText(num)[2..]) == Some(num)
    ensures forall k :: 2 <= k < 10 ==> DigitValue(HexText(num)[k]).Some?
  {
    Powers();
    DigitsValue(num, 8);
    assert HexText(num)[2..] == Digits(num, 8);
  }

  lemma Powers()
    ensures Power16(8) == TWO32
  {
    assert Power16(4) == 0x1_0000;
  }

  /** Different numbers are printed differently. */
  lemma HexTextsDiffer(m: nat, n: nat)
    requires m < TWO32 && n < TWO32 && HexText(m) == HexText(n)
    ensures m == n
  {
    HexTextReads(m);
    HexTextReads(n);
  }

  lemma HexLiteral(num: nat, buffer: seq<Byte>)
    requires |buffer| == 9 && buffer[8] == 0 && buffer[..8] == Digits(num, 8)
    ensures Terminated(buffer, 0) && Text(buffer, 0) == Digits(num, 8)
    ensures Terminated([48, 120, 0], 0) && Text([48, 120, 0], 0) == [48, 120]
  {
    EndUnique(buffer, 0, 8);
    TextOfLiteral([48, 120]);
    assert [48, 120] + [0] == [48, 120, 0];
  }
}
