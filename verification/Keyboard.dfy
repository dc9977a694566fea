/**
 * The keyboard handler of kernel.c: typed characters go to the screen and to the end of the bump heap, and the `f` key
 * reads the current line back out of the heap, counting with the screen's column, and opens the file of that name.
 */
module Keyboard {
  import opened Machine
  import opened CString
  import opened Paths
  import opened FlatFs
  import opened FlatFsBasics
  import FlatFsLaws
  import opened Tmpfs
  import opened Vfs
  import opened Console
  import opened TypedLine
  import opened BumpHeap

  const KEY_Q: Byte := 113
  const KEY_W: Byte := 119
  const BUFFER := 100

  /** `keyboard_map`: the character of each scan code, 0 for keys without one. */
  const KEYMAP: seq<Byte> := [
    0, 27, 49, 50, 51, 52, 53, 54, 55, 56, 57, 48, 45, 61, 8, 9,
    113, 119, 101, 114, 116, 121, 117, 105, 111, 112, 91, 93, 10, 0, 97, 115,
    100, 102, 103, 104, 106, 107, 108, 59, 39, 96, 0, 92, 122, 120, 99, 118,
    98, 110, 109, 44, 46, 47, 0, 42, 0, 32, 0, 0, 0, 0, 0, 0,
    0, 0, 0, 0, 0, 0, 0, 0, 0, 0, 45, 0, 0, 0, 43, 0,
    0, 0, 0, 0, 0, 0, 0, 0, 0, 0, 0, 0, 0, 0, 0, 0,
    0, 0, 0, 0, 0, 0, 0, 0, 0, 0, 0, 0, 0, 0, 0, 0,
    0, 0, 0, 0, 0, 0, 0, 0, 0, 0, 0, 0, 0, 0, 0, 0
  ]

  /** The key of a scan code; releases (128 and above) and keys without a character count as none. */
  function KeyOf(scancode: Byte): Byte {
    if scancode < 128 then KEYMAP[scancode] else 0
  }

  lemma NoKeyReleased(scancode: Byte)
    requires scancode >= 128
    ensures KeyOf(scancode) == 0
  {
  }

  // ---------------------------------------------------------------- reading a file by name

  /** The bytes of a file that `f` reads: as many as its buffer takes. */
  function First(bytes: seq<Byte>): (r: seq<Byte>)
    ensures |r| == if |bytes| < BUFFER then |bytes| else BUFFER
  {
    if |bytes| < BUFFER then bytes else bytes[..BUFFER]
  }

  /** What it prints: those bytes up to a NUL among them. */
  function Printed(bytes: seq<Byte>): seq<Byte> {
    Text(First(bytes) + [0], 0)
  }

  /** That is, the bytes of the file from the first on, up to a NUL, or the hundredth, or the end. */
  lemma PrintedIs(bytes: seq<Byte>)
    ensures var n := |Printed(bytes)|;
      && n <= |bytes| && n <= 100 && Printed(bytes) == bytes[..n] && 0 !in Printed(bytes)
      && (n == |bytes| || n == 100 || bytes[n] == 0)
  {
    var f := First(bytes);
    assert (f + [0])[|f|] == 0;
    assert forall k :: 0 <= k < |f| ==> (f + [0])[k] == bytes[k];
  }

  /** The file that a path names, if there is one. */
  function NamedFile(s: State, path: seq<Byte>): Option<seq<Byte>> {
    var p := Parse(path);
    if p in s.fs && s.fs[p].File? then Some(s.fs[p].bytes) else None
  }

  lemma ShortPathFits(path: seq<Byte>)
    requires |path| < COLUMNS
    ensures Fits(path)
  {
    SplitShort(path, [SLASH]);
  }

  lemma {:induction false} SplitShort(s: seq<Byte>, d: seq<Byte>)
    ensures forall k :: 0 <= k < |Split(s, d)| ==> |Split(s, d)[k]| <= |s|
    decreases |s|
  {
    if s != [] {
      SplitShort(s[1..], d);
    }
  }

  /**
   * The 100 bytes of the buffer, and the one behind it: what was read stands there as a C string, and its NUL hits the
   * byte behind the buffer exactly if the file does not leave room for it.
   */
  ghost predicate GotFile(before: seq<Byte>, bytes: seq<Byte>, after: seq<Byte>) {
    && |before| == |after| == BUFFER + 1
    && Terminated(after, 0) && Text(after, 0) == Printed(bytes)
    && after[BUFFER] == if |bytes| < BUFFER then before[BUFFER] else 0
  }

  /** The handle can be read, and its file holds these bytes. */
  ghost predicate Offers(s: State, h: nat, bytes: seq<Byte>) {
    h in s.handles && HandleWf(s, h) && CanRead(s, h) && Bytes(s, h) == bytes
  }

  function WithoutHandle(s: State, h: nat): State {
    s.(handles := s.handles - {h})
  }

  /** Seek to the start, and read up to 100 bytes. */
  method SeekAndRead(vfs: FileSystem, file: OpenFile, buf: array<Byte>, ghost s: State, ghost bytes: seq<Byte>)
    returns (n: int)
    requires vfs.Valid() && vfs.Opened(file) && vfs.Model() == s && Offers(s, file.id, bytes)
    requires buf !in vfs.tree.objs && buf !in vfs.conn.objs && buf.Length == BUFFER + 1
    modifies vfs`conn, file, buf
    ensures vfs.Valid() && vfs.Opened(file) && vfs.conn.objs == old(vfs.conn.objs)
    ensures var f := First(bytes); n == |f| && buf[..] == f + old(buf[..])[n..]
    ensures WithoutHandle(vfs.Model(), file.id) == WithoutHandle(s, file.id)
  {
    ghost var h := file.id;
    vfs.HandleFacts(file);
    ReadOpenSteps(s, h, bytes);
    hide FileSystem.Valid, Allowed, CanRead, LseekStep, ReadStep, HandleWf, Bytes, First, WithoutHandle;
    var q := vfs.Lseek(file, 0, 0);
    n := vfs.Read(file, buf, BUFFER);
  }

  /** And end them with a zero. */
  method ReadFromStart(vfs: FileSystem, file: OpenFile, buf: array<Byte>, ghost s: State, ghost bytes: seq<Byte>)
    requires vfs.Valid() && vfs.Opened(file) && vfs.Model() == s && Offers(s, file.id, bytes)
    requires buf !in vfs.tree.objs && buf !in vfs.conn.objs && buf.Length == BUFFER + 1
    modifies vfs`conn, file, buf
    ensures vfs.Valid() && vfs.Opened(file) && vfs.conn.objs == old(vfs.conn.objs)
    ensures GotFile(old(buf[..]), bytes, buf[..])
    ensures WithoutHandle(vfs.Model(), file.id) == WithoutHandle(s, file.id)
  {
    ghost var before := buf[..];
    hide FileSystem.TreeOk, FileSystem.RootOk, FileSystem.HandlesOk, FileSystem.TableOk;
    hide GotFile, Offers, First, WithoutHandle;
    var n := SeekAndRead(vfs, file, buf, s, bytes);
    EndText(buf, n);
    CutAtNul(before, bytes, buf[..]);
  }

  method EndText(buf: array<Byte>, n: nat)
    requires n < buf.Length
    modifies buf
    ensures buf[..] == old(buf[..])[n := 0]
  {
    buf[n] := 0;
  }

  /** The calls of the `f` key on the open file, with the close; the buffer held `before`, and then `after`. */
  method ReadOpen(vfs: FileSystem, file: OpenFile, ghost s: State, ghost bytes: seq<Byte>)
    returns (after: seq<Byte>, ghost before: seq<Byte>)
    requires vfs.Valid() && vfs.Opened(file) && vfs.Model() == s && Offers(s, file.id, bytes)
    modifies vfs`conn, file, file.vnode, vfs.open_files
    ensures vfs.Valid() && vfs.conn.objs == old(vfs.conn.objs) && vfs.Model() == WithoutHandle(s, file.id)
    ensures GotFile(before, bytes, after)
  {
    vfs.HandleFacts(file);
    hide FileSystem.Valid, GotFile, Offers, FileSystem.Table;
    var buf := new Byte[BUFFER + 1];
    before := buf[..];
    ReadFromStart(vfs, file, buf, s, bytes);
    after := buf[..];
    var z := vfs.Close(file);
  }

  lemma ReadOpenSteps(s: State, h: nat, bytes: seq<Byte>)
    requires Offers(s, h, bytes)
    ensures var s2 := LseekStep(s, h, 0, 0).1;
      && Offers(s2, h, bytes) && Allowed(s2, Read(h, BUFFER))
      && var (ret, s3) := ReadStep(s2, h, BUFFER);
      && ret == Ret(|First(bytes)|, First(bytes))
      && WithoutHandle(s3, h) == WithoutHandle(s, h)
  {
    var s2 := LseekStep(s, h, 0, 0).1;
    assert Delivered(bytes, 0, BUFFER) == First(bytes);
    assert ReadStep(s2, h, BUFFER).1.handles - {h} == s.handles - {h};
  }

  /** What the `open` of the `f` key does on the specification. */
  lemma OpenNamed(s: State, path: seq<Byte>)
    requires Wf(s) && Fits(path) && 0 !in path
    ensures Allowed(s, Open(path, O_RDWR))
    ensures var (r, s1) := OpenStep(s, path, O_RDWR);
      match NamedFile(s, path)
      case None => r == -1 && s1 == s
      case Some(bytes) =>
        && r == 0 && Offers(s1, s.next, bytes)
        && WithoutHandle(s1, s.next) == s.(next := s.next + 1)
  {
    hide Fits, Parse, ValidName;
    var s1 := OpenStep(s, path, O_RDWR).1;
    assert s.next !in s.handles;
    assert NamedFile(s, path).Some? ==> s1.handles - {s.next} == s.handles;
  }

  /** The open of the `f` key. */
  method OpenFileNamed(vfs: FileSystem, path: seq<Byte>, ghost s: State) returns (file: OpenFile?)
    requires vfs.Valid() && vfs.Model() == s && Terminated(path, 0) && |Text(path, 0)| < COLUMNS
    modifies vfs`tree, vfs`conn, vfs.tree.objs, vfs.open_files
    ensures vfs.Valid() && vfs.tree == old(vfs.tree) && fresh(vfs.conn.objs - old(vfs.conn.objs))
    ensures file != null <==> NamedFile(s, Text(path, 0)).Some?
    ensures file == null ==> vfs.Model() == s
    ensures file != null ==> fresh(file) && fresh(file.vnode) && vfs.Opened(file)
    ensures file != null ==> Offers(vfs.Model(), file.id, NamedFile(s, Text(path, 0)).value)
    ensures file != null ==> WithoutHandle(vfs.Model(), file.id) == s.(next := s.next + 1)
  {
    ShortPathFits(Text(path, 0));
    vfs.ModelWf();
    OpenNamed(s, Text(path, 0));
    hide FileSystem.Valid, FileSystem.Table, Wf, Allowed, OpenStep, NamedFile, Offers, WithoutHandle, Text, End;
    var r;
    r, file := vfs.Open(path, O_RDWR);
    if r == 0 {
      vfs.OpenedFresh(file);
    }
  }

  /**
   * The file system calls of the `f` key: the file named by the line is delivered as a C string, and nothing else
   * changes in the file system.
   */
  method ReadNamed(vfs: FileSystem, path: seq<Byte>, ghost s: State)
    returns (ok: bool, after: seq<Byte>, ghost before: seq<Byte>)
    requires vfs.Valid() && vfs.Model() == s && Terminated(path, 0) && |Text(path, 0)| < COLUMNS
    modifies vfs`tree, vfs`conn, vfs.tree.objs, vfs.open_files
    ensures vfs.Valid() && vfs.tree == old(vfs.tree) && fresh(vfs.conn.objs - old(vfs.conn.objs))
    ensures Fetched(NamedFile(s, Text(path, 0)), ok, before, after)
    ensures vfs.Model() == s.(next := s.next + if ok then 1 else 0)
  {
    hide FileSystem.Valid, FileSystem.Opened, NamedFile, Offers, GotFile, Text, End;
    var file := OpenFileNamed(vfs, path, s);
    ok := file != null;
    after, before := [], [];
    if ok {
      after, before := ReadOpen(vfs, file, vfs.Model(), NamedFile(s, Text(path, 0)).value);
    }
  }

  /** The buffer held the named file, if there is one. */
  ghost predicate Fetched(named: Option<seq<Byte>>, ok: bool, before: seq<Byte>, after: seq<Byte>) {
    (ok <==> named.Some?) && (ok ==> GotFile(before, named.value, after))
  }

  /** The zero that the handler stores behind the bytes it read makes them a C string. */
  lemma CutAtNul(before: seq<Byte>, bytes: seq<Byte>, after: seq<Byte>)
    requires |before| == |after| == BUFFER + 1
    requires after == (First(bytes) + before[|First(bytes)|..])[|First(bytes)| := 0]
    ensures GotFile(before, bytes, after)
  {
    var f := First(bytes);
    var t := f + [0];
    var e := End(t, 0);
    assert t[|f|] == 0;
    assert after[..|f| + 1] == t;
    assert forall i :: 0 <= i <= |f| ==> after[i] == after[..|f| + 1][i];
    EndUnique(after, 0, e);
    if |f| < BUFFER {
      assert after[BUFFER] == before[|f|..][BUFFER - |f|];
    }
  }

  /** A run that leaves a file of 100 bytes: reading it writes behind the buffer, whatever stood there. */
  lemma HundredBytes() returns (states: seq<State>, ops: seq<Op>, rets: seq<Ret>, bytes: seq<Byte>)
    ensures Run(states, ops, rets) && states[0] == MOUNTED && |ops| == 2
    ensures NamedFile(states[2], FlatFsLaws.PATH_A) == Some(bytes) && |bytes| == 100
    ensures forall before, after :: GotFile(before, bytes, after) ==> after[100] == 0
  {
    hide Run, Fits, Parse, ValidName;
    FlatFsLaws.PathA();
    bytes := seq(BUFFER, _ => 120);
    var flags: bv32 := 0x0102;
    assert Has(flags, O_CREAT) && Has(flags, O_RDWR) && !Has(flags, O_APPEND);
    assert Parent([[97]]) == [] && ChildNames(MOUNTED.fs, []) == {};
    var s1 := State(MOUNTED.fs[[[97]] := File([])], map[0 := Handle([[97]], 0, flags)], 1);
    var s2 := State(MOUNTED.fs[[[97]] := File(bytes)], map[0 := Handle([[97]], BUFFER, flags)], 1);
    ops := [Open(FlatFsLaws.PATH_A, flags), Write(0, bytes)];
    assert s2 == SetPos(s1.(fs := s1.fs[[[97]] := s2.fs[[[97]]]]), 0, BUFFER);
    RunNothing(MOUNTED, ops);
    RunExtend([MOUNTED], ops, [], Ret(0, []), s1);
    assert [MOUNTED] + [s1] == [MOUNTED, s1] && [] + [Ret(0, [])] == [Ret(0, [])] && ops[..2] == ops;
    assert Allowed(s1, ops[1]);
    assert Step(s1, ops[1], Ret(BUFFER, []), s2);
    RunExtend([MOUNTED, s1], ops, [Ret(0, [])], Ret(BUFFER, []), s2);
    states, rets := [MOUNTED, s1] + [s2], [Ret(0, [])] + [Ret(BUFFER, [])];
  }

  // ---------------------------------------------------------------- the machine

  /** What the user sees and has typed, the line in progress, how far the heap reaches, and its blocks. */
  datatype Desk = Desk(term: Term, keys: seq<Byte>, line: seq<Byte>, end: nat, blocks: seq<Block>)

  class Kernel {
    const screen: Screen
    const heap: Heap
    const vfs: FileSystem

    /** The object is none of the file system's. */
    ghost predicate Away(o: object)
      reads vfs`tree, vfs`conn
    {
      o !in vfs.tree.objs && o !in vfs.conn.objs
    }

    ghost predicate Separate()
      reads vfs`tree, vfs`conn
    {
      Away(screen) && Away(screen.mem) && Away(heap) && Away(heap.bytes)
    }

    /** The console half of the invariant. */
    ghost predicate Typing()
      reads screen, screen.mem, heap, heap.bytes
    {
      screen.mem != heap.bytes && RowOk() && heap.Valid()
    }

    /** The screen's column counts the characters of the line, and the current row shows them. */
    ghost predicate RowOk()
      reads screen, screen.mem, heap
    {
      screen.Valid() && RowShows(screen.Terminal(), heap.line)
    }

    ghost predicate Valid()
      reads screen, screen.mem, heap, heap.bytes, vfs, vfs.open_files, vfs.tree.objs, vfs.conn.objs
    {
      Typing() && Separate() && vfs.Valid()
    }

    ghost predicate DeskIs(d: Desk)
      reads screen, heap
    {
      screen.InBuffer() && d == Desk(screen.Terminal(), heap.keys, heap.line, heap.heap_end, heap.blocks)
    }

    /** The files are those of `s`, and so are the handles of other programs. */
    ghost predicate FilesAre(s: State)
      reads vfs
    {
      vfs.Model().fs == s.fs && vfs.Model().handles == s.handles
    }

    constructor (screen: Screen, heap: Heap, vfs: FileSystem)
      ensures this.screen == screen && this.heap == heap && this.vfs == vfs
    {
      this.screen, this.heap, this.vfs := screen, heap, vfs;
    }

    /** At boot nothing is typed, no block is handed out, and the root directory is mounted, empty. */
    static method Boot(mem: array<Byte>, bytes: array<Byte>, heapStart: nat) returns (k: Kernel)
      requires mem.Length == 0x8000 && mem != bytes && heapStart + bytes.Length < TWO32
      ensures fresh(k) && k.Valid() && k.DeskIs(Desk(CLEARED, [], [], 0, [])) && k.vfs.Model() == MOUNTED
      ensures k.screen.mem == mem && k.heap.bytes == bytes && k.heap.heap_start == heapStart
    {
      hide FileSystem.TreeOk, FileSystem.RootOk, FileSystem.HandlesOk, FileSystem.TableOk;
      hide FileSystem.Table, Screen.CellOk, Heap.BlocksApart, LineOf, Put;
      var screen := new Screen(mem);
      var heap := new Heap(bytes, heapStart);
      var vfs := new FileSystem();
      var r := vfs.Init();
      k := new Kernel(screen, heap, vfs);
    }

    /** What is on the desk fits together: the line is that of the keys, and it ends the heap. */
    lemma DeskFacts(d: Desk)
      requires heap.Valid() && DeskIs(d)
      ensures d.line == LineOf(d.keys) && 0 !in d.line && |d.line| < COLUMNS && |d.line| <= d.end
    {
    }

    method TypeKey(c: Byte)
      requires Typing() && c !in {0, BACKSPACE, KEY_F} && heap.heap_end < heap.bytes.Length
      modifies screen, screen.mem, heap`heap_end, heap`keys, heap`line, heap.bytes
      ensures Typing() && heap.keys == old(heap.keys) + [c] && heap.heap_end == old(heap.heap_end) + 1
      ensures heap.line == LineAfter(old(heap.line), c) && screen.Terminal() == Put(old(screen.Terminal()), c)
    {
      ghost var t, line := screen.Terminal(), heap.line;
      screen.TerminalIsProper();
      RowAfterPut(t, line, c);
      hide Screen.Valid, Heap.Valid, Put, RowShows, LineOf, LineAfter;
      screen.PrintChar(c);
      heap.Store(c);
    }

    /** A printing key or a newline (kernel.c:290-305). */
    method KeyOrdinary(c: Byte, ghost d: Desk)
      requires Valid() && DeskIs(d) && c !in {0, BACKSPACE, KEY_F} && heap.heap_end < heap.bytes.Length
      modifies screen, screen.mem, heap, heap.bytes
      ensures Valid() && DeskIs(Desk(Put(d.term, c), d.keys + [c], LineAfter(d.line, c), d.end + 1, d.blocks))
    {
      hide Typing, FileSystem.TreeOk, FileSystem.RootOk, FileSystem.HandlesOk, FileSystem.TableOk, Put, LineAfter;
      TypeKey(c);
      Ready();
    }

    /** The backspace key clears the screen (kernel.c:286-289). */
    method KeyBackspace(ghost d: Desk)
      requires Valid() && DeskIs(d)
      modifies screen, screen.mem, heap
      ensures Valid() && DeskIs(Desk(CLEARED, d.keys + [BACKSPACE], [], d.end, d.blocks))
    {
      hide FileSystem.TreeOk, FileSystem.RootOk, FileSystem.HandlesOk, FileSystem.TableOk;
      screen.ClearScreen();
      heap.Pressed(BACKSPACE);
    }

    /** The column is the length of the line. */
    lemma ColumnIsLength()
      requires Typing()
      ensures screen.InBuffer() && (screen.VIDEO_MEMORY - VIDEO_BASE) / 2 % 80 == |heap.line|
      ensures |heap.line| <= heap.heap_end && heap.heap_start + heap.heap_end < TWO32
    {
    }

    /** The `f` key up to the open: the heap address is printed, and the line taken off the heap. */
    method EchoLine() returns (path: array<Byte>)
      requires Typing()
      modifies screen, screen.mem, heap`heap_end, heap`keys, heap`line
      ensures Typing() && heap.keys == old(heap.keys) + [KEY_F] && heap.line == []
      ensures fresh(path) && path[..] == old(heap.line) + [0]
      ensures |old(heap.line)| <= old(heap.heap_end) && heap.heap_end == old(heap.heap_end) - |old(heap.line)|
      ensures screen.Terminal() == Echo(old(screen.Terminal()), heap.heap_start + old(heap.heap_end))
    {
      hide Screen.Valid, LineOf, LineAfter, Echo, Heap.BlocksApart;
      ColumnIsLength();
      var size := (screen.VIDEO_MEMORY - VIDEO_BASE) / 2 % 80;
      EchoAddress(heap.heap_start + heap.heap_end);
      path := heap.TakeLine(size);
    }

    /** The address, and a new row. */
    method EchoAddress(address: nat)
      requires screen.Valid() && address < TWO32
      modifies screen, screen.mem
      ensures screen.Valid() && screen.InBuffer() && screen.Terminal() == Echo(old(screen.Terminal()), address)
      ensures RowShows(screen.Terminal(), [])
    {
      hide Screen.CellOk, Put, Type, HexText, RowShows;
      screen.PrintHex(address);
      ghost var t := screen.Terminal();
      screen.PrintChar(NEWLINE);
      EmptyRow(t);
    }

    /** The `f` key after the read: the file, if there was one, is printed. */
    method ShowFile(ok: bool, text: seq<Byte>)
      requires Typing() && heap.line == [] && (ok ==> Terminated(text, 0))
      modifies screen, screen.mem
      ensures Typing()
      ensures screen.Terminal() ==
        if ok then Put(Type(old(screen.Terminal()), Text(text, 0)), NEWLINE) else old(screen.Terminal())
    {
      if !ok {
        return;
      }
      hide Screen.Valid, Heap.Valid, Put, Shows, Type, Text;
      screen.Print(text);
      ghost var t := screen.Terminal();
      NewlineString(t);
      screen.Print([NEWLINE, 0]);
      EmptyRow(t);
    }

    /**
     * The `f` key (kernel.c:314-383). It opens the file whose path was typed on the current line, prints it, and leaves
     * the file system as it was. `sizes` are the blocks that the file system asks `malloc` for meanwhile.
     */
    method KeyF(sizes: seq<nat>, ghost d: Desk, ghost s: State)
      requires Valid() && DeskIs(d) && FilesAre(s) && d.end + Total(sizes) <= heap.bytes.Length
      modifies screen, screen.mem, heap, vfs`tree, vfs`conn, vfs.tree.objs, vfs.open_files
      ensures Valid() && vfs.tree == old(vfs.tree) && FilesAre(s)
      ensures DeskIs(AfterKey(d, KEY_F, sizes, heap.heap_start, s))
    {
      DeskFacts(d);
      TextOfLiteral(d.line);
      FAnswers(d, sizes, heap.heap_start, s);
      hide Valid, DeskIs, FilesAre, LineOf, NamedFile, Text, End, Total, AfterKey, AfterEcho, WithFile, Printed;
      ghost var e := AfterEcho(d, heap.heap_start);
      var path := EchoPath(d);
      var ok, text := FetchFile(path, e, s);
      FinishF(sizes, ok, text, e);
    }

    /** `EchoLine`, which does not touch the file system. */
    method EchoPath(ghost d: Desk) returns (path: seq<Byte>)
      requires Valid() && DeskIs(d)
      modifies screen, screen.mem, heap`heap_end, heap`keys, heap`line
      ensures Valid() && DeskIs(AfterEcho(d, heap.heap_start)) && path == d.line + [0]
    {
      hide Typing, FileSystem.Valid, Echo;
      var buffer := EchoLine();
      path := buffer[..];
      Ready();
    }

    /** The `f` key from the open to the close. */
    method FetchFile(path: seq<Byte>, ghost d: Desk, ghost s: State) returns (ok: bool, text: seq<Byte>)
      requires Valid() && DeskIs(d) && FilesAre(s) && Terminated(path, 0) && |Text(path, 0)| < COLUMNS
      modifies vfs`tree, vfs`conn, vfs.tree.objs, vfs.open_files
      ensures Valid() && DeskIs(d) && FilesAre(s) && vfs.tree == old(vfs.tree)
      ensures ok <==> NamedFile(s, Text(path, 0)).Some?
      ensures ok ==> Terminated(text, 0) && Text(text, 0) == Printed(NamedFile(s, Text(path, 0)).value)
    {
      SameFile(s, vfs.Model(), Text(path, 0));
      hide Typing, FileSystem.Valid, NamedFile, Text, End, Printed;
      ghost var before;
      ok, text, before := ReadNamed(vfs, path, vfs.Model());
    }

    /** The mallocs, and the file on the screen. */
    method FinishF(sizes: seq<nat>, ok: bool, text: seq<Byte>, ghost d: Desk)
      requires Valid() && DeskIs(d) && d.line == [] && d.end + Total(sizes) <= heap.bytes.Length
      requires ok ==> Terminated(text, 0)
      modifies screen, screen.mem, heap`heap_end, heap`blocks
      ensures Valid() && DeskIs(WithFile(d, sizes, if ok then Some(Text(text, 0)) else None))
    {
      hide FileSystem.TreeOk, FileSystem.RootOk, FileSystem.HandlesOk, FileSystem.TableOk;
      hide RowShows, Put, Type, Text, End;
      heap.MallocAll(sizes);
      ShowFile(ok, text);
      Ready();
    }

    /**
     * One keyboard interrupt, for every key but `w` and `q`. The line in progress is always the line of the keys
     * pressed so far, so `f` opens what was typed; blocks never overlap, whatever was rewound.
     */
    method KeyboardHandler(scancode: Byte, sizes: seq<nat>, ghost d: Desk, ghost s: State)
      requires Valid() && DeskIs(d) && FilesAre(s) && KeyOf(scancode) !in {KEY_W, KEY_Q}
      requires KeyOf(scancode) !in {0, BACKSPACE, KEY_F} ==> heap.heap_end < heap.bytes.Length
      requires KeyOf(scancode) == KEY_F ==> d.end + Total(sizes) <= heap.bytes.Length
      modifies screen, screen.mem, heap, heap.bytes, vfs`tree, vfs`conn, vfs.tree.objs, vfs.open_files
      ensures Valid() && vfs.tree == old(vfs.tree) && FilesAre(s)
      ensures DeskIs(AfterKey(d, KeyOf(scancode), sizes, heap.heap_start, s))
      ensures scancode >= 128 ==> DeskIs(d) && vfs.Model() == old(vfs.Model())
    {
      hide Valid, DeskIs, FilesAre, KeyOf, NamedFile, Echo, Shown, Put, Total, LineOf;
      if scancode >= 128 {
        NoKeyReleased(scancode);
      }
      var c := KeyOf(scancode);
      if c == 0 {
        return;
      }
      if c == BACKSPACE {
        KeyBackspace(d);
      } else if c != KEY_F {
        KeyOrdinary(c, d);
      } else {
        KeyF(sizes, d, s);
      }
    }

    lemma Ready()
      requires Typing()
      ensures screen.InBuffer()
    {
    }

    /**
     * Any run of keys but `w` and `q`: whatever `f` prints and `malloc` takes in between, the screen, the line, the
     * heap and its blocks are what the keys call for, and the file system is as it was.
     */
    method Session(presses: seq<Press>, ghost d: Desk, ghost s: State)
      requires Valid() && DeskIs(d) && FilesAre(s)
      requires forall i :: 0 <= i < |presses| ==> KeyOf(presses[i].scancode) !in {KEY_W, KEY_Q}
      requires d.end + Demand(presses) <= heap.bytes.Length
      modifies screen, screen.mem, heap, heap.bytes, vfs`tree, vfs`conn, vfs.tree.objs, vfs.open_files
      ensures Valid() && FilesAre(s) && DeskIs(AfterKeys(d, presses, heap.heap_start, s))
    {
      hide Valid, FilesAre, KeyOf, AfterKey, NamedFile, Total;
      ghost var e := d;
      for i := 0 to |presses|
        invariant Valid() && FilesAre(s) && vfs.tree == old(vfs.tree)
        invariant e == AfterKeys(d, presses[..i], heap.heap_start, s) && DeskIs(e)
        invariant e.end + Demand(presses[i..]) <= heap.bytes.Length
      {
        SetAside(e, presses[i], heap.heap_start, s);
        assert presses[i..][1..] == presses[i + 1..];
        KeyboardHandler(presses[i].scancode, presses[i].sizes, e, s);
        e := AfterKey(e, KeyOf(presses[i].scancode), presses[i].sizes, heap.heap_start, s);
        assert presses[..i + 1][..i] == presses[..i];
      }
      assert presses[..|presses|] == presses;
    }
  }

  /** The terminal after the address and a newline. */
  function Echo(t: Term, address: nat): Term {
    Put(Type(t, HexText(address)), NEWLINE)
  }

  /** The terminal after the named file, if there is one. */
  function Shown(t: Term, file: Option<seq<Byte>>): Term {
    match file
    case None => t
    case Some(bytes) => Put(Type(t, Printed(bytes)), NEWLINE)
  }

  /** The terminal after a key, when the heap ends at `address` and `file` is the file named by the line. */
  function Response(t: Term, key: Byte, address: nat, file: Option<seq<Byte>>): Term {
    if key == 0 then t
    else if key == BACKSPACE then CLEARED
    else if key == KEY_F then Shown(Echo(t, address), file)
    else Put(t, key)
  }

  /** A scan code, and the blocks that the file system asks for if it is the one of `f`. */
  datatype Press = Press(scancode: Byte, sizes: seq<nat>)

  /** The heap without the last `n` bytes. */
  function Rewound(end: nat, n: nat): nat {
    if n <= end then end - n else 0
  }

  /** After `f` has printed the address and taken the line off the heap. */
  function AfterEcho(d: Desk, heapStart: nat): Desk {
    Desk(Echo(d.term, heapStart + d.end), d.keys + [KEY_F], [], Rewound(d.end, |d.line|), d.blocks)
  }

  /** After the file system has taken its blocks and the text of the file, if there is one, has been printed. */
  function WithFile(d: Desk, sizes: seq<nat>, text: Option<seq<Byte>>): Desk {
    d.(term := match text { case None => d.term case Some(t) => Put(Type(d.term, t), NEWLINE) },
       end := d.end + Total(sizes), blocks := d.blocks + Placed(d.end, sizes))
  }

  /** An ordinary key takes one byte of the heap; `f` gives back the line and takes what the file system asks for. */
  function AfterKey(d: Desk, key: Byte, sizes: seq<nat>, heapStart: nat, s: State): Desk {
    if key == 0 then d
    else
      var rewound := Rewound(d.end, |d.line|);
      Desk(Response(d.term, key, heapStart + d.end, NamedFile(s, d.line)), d.keys + [key], LineAfter(d.line, key),
           if key == BACKSPACE then d.end else if key == KEY_F then rewound + Total(sizes) else d.end + 1,
           if key == KEY_F then d.blocks + Placed(rewound, sizes) else d.blocks)
  }

  lemma FAnswers(d: Desk, sizes: seq<nat>, heapStart: nat, s: State)
    ensures var e, file := AfterEcho(d, heapStart), NamedFile(s, d.line);
      && e.line == [] && e.end <= d.end
      && AfterKey(d, KEY_F, sizes, heapStart, s)
         == WithFile(e, sizes, if file.Some? then Some(Printed(file.value)) else None)
  {
  }

  lemma SameFile(s: State, t: State, path: seq<Byte>)
    requires s.fs == t.fs
    ensures NamedFile(s, path) == NamedFile(t, path)
  {
  }

  /** No key takes more of the heap than was set aside for it. */
  lemma SetAside(d: Desk, press: Press, heapStart: nat, s: State)
    ensures AfterKey(d, KeyOf(press.scancode), press.sizes, heapStart, s).end <= d.end + 1 + Total(press.sizes)
  {
    hide Response, KeyOf, NamedFile;
  }

  function AfterKeys(d: Desk, presses: seq<Press>, heapStart: nat, s: State): Desk
    decreases |presses|
  {
    if presses == [] then d
    else
      var last := presses[|presses| - 1];
      AfterKey(AfterKeys(d, presses[..|presses| - 1], heapStart, s), KeyOf(last.scancode), last.sizes, heapStart, s)
  }

  /** Without the releases. */
  function Pressed(presses: seq<Press>): seq<Press>
    decreases |presses|
  {
    if presses == [] then []
    else
      var last := presses[|presses| - 1];
      Pressed(presses[..|presses| - 1]) + if last.scancode < 128 then [last] else []
  }

  /** Releasing keys, whenever, does nothing: what is typed is what is pressed. */
  lemma {:induction false} ReleasesDoNothing(d: Desk, presses: seq<Press>, heapStart: nat, s: State)
    ensures AfterKeys(d, Pressed(presses), heapStart, s) == AfterKeys(d, presses, heapStart, s)
    decreases |presses|
  {
    hide AfterKey, KeyOf;
    if presses != [] {
      var last, before := presses[|presses| - 1], presses[..|presses| - 1];
      ReleasesDoNothing(d, before, heapStart, s);
      if last.scancode < 128 {
        assert Pressed(presses)[..|Pressed(before)|] == Pressed(before);
      } else {
        assert Pressed(presses) == Pressed(before);
        NoKeyReleased(last.scancode);
        NoKey(AfterKeys(d, before, heapStart, s), last.sizes, heapStart, s);
      }
    }
  }

  lemma NoKey(d: Desk, sizes: seq<nat>, heapStart: nat, s: State)
    ensures AfterKey(d, 0, sizes, heapStart, s) == d
  {
  }

  // ---------------------------------------------------------------- from the keys to the screen

  /**
   * Enter goes to the next row, or clears a full screen; backspace always clears it. Both start a new line on the heap.
   */
  lemma ControlKeys(d: Desk, sizes: seq<nat>, heapStart: nat, s: State)
    ensures var e := AfterKey(d, NEWLINE, sizes, heapStart, s);
      && e.line == [] && e.end == d.end + 1 && e.blocks == d.blocks && e.keys == d.keys + [10]
      && e.term == if d.term.pos < 80 * 24 then Term(80 * (d.term.pos / 80 + 1), d.term.shown) else Term(0, map[])
    ensures AfterKey(d, BACKSPACE, sizes, heapStart, s) == Desk(Term(0, map[]), d.keys + [8], [], d.end, d.blocks)
  {
    hide NamedFile;
  }

  /** A key that shows its character and goes on with the line. */
  predicate Plain(key: Byte) {
    key !in {0, NEWLINE, BACKSPACE, KEY_F, KEY_W, KEY_Q}
  }

  ghost predicate Types(presses: seq<Press>, text: seq<Byte>) {
    && |presses| == |text|
    && forall i :: 0 <= i < |text| ==> KeyOf(presses[i].scancode) == text[i] && Plain(text[i])
  }

  /** Plain keys are shown one after the other, and make the line and the end of the heap. */
  lemma {:induction false} TypePlain(d: Desk, presses: seq<Press>, text: seq<Byte>, heapStart: nat, s: State)
    requires Types(presses, text) && |d.line| + |text| < COLUMNS
    ensures AfterKeys(d, presses, heapStart, s)
      == Desk(Type(d.term, text), d.keys + text, d.line + text, d.end + |text|, d.blocks)
    decreases |text|
  {
    hide KeyOf, NamedFile, Put, Echo;
    if text == [] {
      assert d.keys + text == d.keys && d.line + text == d.line;
    } else {
      var n := |text| - 1;
      TypePlain(d, presses[..n], text[..n], heapStart, s);
      assert text == text[..n] + [text[n]];
      assert d.keys + text == d.keys + text[..n] + [text[n]] && d.line + text == d.line + text[..n] + [text[n]];
    }
  }

  /**
   * A path typed at the beginning of a row, and `f`: behind the path the screen shows the address of the end of the
   * heap, and on the rows below the file of that name, if there is one.
   */
  lemma PathThenF(d: Desk, presses: seq<Press>, path: seq<Byte>, f: Press, heapStart: nat, s: State, row: nat)
    requires Types(presses, path) && |path| + 10 < COLUMNS && KeyOf(f.scancode) == KEY_F
    requires d.line == [] && Proper(d.term) && d.term.pos == COLUMNS * row && row < 22
    requires NamedFile(s, path).Some? ==> NEWLINE !in Printed(NamedFile(s, path).value)
    ensures AfterKeys(d, presses + [f], heapStart, s).line == []
    ensures AfterKeys(d, presses + [f], heapStart, s).end == d.end + Total(f.sizes)
    ensures var t := AfterKeys(d, presses + [f], heapStart, s).term;
      && Keeps(d.term, t) && Shows(t, COLUMNS * row, path + HexText(heapStart + d.end + |path|))
      && match NamedFile(s, path)
         case None => t.pos == COLUMNS * (row + 1)
         case Some(bytes) =>
           && Shows(t, COLUMNS * (row + 1), Printed(bytes))
           && t.pos == COLUMNS * (row + 2 + |Printed(bytes)| / COLUMNS)
  {
    hide KeyOf, NamedFile, Put, Type, Proper, Keeps, Shows, HexText, Printed, AfterKey;
    var text := path + HexText(heapStart + d.end + |path|);
    assert (presses + [f])[..|presses|] == presses;
    TypePlain(d, presses, path, heapStart, s);
    assert d.line + path == path;
    var e := AfterKeys(d, presses, heapStart, s);
    FTypes(d.term, path, e, f.sizes, heapStart, s);
    PlainText(presses, path);
    TypeLine(d.term, row, text);
    var u := Type(d.term, text + [NEWLINE]);
    if NamedFile(s, path).Some? {
      var p := Printed(NamedFile(s, path).value);
      PrintedIs(NamedFile(s, path).value);
      TypeLine(u, row + 1, p);
      KeepsShown(d.term, u, Type(u, p + [NEWLINE]), COLUMNS * row, text);
    }
  }

  /** What `f` prints, as text. */
  lemma FTypes(t: Term, path: seq<Byte>, e: Desk, sizes: seq<nat>, heapStart: nat, s: State)
    requires e.term == Type(t, path) && e.line == path && |path| <= e.end
    ensures var a := AfterKey(e, KEY_F, sizes, heapStart, s); a.line == [] && a.end == e.end - |path| + Total(sizes)
    ensures var u := Type(t, path + HexText(heapStart + e.end) + [NEWLINE]);
      AfterKey(e, KEY_F, sizes, heapStart, s).term ==
        match NamedFile(s, path) case None => u case Some(bytes) => Type(u, Printed(bytes) + [NEWLINE])
  {
    hide Type, HexText, Printed, NamedFile;
    var hex := HexText(heapStart + e.end);
    TypeConcat(t, path, hex);
    TypeNewline(t, path + hex);
    if NamedFile(s, path).Some? {
      TypeNewline(Type(t, path + hex + [NEWLINE]), Printed(NamedFile(s, path).value));
    }
  }

  lemma TypeNewline(t: Term, text: seq<Byte>)
    ensures Type(t, text + [NEWLINE]) == Put(Type(t, text), NEWLINE)
  {
    hide Put;
    assert (text + [NEWLINE])[..|text|] == text;
  }

  lemma PlainText(presses: seq<Press>, text: seq<Byte>)
    requires Types(presses, text)
    ensures NEWLINE !in text
  {
  }

  lemma KeepsShown(t: Term, u: Term, v: Term, at: nat, text: seq<Byte>)
    requires Keeps(t, u) && Keeps(u, v) && Shows(u, at, text)
    ensures Keeps(t, v) && Shows(v, at, text)
  {
  }

  function Demand(presses: seq<Press>): nat {
    if presses == [] then 0 else 1 + Total(presses[0].sizes) + Demand(presses[1..])
  }

  lemma NewlineString(t: Term)
    ensures Terminated([NEWLINE, 0], 0) && Type(t, Text([NEWLINE, 0], 0)) == Put(t, NEWLINE)
  {
    TextOfLiteral([NEWLINE]);
    assert [NEWLINE] + [0] == [NEWLINE, 0];
    assert [NEWLINE][..0] == [];
  }
}
