/**
 * The specification of vfs.c: a flat map from component sequences to directories and files, and a map from handles to
 * (path, position, flags). Every `vfs_*` call is one step; only `write` is a relation, because `malloc` leaves the gap
 * behind an end of file unspecified.
 */
module FlatFs {
  import opened Machine
  import opened Paths

  const O_RDONLY: bv32 := 0x0000
  const O_WRONLY: bv32 := 0x0001
  const O_RDWR: bv32 := 0x0002
  const O_CREAT: bv32 := 0x0100
  const O_APPEND: bv32 := 0x2000

  const MAX_CHILDREN := 64

  const MAX_OPEN_FILES := 64

  predicate Has(flags: bv32, bit: bv32) {
    flags & bit != 0
  }

  datatype Node = Dir | File(bytes: seq<Byte>)

  datatype Handle = Handle(path: Path, pos: nat, flags: bv32)

  /** `next` numbers the handles in the order in which they were opened. */
  datatype State = State(fs: map<Path, Node>, handles: map<nat, Handle>, next: nat)

  function Parent(p: Path): Path
    requires p != []
  {
    p[..|p| - 1]
  }

  function Last(p: Path): Name
    requires p != []
  {
    p[|p| - 1]
  }

  // ---------------------------------------------------------------- well-formed states

  /** No file system mounted yet, or a prefix-closed tree of directories with files at the leaves. */
  ghost predicate TreeWf(fs: map<Path, Node>) {
    && (fs != map[] ==> [] in fs && fs[[]].Dir?)
    && (forall p :: p in fs && p != [] ==> Parent(p) in fs && fs[Parent(p)].Dir?)
    && (forall p, k :: p in fs && 0 <= k < |p| ==> ValidName(p[k]))
    && (forall p :: p in fs && fs[p].File? ==> |fs[p].bytes| < TWO32)
  }

  ghost predicate HandleWf(s: State, h: nat)
    requires h in s.handles
  {
    h < s.next && s.handles[h].path in s.fs && s.fs[s.handles[h].path].File? && s.handles[h].pos < TWO32
  }

  ghost predicate Wf(s: State) {
    TreeWf(s.fs) && forall h :: h in s.handles ==> HandleWf(s, h)
  }

  /** The bytes a live handle reads and writes. */
  function Bytes(s: State, h: nat): seq<Byte>
    requires h in s.handles && s.handles[h].path in s.fs && s.fs[s.handles[h].path].File?
  {
    s.fs[s.handles[h].path].bytes
  }

  // ---------------------------------------------------------------- path lookup

  datatype Lookup = Found | Missing | Bad

  /** `Missing`: all but the last component name a directory, which lacks the last one. */
  function Resolve(fs: map<Path, Node>, p: Path): Lookup {
    if p in fs then Found
    else if p != [] && Parent(p) in fs && fs[Parent(p)].Dir? then Missing
    else Bad
  }

  function ChildNames(fs: map<Path, Node>, d: Path): set<Name> {
    set p | p in fs && p != [] && Parent(p) == d :: Last(p)
  }

  /** The call creates a node. */
  predicate Creates(s: State, op: Op) {
    match op
    case Open(path, flags) => Has(flags, O_CREAT) && Resolve(s.fs, Parse(path)) == Missing
    case Mkdir(path) => Resolve(s.fs, Parse(path)) == Missing
    case _ => false
  }

  // ---------------------------------------------------------------- steps

  datatype Op =
    | Open(path: seq<Byte>, flags: bv32)
    | Mkdir(path: seq<Byte>)
    | Read(h: nat, n: nat)
    | Write(h: nat, data: seq<Byte>)
    | Lseek(h: nat, off: int, whence: int)
    | Close(h: nat)

  /** The `int` a call returns, and the bytes a read delivers. */
  datatype Ret = Ret(code: int, data: seq<Byte>)

  predicate CanRead(s: State, h: nat)
    requires h in s.handles
  {
    Has(s.handles[h].flags, O_RDWR)
  }

  predicate CanWrite(s: State, h: nat)
    requires h in s.handles
  {
    Has(s.handles[h].flags, O_WRONLY) || Has(s.handles[h].flags, O_RDWR)
  }

  /** What vfs.c needs of its caller: live handles, strings that fit, room in the directory, no 32-bit wrap. */
  ghost predicate Allowed(s: State, op: Op) {
    match op
    case Open(path, _) =>
      0 !in path && Fits(path) && (Creates(s, op) ==> |ChildNames(s.fs, Parent(Parse(path)))| < MAX_CHILDREN)
    case Mkdir(path) =>
      0 !in path && Fits(path) && (Creates(s, op) ==> |ChildNames(s.fs, Parent(Parse(path)))| < MAX_CHILDREN)
    case Read(h, n) =>
      h in s.handles && HandleWf(s, h) && n < TWO32
      && (CanRead(s, h) && s.handles[h].pos < |Bytes(s, h)| ==> s.handles[h].pos + n < TWO32)
    case Write(h, data) =>
      h in s.handles && HandleWf(s, h) && |data| < TWO32
      && (CanWrite(s, h) ==> s.handles[h].pos + |data| < TWO32)
    case Lseek(h, off, _) =>
      h in s.handles && HandleWf(s, h) && -TWO31 <= off < TWO31
    case Close(h) =>
      h in s.handles
  }

  function AddHandle(s: State, p: Path, flags: bv32): State
    requires p in s.fs && s.fs[p].File?
  {
    s.(handles := s.handles[s.next := Handle(p, if Has(flags, O_APPEND) then |s.fs[p].bytes| else 0, flags)],
       next := s.next + 1)
  }

  function OpenStep(s: State, path: seq<Byte>, flags: bv32): (int, State) {
    var p := Parse(path);
    match Resolve(s.fs, p)
    case Found => if s.fs[p].Dir? then (-1, s) else (0, AddHandle(s, p, flags))
    case Missing => if Has(flags, O_CREAT) then (0, AddHandle(s.(fs := s.fs[p := File([])]), p, flags)) else (-1, s)
    case Bad => (-1, s)
  }

  function MkdirStep(s: State, path: seq<Byte>): (int, State) {
    var p := Parse(path);
    if Resolve(s.fs, p) == Missing then (0, s.(fs := s.fs[p := Dir])) else (-1, s)
  }

  function SetPos(s: State, h: nat, pos: nat): State
    requires h in s.handles
  {
    s.(handles := s.handles[h := s.handles[h].(pos := pos)])
  }

  /** How many bytes a read of `n` at `pos` delivers. */
  function Available(b: seq<Byte>, pos: nat, n: nat): (k: nat)
    ensures k <= n && (pos <= |b| ==> pos + k <= |b|) && (pos > |b| ==> k == 0)
  {
    if pos >= |b| then 0 else if pos + n > |b| then |b| - pos else n
  }

  /** The bytes it delivers. */
  function Delivered(b: seq<Byte>, pos: nat, n: nat): (d: seq<Byte>)
    ensures |d| == Available(b, pos, n)
  {
    if pos >= |b| then [] else b[pos..pos + Available(b, pos, n)]
  }

  function ReadStep(s: State, h: nat, n: nat): (Ret, State)
    requires h in s.handles && HandleWf(s, h)
  {
    var b, pos := Bytes(s, h), s.handles[h].pos;
    if !CanRead(s, h) then (Ret(-1, []), s)
    else (Ret(I32(Available(b, pos, n)), Delivered(b, pos, n)), SetPos(s, h, pos + Available(b, pos, n)))
  }

  /** `b'` is `b` with `data` laid over it at `pos`; bytes between the old end and `pos` may be anything. */
  ghost predicate Overlaid(b: seq<Byte>, pos: nat, data: seq<Byte>, b': seq<Byte>) {
    && |b'| == (if pos + |data| > |b| then pos + |data| else |b|)
    && b'[pos..pos + |data|] == data
    && forall i :: 0 <= i < |b| && !(pos <= i < pos + |data|) ==> b'[i] == b[i]
  }

  ghost predicate WriteStep(s: State, h: nat, data: seq<Byte>, code: int, s': State)
    requires h in s.handles && HandleWf(s, h)
  {
    if !CanWrite(s, h) then code == -1 && s' == s
    else
      var H := s.handles[h];
      && H.path in s'.fs && s'.fs[H.path].File?
      && Overlaid(Bytes(s, h), H.pos, data, s'.fs[H.path].bytes)
      && code == I32(|data|)
      && s' == SetPos(s.(fs := s.fs[H.path := s'.fs[H.path]]), h, H.pos + |data|)
  }

  function LseekStep(s: State, h: nat, off: int, whence: int): (int, State)
    requires h in s.handles && HandleWf(s, h)
  {
    if whence == 0 then (I32(off), SetPos(s, h, U32(off)))
    else if whence == 1 then (I32(s.handles[h].pos + off), SetPos(s, h, U32(s.handles[h].pos + off)))
    else if whence == 2 then (I32(|Bytes(s, h)| + off), SetPos(s, h, U32(|Bytes(s, h)| + off)))
    else (-1, s)
  }

  function CloseStep(s: State, h: nat): (int, State) {
    (0, s.(handles := s.handles - {h}))
  }

  ghost predicate Step(s: State, op: Op, ret: Ret, s': State)
    requires Allowed(s, op)
  {
    match op
    case Open(path, flags) => (ret.code, s') == OpenStep(s, path, flags) && ret.data == []
    case Mkdir(path) => (ret.code, s') == MkdirStep(s, path) && ret.data == []
    case Read(h, n) => (ret, s') == ReadStep(s, h, n)
    case Write(h, data) => WriteStep(s, h, data, ret.code, s') && ret.data == []
    case Lseek(h, off, whence) => (ret.code, s') == LseekStep(s, h, off, whence) && ret.data == []
    case Close(h) => (ret.code, s') == CloseStep(s, h) && ret.data == []
  }

  /** The handles that the table of open files lists after a call: an open finds a slot if one is free. */
  function TableAfter(s: State, op: Op, s': State, table: set<nat>): set<nat> {
    match op
    case Open(_, _) => if s.next < s'.next && |table| < MAX_OPEN_FILES then table + {s.next} else table
    case Close(h) => table - {h}
    case _ => table
  }

  // ---------------------------------------------------------------- runs

  /** `states` is a run of `ops` answered by `rets`. */
  ghost predicate Run(states: seq<State>, ops: seq<Op>, rets: seq<Ret>) {
    && |states| == |ops| + 1 && |rets| == |ops|
    && forall i :: 0 <= i < |ops| ==> Allowed(states[i], ops[i]) && Step(states[i], ops[i], rets[i], states[i + 1])
  }

  /** The table after the first `n` calls of a run that starts with no file open. */
  ghost function Tables(states: seq<State>, ops: seq<Op>, n: nat): set<nat>
    requires n <= |ops| < |states|
  {
    if n == 0 then {} else TableAfter(states[n - 1], ops[n - 1], states[n], Tables(states, ops, n - 1))
  }

  /** No run of `ops` from `s` ever makes a call that vfs.c does not provide for. */
  ghost predicate Safe(s: State, ops: seq<Op>) {
    forall states, rets :: |rets| < |ops| && Run(states, ops[..|rets|], rets) && states[0] == s ==>
      Allowed(states[|rets|], ops[|rets|])
  }

  /** The state right after `vfs_init`. */
  const MOUNTED: State := State(map[[] := Dir], map[], 0)
}
