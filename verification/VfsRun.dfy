/** Whole runs of the virtual file system: every sequence of calls is a run of the specification. */
module VfsRun {
  import opened Machine
  import opened CString
  import opened Paths
  import opened FlatFs
  import opened FlatFsBasics
  import opened Tmpfs
  import opened Vfs

  /** The open files that a program holds, under their numbers, and how many it has opened. */
  datatype Client = Client(files: map<nat, OpenFile>, count: nat)

  ghost predicate Holds(vfs: FileSystem, c: Client)
    reads vfs`conn
  {
    c.files == vfs.conn.live && c.count == vfs.conn.next
  }

  method DoOpen(vfs: FileSystem, c: Client, path: seq<Byte>, flags: bv32, ghost s: State) returns (ret: Ret, c': Client)
    requires vfs.Valid() && Holds(vfs, c) && vfs.Model() == s && Allowed(s, Open(path, flags))
    modifies vfs`tree, vfs`conn, vfs.tree.objs, vfs.open_files
    ensures vfs.Valid() && Holds(vfs, c')
    ensures fresh(vfs.tree.objs - old(vfs.tree.objs)) && fresh(vfs.conn.objs - old(vfs.conn.objs))
    ensures Step(s, Open(path, flags), ret, vfs.Model())
    ensures vfs.Table() == TableAfter(s, Open(path, flags), vfs.Model(), old(vfs.Table()))
  {
    TextOfLiteral(path);
    OpenNumbers(s, path, flags);
    hide FileSystem.Valid, FileSystem.Table, FileSystem.OpenedConn, OpenStep, Fits, Text, End;
    var r, file := vfs.Open(path + [0], flags);
    c' := if r == 0 then Client(c.files[c.count := file], c.count + 1) else c;
    ret := Ret(r, []);
    if r == 0 {
      vfs.OpenedFresh(file);
    } else {
      SameTable(vfs);
    }
  }

  lemma OpenNumbers(s: State, path: seq<Byte>, flags: bv32)
    ensures var (r, s') := OpenStep(s, path, flags); (r == 0 <==> s.next < s'.next)
  {
  }

  twostate lemma SameTable(vfs: FileSystem)
    ensures vfs.open_files[..] == old(vfs.open_files[..]) ==> vfs.Table() == old(vfs.Table())
  {
    if vfs.open_files[..] == old(vfs.open_files[..]) {
      forall i | 0 <= i < vfs.open_files.Length ensures vfs.open_files[i] == old(vfs.open_files[i]) {
        assert vfs.open_files[..][i] == old(vfs.open_files[..])[i];
      }
    }
  }

  method DoMkdir(vfs: FileSystem, path: seq<Byte>, ghost s: State) returns (ret: Ret)
    requires vfs.Valid() && vfs.Model() == s && Allowed(s, Mkdir(path))
    modifies vfs`tree, vfs.tree.objs
    ensures vfs.Valid() && fresh(vfs.tree.objs - old(vfs.tree.objs))
    ensures Step(s, Mkdir(path), ret, vfs.Model())
  {
    TextOfLiteral(path);
    hide FileSystem.Valid, MkdirStep, Fits, Text, End;
    var r := vfs.Mkdir(path + [0]);
    ret := Ret(r, []);
  }

  method DoRead(vfs: FileSystem, c: Client, h: nat, n: nat, ghost s: State) returns (ret: Ret)
    requires vfs.Valid() && Holds(vfs, c) && vfs.Model() == s && Allowed(s, Read(h, n))
    modifies vfs`conn, vfs.conn.objs
    ensures vfs.Valid() && Holds(vfs, c) && vfs.conn.objs == old(vfs.conn.objs)
    ensures Step(s, Read(h, n), ret, vfs.Model())
  {
    var file := c.files[h];
    FileOf(vfs, h);
    hide FileSystem.Valid;
    var readable := file.flags & O_RDWR != 0;
    var buf := new Byte[n];
    var r := vfs.Read(file, buf, n);
    ret := Ret(r, if readable then buf[..U32(r)] else []);
  }

  /** The file that is open under a number. */
  lemma FileOf(vfs: FileSystem, h: nat)
    requires vfs.Valid() && h in vfs.conn.handles
    ensures h in vfs.conn.live && var f := vfs.conn.live[h];
      && f.id == h && f in vfs.conn.objs && f.vnode in vfs.conn.objs && vfs.conn.handles[h].flags == f.flags
  {
    vfs.IdsOk();
    vfs.HandleFacts(vfs.conn.live[h]);
  }

  method BufferOf(data: seq<Byte>) returns (buf: array<Byte>)
    ensures fresh(buf) && buf.Length == |data| && buf[..|data|] == data
  {
    buf := new Byte[|data|](i requires 0 <= i < |data| => data[i]);
  }

  method DoWrite(vfs: FileSystem, c: Client, h: nat, data: seq<Byte>, ghost s: State) returns (ret: Ret)
    requires vfs.Valid() && Holds(vfs, c) && vfs.Model() == s && Allowed(s, Write(h, data))
    modifies vfs`conn, vfs`tree, vfs.conn.objs, vfs.tree.objs
    ensures vfs.Valid() && Holds(vfs, c)
    ensures fresh(vfs.tree.objs - old(vfs.tree.objs)) && vfs.conn.objs == old(vfs.conn.objs)
    ensures Step(s, Write(h, data), ret, vfs.Model())
  {
    var file := c.files[h];
    FileOf(vfs, h);
    hide FileSystem.Valid, WriteStep;
    var buf := BufferOf(data);
    var r := vfs.Write(file, buf, |data|);
    ret := Ret(r, []);
  }

  method DoLseek(vfs: FileSystem, c: Client, h: nat, off: int, whence: int, ghost s: State) returns (ret: Ret)
    requires vfs.Valid() && Holds(vfs, c) && vfs.Model() == s && Allowed(s, Lseek(h, off, whence))
    modifies vfs`conn, vfs.conn.objs
    ensures vfs.Valid() && Holds(vfs, c) && vfs.conn.objs == old(vfs.conn.objs)
    ensures Step(s, Lseek(h, off, whence), ret, vfs.Model())
  {
    var file := c.files[h];
    FileOf(vfs, h);
    hide FileSystem.Valid, LseekStep;
    var r := vfs.Lseek(file, off, whence);
    ret := Ret(r, []);
  }

  method DoClose(vfs: FileSystem, c: Client, h: nat, ghost s: State) returns (ret: Ret, c': Client)
    requires vfs.Valid() && Holds(vfs, c) && vfs.Model() == s && Allowed(s, Close(h))
    modifies vfs`conn, vfs.conn.objs, vfs.open_files
    ensures vfs.Valid() && Holds(vfs, c') && vfs.conn.objs == old(vfs.conn.objs)
    ensures Step(s, Close(h), ret, vfs.Model()) && vfs.Table() == old(vfs.Table()) - {h}
  {
    var file := c.files[h];
    FileOf(vfs, h);
    hide FileSystem.Valid, FileSystem.Table;
    var r := vfs.Close(file);
    c' := c.(files := c.files - {h});
    ret := Ret(r, []);
  }

  /** A call that only moves a handle. */
  method CallMove(vfs: FileSystem, c: Client, op: Op, ghost s: State) returns (ret: Ret)
    requires vfs.Valid() && Holds(vfs, c) && vfs.Model() == s && Allowed(s, op) && (op.Read? || op.Lseek?)
    modifies vfs`conn, vfs.conn.objs
    ensures vfs.Valid() && Holds(vfs, c) && vfs.conn.objs == old(vfs.conn.objs)
    ensures Step(s, op, ret, vfs.Model())
  {
    hide FileSystem.Valid, Step, Allowed;
    if op.Read? {
      ret := DoRead(vfs, c, op.h, op.n, s);
    } else {
      ret := DoLseek(vfs, c, op.h, op.off, op.whence, s);
    }
  }

  /** A call on a handle. */
  method CallOn(vfs: FileSystem, c: Client, op: Op, ghost s: State) returns (ret: Ret, c': Client)
    requires vfs.Valid() && Holds(vfs, c) && vfs.Model() == s && Allowed(s, op) && !op.Open? && !op.Mkdir?
    modifies vfs`conn, vfs`tree, vfs.tree.objs, vfs.conn.objs, vfs.open_files
    ensures vfs.Valid() && Holds(vfs, c') && fresh(vfs.tree.objs - old(vfs.tree.objs))
    ensures vfs.conn.objs == old(vfs.conn.objs)
    ensures Step(s, op, ret, vfs.Model())
    ensures vfs.Table() == TableAfter(s, op, vfs.Model(), old(vfs.Table()))
  {
    TableApart(vfs);
    hide FileSystem.Valid, FileSystem.Table, Step, Allowed;
    c' := c;
    if op.Write? {
      ret := DoWrite(vfs, c, op.h, op.data, s);
    } else if op.Close? {
      ret, c' := DoClose(vfs, c, op.h, s);
    } else {
      ret := CallMove(vfs, c, op, s);
    }
  }

  lemma TableApart(vfs: FileSystem)
    requires vfs.Valid()
    ensures vfs !in vfs.tree.objs && vfs !in vfs.conn.objs
    ensures vfs.open_files !in vfs.tree.objs && vfs.open_files !in vfs.conn.objs
  {
  }

  /** One call, whichever it is. */
  method Call(vfs: FileSystem, c: Client, op: Op, ghost s: State) returns (ret: Ret, c': Client)
    requires vfs.Valid() && Holds(vfs, c) && vfs.Model() == s && Allowed(s, op)
    modifies vfs, vfs.tree.objs, vfs.conn.objs, vfs.open_files
    ensures vfs.Valid() && Holds(vfs, c')
    ensures fresh(vfs.tree.objs - old(vfs.tree.objs)) && fresh(vfs.conn.objs - old(vfs.conn.objs))
    ensures Step(s, op, ret, vfs.Model())
    ensures vfs.Table() == TableAfter(s, op, vfs.Model(), old(vfs.Table()))
  {
    TableApart(vfs);
    hide FileSystem.Valid, FileSystem.Table, Step, Allowed;
    c' := c;
    if op.Open? {
      ret, c' := DoOpen(vfs, c, op.path, op.flags, s);
    } else if op.Mkdir? {
      ret := DoMkdir(vfs, op.path, s);
    } else {
      ret, c' := CallOn(vfs, c, op, s);
    }
  }

  /** The calls were a run of the specification from `vfs_init` to the state that the structures are in. */
  ghost predicate IsRunTo(states: seq<State>, ops: seq<Op>, rets: seq<Ret>, vfs: FileSystem)
    reads vfs, vfs.open_files
  {
    && Run(states, ops, rets) && states[0] == MOUNTED
    && states[|ops|] == vfs.Model() && Tables(states, ops, |ops|) == vfs.Table()
  }

  /**
   * The system as a whole: after `vfs_init`, any sequence of calls returns the codes and the bytes of a run of the
   * specification, as long as no such run makes a call that vfs.c does not provide for; the structures in memory
   * describe its last state, and the table of open files is the one of the run.
   */
  method Execute(ops: seq<Op>) returns (rets: seq<Ret>, vfs: FileSystem)
    requires Safe(MOUNTED, ops)
    ensures vfs.Valid()
    ensures exists states :: IsRunTo(states, ops, rets, vfs)
  {
    hide Step, Allowed, Run, FileSystem.Valid, FileSystem.Table, TableAfter;
    vfs := new FileSystem();
    var r := vfs.Init();
    var c := Client(map[], 0);
    rets := [];
    ghost var states := [vfs.Model()];
    RunNothing(MOUNTED, ops);
    for i := 0 to |ops|
      invariant vfs.Valid() && Holds(vfs, c)
      invariant fresh(vfs) && fresh(vfs.open_files) && fresh(vfs.tree.objs) && fresh(vfs.conn.objs)
      invariant |rets| == i && |states| == i + 1 && states[0] == MOUNTED && states[i] == vfs.Model()
      invariant Run(states, ops[..i], rets) && vfs.Table() == Tables(states, ops[..i], i)
    {
      var ret;
      ret, c := Call(vfs, c, ops[i], states[i]);
      RunExtend(states, ops, rets, ret, vfs.Model());
      TablesExtend(states, ops, i, vfs.Model());
      rets := rets + [ret];
      states := states + [vfs.Model()];
    }
    assert ops[..|ops|] == ops;
    assert IsRunTo(states, ops, rets, vfs);
  }
}
