/** The virtual file system of vfs.c as one mutable object, proved to refine `FlatFs` call by call. */
module Vfs {
  import opened Machine
  import opened CString
  import opened Paths
  import opened FlatFs
  import opened FlatFsBasics
  import opened Tmpfs

  /**
   * The tree: every inode under its component sequence, the file each data buffer belongs to, the tree as `FlatFs` sees
   * it, and all its objects.
   */
  datatype TreeView =
    TreeView(nodes: map<Path, Inode>, owner: map<object, Path>, fs: map<Path, Node>, objs: set<object>)

  /**
   * The handles: those opened and not yet closed, the handle each opened vnode was allocated for, the handles as
   * `FlatFs` sees them, the number of the next one, and all their objects.
   */
  datatype ConnView =
    ConnView(live: map<nat, OpenFile>, users: map<Vnode, nat>, handles: map<nat, Handle>, next: nat, objs: set<object>)

  class FileSystem {
    var root_vnode: Vnode?
    const open_files: array<OpenFile?>

    ghost var tree: TreeView
    ghost var conn: ConnView

    /** The abstract state. */
    ghost function Model(): State
      reads this
    {
      State(tree.fs, conn.handles, conn.next)
    }

    ghost function Repr(): set<object>
      reads this
    {
      {this, open_files} + tree.objs + conn.objs
    }

    // -------------------------------------------------------------- invariant: the tree

    static ghost function Abstract(n: Inode): Node
      reads n, n.data
    {
      if n.kind == VNODE_DIR then Dir else File(n.Content())
    }

    /** The inode is linked where its path says: its directory holds it in its slot. */
    ghost predicate Linked(p: Path)
      requires p in tree.nodes && tree.nodes.Values <= tree.objs
      reads this`tree, tree.objs
    {
      var n := tree.nodes[p];
      && n.path == p
      && if p == [] then n.kind == VNODE_DIR && n.parent == null
         else
           && ValidName(Last(p)) && n.name == Last(p)
           && Parent(p) in tree.nodes && n.parent == tree.nodes[Parent(p)] && n.parent.kind == VNODE_DIR
           && n.slot < n.parent.child_count && n.parent.child_count <= |n.parent.children|
           && n.parent.children[n.slot] == n
    }

    /** The children of an inode are the inodes one component further, each in the slot it remembers. */
    ghost predicate ChildrenLinked(p: Path)
      requires p in tree.nodes && tree.nodes.Values <= tree.objs
      reads this`tree, tree.objs
    {
      var n := tree.nodes[p];
      && n.Ok()
      && forall i :: 0 <= i < n.child_count ==>
           var c := n.children[i];
           c.slot == i && p + [c.name] in tree.nodes && tree.nodes[p + [c.name]] == c
    }

    /** The inode owns its data, which is what the abstract file holds. */
    ghost predicate Modelled(p: Path)
      requires p in tree.nodes && p in tree.fs && tree.nodes.Values <= tree.objs
      reads this`tree, tree.objs
    {
      var n := tree.nodes[p];
      && (n.data != null ==> n.data in tree.objs && n.data in tree.owner && tree.owner[n.data] == p)
      && tree.fs[p] == Abstract(n)
    }

    ghost predicate TreeOk()
      reads this`tree, tree.objs
    {
      && tree.nodes.Values <= tree.objs && tree.fs.Keys == tree.nodes.Keys
      && (forall p {:trigger Linked(p)} :: p in tree.nodes ==> Linked(p))
      && (forall p {:trigger ChildrenLinked(p)} :: p in tree.nodes ==> ChildrenLinked(p))
      && (forall p {:trigger Modelled(p)} :: p in tree.nodes ==> Modelled(p))
    }

    ghost predicate RootOk()
      reads this`root_vnode, this`tree, this`conn
    {
      if root_vnode == null then tree.nodes == map[] && conn.live == map[]
      else root_vnode.kind == VNODE_DIR && [] in tree.nodes && root_vnode.internal == tree.nodes[[]]
    }

    // -------------------------------------------------------------- invariant: the handles

    ghost predicate HandleOk(h: nat)
      requires h in conn.live && conn.live.Values <= conn.objs
      reads this`conn, this`tree, conn.objs
    {
      var f := conn.live[h];
      && f.id == h < conn.next && f.f_pos < TWO32 && f.ref_count == 1
      && f.path in tree.nodes && f.vnode.internal == tree.nodes[f.path]
      && f.vnode.kind == tree.nodes[f.path].kind == VNODE_FILE
      && f.vnode in conn.users && conn.users[f.vnode] == h
      && h in conn.handles && conn.handles[h] == Handle(f.path, f.f_pos, f.flags)
    }

    /** A vnode counts one reference for itself and one for the live handle on it. */
    ghost predicate CountOk(v: Vnode)
      requires v in conn.users && conn.users.Keys <= conn.objs
      reads this`conn, conn.objs
    {
      conn.users[v] < conn.next
      && v.ref_count == if conn.users[v] in conn.live && conn.live[conn.users[v]].vnode == v then 2 else 1
    }

    ghost predicate HandlesOk()
      reads this`conn, this`tree, conn.objs
    {
      && conn.live.Values <= conn.objs && conn.users.Keys <= conn.objs && conn.handles.Keys == conn.live.Keys
      && (forall h {:trigger HandleOk(h)} :: h in conn.live ==> HandleOk(h))
      && (forall v {:trigger CountOk(v)} :: v in conn.users ==> CountOk(v))
    }

    /** Recorded handles are live and recorded once. */
    ghost predicate TableOk()
      reads this`conn, open_files
    {
      && open_files.Length == MAX_OPEN_FILES
      && (forall i :: 0 <= i < MAX_OPEN_FILES && open_files[i] != null ==>
            open_files[i].id in conn.live && conn.live[open_files[i].id] == open_files[i])
      && (forall i, j :: 0 <= i < j < MAX_OPEN_FILES && open_files[i] != null ==> open_files[i] != open_files[j])
    }

    /** The tree, the handles and the table share no object. */
    ghost predicate Separate()
      reads this`tree, this`conn
    {
      && this !in tree.objs && this !in conn.objs && open_files !in tree.objs && open_files !in conn.objs
      && tree.objs !! conn.objs
    }

    ghost predicate Valid()
      reads this, open_files, tree.objs, conn.objs
    {
      && Separate()
      && TreeOk() && RootOk() && HandlesOk() && TableOk()
    }

    /** The static initial state: nothing mounted, no file open. */
    constructor ()
      ensures Valid() && fresh(Repr())
      ensures root_vnode == null && Model() == State(map[], map[], 0) && conn.live == map[] && Table() == {}
    {
      open_files := new OpenFile?[MAX_OPEN_FILES](_ => null);
      root_vnode := null;
      tree := TreeView(map[], map[], map[], {});
      conn := ConnView(map[], map[], map[], 0, {});
    }

    lemma {:induction false} NamesOnPath(p: Path, k: nat)
      requires TreeOk() && p in tree.nodes && k < |p|
      ensures ValidName(p[k])
      decreases |p|
    {
      assert Linked(p);
      if k < |p| - 1 {
        NamesOnPath(Parent(p), k);
      }
    }

    lemma TreeModelWf()
      requires TreeOk() && (tree.nodes != map[] ==> [] in tree.nodes)
      ensures TreeWf(tree.fs)
    {
      hide ValidName, Parse;
      forall p | p in tree.fs
        ensures p != [] ==> Parent(p) in tree.fs && tree.fs[Parent(p)].Dir?
        ensures tree.fs[p].File? ==> |tree.fs[p].bytes| < TWO32
      {
        assert Linked(p) && ChildrenLinked(p) && Modelled(p);
        if p != [] {
          assert Modelled(Parent(p));
        }
      }
      forall p, k | p in tree.fs && 0 <= k < |p| ensures ValidName(p[k]) {
        NamesOnPath(p, k);
      }
      if tree.fs != map[] {
        assert Linked([]) && Modelled([]);
      }
    }

    /** The abstract state is well formed. */
    lemma ModelWf()
      requires Valid()
      ensures Wf(Model())
    {
      hide ValidName, Parse;
      TreeModelWf();
      forall h | h in conn.handles ensures HandleWf(Model(), h) {
        assert HandleOk(h);
        assert Modelled(conn.live[h].path);
      }
    }

    // -------------------------------------------------------------- operations on an open file

    /** `file` is an open handle, or NULL. */
    ghost predicate Opened(file: OpenFile?)
      reads this`conn
    {
      file != null ==> file.id in conn.live && conn.live[file.id] == file
    }

    /** What the invariant says of an open handle. */
    ghost predicate Usable(file: OpenFile)
      reads this, tree.objs, conn.objs
    {
      && file in conn.objs && file.vnode in conn.objs && file.id in conn.handles && file.f_pos < TWO32
      && HandleWf(Model(), file.id) && conn.handles[file.id] == Handle(file.path, file.f_pos, file.flags)
      && file.path in tree.nodes && file.vnode.internal == tree.nodes[file.path] && tree.nodes[file.path] in tree.objs
      && file.vnode.internal.Ok() && file.vnode.internal.kind == VNODE_FILE
      && (file.vnode.internal.data != null ==> file.vnode.internal.data in tree.objs)
      && Bytes(Model(), file.id) == file.vnode.internal.Content()
    }

    lemma HandleFacts(file: OpenFile)
      requires TreeOk() && HandlesOk() && Opened(file)
      ensures Usable(file)
    {
      assert conn.live[file.id] in conn.live.Values;
      assert HandleOk(file.id);
      assert tree.nodes[file.path] in tree.nodes.Values;
      assert ChildrenLinked(file.path) && Modelled(file.path);
    }

    /** Of the handles, only the position of `file` changed. */
    twostate predicate OnlyMoved(file: OpenFile)
      reads this, conn.objs, file
    {
      && old(Opened(file)) && file in conn.objs
      && tree.nodes == old(tree.nodes)
      && conn == old(conn).(handles := old(conn.handles)[file.id := Handle(file.path, file.f_pos, file.flags)])
      && (forall o: object :: o in conn.objs && o != file ==> unchanged(o))
      && file.f_pos < TWO32 && file.flags == old(file.flags) && file.ref_count == old(file.ref_count)
    }

    twostate lemma Moved(file: OpenFile)
      ensures old(HandlesOk()) && OnlyMoved(file) ==> HandlesOk()
    {
      if old(HandlesOk()) && OnlyMoved(file) {
        forall h | h in conn.live ensures HandleOk(h) {
          assert conn.live[h] in conn.live.Values;
          assert old(HandleOk(h));
        }
        forall v | v in conn.users ensures CountOk(v) {
          assert old(CountOk(v));
        }
      }
    }

    /** The tree keeps its inodes, and the same handles stay open. */
    twostate predicate OnlyContents()
      reads this, open_files
    {
      && root_vnode == old(root_vnode) && tree.nodes == old(tree.nodes) && fresh(tree.objs - old(tree.objs))
      && conn.live == old(conn.live) && conn.objs == old(conn.objs) && unchanged(open_files)
    }

    /** The rest of the invariant then stands. */
    twostate lemma OthersKept()
      ensures old(Valid()) && OnlyContents() && TreeOk() && HandlesOk() ==> Valid()
    {
    }

    /** What an operation on an open file needs to know. */
    lemma LiveFacts(file: OpenFile)
      requires Valid() && Opened(file)
      ensures TreeOk() && HandlesOk() && Usable(file) && file !in tree.objs && this !in tree.objs && this !in conn.objs
      ensures open_files !in tree.objs && open_files !in conn.objs && tree.nodes.Values <= tree.objs
      ensures tree.objs !! conn.objs
      ensures conn.live.Values <= conn.objs && conn.users.Keys <= conn.objs
    {
      HandleFacts(file);
    }

    /** `TmpfsRead`, with the handle's position kept up to date. */
    method ReadTracked(file: OpenFile, buf: array<Byte>, n: nat) returns (r: int)
      requires TreeOk() && this !in tree.objs && buf !in tree.objs && file !in tree.objs && buf as object != open_files
      requires HandlesOk() && Opened(file) && file in conn.objs && this !in conn.objs && buf !in conn.objs
      requires file.vnode.internal.Ok() && file.vnode.internal.kind == VNODE_FILE && buf != file.vnode.internal.data
      requires n <= buf.Length && n < TWO32 && file.f_pos < TWO32
      requires file.f_pos < file.vnode.internal.size ==> file.f_pos + n < TWO32
      modifies this`conn, buf, file`f_pos
      ensures HandlesOk() && TreeOk() && OnlyContents()
      ensures conn ==
        old(conn).(handles := old(conn.handles)[file.id := Handle(file.path, file.f_pos, file.flags)])
      ensures var b, pos := file.vnode.internal.Content(), old(file.f_pos);
        var d := Delivered(b, pos, n);
        r == I32(|d|) && file.f_pos == pos + |d| && buf[..] == d + old(buf[|d|..])
    {
      hide HandlesOk;
      r := TmpfsRead(file, buf, n);
      conn := conn.(handles := conn.handles[file.id := Handle(file.path, file.f_pos, file.flags)]);
      Moved(file);
    }

    method ReadGranted(file: OpenFile, buf: array<Byte>, n: nat, ghost h: Handle) returns (r: int)
      requires Valid() && Opened(file) && buf !in tree.objs && buf !in conn.objs && n <= buf.Length && n < TWO32
      requires file.id in conn.handles && conn.handles[file.id] == h && h.path in tree.fs && tree.fs[h.path].File?
      requires h.pos < |tree.fs[h.path].bytes| ==> h.pos + n < TWO32
      modifies this`conn, buf, file
      ensures Valid()
      ensures var d := Delivered(tree.fs[h.path].bytes, h.pos, n);
        && r == I32(|d|) && |d| <= buf.Length && buf[..] == d + old(buf[..])[|d|..]
        && conn == old(conn).(handles := old(conn.handles)[file.id := h.(pos := h.pos + |d|)])
    {
      LiveFacts(file);
      hide Valid, TreeOk, HandlesOk, Opened;
      r := ReadTracked(file, buf, n);
      OthersKept();
    }

    /** A handle without `O_RDWR` cannot be read, since `O_RDONLY` is 0. */
    method ReadLive(file: OpenFile, buf: array<Byte>, n: nat, ghost s: State) returns (r: int)
      requires Valid() && Opened(file) && buf !in tree.objs && buf !in conn.objs && n <= buf.Length
      requires Model() == s && Allowed(s, FlatFs.Read(file.id, n))
      modifies this`conn, buf, file
      ensures Valid() && conn == old(conn).(handles := conn.handles)
      ensures var (ret, s') := ReadStep(s, file.id, n);
        r == ret.code && Model() == s' && |ret.data| <= buf.Length && buf[..] == ret.data + old(buf[..])[|ret.data|..]
    {
      FlagsAre(file);
      hide Valid, HandleWf;
      if file.flags & O_RDONLY != 0 || file.flags & O_RDWR != 0 {
        r := ReadGranted(file, buf, n, s.handles[file.id]);
      } else {
        r := -1;
      }
    }

    lemma FlagsAre(file: OpenFile)
      requires Valid() && Opened(file)
      ensures file.id in conn.handles && conn.handles[file.id].flags == file.flags
    {
      HandleFacts(file);
    }

    /** A NULL handle is refused. */
    method Read(file: OpenFile?, buf: array<Byte>, n: nat) returns (r: int)
      requires Valid() && Opened(file) && buf !in tree.objs && buf !in conn.objs && n <= buf.Length
      requires file != null ==> Allowed(Model(), FlatFs.Read(file.id, n))
      modifies this`conn, buf, if file == null then {} else {file}
      ensures Valid() && conn == old(conn).(handles := conn.handles)
      ensures file == null ==> r == -1 && Model() == old(Model()) && buf[..] == old(buf[..])
      ensures file != null ==>
        var (ret, s') := ReadStep(old(Model()), file.id, n);
        r == ret.code && Model() == s' && |ret.data| <= buf.Length && buf[..] == ret.data + old(buf[..])[|ret.data|..]
    {
      if file == null {
        return -1;
      }
      hide Valid, HandleWf, ReadStep;
      r := ReadLive(file, buf, n, Model());
    }

    /** `TmpfsLseek`, with the handle's position kept up to date. */
    method LseekTracked(file: OpenFile, offset: int, whence: int) returns (r: int)
      requires TreeOk() && this !in tree.objs && file !in tree.objs
      requires HandlesOk() && Opened(file) && file in conn.objs && this !in conn.objs
      requires -TWO31 <= offset < TWO31 && file.f_pos < TWO32
      requires file.id in conn.handles && conn.handles[file.id] == Handle(file.path, file.f_pos, file.flags)
      modifies this`conn, file`f_pos
      ensures HandlesOk() && TreeOk() && OnlyContents()
      ensures whence !in {0, 1, 2} ==> r == -1 && file.f_pos == old(file.f_pos)
      ensures whence in {0, 1, 2} ==>
        var base := if whence == 0 then 0 else if whence == 1 then old(file.f_pos) else file.vnode.internal.size;
        file.f_pos == U32(base + offset) && r == I32(base + offset)
      ensures conn ==
        old(conn).(handles := old(conn.handles)[file.id := Handle(file.path, file.f_pos, file.flags)])
    {
      hide HandlesOk;
      r := TmpfsLseek(file, offset, whence);
      conn := conn.(handles := conn.handles[file.id := Handle(file.path, file.f_pos, file.flags)]);
      Moved(file);
    }

    method LseekLive(file: OpenFile, offset: int, whence: int, ghost s: State) returns (r: int)
      requires Valid() && Opened(file) && Model() == s && -TWO31 <= offset < TWO31
      modifies this`conn, file
      ensures Valid() && conn == old(conn).(handles := conn.handles)
      ensures file.id in s.handles && HandleWf(s, file.id) && (r, Model()) == LseekStep(s, file.id, offset, whence)
    {
      LiveFacts(file);
      hide Valid, TreeOk, HandlesOk, HandleWf;
      r := LseekTracked(file, offset, whence);
      OthersKept();
      assert whence !in {0, 1, 2} ==> conn.handles == s.handles;
    }

    method Lseek(file: OpenFile?, offset: int, whence: int) returns (r: int)
      requires Valid() && Opened(file) && -TWO31 <= offset < TWO31
      modifies this`conn, if file == null then {} else {file}
      ensures Valid() && conn == old(conn).(handles := conn.handles)
      ensures file == null ==> r == -1 && Model() == old(Model())
      ensures file != null ==> file.id in old(conn.handles) && HandleWf(old(Model()), file.id)
      ensures file != null ==> (r, Model()) == LseekStep(old(Model()), file.id, offset, whence)
    {
      if file == null {
        return -1;
      }
      hide Valid, HandleWf, LseekStep;
      r := LseekLive(file, offset, whence, Model());
    }

    /** The file at `p`, whose inode is `n`, has new data. */
    static ghost function TreeAfter(t: TreeView, p: Path, n: Inode): TreeView
      reads n, n.data
    {
      TreeView(t.nodes, if n.data == null then t.owner else t.owner[n.data := p], t.fs[p := File(n.Content())],
               t.objs + (if n.data == null then {} else {n.data}))
    }

    /** In the tree, only the data of the file at `p` changed. */
    twostate predicate OnlyWrote(p: Path)
      requires p in tree.nodes
      reads this, tree.objs, tree.nodes[p], tree.nodes[p].data
    {
      var n := tree.nodes[p];
      && n.kind == VNODE_FILE && n.Ok()
      && tree == TreeAfter(old(tree), p, n)
      && n.children == old(n.children) && n.child_count == old(n.child_count)
      && (forall o: object :: o in old(tree.objs) && o != n && o != old(n.data) ==> unchanged(o))
      && (n.data == old(n.data) || (n.data != null && fresh(n.data)))
    }

    twostate lemma WroteLinks(p: Path)
      requires p in tree.nodes && tree.nodes.Values <= tree.objs
      ensures old(TreeOk()) && OnlyWrote(p) ==> forall q {:trigger Linked(q)} :: q in tree.nodes ==> Linked(q)
    {
      forall q | q in tree.nodes && old(TreeOk()) && OnlyWrote(p) ensures Linked(q) {
        assert old(Linked(q));
        if q != [] {
          assert tree.nodes[Parent(q)] in tree.nodes.Values;
        }
      }
    }

    twostate lemma WroteChildren(p: Path)
      requires p in tree.nodes && tree.nodes.Values <= tree.objs
      ensures old(TreeOk()) && OnlyWrote(p) ==> forall q {:trigger ChildrenLinked(q)} :: q in tree.nodes ==>
        ChildrenLinked(q)
    {
      forall q | q in tree.nodes && old(TreeOk()) && OnlyWrote(p) ensures ChildrenLinked(q) {
        assert tree.nodes[q] in tree.nodes.Values;
        assert old(ChildrenLinked(q));
      }
    }

    twostate lemma WroteData(p: Path)
      requires p in tree.nodes && tree.nodes.Values <= tree.objs && tree.fs.Keys == tree.nodes.Keys
      ensures old(TreeOk()) && OnlyWrote(p) ==> forall q {:trigger Modelled(q)} :: q in tree.nodes ==> Modelled(q)
    {
      forall q | q in tree.nodes && old(TreeOk()) && OnlyWrote(p) ensures Modelled(q) {
        assert tree.nodes[q] in tree.nodes.Values;
        assert old(Linked(q) && Linked(p));
        assert old(Modelled(q) && Modelled(p));
      }
    }

    twostate lemma Wrote(p: Path)
      requires p in tree.nodes
      ensures old(TreeOk()) && OnlyWrote(p) ==> TreeOk()
    {
      hide Linked, ChildrenLinked, Modelled;
      if old(TreeOk()) && OnlyWrote(p) {
        WroteLinks(p);
        WroteChildren(p);
        WroteData(p);
      }
    }

    /** `TmpfsWrite`, with the tree kept up to date. */
    method WriteTracked(file: OpenFile, buf: array<Byte>, n: nat) returns (r: int)
      requires TreeOk() && this !in tree.objs && file !in tree.objs && buf !in tree.objs
      requires file.path in tree.nodes && file.vnode.internal == tree.nodes[file.path]
      requires tree.nodes[file.path].kind == VNODE_FILE
      requires n <= buf.Length && file.f_pos + n < TWO32
      requires tree.fs[file.path].File?
      modifies this`tree, tree.objs, file`f_pos
      ensures TreeOk() && tree.nodes == old(tree.nodes)
      ensures fresh(tree.objs - old(tree.objs)) && old(tree.objs) <= tree.objs
      ensures r == I32(n) && file.f_pos == old(file.f_pos) + n && buf[..] == old(buf[..])
      ensures file.path in tree.fs && tree.fs[file.path].File?
      ensures tree.fs == old(tree.fs)[file.path := tree.fs[file.path]]
      ensures Overlaid(old(tree.fs[file.path].bytes), old(file.f_pos), buf[..n], tree.fs[file.path].bytes)
    {
      var inode := file.vnode.internal;
      assert inode in tree.nodes.Values;
      assert ChildrenLinked(file.path) && Modelled(file.path);
      r := TmpfsWrite(file, buf, n);
      hide TreeOk, Overlaid;
      tree := TreeAfter(tree, file.path, inode);
      Wrote(file.path);
    }

    /** And the handles. */
    method WriteMoved(file: OpenFile, buf: array<Byte>, n: nat) returns (r: int)
      requires TreeOk() && HandlesOk() && Opened(file) && this !in tree.objs && this !in conn.objs
      requires tree.objs !! conn.objs && file in conn.objs && buf !in tree.objs && buf !in conn.objs
      requires file.path in tree.nodes && file.vnode.internal == tree.nodes[file.path]
      requires tree.nodes[file.path].kind == VNODE_FILE
      requires n <= buf.Length && file.f_pos + n < TWO32
      requires tree.fs[file.path].File?
      modifies this`tree, this`conn, tree.objs, file`f_pos
      ensures TreeOk() && HandlesOk() && tree.nodes == old(tree.nodes)
      ensures fresh(tree.objs - old(tree.objs)) && r == I32(n) && buf[..] == old(buf[..])
      ensures file.path in tree.fs && tree.fs[file.path].File?
      ensures tree.fs == old(tree.fs)[file.path := tree.fs[file.path]]
      ensures Overlaid(old(tree.fs[file.path].bytes), old(file.f_pos), buf[..n], tree.fs[file.path].bytes)
      ensures conn ==
        old(conn).(handles := old(conn.handles)[file.id := Handle(file.path, old(file.f_pos) + n, file.flags)])
    {
      hide TreeOk, HandlesOk, Overlaid;
      r := WriteTracked(file, buf, n);
      conn := conn.(handles := conn.handles[file.id := Handle(file.path, file.f_pos, file.flags)]);
      Moved(file);
    }

    static lemma WriteIs(s: State, h: nat, data: seq<Byte>, b: seq<Byte>)
      requires h in s.handles && HandleWf(s, h) && CanWrite(s, h) && Overlaid(Bytes(s, h), s.handles[h].pos, data, b)
      ensures var p, pos := s.handles[h].path, s.handles[h].pos;
        WriteStep(s, h, data, I32(|data|), SetPos(s.(fs := s.fs[p := File(b)]), h, pos + |data|))
    {
      hide Overlaid;
    }

    static lemma WriteRefused(s: State, h: nat, data: seq<Byte>)
      requires h in s.handles && HandleWf(s, h) && !CanWrite(s, h)
      ensures WriteStep(s, h, data, -1, s)
    {
    }

    method WriteKept(file: OpenFile, buf: array<Byte>, n: nat, ghost h: Handle) returns (r: int)
      requires Valid() && Opened(file) && buf !in tree.objs && buf !in conn.objs && n <= buf.Length
      requires file.id in conn.handles && conn.handles[file.id] == h && h.pos + n < TWO32
      modifies this`conn, this`tree, tree.objs, file
      ensures Valid() && fresh(tree.objs - old(tree.objs)) && r == I32(n) && buf[..] == old(buf[..])
      ensures conn ==
        old(conn).(handles := old(conn.handles)[file.id := h.(pos := h.pos + n)])
      ensures h.path in old(tree.fs) && old(tree.fs)[h.path].File? && h.path in tree.fs && tree.fs[h.path].File?
      ensures tree.fs == old(tree.fs)[h.path := tree.fs[h.path]]
      ensures Overlaid(old(tree.fs)[h.path].bytes, h.pos, buf[..n], tree.fs[h.path].bytes)
    {
      LiveFacts(file);
      hide Valid, TreeOk, HandlesOk, Overlaid;
      r := WriteMoved(file, buf, n);
      OthersKept();
    }

    method WriteGranted(file: OpenFile, buf: array<Byte>, n: nat, ghost s: State) returns (r: int)
      requires Valid() && Opened(file) && buf !in tree.objs && buf !in conn.objs && n <= buf.Length
      requires Model() == s && Allowed(s, FlatFs.Write(file.id, buf[..n])) && CanWrite(s, file.id)
      modifies this`conn, this`tree, tree.objs, file
      ensures Valid() && fresh(tree.objs - old(tree.objs)) && conn == old(conn).(handles := conn.handles)
      ensures WriteStep(s, file.id, old(buf[..n]), r, Model())
    {
      ghost var h, data := file.id, buf[..n];
      hide Valid, Overlaid, WriteStep;
      r := WriteKept(file, buf, n, s.handles[h]);
      WriteIs(s, h, data, tree.fs[s.handles[h].path].bytes);
    }

    method WriteLive(file: OpenFile, buf: array<Byte>, n: nat, ghost s: State) returns (r: int)
      requires Valid() && Opened(file) && buf !in tree.objs && buf !in conn.objs && n <= buf.Length
      requires Model() == s && Allowed(s, FlatFs.Write(file.id, buf[..n]))
      modifies this`conn, this`tree, tree.objs, file
      ensures Valid() && fresh(tree.objs - old(tree.objs)) && conn == old(conn).(handles := conn.handles)
      ensures WriteStep(s, file.id, old(buf[..n]), r, Model())
    {
      FlagsAre(file);
      hide Valid, HandleWf, WriteStep;
      if file.flags & O_WRONLY != 0 || file.flags & O_RDWR != 0 {
        r := WriteGranted(file, buf, n, s);
      } else {
        WriteRefused(s, file.id, buf[..n]);
        r := -1;
      }
    }

    method Write(file: OpenFile?, buf: array<Byte>, n: nat) returns (r: int)
      requires Valid() && Opened(file) && buf !in tree.objs && buf !in conn.objs && n <= buf.Length
      requires file != null ==> Allowed(Model(), FlatFs.Write(file.id, buf[..n]))
      modifies this`conn, this`tree, tree.objs, if file == null then {} else {file}
      ensures Valid() && fresh(tree.objs - old(tree.objs)) && conn == old(conn).(handles := conn.handles)
      ensures file == null ==> r == -1 && Model() == old(Model())
      ensures file != null ==> WriteStep(old(Model()), file.id, old(buf[..n]), r, Model())
    {
      if file == null {
        return -1;
      }
      hide Valid, HandleWf, WriteStep;
      r := WriteLive(file, buf, n, Model());
    }

    // -------------------------------------------------------------- the table of open files

    /** The files that `open_files` records. */
    ghost function Recorded(): set<OpenFile>
      reads open_files
    {
      set i | 0 <= i < open_files.Length && open_files[i] != null :: open_files[i]
    }

    /** Their numbers. */
    ghost function Table(): set<nat>
      reads open_files
    {
      set i | 0 <= i < open_files.Length && open_files[i] != null :: open_files[i].id
    }

    lemma Numbers()
      ensures forall f :: f in Recorded() ==> f.id in Table()
      ensures forall h :: h in Table() ==> exists f :: f in Recorded() && f.id == h
    {
      forall h | h in Table() ensures exists f :: f in Recorded() && f.id == h {
        var i :| 0 <= i < open_files.Length && open_files[i] != null && open_files[i].id == h;
        assert open_files[i] in Recorded();
      }
    }

    /** What is recorded is live, so the table has one entry for each number in it. */
    lemma TableIsLive()
      requires TableOk()
      ensures Table() <= conn.live.Keys && |Table()| == |Recorded()|
    {
      Numbers();
      forall f | f in Recorded() ensures f.id in conn.live && conn.live[f.id] == f {
        var i :| 0 <= i < open_files.Length && open_files[i] != null && open_files[i] == f;
      }
      var m := map h | h in Table() :: conn.live[h];
      InjectiveCount(m);
      assert m.Keys == Table();
      assert m.Values == Recorded() by {
        forall f | f in Recorded() ensures f in m.Values {
          assert m[f.id] == f;
        }
      }
    }

    /** The loop of `vfs_open`: the first free slot, if there is one, takes the new file. */
    method Record(file: OpenFile)
      modifies open_files
      ensures (exists i ::
          0 <= i < open_files.Length && old(open_files[i]) == null) ==>
        exists i ::
          0 <= i < open_files.Length && old(open_files[i]) == null && open_files[..] == old(open_files[..])[i := file]
      ensures (forall i :: 0 <= i < open_files.Length ==> old(open_files[i]) != null) ==>
        open_files[..] == old(open_files[..])
    {
      var i := 0;
      while i < open_files.Length
        invariant 0 <= i <= open_files.Length
        invariant forall j :: 0 <= j < i ==> open_files[j] != null
        invariant open_files[..] == old(open_files[..])
      {
        if open_files[i] == null {
          open_files[i] := file;
          assert open_files[..] == old(open_files[..])[i := file];
          return;
        }
        i := i + 1;
      }
    }

    /** The loop of `vfs_close`: the first slot that holds the file is cleared. */
    method Forget(file: OpenFile)
      modifies open_files
      ensures file in old(open_files[..]) ==>
        exists i ::
          0 <= i < open_files.Length && old(open_files[i]) == file && open_files[..] == old(open_files[..])[i := null]
      ensures file !in old(open_files[..]) ==> open_files[..] == old(open_files[..])
    {
      var i := 0;
      while i < open_files.Length
        invariant 0 <= i <= open_files.Length
        invariant file !in open_files[..i]
        invariant open_files[..] == old(open_files[..])
      {
        if open_files[i] == file {
          open_files[i] := null;
          assert open_files[..] == old(open_files[..])[i := null];
          return;
        }
        i := i + 1;
      }
    }

    /** The handle `file` is gone: its vnode lost a reference and its slot, if it had one, is free. */
    twostate predicate OnlyClosed(file: OpenFile)
      reads this, conn.objs, file.vnode
    {
      && old(Opened(file)) && tree.nodes == old(tree.nodes)
      && conn == old(conn).(live := old(conn.live) - {file.id}, handles := old(conn.handles) - {file.id})
      && (forall o: object :: o in conn.objs && o != file.vnode ==> unchanged(o))
      && file.vnode.ref_count == old(file.vnode.ref_count) - 1
    }

    twostate lemma Closed(file: OpenFile)
      ensures old(HandlesOk()) && OnlyClosed(file) ==> HandlesOk()
    {
      if old(HandlesOk()) && OnlyClosed(file) {
        assert old(HandleOk(file.id));
        forall h | h in conn.live ensures HandleOk(h) {
          assert old(conn.live)[h] in old(conn.live).Values;
          assert old(HandleOk(h));
        }
        forall v | v in conn.users ensures CountOk(v) {
          assert old(CountOk(v));
        }
      }
    }

    /** `TmpfsClose`, with the handles kept up to date. */
    method CloseTracked(file: OpenFile) returns (r: int)
      requires HandlesOk() && Opened(file) && this !in conn.objs && file.vnode in conn.objs && file.vnode.ref_count > 0
      modifies this`conn, file.vnode`ref_count
      ensures r == 0 && HandlesOk()
      ensures conn == old(conn).(live := old(conn.live) - {file.id}, handles := old(conn.handles) - {file.id})
      ensures file.vnode.ref_count == old(file.vnode.ref_count) - 1
    {
      hide HandlesOk;
      r := TmpfsClose(file);
      conn := conn.(live := conn.live - {file.id}, handles := conn.handles - {file.id});
      Closed(file);
    }

    /** Clearing the slot of the closed handle takes it, and only it, off the table. */
    twostate lemma TableForgot(file: OpenFile)
      requires old(TableOk() && Opened(file))
      requires conn.live == old(conn.live) - {file.id} && open_files.Length == MAX_OPEN_FILES
      requires file in old(open_files[..]) ==>
        exists i ::
          0 <= i < open_files.Length && old(open_files[i]) == file && open_files[..] == old(open_files[..])[i := null]
      requires file !in old(open_files[..]) ==> open_files[..] == old(open_files[..])
      requires forall h :: h in old(conn.live) ==> old(conn.live)[h].id == h
      ensures TableOk()
      ensures Table() == old(Table()) - {file.id}
    {
      forall i | 0 <= i < MAX_OPEN_FILES && open_files[i] != null
        ensures open_files[i] == old(open_files[i]) && open_files[i] != file && open_files[i].id != file.id
      {
        assert open_files[..][i] == open_files[i] && old(open_files[..])[i] == old(open_files[i]);
        assert old(open_files[i]) in old(open_files[..]);
      }
      forall i | 0 <= i < MAX_OPEN_FILES && old(open_files[i]) != null && old(open_files[i]) != file
        ensures open_files[i] == old(open_files[i])
      {
        assert open_files[..][i] == open_files[i] && old(open_files[..])[i] == old(open_files[i]);
      }
      forall h | h in old(Table()) && h != file.id ensures h in Table() {
        var i :| 0 <= i < open_files.Length && old(open_files[i]) != null && old(open_files[i]).id == h;
        assert open_files[i].id == h;
      }
    }

    method Close(file: OpenFile?) returns (r: int)
      requires Valid() && Opened(file)
      modifies this`conn, open_files, if file == null then {} else {file.vnode}
      ensures Valid()
      ensures file == null ==> r == -1 && Model() == old(Model()) && conn.live == old(conn.live)
      ensures file != null ==> (r, Model()) == CloseStep(old(Model()), file.id)
      ensures file != null ==>
        conn == old(conn).(live := old(conn.live) - {file.id}, handles := old(conn.handles) - {file.id})
      ensures Table() == if file == null then old(Table()) else old(Table()) - {file.id}
    {
      if file == null {
        return -1;
      }
      HandleFacts(file);
      assert HandleOk(file.id) && CountOk(file.vnode);
      IdsOk();
      hide TreeOk, HandlesOk, HandleWf, TableOk, Table;
      r := CloseTracked(file);
      Forget(file);
      TableForgot(file);
    }

    lemma IdsOk()
      requires HandlesOk()
      ensures forall h :: h in conn.live ==> conn.live[h].id == h
    {
      forall h | h in conn.live ensures conn.live[h].id == h {
        assert HandleOk(h);
      }
    }

    // -------------------------------------------------------------- path lookup

    /** A directory has a child of some name just when the tree has the path one component further. */
    lemma ChildIff(d: Path, name: Name)
      requires TreeOk() && d in tree.nodes
      ensures tree.nodes[d] in tree.objs && tree.nodes[d].Ok()
      ensures tree.nodes[d].HasChild(name) <==> d + [name] in tree.nodes
      ensures forall i :: 0 <= i < tree.nodes[d].child_count && tree.nodes[d].children[i].name == name ==>
        d + [name] in tree.nodes && tree.nodes[d].children[i] == tree.nodes[d + [name]]
    {
      var n := tree.nodes[d];
      assert n in tree.nodes.Values;
      assert ChildrenLinked(d);
      var q := d + [name];
      if q in tree.nodes {
        assert Linked(q) && Parent(q) == d && Last(q) == name;
        assert n.children[tree.nodes[q].slot].name == name;
      }
    }

    /** `vfs_path_lookup` answers what `Resolve` says; the last name is returned by value. */
    method PathLookup(path: seq<Byte>) returns (r: int, node: Vnode?, filename: Name)
      requires Valid() && Terminated(path, 0) && Fits(Text(path, 0))
      ensures var p := Parse(Text(path, 0));
        match Resolve(tree.fs, p)
        case Found =>
          r == 0 && node != null && p in tree.nodes && node.internal == tree.nodes[p] && node.kind == node.internal.kind
          && (p != [] ==> fresh(node) && node.ref_count == 1)
        case Missing =>
          r == -2 && node != null && p != [] && Parent(p) in tree.nodes && node.internal == tree.nodes[Parent(p)]
          && node.kind == node.internal.kind == VNODE_DIR && filename == Last(p)
        case Bad => r == -1
    {
      hide Valid, TreeOk, RootOk, HandlesOk, TableOk, Fits, Parse, Resolve, TreeWf, Split, End, Text;
      node, filename := null, [];
      RootFacts(Parse(Text(path, 0)));
      if root_vnode == null {
        return -1, node, filename;
      }
      var components := ParsePath(path);
      ghost var p := components;
      ParseNames(Text(path, 0));
      TreeModelWf();
      var current: Vnode := root_vnode;
      var i := 0;
      assert p[..0] == [];
      while i < |components|
        invariant 0 <= i <= |components|
        invariant p[..i] in tree.nodes && current.internal == tree.nodes[p[..i]]
        invariant current.kind == current.internal.kind
        invariant i > 0 ==> fresh(current) && current.ref_count == 1
      {
        var d := p[..i];
        ChildIff(d, p[i]);
        assert d + [p[i]] == p[..i + 1];
        InTree(d);
        if current.kind != VNODE_DIR {
          NoChildOfFile(d, p[i]);
          ResolveAt(tree.fs, p, i);
          return -1, null, filename;
        }
        var c, next := TmpfsLookup(current, components[i]);
        if c != 0 {
          ResolveAt(tree.fs, p, i);
          if i == |components| - 1 {
            assert p[..i] == Parent(p);
            return -2, current, components[i];
          }
          return -1, null, filename;
        }
        current := next;
        i := i + 1;
      }
      assert p[..i] == p;
      InTree(p);
      return 0, current, [];
    }

    lemma RootFacts(p: Path)
      requires Valid()
      ensures TreeOk() && (root_vnode == null ==> Resolve(tree.fs, p) == Bad)
      ensures root_vnode != null ==>
        [] in tree.nodes && root_vnode.internal == tree.nodes[[]] && root_vnode.kind == tree.nodes[[]].kind
    {
      if root_vnode != null {
        assert Linked([]);
      }
    }

    /** The abstract tree has the same paths, with the same kinds. */
    lemma InTree(p: Path)
      requires TreeOk() && p in tree.nodes
      ensures p in tree.fs && (tree.fs[p].Dir? <==> tree.nodes[p].kind == VNODE_DIR)
      ensures Resolve(tree.fs, p) == Found
      ensures forall q :: q in tree.fs <==> q in tree.nodes
    {
      assert Modelled(p);
    }

    lemma NoChildOfFile(d: Path, name: Name)
      requires TreeOk() && d in tree.nodes && tree.nodes[d].kind == VNODE_FILE
      ensures d + [name] !in tree.nodes
    {
      ChildIff(d, name);
    }

    // -------------------------------------------------------------- growing the tree

    /** A new inode `n` is linked at `p`. */
    static ghost function GrownTree(t: TreeView, p: Path, n: Inode): TreeView
      reads n, n.data
    {
      TreeView(t.nodes[p := n], t.owner, t.fs[p := Abstract(n)], t.objs + {n})
    }

    /** In the tree, only the directory of `p` changed: the new `child` sits in its next slot. */
    twostate predicate OnlyGrew(p: Path, new child: Inode)
      requires p != [] && Parent(p) in old(tree.nodes)
      reads this, tree.objs, child
    {
      var dir := old(tree.nodes)[Parent(p)];
      && dir.kind == VNODE_DIR && p !in old(tree.nodes) && ValidName(Last(p))
      && fresh(child) && child.path == p && child.name == Last(p) && child.parent == dir
      && child.Ok() && child.data == null && child.child_count == 0
      && tree == GrownTree(old(tree), p, child)
      && old(tree.nodes.Values <= tree.objs)
      && (assert dir in old(tree.nodes).Values; Appended(dir, child)) && dir.Ok()
      && dir.data == old(dir.data)
      && (forall o: object :: o in old(tree.objs) && o != dir ==> unchanged(o))
    }

    twostate lemma GrewLinks(p: Path, new child: Inode)
      requires p != [] && Parent(p) in old(tree.nodes) && tree.nodes.Values <= tree.objs
      ensures old(TreeOk()) && OnlyGrew(p, child) ==> forall q {:trigger Linked(q)} :: q in tree.nodes ==> Linked(q)
    {
      forall q | q in tree.nodes && old(TreeOk()) && OnlyGrew(p, child) ensures Linked(q) {
        if q != p {
          assert old(Linked(q));
          if q != [] {
            assert old(tree.nodes)[Parent(q)] in old(tree.nodes).Values;
          }
        }
      }
    }

    twostate lemma GrewChildren(p: Path, new child: Inode)
      requires p != [] && Parent(p) in old(tree.nodes) && tree.nodes.Values <= tree.objs
      ensures old(TreeOk()) && OnlyGrew(p, child) ==>
        forall q {:trigger ChildrenLinked(q)} :: q in tree.nodes ==> ChildrenLinked(q)
    {
      forall q | q in tree.nodes && old(TreeOk()) && OnlyGrew(p, child) ensures ChildrenLinked(q) {
        if q != p {
          assert old(tree.nodes)[q] in old(tree.nodes).Values;
          assert old(ChildrenLinked(q)) && old(Linked(q)) && old(Linked(Parent(p)));
          if q == Parent(p) {
            assert q + [Last(p)] == p;
          }
        }
      }
    }

    twostate lemma GrewData(p: Path, new child: Inode)
      requires p != [] && Parent(p) in old(tree.nodes) && tree.nodes.Values <= tree.objs
      requires tree.fs.Keys == tree.nodes.Keys
      ensures old(TreeOk()) && OnlyGrew(p, child) ==> forall q {:trigger Modelled(q)} :: q in tree.nodes ==> Modelled(q)
    {
      forall q | q in tree.nodes && old(TreeOk()) && OnlyGrew(p, child) ensures Modelled(q) {
        if q != p {
          assert old(tree.nodes)[q] in old(tree.nodes).Values;
          assert old(Modelled(q)) && old(ChildrenLinked(q));
        }
      }
    }

    twostate lemma Grew(p: Path, new child: Inode)
      requires p != [] && Parent(p) in old(tree.nodes)
      ensures old(TreeOk()) && OnlyGrew(p, child) ==> TreeOk()
    {
      hide Linked, ChildrenLinked, Modelled;
      if old(TreeOk()) && OnlyGrew(p, child) {
        GrewLinks(p, child);
        GrewChildren(p, child);
        GrewData(p, child);
      }
    }

    /** `TmpfsCreate`, with the tree kept up to date. */
    method CreateTracked(dir: Vnode, name: Name, ghost p: Path) returns (r: int, node: Vnode?)
      requires TreeOk() && this !in tree.objs && p != [] && p !in tree.nodes && Last(p) == name && ValidName(name)
      requires Parent(p) in tree.nodes && dir.internal == tree.nodes[Parent(p)]
      requires dir.internal.kind == VNODE_DIR && dir.internal.child_count < MAX_CHILDREN
      modifies this`tree, tree.objs
      ensures r == 0 && TreeOk() && node != null && fresh(node) && node.ref_count == 1 && node.kind == VNODE_FILE
      ensures fresh(node.internal) && tree == GrownTree(old(tree), p, node.internal)
      ensures Abstract(node.internal) == File([])
    {
      ChildIff(Parent(p), name);
      assert Parent(p) + [name] == p;
      assert ChildrenLinked(Parent(p));
      assert Modelled(Parent(p));
      hide TreeOk, ValidName, Linked, ChildrenLinked, Modelled;
      r, node := TmpfsCreate(dir, name, p);
      tree := GrownTree(tree, p, node.internal);
      Grew(p, node.internal);
    }

    /** `TmpfsMkdir`, with the tree kept up to date. */
    method MkdirTracked(dir: Vnode, name: Name, ghost p: Path) returns (r: int, ghost child: Inode?)
      requires TreeOk() && this !in tree.objs && p != [] && p !in tree.nodes && Last(p) == name && ValidName(name)
      requires Parent(p) in tree.nodes && dir.internal == tree.nodes[Parent(p)]
      requires dir.internal.kind == VNODE_DIR && dir.internal.child_count < MAX_CHILDREN
      modifies this`tree, tree.objs
      ensures r == 0 && TreeOk() && child != null && fresh(child)
      ensures tree == GrownTree(old(tree), p, child) && Abstract(child) == Dir
    {
      ChildIff(Parent(p), name);
      assert Parent(p) + [name] == p;
      assert ChildrenLinked(Parent(p));
      assert Modelled(Parent(p));
      hide TreeOk, ValidName, Linked, ChildrenLinked, Modelled;
      r, child := TmpfsMkdir(dir, name, p);
      tree := GrownTree(tree, p, child);
      Grew(p, child);
    }

    /** The slots in use are as many as the names the directory has in the abstract tree. */
    lemma RoomFor(d: Path)
      requires TreeOk() && d in tree.nodes
      ensures tree.nodes[d] in tree.objs && tree.nodes[d].child_count == |ChildNames(tree.fs, d)|
    {
      var n := tree.nodes[d];
      assert n in tree.nodes.Values;
      assert ChildrenLinked(d);
      var names := seq(n.child_count, i requires n.Ok() && 0 <= i < n.child_count reads n => n.children[i].name);
      DistinctCount(names);
      forall x | x in ChildNames(tree.fs, d) ensures x in names {
        var p :| p in tree.fs && p != [] && Parent(p) == d && Last(p) == x;
        assert Linked(p);
        assert names[tree.nodes[p].slot] == x;
      }
      forall x | x in names ensures x in ChildNames(tree.fs, d) {
        var p := d + [x];
        assert p in tree.fs && Parent(p) == d && Last(p) == x;
      }
      assert (set x | x in names) == ChildNames(tree.fs, d);
    }

    /** The tree only gained paths; the handles were not touched. */
    twostate predicate OnlyTreeGrew()
      reads this, conn.objs
    {
      && conn == old(conn) && (forall o: object :: o in conn.objs ==> unchanged(o))
      && forall q :: q in old(tree.nodes) ==> q in tree.nodes && tree.nodes[q] == old(tree.nodes)[q]
    }

    twostate lemma HandlesKept()
      ensures old(HandlesOk()) && OnlyTreeGrew() ==> HandlesOk()
    {
      if old(HandlesOk()) && OnlyTreeGrew() {
        forall h | h in conn.live ensures HandleOk(h) {
          assert conn.live[h] in conn.live.Values;
          assert old(HandleOk(h));
        }
        forall v | v in conn.users ensures CountOk(v) {
          assert old(CountOk(v));
        }
      }
    }

    method Mkdir(path: seq<Byte>) returns (r: int)
      requires Valid() && Terminated(path, 0) && Allowed(Model(), FlatFs.Mkdir(Text(path, 0)))
      modifies this`tree, tree.objs
      ensures Valid() && fresh(tree.objs - old(tree.objs))
      ensures (r, Model()) == MkdirStep(old(Model()), Text(path, 0))
    {
      var c, node, filename := PathLookup(path);
      if c != -2 {
        return -1;
      }
      // the node of a missing path is a directory, so the test of vfs.c:560 never fails
      assert node.kind == VNODE_DIR;
      ghost var p := Parse(Text(path, 0));
      ParseNames(Text(path, 0));
      hide Valid, Fits, Parse, ValidName, Text, End, ChildNames;
      r := MkdirAt(node, filename, p);
    }

    /** A new directory at a path that is missing. */
    method MkdirAt(dir: Vnode, name: Name, ghost p: Path) returns (r: int)
      requires Valid() && Resolve(tree.fs, p) == Missing && Last(p) == name && ValidName(name)
      requires Parent(p) in tree.nodes && dir.internal == tree.nodes[Parent(p)] && dir.internal.kind == VNODE_DIR
      requires |ChildNames(tree.fs, Parent(p))| < MAX_CHILDREN
      modifies this`tree, tree.objs
      ensures Valid() && fresh(tree.objs - old(tree.objs)) && r == 0 && tree.fs == old(tree.fs)[p := Dir]
    {
      RoomFor(Parent(p));
      hide TreeOk, HandlesOk, TableOk, ValidName;
      ghost var child;
      r, child := MkdirTracked(dir, name, p);
      HandlesKept();
    }

    // -------------------------------------------------------------- opening

    /** The file `file` was opened as the next handle. */
    static ghost function OpenedConn(c: ConnView, file: OpenFile): ConnView
      reads file
    {
      ConnView(c.live[c.next := file], c.users[file.vnode := c.next],
               c.handles[c.next := Handle(file.path, file.f_pos, file.flags)], c.next + 1, c.objs + {file, file.vnode})
    }

    twostate predicate OnlyOpened(new file: OpenFile)
      reads this, conn.objs, file, file.vnode
    {
      var v := file.vnode;
      && file !in old(conn.objs) && v !in old(conn.objs) && v.ref_count == 2 && file.ref_count == 1
      && file.id == old(conn.next) && file.f_pos < TWO32
      && file.path in tree.nodes && v.internal == tree.nodes[file.path] && v.kind == v.internal.kind == VNODE_FILE
      && tree == old(tree) && conn == OpenedConn(old(conn), file)
      && (forall o: object :: o in old(conn.objs) ==> unchanged(o))
    }

    twostate lemma HandleAdded(new file: OpenFile)
      ensures old(HandlesOk()) && OnlyOpened(file) ==> HandlesOk()
    {
      if old(HandlesOk()) && OnlyOpened(file) {
        forall h | h in conn.live ensures HandleOk(h) {
          if h != file.id {
            assert old(conn.live)[h] in old(conn.live).Values;
            assert old(HandleOk(h));
          }
        }
        forall v | v in conn.users ensures CountOk(v) {
          if v != file.vnode {
            assert old(CountOk(v));
          }
        }
      }
    }

    lemma NextUnused()
      requires HandlesOk()
      ensures conn.next !in conn.live
    {
      forall h | h in conn.live ensures h != conn.next {
        assert HandleOk(h);
      }
    }

    /** A table without repetitions has as many entries as slots just when no slot is free. */
    static lemma {:induction false} FullTable(s: seq<OpenFile?>)
      requires forall i, j :: 0 <= i < j < |s| && s[i] != null ==> s[i] != s[j]
      ensures var used := set f: OpenFile | f in s; |used| <= |s| && (|used| == |s| <==> null !in s)
      decreases |s|
    {
      if s == [] {
        assert (set f: OpenFile | f in s) == {};
      } else {
        var n := |s| - 1;
        FullTable(s[..n]);
        assert s == s[..n] + [s[n]];
        var rest := set f: OpenFile | f in s[..n];
        if s[n] == null {
          assert (set f: OpenFile | f in s) == rest;
          assert s[n] in s;
        } else {
          assert (set f: OpenFile | f in s) == rest + {s[n]};
        }
      }
    }

    /** The table has a free slot just when it lists fewer than 64 handles. */
    lemma FreeSlot()
      requires TableOk()
      ensures null in open_files[..] <==> |Table()| < MAX_OPEN_FILES
    {
      TableIsLive();
      FullTable(open_files[..]);
      assert Recorded() == set f: OpenFile | f in open_files[..] by {
        forall f: OpenFile | f in open_files[..] ensures f in Recorded() {
          var i :| 0 <= i < open_files.Length && open_files[..][i] == f;
          assert open_files[i] == f;
        }
        forall f | f in Recorded() ensures f in open_files[..] {
          var i :| 0 <= i < open_files.Length && open_files[i] == f;
          assert open_files[..][i] == f;
        }
      }
    }

    /** Recording the new handle puts it, and only it, on the table if there is room. */
    twostate lemma TableRecorded(file: OpenFile)
      requires old(TableOk()) && conn == old(conn) && file.id in conn.live && conn.live[file.id] == file
      requires file !in old(open_files[..])
      requires null in old(open_files[..]) ==>
        exists i ::
          0 <= i < open_files.Length && old(open_files[i]) == null && open_files[..] == old(open_files[..])[i := file]
      requires null !in old(open_files[..]) ==> open_files[..] == old(open_files[..])
      ensures TableOk()
      ensures Table() == old(Table()) + if null in old(open_files[..]) then {file.id} else {}
    {
      forall i | 0 <= i < MAX_OPEN_FILES && open_files[i] != file ensures open_files[i] == old(open_files[i]) {
        assert open_files[..][i] == open_files[i] && old(open_files[..])[i] == old(open_files[i]);
      }
      forall i | 0 <= i < MAX_OPEN_FILES && old(open_files[i]) != null ensures open_files[i] == old(open_files[i]) {
        assert open_files[..][i] == open_files[i] && old(open_files[..])[i] == old(open_files[i]);
      }
      if null in old(open_files[..]) {
        var k :|
          0 <= k < open_files.Length && old(open_files[k]) == null && open_files[..] == old(open_files[..])[k := file];
        assert open_files[..][k] == open_files[k] == file;
        forall i | 0 <= i < MAX_OPEN_FILES && i != k ensures open_files[i] != file {
          assert open_files[..][i] == old(open_files[..])[i];
          assert old(open_files[..])[i] in old(open_files[..]);
        }
        forall h | h in Table() ensures h in old(Table()) + {file.id} {
          var i :| 0 <= i < open_files.Length && open_files[i] != null && open_files[i].id == h;
          assert i != k ==> old(open_files[i]) == open_files[i];
        }
        forall h | h in old(Table()) ensures h in Table() {
          var i :| 0 <= i < open_files.Length && old(open_files[i]) != null && old(open_files[i]).id == h;
          assert open_files[i] == old(open_files[i]);
        }
      }
    }

    method RecordTracked(file: OpenFile)
      requires Valid() && file.id in conn.live && conn.live[file.id] == file && file !in open_files[..]
      modifies open_files
      ensures Valid()
      ensures Table() == old(Table()) + if |old(Table())| < MAX_OPEN_FILES then {file.id} else {}
    {
      FreeSlot();
      hide TreeOk, HandlesOk, TableOk, Table;
      Record(file);
      TableRecorded(file);
    }

    /** `TmpfsOpen` and the position that `O_APPEND` asks for, with the handles kept up to date. */
    method OpenTracked(node: Vnode, flags: bv32, ghost p: Path) returns (file: OpenFile)
      requires HandlesOk() && Separate() && node !in tree.objs && node !in conn.objs && node.ref_count == 1
      requires p in tree.nodes && node.internal == tree.nodes[p] && node.kind == node.internal.kind == VNODE_FILE
      requires node.internal.Ok()
      modifies this`conn, node`ref_count
      ensures HandlesOk() && Separate() && fresh(file) && conn == OpenedConn(old(conn), file)
      ensures file.vnode == node && file.path == p && file.flags == flags && file.id == old(conn.next)
      ensures file.f_pos == if Has(flags, O_APPEND) then node.internal.size else 0
    {
      hide HandlesOk;
      ghost var c := conn;
      file := TmpfsOpen(node, conn.next, p);
      file.flags := flags;
      if flags & O_APPEND != 0 {
        var inode := node.internal;
        file.f_pos := inode.size;
      }
      conn := OpenedConn(conn, file);
      HandleAdded(file);
      StillSeparate(c, file);
    }

    lemma StillSeparate(c: ConnView, file: OpenFile)
      requires this !in tree.objs && this !in c.objs && open_files !in tree.objs && open_files !in c.objs
      requires tree.objs !! c.objs
      requires conn == OpenedConn(c, file) && file !in tree.objs && file.vnode !in tree.objs
      ensures Separate()
    {
    }

    /** The table is sound for the larger set of handles. */
    twostate lemma TableKept(new file: OpenFile)
      requires old(conn.next) !in old(conn.live) && conn == OpenedConn(old(conn), file)
      requires open_files[..] == old(open_files[..])
      ensures old(TableOk()) ==> TableOk() && Table() == old(Table()) && open_files[..] == old(open_files[..])
    {
      forall i | 0 <= i < open_files.Length ensures open_files[i] == old(open_files[i]) {
        assert open_files[..][i] == old(open_files[..])[i];
      }
    }

    /** The second half of `vfs_open` without the table. */
    method OpenUnrecorded(node: Vnode, flags: bv32, ghost p: Path) returns (file: OpenFile)
      requires Valid() && node !in tree.objs && node !in conn.objs && node.ref_count == 1
      requires p in tree.nodes && node.internal == tree.nodes[p] && node.kind == node.internal.kind == VNODE_FILE
      modifies this`conn, node`ref_count
      ensures Valid() && fresh(file) && file.vnode == node && conn == OpenedConn(old(conn), file)
      ensures p in tree.fs && tree.fs[p].File? && Model() == AddHandle(old(Model()), p, flags)
      ensures file.id == old(conn.next) && file !in open_files[..] && Table() == old(Table())
    {
      assert tree.nodes[p] in tree.nodes.Values;
      assert ChildrenLinked(p) && Modelled(p);
      NextUnused();
      hide TreeOk, HandlesOk, TableOk, Linked, ChildrenLinked, Modelled;
      file := OpenTracked(node, flags, p);
      TableKept(file);
    }

    /** The second half of `vfs_open`, once the node is there. */
    method OpenNode(node: Vnode, flags: bv32, ghost p: Path) returns (file: OpenFile)
      requires Valid() && node !in tree.objs && node !in conn.objs && node.ref_count == 1
      requires p in tree.nodes && node.internal == tree.nodes[p] && node.kind == node.internal.kind == VNODE_FILE
      modifies this`conn, node`ref_count, open_files
      ensures Valid() && fresh(file) && file.vnode == node && conn == OpenedConn(old(conn), file)
      ensures file.id == old(conn.next)
      ensures p in tree.fs && tree.fs[p].File? && Model() == AddHandle(old(Model()), p, flags)
      ensures Table() == old(Table()) + if |old(Table())| < MAX_OPEN_FILES then {file.id} else {}
    {
      hide Valid, AddHandle, Table;
      file := OpenUnrecorded(node, flags, p);
      RecordTracked(file);
    }

    /** A new file at a path that is missing. */
    method CreateAt(dir: Vnode, name: Name, ghost p: Path) returns (r: int, node: Vnode?)
      requires Valid() && Resolve(tree.fs, p) == Missing && Last(p) == name && ValidName(name)
      requires Parent(p) in tree.nodes && dir.internal == tree.nodes[Parent(p)]
      requires dir.kind == dir.internal.kind == VNODE_DIR
      requires |ChildNames(tree.fs, Parent(p))| < MAX_CHILDREN
      modifies this`tree, tree.objs
      ensures Valid() && fresh(tree.objs - old(tree.objs)) && r == 0 && tree.fs == old(tree.fs)[p := File([])]
      ensures node != null && fresh(node) && node.ref_count == 1 && node !in tree.objs
      ensures p in tree.nodes && node.internal == tree.nodes[p] && node.kind == node.internal.kind == VNODE_FILE
    {
      RoomFor(Parent(p));
      hide TreeOk, HandlesOk, TableOk, ValidName;
      r, node := CreateTracked(dir, name, p);
      // the name is missing and the node a directory, so the failure of vfs.c:464 never happens
      assert r == 0;
      HandlesKept();
    }

    /**
     * The first half of `vfs_open`: the node of the path, created if `O_CREAT` asks for it; directories are refused.
     */
    method Locate(path: seq<Byte>, flags: bv32) returns (r: int, node: Vnode?)
      requires Valid() && Terminated(path, 0) && Allowed(Model(), FlatFs.Open(Text(path, 0), flags))
      modifies this`tree, tree.objs
      ensures Valid() && fresh(tree.objs - old(tree.objs)) && (r == 0 || r == -1)
      ensures var p := Parse(Text(path, 0));
        match Resolve(old(tree.fs), p)
        case Found => tree == old(tree) && (r == 0 <==> tree.fs[p].File?)
        case Missing =>
          if Has(flags, O_CREAT) then r == 0 && tree.fs == old(tree.fs)[p := File([])] else r == -1 && tree == old(tree)
        case Bad => r == -1 && tree == old(tree)
      ensures r == 0 ==> node != null && fresh(node) && node.ref_count == 1 && node !in tree.objs
      ensures r == 0 ==> var p := Parse(Text(path, 0));
        p in tree.nodes && node.internal == tree.nodes[p] && node.kind == node.internal.kind == VNODE_FILE
    {
      node := null;
      var c, found, filename := PathLookup(path);
      ghost var p := Parse(Text(path, 0));
      ParseNames(Text(path, 0));
      if c == 0 {
        InTree(p);
        assert Linked(p);
        hide TreeOk, HandlesOk, TableOk, Fits, Parse, ValidName, Text, End;
        if found.kind == VNODE_DIR {
          return -1, null;
        }
        return 0, found;
      }
      if c == -2 && flags & O_CREAT != 0 {
        hide Valid, Fits, Parse, ValidName, Text, End, ChildNames, Resolve;
        r, node := CreateAt(found, filename, p);
        return;
      }
      r := -1;
    }

    method Open(path: seq<Byte>, flags: bv32) returns (r: int, file: OpenFile?)
      requires Valid() && Terminated(path, 0) && Allowed(Model(), FlatFs.Open(Text(path, 0), flags))
      modifies this`tree, this`conn, tree.objs, open_files
      ensures Valid() && fresh(tree.objs - old(tree.objs))
      ensures (r, Model()) == OpenStep(old(Model()), Text(path, 0), flags)
      ensures r == 0 ==> file != null && fresh(file) && file.id == old(conn.next) && conn == OpenedConn(old(conn), file)
      ensures r == 0 ==> fresh(file.vnode)
      ensures !Has(flags, O_CREAT) ==> tree == old(tree)
      ensures r == 0 ==> Table() == old(Table()) + if |old(Table())| < MAX_OPEN_FILES then {file.id} else {}
      ensures r != 0 ==> r == -1 && file == null && conn == old(conn) && open_files[..] == old(open_files[..])
    {
      file := null;
      var node;
      r, node := Locate(path, flags);
      if r != 0 {
        return;
      }
      ghost var p := Parse(Text(path, 0));
      hide Valid, Allowed, Parse, Text, End, Resolve, Table;
      var f := OpenNode(node, flags, p);
      file := f;
    }

    /** The objects that an open adds are new. */
    twostate lemma OpenedFresh(new file: OpenFile)
      requires conn == OpenedConn(old(conn), file) && fresh(file) && fresh(file.vnode)
      ensures fresh(conn.objs - old(conn.objs))
      ensures conn.live == old(conn.live)[old(conn.next) := file] && conn.next == old(conn.next) + 1
    {
    }

    /** `vfs_init`: the root directory is mounted. */
    method Init() returns (r: int)
      requires Valid() && root_vnode == null
      modifies this`root_vnode, this`tree
      ensures Valid() && r == 0 && root_vnode != null && fresh(tree.objs - old(tree.objs))
      ensures Model() == old(Model()).(fs := MOUNTED.fs)
    {
      var root_inode := new Inode(VNODE_DIR, [SLASH], null, [], 0);
      var root_node := new Vnode(root_inode, [SLASH]);
      root_vnode := root_node;
      tree := TreeView(map[[] := root_inode], map[], map[[] := Dir], {root_inode});
      return 0;
    }

    // -------------------------------------------------------------- what the invariant gives

    /** The handles opened on `v` and not closed. */
    ghost function HandlesOn(v: Vnode): set<nat>
      reads this
    {
      set h | h in conn.live && conn.live[h].vnode == v
    }

    /** Over any interleaving of opens and closes, a vnode counts one more reference than it has live handles. */
    lemma RefCounts(v: Vnode)
      requires Valid() && v in conn.users
      ensures v.ref_count == 1 + |HandlesOn(v)|
    {
      assert CountOk(v);
      forall h | h in HandlesOn(v) ensures h == conn.users[v] {
        assert HandleOk(h);
      }
      assert HandlesOn(v) ==
        if conn.users[v] in conn.live && conn.live[conn.users[v]].vnode == v then {conn.users[v]} else {};
    }

    /**
     * Two handles never share a vnode; they share an inode, and its data, just when they were opened on the same path.
     */
    lemma Sharing(f: OpenFile, g: OpenFile)
      requires Valid() && Opened(f) && Opened(g) && f != g
      ensures f.vnode != g.vnode
      ensures f.path == g.path <==> f.vnode.internal == g.vnode.internal
      ensures f.path != g.path && f.vnode.internal.data != null ==> f.vnode.internal.data != g.vnode.internal.data
    {
      HandleFacts(f);
      HandleFacts(g);
      assert HandleOk(f.id) && HandleOk(g.id);
      assert Linked(f.path) && Linked(g.path);
      assert Modelled(f.path) && Modelled(g.path);
    }

    /** No two children of a directory have the same name. */
    lemma SiblingNames(p: Path, i: nat, j: nat)
      requires Valid() && p in tree.nodes && i < j < tree.nodes[p].child_count
      ensures tree.nodes[p] in tree.objs && tree.nodes[p].Ok()
      ensures tree.nodes[p].children[i].name != tree.nodes[p].children[j].name
    {
      assert tree.nodes[p] in tree.nodes.Values;
      assert ChildrenLinked(p);
    }

    /** The steps of `vfs_path_lookup` lead from one inode to the other: by name through the arrays of children. */
    static ghost predicate Walk(from: Inode, p: Path, to: Inode)
      reads *
      decreases |p|
    {
      if p == [] then from == to
      else exists i :: 0 <= i < from.child_count && StepTo(from, i, p[0]) && Walk(from.children[i], p[1..], to)
    }

    static ghost predicate StepTo(from: Inode, i: nat, name: Name)
      reads from
    {
      i < |from.children| && from.children[i] != null && from.children[i].name == name
    }

    /** Walks follow the paths. */
    lemma {:induction false} WalkIff(d: Path, p: Path, n: Inode)
      requires TreeOk() && d in tree.nodes
      ensures Walk(tree.nodes[d], p, n) <==> d + p in tree.nodes && tree.nodes[d + p] == n
      decreases |p|
    {
      if p == [] {
        assert d + p == d;
      } else {
        var name, c := p[0], tree.nodes[d];
        ChildIff(d, name);
        assert d + p == (d + [name]) + p[1..];
        if d + [name] in tree.nodes {
          WalkIff(d + [name], p[1..], n);
          NamedChild(d, name);
        } else {
          OutsideTree(d, name, p[1..]);
        }
      }
    }

    lemma NamedChild(d: Path, name: Name)
      requires TreeOk() && d in tree.nodes && d + [name] in tree.nodes
      ensures tree.nodes[d] in tree.objs
      ensures exists i ::
        && 0 <= i < tree.nodes[d].child_count && StepTo(tree.nodes[d], i, name)
        && tree.nodes[d].children[i] == tree.nodes[d + [name]]
    {
      ChildIff(d, name);
    }

    lemma {:induction false} OutsideTree(d: Path, name: Name, rest: Path)
      requires TreeOk() && d + [name] !in tree.nodes
      ensures (d + [name]) + rest !in tree.nodes
      decreases |rest|
    {
      var p := (d + [name]) + rest;
      if rest == [] {
        assert p == d + [name];
      } else if p in tree.nodes {
        assert Linked(p);
        assert Parent(p) == (d + [name]) + rest[..|rest| - 1];
        OutsideTree(d, name, rest[..|rest| - 1]);
      }
    }

    /** From the root one arrives at an inode along a path exactly if it is the inode of that path. */
    lemma WalkFromRoot(p: Path, n: Inode)
      requires Valid() && root_vnode != null
      ensures Walk(root_vnode.internal, p, n) <==> p in tree.nodes && tree.nodes[p] == n
    {
      WalkIff([], p, n);
      assert [] + p == p;
    }

    /** Every inode that can be reached from the root is reached along one path only, and its parent along that path. */
    lemma UniquePath(p: Path, q: Path, n: Inode)
      requires Valid() && root_vnode != null && Walk(root_vnode.internal, p, n)
      ensures Walk(root_vnode.internal, q, n) <==> q == p
      ensures p != [] ==> n.parent != null && Walk(root_vnode.internal, Parent(p), n.parent)
      ensures p == [] ==> n.parent == null
    {
      hide Walk;
      WalkFromRoot(p, n);
      WalkFromRoot(q, n);
      assert Linked(p);
      if q in tree.nodes {
        assert Linked(q);
      }
      if p != [] {
        WalkFromRoot(Parent(p), tree.nodes[Parent(p)]);
      }
    }
  }
}
