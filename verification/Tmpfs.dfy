/** The tmpfs layer of vfs.c: inodes, vnodes and open files, and the operations on one of them. */
module Tmpfs {
  import opened Machine
  import opened CString
  import opened Paths
  import opened FlatFs

  datatype Kind = VNODE_FILE | VNODE_DIR

  /**
   * `tmpfs_inode_t`. `kind`, `name` and `parent` are never assigned after creation. `children` is the 64-slot array
   * embedded in the C struct. `path` and `slot` record where the inode was linked into the tree.
   */
  class Inode {
    const kind: Kind
    const name: Name
    const parent: Inode?
    var size: nat
    var data: array?<Byte>
    var children: seq<Inode?>
    var child_count: nat
    ghost const path: Path
    ghost const slot: nat

    constructor (kind: Kind, name: Name, parent: Inode?, ghost path: Path, ghost slot: nat)
      ensures this.kind == kind && this.name == name && this.parent == parent
      ensures this.path == path && this.slot == slot
      ensures size == 0 && data == null && children == seq(MAX_CHILDREN, _ => null) && child_count == 0
    {
      this.kind, this.name, this.parent, this.path, this.slot := kind, name, parent, path, slot;
      size, data, children, child_count := 0, null, seq(MAX_CHILDREN, _ => null), 0;
    }

    /** The part of the invariant that concerns this inode alone. */
    ghost predicate Ok()
      reads this
    {
      && size < TWO32 && (data == null <==> size == 0) && (data != null ==> data.Length == size)
      && |children| == MAX_CHILDREN && child_count <= MAX_CHILDREN
      && (kind == VNODE_DIR ==> data == null)
      && (kind == VNODE_FILE ==> child_count == 0)
      && forall i :: 0 <= i < child_count ==> children[i] != null && ValidName(children[i].name)
    }

    ghost function Content(): seq<Byte>
      reads this, data
    {
      if data == null then [] else data[..]
    }

    ghost predicate HasChild(name: Name)
      requires Ok()
      reads this
    {
      exists i :: 0 <= i < child_count && children[i].name == name
    }
  }

  /**
   * `vnode_t`: a fresh one is allocated by every lookup. Mount point and operation tables are those of tmpfs
   * throughout.
   */
  class Vnode {
    const internal: Inode
    const kind: Kind
    const name: Name
    var ref_count: nat

    constructor (inode: Inode, name: Name)
      ensures internal == inode && kind == inode.kind && this.name == name && ref_count == 1
    {
      internal, kind, this.name, ref_count := inode, inode.kind, name, 1;
    }
  }

  /** `file_t`. `id` numbers the handles; `path` is where the handle was opened. */
  class OpenFile {
    const vnode: Vnode
    var f_pos: nat
    var flags: bv32
    var ref_count: nat
    ghost const id: nat
    ghost const path: Path

    constructor (vnode: Vnode, ghost id: nat, ghost path: Path)
      ensures this.vnode == vnode && f_pos == 0 && ref_count == 1 && this.id == id && this.path == path
    {
      this.vnode, f_pos, flags, ref_count, this.id, this.path := vnode, 0, 0, 1, id, path;
    }
  }

  // ---------------------------------------------------------------- directories

  /** The search loop shared by the directory operations: the first child called `name`. */
  method FindChild(dir: Inode, name: Name) returns (at: Option<nat>)
    requires dir.Ok() && ValidName(name)
    ensures at.Some? <==> dir.HasChild(name)
    ensures at.Some? ==> at.value < dir.child_count && dir.children[at.value].name == name
  {
    var i := 0;
    while i < dir.child_count
      invariant 0 <= i <= dir.child_count
      invariant forall j :: 0 <= j < i ==> dir.children[j].name != name
    {
      TextOfLiteral(dir.children[i].name);
      TextOfLiteral(name);
      var c := Strcmp(dir.children[i].name + [0], name + [0]);
      if c == 0 {
        return Some(i);
      }
      i := i + 1;
    }
    at := None;
  }

  method TmpfsLookup(dir: Vnode, name: Name) returns (r: int, node: Vnode?)
    requires dir.internal.Ok() && ValidName(name)
    ensures r == 0 || r == -1
    ensures r == 0 <==> dir.internal.kind == VNODE_DIR && dir.internal.HasChild(name)
    ensures r == 0 ==> node != null && fresh(node) && node.ref_count == 1 && node.name == name
    ensures r == 0 ==> node.kind == node.internal.kind && node.internal.name == name
    ensures r == 0 ==> exists i :: 0 <= i < dir.internal.child_count && dir.internal.children[i] == node.internal
  {
    node := null;
    if dir.internal.kind != VNODE_DIR {
      return -1, null;
    }
    var at := FindChild(dir.internal, name);
    if at.Some? {
      node := new Vnode(dir.internal.children[at.value], name);
      return 0, node;
    }
    r := -1;
  }

  /** The new inode goes into the first unused slot of the directory. */
  twostate predicate Appended(dir: Inode, new child: Inode)
    reads dir
  {
    && old(dir.child_count) < MAX_CHILDREN == |old(dir.children)|
    && dir.child_count == old(dir.child_count) + 1
    && dir.children == old(dir.children)[old(dir.child_count) := child]
    && child.parent == dir && child.slot == old(dir.child_count)
  }

  method AddChild(dir: Inode, name: Name, kind: Kind, ghost path: Path) returns (child: Inode)
    requires dir.Ok() && dir.kind == VNODE_DIR && dir.child_count < MAX_CHILDREN && ValidName(name)
    modifies dir`children, dir`child_count
    ensures fresh(child) && child.kind == kind && child.name == name && child.path == path
    ensures child.size == 0 && child.data == null && child.child_count == 0 && child.Ok()
    ensures Appended(dir, child) && dir.Ok()
  {
    child := new Inode(kind, name, dir, path, dir.child_count);
    dir.children := dir.children[dir.child_count := child];
    dir.child_count := dir.child_count + 1;
  }

  method TmpfsCreate(dir: Vnode, name: Name, ghost path: Path) returns (r: int, node: Vnode?)
    requires dir.internal.Ok() && ValidName(name)
    requires dir.internal.kind == VNODE_DIR && !dir.internal.HasChild(name) ==> dir.internal.child_count < MAX_CHILDREN
    modifies dir.internal`children, dir.internal`child_count
    ensures dir.internal.Ok()
    ensures r == 0 || r == -1
    ensures r == 0 <==> dir.internal.kind == VNODE_DIR && !old(dir.internal.HasChild(name))
    ensures r == -1 ==> unchanged(dir.internal)
    ensures r == 0 ==> node != null && fresh(node) && node.ref_count == 1 && node.kind == VNODE_FILE
    ensures r == 0 ==> var c := node.internal; fresh(c) && c.kind == VNODE_FILE && c.name == name && c.path == path
    ensures r == 0 ==>
      var c := node.internal; c.size == 0 && c.data == null && c.child_count == 0 && c.Ok() && Appended(dir.internal, c)
  {
    node := null;
    if dir.internal.kind != VNODE_DIR {
      return -1, null;
    }
    var at := FindChild(dir.internal, name);
    if at.Some? {
      return -1, null;
    }
    var child := AddChild(dir.internal, name, VNODE_FILE, path);
    node := new Vnode(child, name);
    r := 0;
  }

  method TmpfsMkdir(dir: Vnode, name: Name, ghost path: Path) returns (r: int, ghost child: Inode?)
    requires dir.internal.Ok() && ValidName(name)
    requires dir.internal.kind == VNODE_DIR && !dir.internal.HasChild(name) ==> dir.internal.child_count < MAX_CHILDREN
    modifies dir.internal`children, dir.internal`child_count
    ensures dir.internal.Ok()
    ensures r == 0 || r == -1
    ensures r == 0 <==> dir.internal.kind == VNODE_DIR && !old(dir.internal.HasChild(name))
    ensures r == -1 ==> unchanged(dir.internal)
    ensures r == 0 ==>
      child != null && fresh(child) && child.kind == VNODE_DIR && child.name == name && child.path == path
    ensures r == 0 ==>
      child.size == 0 && child.data == null && child.child_count == 0 && child.Ok() && Appended(dir.internal, child)
  {
    child := null;
    if dir.internal.kind != VNODE_DIR {
      return -1, null;
    }
    var at := FindChild(dir.internal, name);
    if at.Some? {
      return -1, null;
    }
    var c := AddChild(dir.internal, name, VNODE_DIR, path);
    child := c;
    r := 0;
  }

  // ---------------------------------------------------------------- files

  method TmpfsRead(file: OpenFile, buf: array<Byte>, n: nat) returns (r: int)
    requires file.vnode.internal.Ok() && buf != file.vnode.internal.data
    requires n <= buf.Length && n < TWO32 && file.f_pos < TWO32
    requires file.f_pos < file.vnode.internal.size ==> file.f_pos + n < TWO32
    modifies file`f_pos, buf
    ensures file.vnode.internal.kind != VNODE_FILE ==>
      r == -1 && file.f_pos == old(file.f_pos) && buf[..] == old(buf[..])
    ensures file.vnode.internal.kind == VNODE_FILE ==>
      var b, pos := file.vnode.internal.Content(), old(file.f_pos);
      var d := Delivered(b, pos, n);
      r == I32(|d|) && file.f_pos == pos + |d| && buf[..] == d + old(buf[|d|..])
  {
    var inode := file.vnode.internal;
    if inode.kind != VNODE_FILE {
      return -1;
    }
    if file.f_pos >= inode.size {
      return 0;
    }
    var bytesToRead := n;
    if U32(file.f_pos + bytesToRead) > inode.size {
      bytesToRead := inode.size - file.f_pos;
    }
    Memcpy(buf, 0, inode.data, file.f_pos, bytesToRead);
    file.f_pos := file.f_pos + bytesToRead;
    return I32(bytesToRead);
  }

  /** `new Byte[..]` stands for `malloc`: its bytes are arbitrary, so the gap behind the old end is unspecified. */
  method TmpfsWrite(file: OpenFile, buf: array<Byte>, n: nat) returns (r: int)
    requires file.vnode.internal.Ok() && buf != file.vnode.internal.data
    requires n <= buf.Length && file.f_pos + n < TWO32
    modifies file`f_pos, file.vnode.internal`data, file.vnode.internal`size
    modifies if file.vnode.internal.data == null then {} else {file.vnode.internal.data}
    ensures file.vnode.internal.Ok()
    ensures file.vnode.internal.kind != VNODE_FILE ==>
      r == -1 && unchanged(file.vnode.internal) && file.f_pos == old(file.f_pos)
    ensures file.vnode.internal.kind == VNODE_FILE ==>
      && r == I32(n) && file.f_pos == old(file.f_pos) + n
      && Overlaid(old(file.vnode.internal.Content()), old(file.f_pos), buf[..n], file.vnode.internal.Content())
    ensures var d := file.vnode.internal.data; d == old(file.vnode.internal.data) || (d != null && fresh(d))
    ensures buf[..] == old(buf[..])
  {
    var inode := file.vnode.internal;
    if inode.kind != VNODE_FILE {
      return -1;
    }
    ghost var before := inode.Content();
    var newSize := U32(file.f_pos + n);
    if newSize > inode.size {
      var newData := new Byte[newSize];
      if inode.data != null {
        Memcpy(newData, 0, inode.data, 0, inode.size);
      }
      assert before == newData[..|before|];
      inode.data := newData;
      inode.size := newSize;
    }
    if n > 0 { // a copy of no bytes leaves even a NULL buffer alone
      Memcpy(inode.data, file.f_pos, buf, 0, n);
    }
    file.f_pos := file.f_pos + n;
    return I32(n);
  }

  method TmpfsOpen(node: Vnode, ghost id: nat, ghost path: Path) returns (file: OpenFile)
    modifies node`ref_count
    ensures fresh(file) && file.vnode == node && file.f_pos == 0 && file.ref_count == 1 && file.id == id
    ensures file.path == path
    ensures node.ref_count == old(node.ref_count) + 1
  {
    file := new OpenFile(node, id, path);
    node.ref_count := node.ref_count + 1;
  }

  /** `free` does nothing. */
  method TmpfsClose(file: OpenFile) returns (r: int)
    requires file.vnode.ref_count > 0
    modifies file.vnode`ref_count
    ensures r == 0 && file.vnode.ref_count == old(file.vnode.ref_count) - 1
  {
    file.vnode.ref_count := file.vnode.ref_count - 1;
    r := 0;
  }

  /** Positions are `uint32_t`, offsets and results `int`: both conversions are written out. */
  method TmpfsLseek(file: OpenFile, offset: int, whence: int) returns (r: int)
    requires -TWO31 <= offset < TWO31
    modifies file`f_pos
    ensures whence !in {0, 1, 2} ==> r == -1 && file.f_pos == old(file.f_pos)
    ensures whence in {0, 1, 2} ==>
      var base := if whence == 0 then 0 else if whence == 1 then old(file.f_pos) else file.vnode.internal.size;
      file.f_pos == U32(base + offset) && r == I32(base + offset)
  {
    var inode := file.vnode.internal;
    match whence {
      case 0 => file.f_pos := U32(offset);
      case 1 => file.f_pos := U32(file.f_pos + offset);
      case 2 => file.f_pos := U32(inode.size + offset);
      case _ => return -1;
    }
    return I32(file.f_pos);
  }

  // ---------------------------------------------------------------- the 32-bit sums

  /** What the bounds test of `tmpfs_read` makes of a request for `n` bytes at `pos`. */
  function Clipped(size: nat, pos: nat, n: nat): nat
    requires pos < size
  {
    if U32(pos + n) > size then size - pos else n
  }

  /** The test keeps a read inside the data just when position plus size does not wrap. */
  lemma ClipIsSafe(size: nat, pos: nat, n: nat)
    requires pos < size < TWO32 && n < TWO32
    ensures pos + Clipped(size, pos, n) <= size <==> pos + n < TWO32
  {
  }

  /** The size of the data after `tmpfs_write` has looked at `new_size`. */
  function Grown(size: nat, pos: nat, n: nat): nat {
    if U32(pos + n) > size then U32(pos + n) else size
  }

  /** The data reach the end of the write just when position plus size does not wrap. */
  lemma GrowthIsEnough(size: nat, pos: nat, n: nat)
    requires size < TWO32 && pos < TWO32 && n < TWO32
    ensures pos + n <= Grown(size, pos, n) <==> pos + n < TWO32
  {
  }

  /**
   * They go wrong: a read of 2^32 - 1 bytes from position 5 of a file of 10, and a write of 2 behind position 2^32 - 1.
   */
  lemma WrappedTransfers()
    ensures 5 + Clipped(10, 5, 0xFFFF_FFFF) > 10
    ensures Grown(10, 0xFFFF_FFFF, 2) == 10
  {
  }
}
