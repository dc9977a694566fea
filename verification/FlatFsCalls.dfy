/** The calls one by one, by what is there before and after, and what one call does for those that follow it. */
module FlatFsCalls {
  import opened Machine
  import opened Paths
  import opened FlatFs
  import opened FlatFsBasics
  import opened FlatFsLaws

  ghost predicate IsFile(fs: map<Path, Node>, p: Path) {
    p in fs && fs[p].File?
  }

  ghost predicate IsDir(fs: map<Path, Node>, p: Path) {
    p in fs && fs[p] == Dir
  }

  /** Nothing has this path, and all but its last name is a directory. */
  ghost predicate Creatable(fs: map<Path, Node>, p: Path) {
    p !in fs && p != [] && IsDir(fs, p[..|p| - 1])
  }

  /** The path has a node, and no other node differs. */
  ghost predicate OnlyNode(fs: map<Path, Node>, fs': map<Path, Node>, p: Path) {
    fs'.Keys == fs.Keys + {p} && forall q :: q in fs && q != p ==> fs'[q] == fs[q]
  }

  /** The handle is at this position, and no other handle differs. */
  ghost predicate OnlyMoved(s: State, s': State, h: nat, pos: int) {
    && s'.next == s.next && s'.handles.Keys == s.handles.Keys && h in s.handles
    && s'.handles[h].pos == pos && s'.handles[h].path == s.handles[h].path && s'.handles[h].flags == s.handles[h].flags
    && forall g :: g in s.handles && g != h ==> s'.handles[g] == s.handles[g]
  }

  function Min(a: int, b: int): int { if a < b then a else b }

  function Max(a: int, b: int): int { if a < b then b else a }

  // ---------------------------------------------------------------- call by call

  /** `vfs_mkdir` answers 0 exactly if there is a place for the directory, and then, and only then, makes it. */
  lemma MkdirMakes(s: State, path: seq<Byte>, ret: Ret, s': State)
    requires Allowed(s, Mkdir(path)) && Step(s, Mkdir(path), ret, s')
    ensures ret in {Ret(0, []), Ret(-1, [])} && (ret.code == 0 <==> Creatable(s.fs, Parse(path)))
    ensures ret.code == 0 ==> IsDir(s'.fs, Parse(path)) && OnlyNode(s.fs, s'.fs, Parse(path))
    ensures s'.handles == s.handles && s'.next == s.next && (ret.code == -1 ==> s' == s)
  {
    hide Parse, Fits;
  }

  /**
   * `vfs_open` answers 0 exactly for a file, or with O_CREAT for a free place, where it makes an empty one. The new
   * handle stands at the end with O_APPEND and at the start without.
   */
  lemma OpenOpens(s: State, path: seq<Byte>, flags: bv32, ret: Ret, s': State)
    requires Allowed(s, Open(path, flags)) && Step(s, Open(path, flags), ret, s')
    ensures var p := Parse(path);
      && ret in {Ret(0, []), Ret(-1, [])}
      && (ret.code == 0 <==> IsFile(s.fs, p) || (Creatable(s.fs, p) && flags & 0x0100 != 0))
      && (ret.code == -1 ==> s' == s)
      && (ret.code == 0 ==>
            && IsFile(s'.fs, p) && OnlyNode(s.fs, s'.fs, p)
            && s'.fs[p].bytes == (if p in s.fs then s.fs[p].bytes else [])
            && s'.next == s.next + 1 && s'.handles.Keys == s.handles.Keys + {s.next}
            && s'.handles[s.next] == Handle(p, if flags & 0x2000 != 0 then |s'.fs[p].bytes| else 0, flags)
            && forall g :: g in s.handles && g != s.next ==> s'.handles[g] == s.handles[g])
  {
    hide Parse, Fits, ChildNames;
  }

  /**
   * `vfs_read` delivers the bytes from the position on, as many as there are and are asked for, and moves behind them.
   */
  lemma ReadReads(s: State, h: nat, n: nat, ret: Ret, s': State)
    requires Allowed(s, Read(h, n)) && Step(s, Read(h, n), ret, s')
    ensures s.handles[h].flags & 0x0002 == 0 ==> ret == Ret(-1, []) && s' == s
    ensures s.handles[h].flags & 0x0002 != 0 ==>
      var b, pos := s.fs[s.handles[h].path].bytes, s.handles[h].pos;
      && |ret.data| == Max(0, Min(n, |b| - pos)) && (forall i :: 0 <= i < |ret.data| ==> ret.data[i] == b[pos + i])
      && (|ret.data| < 0x8000_0000 ==> ret.code == |ret.data|)
      && s'.fs == s.fs && OnlyMoved(s, s', h, pos + |ret.data|)
  {
  }

  /**
   * `vfs_write` lays its data over the file from the position on and moves behind them; the file grows as far as it
   * must.
   */
  lemma WriteWrites(s: State, h: nat, data: seq<Byte>, ret: Ret, s': State)
    requires Allowed(s, Write(h, data)) && Step(s, Write(h, data), ret, s')
    ensures s.handles[h].flags & 0x0003 == 0 ==> ret == Ret(-1, []) && s' == s
    ensures s.handles[h].flags & 0x0003 != 0 ==>
      var p, pos := s.handles[h].path, s.handles[h].pos;
      && ret.data == [] && (|data| < 0x8000_0000 ==> ret.code == |data|)
      && OnlyNode(s.fs, s'.fs, p) && IsFile(s'.fs, p) && OnlyMoved(s, s', h, pos + |data|)
      && var b, b' := s.fs[p].bytes, s'.fs[p].bytes;
      && |b'| == Max(|b|, pos + |data|)
      && (forall i :: 0 <= i < |data| ==> b'[pos + i] == data[i])
      && (forall i :: 0 <= i < |b| && !(pos <= i < pos + |data|) ==> b'[i] == b[i])
  {
    WriteRights(s.handles[h].flags);
    if CanWrite(s, h) {
      var b' := s'.fs[s.handles[h].path].bytes;
      var pos := s.handles[h].pos;
      forall i | 0 <= i < |data| ensures b'[pos + i] == data[i] {
        assert b'[pos + i] == b'[pos..pos + |data|][i];
      }
    }
  }

  lemma WriteRights(flags: bv32)
    ensures flags & 0x0003 != 0 <==> flags & 0x0001 != 0 || flags & 0x0002 != 0
  {
  }

  /** Where the three origins of `vfs_lseek` are. */
  function Origin(s: State, h: nat, whence: int): nat
    requires h in s.handles && HandleWf(s, h)
  {
    if whence == 0 then 0 else if whence == 1 then s.handles[h].pos else |s.fs[s.handles[h].path].bytes|
  }

  /**
   * `vfs_lseek` moves to the origin plus the offset, modulo 2^32, and answers with the same number read as a signed
   * one; any other origin is refused.
   */
  lemma LseekMoves(s: State, h: nat, off: int, whence: int, ret: Ret, s': State)
    requires Allowed(s, Lseek(h, off, whence)) && Step(s, Lseek(h, off, whence), ret, s')
    ensures ret.data == [] && s'.fs == s.fs
    ensures whence !in {0, 1, 2} ==> ret.code == -1 && s' == s
    ensures whence in {0, 1, 2} ==>
      var target := Origin(s, h, whence) + off;
      && OnlyMoved(s, s', h, target % 0x1_0000_0000) && (0 <= target < TWO32 ==> OnlyMoved(s, s', h, target))
      && -0x8000_0000 <= ret.code < 0x8000_0000 && ret.code % 0x1_0000_0000 == target % 0x1_0000_0000
      && (0 <= target < 0x8000_0000 ==> ret.code == target == s'.handles[h].pos)
  {
  }

  /** `vfs_close` answers 0 and takes the handle away, and nothing else. */
  lemma CloseCloses(s: State, h: nat, ret: Ret, s': State)
    requires Allowed(s, Close(h)) && Step(s, Close(h), ret, s')
    ensures ret == Ret(0, []) && s'.fs == s.fs && s'.next == s.next && s'.handles.Keys == s.handles.Keys - {h}
    ensures forall g :: g in s.handles && g != h ==> s'.handles[g] == s.handles[g]
  {
  }

  // ---------------------------------------------------------------- one call after another

  lemma Suffix(states: seq<State>, ops: seq<Op>, rets: seq<Ret>, i: nat)
    requires Run(states, ops, rets) && Wf(states[0]) && i <= |ops|
    ensures Run(states[i..], ops[i..], rets[i..]) && Wf(states[i])
  {
    RunWf(states, ops, rets, i);
    hide Wf, Allowed, Step;
  }

  lemma {:induction false} DirStays(states: seq<State>, ops: seq<Op>, rets: seq<Ret>, p: Path, n: nat)
    requires Run(states, ops, rets) && Wf(states[0]) && n <= |ops| && IsDir(states[0].fs, p)
    ensures IsDir(states[n].fs, p)
    decreases n
  {
    hide Run, Wf, Allowed, Step;
    RunLength(states, ops, rets);
    if n > 0 {
      DirStays(states, ops, rets, p, n - 1);
      RunWf(states, ops, rets, n - 1);
      RunAt(states, ops, rets, n - 1);
      StepFrame(states[n - 1], ops[n - 1], rets[n - 1], states[n]);
    }
  }

  /**
   * Once a mkdir was answered with 0, whatever calls follow, an open with O_CREAT of a name in that directory is
   * answered with 0, unless the name has become a directory.
   */
  lemma MadeDirectoryHolds(states: seq<State>, ops: seq<Op>, rets: seq<Ret>, i: nat, n: nat, name: Name)
    requires Run(states, ops, rets) && Wf(states[0]) && i < n < |ops|
    requires ops[i].Mkdir? && rets[i].code == 0
    requires ops[n].Open? && ops[n].flags & 0x0100 != 0 && Parse(ops[n].path) == Parse(ops[i].path) + [name]
    ensures rets[n].code == 0 <==> !IsDir(states[n].fs, Parse(ops[i].path) + [name])
  {
    hide Run, Wf, Allowed, Step, Parse;
    RunLength(states, ops, rets);
    var p := Parse(ops[i].path);
    RunAt(states, ops, rets, i);
    RunAt(states, ops, rets, n);
    MkdirMakes(states[i], ops[i].path, rets[i], states[i + 1]);
    Suffix(states, ops, rets, i + 1);
    DirStays(states[i + 1..], ops[i + 1..], rets[i + 1..], p, n - i - 1);
    OpenOpens(states[n], ops[n].path, ops[n].flags, rets[n], states[n + 1]);
    assert (p + [name])[..|p + [name]| - 1] == p;
  }

  /** Right after it, the open of any valid path to a name in it is allowed, and answered with 0. */
  lemma MkdirThenOpen(s: State, path: seq<Byte>, ret: Ret, s': State, below: seq<Byte>, flags: bv32, name: Name)
    requires Wf(s) && Allowed(s, Mkdir(path)) && Step(s, Mkdir(path), ret, s') && ret.code == 0
    requires 0 !in below && Fits(below) && Parse(below) == Parse(path) + [name] && flags & 0x0100 != 0
    ensures Allowed(s', Open(below, flags))
    ensures forall r, s'' :: Step(s', Open(below, flags), r, s'') ==> r == Ret(0, []) && IsFile(s''.fs, Parse(below))
  {
    var p, q := Parse(path), Parse(below);
    assert q[..|q| - 1] == p;
    StepWf(s, Mkdir(path), ret, s');
    MkdirMakes(s, path, ret, s');
    hide Fits, Parse;
    NothingBelow(s, s', p);
    assert q !in s'.fs;
    assert Allowed(s', Open(below, flags));
    hide Step;
    forall r, s'' | Step(s', Open(below, flags), r, s'')
      ensures r == Ret(0, []) && IsFile(s''.fs, q)
    {
      OpenOpens(s', below, flags, r, s'');
    }
  }

  lemma NothingBelow(s: State, s': State, p: Path)
    requires Wf(s) && p !in s.fs && OnlyNode(s.fs, s'.fs, p)
    ensures ChildNames(s'.fs, p) == {}
    ensures forall name :: p + [name] !in s'.fs
  {
    forall name ensures p + [name] !in s'.fs {
      assert Parent(p + [name]) == p;
    }
  }

  /**
   * The handle that an open gave is the one that the run had last; until it is used, it stands where the open put it.
   */
  lemma OpenedAt(states: seq<State>, ops: seq<Op>, rets: seq<Ret>, i: nat, n: nat)
    requires Run(states, ops, rets) && Wf(states[0]) && i < n <= |ops|
    requires ops[i].Open? && rets[i].code == 0
    requires forall k :: i < k < n ==> !Uses(ops[k], states[i].next)
    ensures var h, p := states[i].next, Parse(ops[i].path);
      && IsFile(states[i + 1].fs, p) && IsFile(states[n].fs, p) && h in states[n].handles
      && states[n].handles[h] ==
         Handle(p, if ops[i].flags & 0x2000 != 0 then |states[i + 1].fs[p].bytes| else 0, ops[i].flags)
      && |states[i + 1].fs[p].bytes| <= |states[n].fs[p].bytes|
  {
    hide Run, Wf, Allowed, Step, Parse, Uses;
    RunLength(states, ops, rets);
    var h := states[i].next;
    RunAt(states, ops, rets, i);
    OpenOpens(states[i], ops[i].path, ops[i].flags, rets[i], states[i + 1]);
    Suffix(states, ops, rets, i + 1);
    var ss, os, rs := states[i + 1..], ops[i + 1..], rets[i + 1..];
    forall k | 0 <= k < n - i - 1 ensures !Uses(os[k], h) {
      assert os[k] == ops[i + 1 + k];
    }
    RunKeepsHandle(ss, os, rs, h, n - i - 1);
    FileStays(ss, os, rs, Parse(ops[i].path), n - i - 1);
  }

  /** Files stay files, and never shrink. */
  lemma {:induction false} FileStays(states: seq<State>, ops: seq<Op>, rets: seq<Ret>, p: Path, n: nat)
    requires Run(states, ops, rets) && Wf(states[0]) && n <= |ops| && IsFile(states[0].fs, p)
    ensures IsFile(states[n].fs, p) && |states[0].fs[p].bytes| <= |states[n].fs[p].bytes|
    decreases n
  {
    hide Run, Wf, Allowed, Step, WritesTo;
    RunLength(states, ops, rets);
    if n > 0 {
      FileStays(states, ops, rets, p, n - 1);
      RunWf(states, ops, rets, n - 1);
      RunAt(states, ops, rets, n - 1);
      FileGrows(states[n - 1], ops[n - 1], rets[n - 1], states[n], p);
    }
  }

  lemma FileGrows(s: State, op: Op, ret: Ret, s': State, p: Path)
    requires Wf(s) && Allowed(s, op) && Step(s, op, ret, s') && IsFile(s.fs, p)
    ensures IsFile(s'.fs, p) && |s.fs[p].bytes| <= |s'.fs[p].bytes|
  {
    hide Wf, Step, Allowed;
    StepFrame(s, op, ret, s');
    if WritesTo(s, op, p) {
      WriteWrites(s, op.h, op.data, ret, s');
    }
  }

  /**
   * An open without O_APPEND and, whatever other handles do meanwhile, a first read through the new handle: it delivers
   * the first bytes of the file.
   */
  lemma OpenThenRead(states: seq<State>, ops: seq<Op>, rets: seq<Ret>, i: nat, n: nat, size: nat)
    requires Run(states, ops, rets) && Wf(states[0]) && i < n < |ops|
    requires ops[i].Open? && rets[i].code == 0 && ops[i].flags & 0x2000 == 0 && ops[i].flags & 0x0002 != 0
    requires forall k :: i < k < n ==> !Uses(ops[k], states[i].next)
    requires ops[n] == Read(states[i].next, size)
    ensures IsFile(states[n].fs, Parse(ops[i].path))
    ensures var b := states[n].fs[Parse(ops[i].path)].bytes;
      && rets[n].data == b[..Min(size, |b|)]
      && (Min(size, |b|) < 0x8000_0000 ==> rets[n].code == Min(size, |b|))
  {
    hide Run, Wf, Allowed, Step, Parse, Uses;
    RunLength(states, ops, rets);
    OpenedAt(states, ops, rets, i, n);
    RunAt(states, ops, rets, n);
    ReadReads(states[n], states[i].next, size, rets[n], states[n + 1]);
  }

  /**
   * An open with O_APPEND, and a first write through the new handle: the data are appended if and only if the file has
   * not grown since the open (or there are no data), for the position is only set then.
   */
  lemma AppendThenWrite(states: seq<State>, ops: seq<Op>, rets: seq<Ret>, i: nat, n: nat, data: seq<Byte>)
    requires Run(states, ops, rets) && Wf(states[0]) && i < n < |ops|
    requires ops[i].Open? && rets[i].code == 0 && ops[i].flags & 0x2000 != 0 && ops[i].flags & 0x0003 != 0
    requires forall k :: i < k < n ==> !Uses(ops[k], states[i].next)
    requires ops[n] == Write(states[i].next, data)
    ensures var p := Parse(ops[i].path);
      && IsFile(states[i + 1].fs, p) && IsFile(states[n].fs, p) && IsFile(states[n + 1].fs, p)
      && (states[n + 1].fs[p].bytes == states[n].fs[p].bytes + data
          <==> data == [] || |states[n].fs[p].bytes| == |states[i + 1].fs[p].bytes|)
  {
    hide Run, Wf, Allowed, Step, Parse, Uses;
    RunLength(states, ops, rets);
    OpenedAt(states, ops, rets, i, n);
    RunAt(states, ops, rets, n);
    WriteWrites(states[n], states[i].next, data, rets[n], states[n + 1]);
    var p := Parse(ops[i].path);
    var b, b' := states[n].fs[p].bytes, states[n + 1].fs[p].bytes;
    if data == [] {
      assert b' == b;
    } else if |b| == |states[i + 1].fs[p].bytes| {
      forall k | 0 <= k < |b'| ensures b'[k] == (b + data)[k] {
        if k >= |b| {
          assert b'[|b| + (k - |b|)] == data[k - |b|];
        }
      }
    }
  }

  /** A seek to a place in the file, from any origin, and a read: it delivers what stands there. */
  lemma SeekThenRead(s: State, h: nat, off: int, whence: int, size: nat, ret: Ret, s': State, got: Ret, s'': State)
    requires Allowed(s, Lseek(h, off, whence)) && Step(s, Lseek(h, off, whence), ret, s')
    requires Allowed(s', Read(h, size)) && Step(s', Read(h, size), got, s'')
    requires Wf(s) && s.handles[h].flags & 0x0002 != 0 && whence in {0, 1, 2}
    requires 0 <= Origin(s, h, whence) + off <= |s.fs[s.handles[h].path].bytes|
    ensures var b, at := s.fs[s.handles[h].path].bytes, Origin(s, h, whence) + off;
      got.data == b[at..at + Min(size, |b| - at)]
  {
    hide Step, Wf, Origin;
    SeekInside(s, h, off, whence, ret, s');
    ReadReads(s', h, size, got, s'');
  }

  lemma SeekInside(s: State, h: nat, off: int, whence: int, ret: Ret, s': State)
    requires Wf(s) && Allowed(s, Lseek(h, off, whence)) && Step(s, Lseek(h, off, whence), ret, s')
    requires whence in {0, 1, 2}
    requires 0 <= Origin(s, h, whence) + off <= |s.fs[s.handles[h].path].bytes|
    ensures s'.fs == s.fs && OnlyMoved(s, s', h, Origin(s, h, whence) + off)
  {
    hide Step, Origin, OnlyMoved, Wf;
    LseekMoves(s, h, off, whence, ret, s');
    FileSize(s, s.handles[h].path);
  }

  lemma FileSize(s: State, p: Path)
    requires Wf(s) && IsFile(s.fs, p)
    ensures |s.fs[p].bytes| < TWO32
  {
  }
}
