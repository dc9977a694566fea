/** What the flat file system guarantees, step by step and over whole runs. */
module FlatFsLaws {
  import opened Machine
  import opened Paths
  import opened FlatFs
  import opened FlatFsBasics

  // ---------------------------------------------------------------- the tree stays a tree

  lemma GrowWf(fs: map<Path, Node>, p: Path, n: Node)
    requires TreeWf(fs) && Resolve(fs, p) == Missing && n in {Dir, File([])}
    requires forall k :: 0 <= k < |p| ==> ValidName(p[k])
    ensures TreeWf(fs[p := n])
  {
  }

  /** Every allowed call leads from a well-formed state to a well-formed state. */
  lemma StepWf(s: State, op: Op, ret: Ret, s': State)
    requires Wf(s) && Allowed(s, op) && Step(s, op, ret, s')
    ensures Wf(s') && s.next <= s'.next
  {
    hide Wf, OpenStep, MkdirStep, ReadStep, WriteStep, LseekStep, CloseStep, Fits, Creates, ChildNames;
    match op
    case Open(path, flags) => OpenWf(s, path, flags);
    case Mkdir(path) => MkdirWf(s, path);
    case Read(h, n) => ReadWf(s, h, n);
    case Write(h, data) => WriteWf(s, h, data, ret.code, s');
    case Lseek(h, off, whence) => LseekWf(s, h, off, whence);
    case Close(h) => CloseWf(s, h);
  }

  lemma GrowStateWf(s: State, p: Path, n: Node)
    requires Wf(s) && Resolve(s.fs, p) == Missing && n in {Dir, File([])}
    requires forall k :: 0 <= k < |p| ==> ValidName(p[k])
    ensures Wf(s.(fs := s.fs[p := n]))
  {
    hide ValidName;
    GrowWf(s.fs, p, n);
  }

  lemma AddHandleWf(s: State, p: Path, flags: bv32)
    requires Wf(s) && p in s.fs && s.fs[p].File?
    ensures var s' := AddHandle(s, p, flags); Wf(s') && s.next <= s'.next
  {
    hide ValidName;
  }

  lemma OpenWf(s: State, path: seq<Byte>, flags: bv32)
    requires Wf(s) && 0 !in path && Fits(path)
    ensures var s' := OpenStep(s, path, flags).1; Wf(s') && s.next <= s'.next
  {
    ParseNames(path);
    hide ValidName, Parse, Fits, Wf, AddHandle;
    var p := Parse(path);
    if Resolve(s.fs, p) == Found && s.fs[p].File? {
      AddHandleWf(s, p, flags);
    } else if Resolve(s.fs, p) == Missing && Has(flags, O_CREAT) {
      GrowStateWf(s, p, File([]));
      AddHandleWf(s.(fs := s.fs[p := File([])]), p, flags);
    }
  }

  lemma MkdirWf(s: State, path: seq<Byte>)
    requires Wf(s) && 0 !in path && Fits(path)
    ensures var s' := MkdirStep(s, path).1; Wf(s') && s.next <= s'.next
  {
    ParseNames(path);
    hide ValidName, Parse, Fits, Wf;
    if Resolve(s.fs, Parse(path)) == Missing {
      GrowStateWf(s, Parse(path), Dir);
    }
  }

  lemma LseekWf(s: State, h: nat, off: int, whence: int)
    requires Wf(s) && h in s.handles && HandleWf(s, h)
    ensures var s' := LseekStep(s, h, off, whence).1; Wf(s') && s.next <= s'.next
  {
    hide TreeWf;
  }

  lemma CloseWf(s: State, h: nat)
    requires Wf(s)
    ensures var s' := CloseStep(s, h).1; Wf(s') && s.next <= s'.next
  {
    hide TreeWf;
  }

  lemma ReadWf(s: State, h: nat, n: nat)
    requires Wf(s) && Allowed(s, Read(h, n))
    ensures var s' := ReadStep(s, h, n).1; Wf(s') && s.next <= s'.next
  {
  }

  lemma WriteWf(s: State, h: nat, data: seq<Byte>, code: int, s': State)
    requires Wf(s) && Allowed(s, Write(h, data)) && WriteStep(s, h, data, code, s')
    ensures Wf(s') && s'.next == s.next
  {
    hide ValidName;
  }

  lemma {:induction false} RunWf(states: seq<State>, ops: seq<Op>, rets: seq<Ret>, i: nat)
    requires Run(states, ops, rets) && Wf(states[0]) && i <= |ops|
    ensures Wf(states[i]) && states[0].next <= states[i].next
  {
    hide Wf, Step, Allowed;
    if i > 0 {
      RunWf(states, ops, rets, i - 1);
      StepWf(states[i - 1], ops[i - 1], rets[i - 1], states[i]);
    }
  }

  /**
   * In every state that a run from `vfs_init` reaches, every proper prefix of a path is a directory, and a file has
   * nothing below it.
   */
  lemma ReachableTree(states: seq<State>, ops: seq<Op>, rets: seq<Ret>, i: nat, p: Path, k: nat)
    requires Run(states, ops, rets) && states[0] == MOUNTED && i <= |ops|
    requires p in states[i].fs && k <= |p|
    ensures p[..k] in states[i].fs
    ensures k < |p| ==> states[i].fs[p[..k]].Dir? && ValidName(p[k])
  {
    hide ValidName, Fits, Allowed, Step;
    RunWf(states, ops, rets, i);
    PrefixClosed(states[i].fs, p, k);
  }

  // ---------------------------------------------------------------- determinism

  /** A write that starts behind the end of the file. */
  ghost predicate LeavesGap(s: State, op: Op)
    requires Allowed(s, op)
  {
    op.Write? && CanWrite(s, op.h) && s.handles[op.h].pos > |Bytes(s, op.h)|
  }

  /** The answers are determined by the state; the next state too, but for the gap of a write behind the end. */
  lemma StepDeterministic(s: State, op: Op, r1: Ret, s1: State, r2: Ret, s2: State)
    requires Allowed(s, op) && Step(s, op, r1, s1) && Step(s, op, r2, s2)
    ensures r1 == r2
    ensures !LeavesGap(s, op) ==> s1 == s2
  {
    hide Fits, Creates, Parse, ChildNames;
    if op.Write? && CanWrite(s, op.h) && !LeavesGap(s, op) {
      var H := s.handles[op.h];
      OverlaidUnique(Bytes(s, op.h), H.pos, op.data, s1.fs[H.path].bytes, s2.fs[H.path].bytes);
    }
  }

  lemma OverlaidUnique(b: seq<Byte>, pos: nat, data: seq<Byte>, b1: seq<Byte>, b2: seq<Byte>)
    requires pos <= |b| && Overlaid(b, pos, data, b1) && Overlaid(b, pos, data, b2)
    ensures b1 == b2
  {
    forall i | 0 <= i < |b1| ensures b1[i] == b2[i] {
      if pos <= i < pos + |data| {
        assert b1[pos..pos + |data|][i - pos] == b2[pos..pos + |data|][i - pos];
      }
    }
  }

  // ---------------------------------------------------------------- frames

  /** The call writes to the file at `p`. */
  predicate WritesTo(s: State, op: Op, p: Path) {
    op.Write? && op.h in s.handles && CanWrite(s, op.h) && s.handles[op.h].path == p
  }

  predicate Uses(op: Op, h: nat) {
    match op
    case Open(_, _) => false
    case Mkdir(_) => false
    case _ => op.h == h
  }

  /** A call changes no existing node but the file it writes, and adds at most the path it names. */
  lemma StepFrame(s: State, op: Op, ret: Ret, s': State)
    requires Wf(s) && Allowed(s, op) && Step(s, op, ret, s')
    ensures forall q :: q in s.fs && !WritesTo(s, op, q) ==> q in s'.fs && s'.fs[q] == s.fs[q]
    ensures forall q :: q in s.fs ==> q in s'.fs && (s'.fs[q].Dir? <==> s.fs[q].Dir?)
    ensures forall q :: q in s'.fs && q !in s.fs ==>
      Creates(s, op) && q == Parse(op.path) && s'.fs[q] in {Dir, File([])}
  {
    hide Fits, Parse, ChildNames, ValidName, Overlaid;
    match op
    case Open(_, _) =>
    case Mkdir(_) =>
    case Read(_, _) =>
    case Write(_, _) =>
    case Lseek(_, _, _) =>
    case Close(_) =>
  }

  lemma StepFrameHandles(s: State, op: Op, ret: Ret, s': State)
    requires Wf(s) && Allowed(s, op) && Step(s, op, ret, s')
    ensures forall h :: h in s.handles && !Uses(op, h) ==> h in s'.handles && s'.handles[h] == s.handles[h]
    ensures forall h :: h in s.handles && h in s'.handles ==>
      s'.handles[h].path == s.handles[h].path && s'.handles[h].flags == s.handles[h].flags
  {
    hide Fits, Parse, ChildNames, ValidName, Overlaid, TreeWf, Resolve, Creates;
    match op
    case Open(_, _) =>
    case Mkdir(_) =>
    case Read(_, _) =>
    case Write(_, _) =>
    case Lseek(_, _, _) =>
    case Close(_) =>
  }

  /** Over a run, a file to which no call writes keeps its bytes, whatever the other handles do. */
  lemma {:induction false} RunKeepsFile(states: seq<State>, ops: seq<Op>, rets: seq<Ret>, p: Path, n: nat)
    requires Run(states, ops, rets) && Wf(states[0]) && n <= |ops|
    requires p in states[0].fs
    requires forall i :: 0 <= i < n ==> !WritesTo(states[i], ops[i], p)
    ensures p in states[n].fs && states[n].fs[p] == states[0].fs[p]
  {
    hide Wf, Allowed, Step, WritesTo;
    if n > 0 {
      RunKeepsFile(states, ops, rets, p, n - 1);
      RunWf(states, ops, rets, n - 1);
      StepFrame(states[n - 1], ops[n - 1], rets[n - 1], states[n]);
    }
  }

  /** Over a run, a handle that no call uses keeps its position. */
  lemma {:induction false} RunKeepsHandle(states: seq<State>, ops: seq<Op>, rets: seq<Ret>, h: nat, n: nat)
    requires Run(states, ops, rets) && Wf(states[0]) && n <= |ops|
    requires h in states[0].handles
    requires forall i :: 0 <= i < n ==> !Uses(ops[i], h)
    ensures h in states[n].handles && states[n].handles[h] == states[0].handles[h]
  {
    hide Wf, Allowed, Step, Uses;
    if n > 0 {
      RunKeepsHandle(states, ops, rets, h, n - 1);
      RunWf(states, ops, rets, n - 1);
      StepFrameHandles(states[n - 1], ops[n - 1], rets[n - 1], states[n]);
    }
  }

  /** Creating `p` changes the answer of the lookup for `p` and its extensions only. */
  lemma LookupAfterCreate(fs: map<Path, Node>, p: Path, n: Node, q: Path)
    requires TreeWf(fs) && Resolve(fs, p) == Missing
    ensures !(p <= q) ==> Resolve(fs[p := n], q) == Resolve(fs, q)
    ensures q == p ==> Resolve(fs[p := n], q) == Found
    ensures p < q ==> Resolve(fs, q) == Bad
    ensures p < q ==> Resolve(fs[p := n], q) == if |q| == |p| + 1 && n.Dir? then Missing else Bad
  {
    if p < q {
      assert q[..|p|] == p;
      if q in fs {
        PrefixClosed(fs, q, |p|);
      }
      assert Parent(q)[..|p|] == p;
      if Parent(q) in fs {
        PrefixClosed(fs, Parent(q), |p|);
      }
      assert |q| == |p| + 1 ==> Parent(q) == p;
    }
  }

  // ---------------------------------------------------------------- rights

  /** Opened with `O_RDONLY`, `O_WRONLY` or `O_RDWR` and any options, a handle can be read just when it was `O_RDWR`: */
  lemma ReadNeedsRdwr(s: State, h: nat, n: nat, mode: bv32, options: bv32)
    requires h in s.handles && HandleWf(s, h)
    requires mode in {O_RDONLY, O_WRONLY, O_RDWR} && options in {0, O_CREAT, O_APPEND, O_CREAT | O_APPEND}
    requires s.handles[h].flags == mode | options
    ensures CanRead(s, h) <==> mode == O_RDWR
    ensures CanWrite(s, h) <==> mode != O_RDONLY
    ensures mode == O_RDONLY ==> ReadStep(s, h, n) == (Ret(-1, []), s)
  {
  }

  // ---------------------------------------------------------------- the table of open files

  /** The table lists live handles only, and no more than there are slots. */
  lemma {:induction false} TableBounds(states: seq<State>, ops: seq<Op>, rets: seq<Ret>, n: nat)
    requires Run(states, ops, rets) && Wf(states[0]) && n <= |ops|
    ensures Tables(states, ops, n) <= states[n].handles.Keys && |Tables(states, ops, n)| <= 64
    decreases n
  {
    hide Run, Step, Allowed, Wf, TableAfter, Tables;
    RunLength(states, ops, rets);
    TableIs(states, ops, n);
    if n > 0 {
      TableBounds(states, ops, rets, n - 1);
      RunWf(states, ops, rets, n - 1);
      RunAt(states, ops, rets, n - 1);
      TableStep(states[n - 1], ops[n - 1], rets[n - 1], states[n], Tables(states, ops, n - 1));
    }
  }

  lemma TableIs(states: seq<State>, ops: seq<Op>, n: nat)
    requires n <= |ops| < |states|
    ensures n == 0 ==> Tables(states, ops, n) == {}
    ensures n > 0 ==>
      Tables(states, ops, n) == TableAfter(states[n - 1], ops[n - 1], states[n], Tables(states, ops, n - 1))
  {
    hide TableAfter;
  }

  lemma TableStep(s: State, op: Op, ret: Ret, s': State, table: set<nat>)
    requires Wf(s) && Allowed(s, op) && Step(s, op, ret, s') && table <= s.handles.Keys && |table| <= MAX_OPEN_FILES
    ensures TableAfter(s, op, s', table) <= s'.handles.Keys && |TableAfter(s, op, s', table)| <= MAX_OPEN_FILES
    ensures table == s.handles.Keys && |s'.handles| <= MAX_OPEN_FILES ==>
      TableAfter(s, op, s', table) == s'.handles.Keys
  {
    hide Fits, Parse, ValidName, Resolve, Creates, TreeWf;
    HandlesAfter(s, op, ret, s');
    if op.Open? && s.next < s'.next {
      assert |s'.handles| == |s'.handles.Keys| == |s.handles.Keys| + 1;
    } else if op.Close? {
      SmallerTable(table, op.h);
    }
  }

  lemma SmallerTable(table: set<nat>, h: nat)
    ensures |table - {h}| <= |table|
  {
    if h in table {
      assert table == (table - {h}) + {h};
    } else {
      assert table - {h} == table;
    }
  }

  /** An open adds the next number, a close takes one away. */
  lemma HandlesAfter(s: State, op: Op, ret: Ret, s': State)
    requires Wf(s) && Allowed(s, op) && Step(s, op, ret, s')
    ensures op.Open? && s.next < s'.next ==> s'.handles.Keys == s.handles.Keys + {s.next} && s.next !in s.handles
    ensures op.Open? && !(s.next < s'.next) ==> s'.handles == s.handles
    ensures op.Close? ==> s'.handles.Keys == s.handles.Keys - {op.h}
    ensures !op.Open? && !op.Close? ==> s'.handles.Keys == s.handles.Keys
    ensures !op.Open? ==> s'.next == s.next
  {
    hide Fits, Parse, ValidName, Resolve, Creates, TreeWf, Overlaid;
  }

  /**
   * Up to any point of a run, the table lists exactly the live handles if and only if there were never more than 64.
   */
  lemma {:induction false} TableExactIff(states: seq<State>, ops: seq<Op>, rets: seq<Ret>, n: nat)
    requires Run(states, ops, rets) && states[0] == MOUNTED && n <= |ops|
    ensures (forall i :: 0 <= i <= n ==> Tables(states, ops, i) == states[i].handles.Keys)
      <==> (forall i :: 0 <= i <= n ==> |states[i].handles| <= 64)
    decreases n
  {
    hide Run, Wf, Tables;
    RunLength(states, ops, rets);
    forall i | 0 <= i <= n && Tables(states, ops, i) == states[i].handles.Keys
      ensures |states[i].handles| <= MAX_OPEN_FILES
    {
      MountedWf();
      TableBounds(states, ops, rets, i);
    }
    if forall i :: 0 <= i <= n ==> |states[i].handles| <= MAX_OPEN_FILES {
      forall i | 0 <= i <= n ensures Tables(states, ops, i) == states[i].handles.Keys {
        FewHandles(states, ops, rets, i);
      }
    }
  }

  lemma MountedWf()
    ensures Wf(MOUNTED)
  {
  }

  lemma {:induction false} FewHandles(states: seq<State>, ops: seq<Op>, rets: seq<Ret>, n: nat)
    requires Run(states, ops, rets) && states[0] == MOUNTED && n <= |ops|
    requires forall i :: 0 <= i <= n ==> |states[i].handles| <= MAX_OPEN_FILES
    ensures Tables(states, ops, n) == states[n].handles.Keys
    decreases n
  {
    hide Run, Step, Allowed, Wf, TableAfter;
    RunLength(states, ops, rets);
    if n > 0 {
      FewHandles(states, ops, rets, n - 1);
      MountedWf();
      TableBounds(states, ops, rets, n - 1);
      RunWf(states, ops, rets, n - 1);
      RunAt(states, ops, rets, n - 1);
      TableStep(states[n - 1], ops[n - 1], rets[n - 1], states[n], Tables(states, ops, n - 1));
    }
  }

  lemma RunLength(states: seq<State>, ops: seq<Op>, rets: seq<Ret>)
    requires Run(states, ops, rets)
    ensures |states| == |ops| + 1 && |rets| == |ops|
  {
  }

  lemma RunAt(states: seq<State>, ops: seq<Op>, rets: seq<Ret>, i: nat)
    requires Run(states, ops, rets) && i < |ops|
    ensures Allowed(states[i], ops[i]) && Step(states[i], ops[i], rets[i], states[i + 1])
  {
  }

  /**
   * A handle that is still live is on the table exactly if it had room when it was opened: it is never put on later.
   */
  lemma {:induction false} ListedIff(states: seq<State>, ops: seq<Op>, rets: seq<Ret>, i: nat, n: nat)
    requires Run(states, ops, rets) && states[0] == MOUNTED && i < n <= |ops|
    requires states[i].next < states[i + 1].next && states[i].next in states[n].handles
    ensures states[i].next in Tables(states, ops, n) <==> |Tables(states, ops, i)| < 64
    decreases n
  {
    hide Run, Tables;
    RunLength(states, ops, rets);
    if n == i + 1 {
      ListedAtOpen(states, ops, rets, i);
    } else {
      MountedWf();
      NextGrows(states, ops, rets, i + 1, n - 1);
      ListingKept(states, ops, rets, n - 1, states[i].next);
      ListedIff(states, ops, rets, i, n - 1);
    }
  }

  lemma ListedAtOpen(states: seq<State>, ops: seq<Op>, rets: seq<Ret>, i: nat)
    requires Run(states, ops, rets) && states[0] == MOUNTED && i < |ops| && states[i].next < states[i + 1].next
    ensures states[i].next in Tables(states, ops, i + 1) <==> |Tables(states, ops, i)| < MAX_OPEN_FILES
  {
    hide Run, Step, Allowed, Wf, TableAfter, Tables;
    RunLength(states, ops, rets);
    TableIs(states, ops, i + 1);
    MountedWf();
    RunWf(states, ops, rets, i);
    RunAt(states, ops, rets, i);
    TableBounds(states, ops, rets, i);
    HandlesAfter(states[i], ops[i], rets[i], states[i + 1]);
    TableTurns(states[i], ops[i], states[i + 1], Tables(states, ops, i), states[i].next);
  }

  lemma ListingKept(states: seq<State>, ops: seq<Op>, rets: seq<Ret>, i: nat, h: nat)
    requires Run(states, ops, rets) && states[0] == MOUNTED && i < |ops|
    requires h < states[i].next && h in states[i + 1].handles
    ensures h in states[i].handles && (h in Tables(states, ops, i + 1) <==> h in Tables(states, ops, i))
  {
    hide Run, Step, Allowed, Wf, TableAfter, Tables;
    RunLength(states, ops, rets);
    TableIs(states, ops, i + 1);
    MountedWf();
    RunWf(states, ops, rets, i);
    RunAt(states, ops, rets, i);
    HandlesAfter(states[i], ops[i], rets[i], states[i + 1]);
    TableTurns(states[i], ops[i], states[i + 1], Tables(states, ops, i), h);
    assert h in states[i + 1].handles.Keys;
  }

  /** A call changes the listing of the handle it opens or closes, and of no other. */
  lemma TableTurns(s: State, op: Op, s': State, table: set<nat>, h: nat)
    ensures !(op.Close? && op.h == h) && !(op.Open? && s.next == h) ==>
      (h in TableAfter(s, op, s', table) <==> h in table)
    ensures op.Open? && s.next == h < s'.next && h !in table ==>
      (h in TableAfter(s, op, s', table) <==> |table| < MAX_OPEN_FILES)
  {
  }

  lemma {:induction false} NextGrows(states: seq<State>, ops: seq<Op>, rets: seq<Ret>, i: nat, n: nat)
    requires Run(states, ops, rets) && Wf(states[0]) && i <= n <= |ops|
    ensures states[i].next <= states[n].next
    decreases n
  {
    hide Run, Wf;
    RunLength(states, ops, rets);
    if i < n {
      NextGrows(states, ops, rets, i, n - 1);
      NextStep(states, ops, rets, n - 1);
    }
  }

  lemma NextStep(states: seq<State>, ops: seq<Op>, rets: seq<Ret>, i: nat)
    requires Run(states, ops, rets) && Wf(states[0]) && i < |ops|
    ensures states[i].next <= states[i + 1].next
  {
    hide *;
    RunLength(states, ops, rets);
    RunWf(states, ops, rets, i);
    RunAt(states, ops, rets, i);
    StepWf(states[i], ops[i], rets[i], states[i + 1]);
  }

  // ---------------------------------------------------------------- more than 64 open files

  /** "/a" */
  const PATH_A: seq<Byte> := [SLASH, 97]

  lemma PathA()
    ensures Parse(PATH_A) == [[97]] && Fits(PATH_A) && ValidName([97])
  {
    assert Split([97], [SLASH]) == [[97]];
    assert PATH_A[1..] == [97];
    assert LeadingSlashes([97]) == 0;
  }

  function Numbered(n: nat): (m: map<nat, Handle>)
    ensures |m| == n && forall h: nat :: h in m <==> h < n
  {
    if n == 0 then map[] else Numbered(n - 1)[n - 1 := Handle([[97]], 0, O_CREAT)]
  }

  /** After `n` opens of "/a" that may create it. */
  function Opened(n: nat): State {
    State(if n == 0 then MOUNTED.fs else MOUNTED.fs[[[97]] := File([])], Numbered(n), n)
  }

  lemma OpenAgain(n: nat)
    ensures Allowed(Opened(n), Open(PATH_A, O_CREAT))
    ensures Step(Opened(n), Open(PATH_A, O_CREAT), Ret(0, []), Opened(n + 1))
  {
    hide Fits, Parse, ValidName;
    PathA();
    var s := Opened(n);
    assert Parent([[97]]) == [];
    assert Has(O_CREAT, O_CREAT) && !Has(O_CREAT, O_APPEND);
    assert ChildNames(MOUNTED.fs, []) == {};
    assert s.fs[[[97]] := File([])] == Opened(n + 1).fs;
  }

  /** Any number of files can be opened, without an error; and from the 65th on the table misses some of them. */
  lemma ManyOpens(n: nat) returns (states: seq<State>, ops: seq<Op>, rets: seq<Ret>)
    ensures Run(states, ops, rets) && states[0] == MOUNTED && |ops| == n
    ensures forall i :: 0 <= i < n ==> rets[i].code == 0
    ensures forall i :: 0 <= i <= n ==> states[i] == Opened(i) && |states[i].handles| == i
    ensures (exists i :: 0 <= i <= n && Tables(states, ops, i) != states[i].handles.Keys) <==> n > 64
  {
    hide Run, Tables;
    states, ops, rets := OpenRun(n);
    RunLength(states, ops, rets);
    TableExactIff(states, ops, rets, n);
    if n > MAX_OPEN_FILES {
      assert |states[n].handles| == n;
    }
  }

  lemma {:induction false} OpenRun(n: nat) returns (states: seq<State>, ops: seq<Op>, rets: seq<Ret>)
    ensures Run(states, ops, rets) && |ops| == n
    ensures forall i :: 0 <= i < n ==> rets[i].code == 0
    ensures forall i :: 0 <= i <= n ==> states[i] == Opened(i)
    ensures states[0] == MOUNTED
    decreases n
  {
    if n == 0 {
      states, ops, rets := [MOUNTED], [], [];
    } else {
      states, ops, rets := OpenRun(n - 1);
      hide Allowed, Step, Opened;
      OpenAgain(n - 1);
      var op := Open(PATH_A, O_CREAT);
      assert (ops + [op])[..n - 1] == ops && (ops + [op])[..n] == ops + [op];
      RunExtend(states, ops + [op], rets, Ret(0, []), Opened(n));
      states, ops, rets := states + [Opened(n)], ops + [op], rets + [Ret(0, [])];
    }
  }
}
