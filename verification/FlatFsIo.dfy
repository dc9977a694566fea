/** Reading and writing over whole runs: files are overlays of writes, and cutting a transfer up changes nothing. */
module FlatFsIo {
  import opened Machine
  import opened Paths
  import opened FlatFs
  import opened FlatFsLaws

  // ---------------------------------------------------------------- overlays

  /** Bytes laid down at a position. */
  datatype Patch = Patch(pos: nat, data: seq<Byte>)

  /** A cell of a file: the byte last written there, or nothing if no write ever covered it. */
  type Cells = seq<Option<Byte>>

  predicate Covers(w: Patch, i: nat) {
    w.pos <= i < w.pos + |w.data|
  }

  /** The cells after the writes `ws`, in this order, to an empty file. */
  function Overlay(ws: seq<Patch>): (c: Cells)
    ensures |c| == MaxEnd(ws)
    decreases |ws|
  {
    if ws == [] then []
    else
      var w := ws[|ws| - 1];
      var c := Overlay(ws[..|ws| - 1]);
      seq(MaxEnd(ws), i requires 0 <= i < MaxEnd(ws) =>
        if Covers(w, i) then Some(w.data[i - w.pos]) else if i < |c| then c[i] else None)
  }

  function End(w: Patch): nat {
    w.pos + |w.data|
  }

  /** The farthest end any write reached. */
  function MaxEnd(ws: seq<Patch>): nat
    decreases |ws|
  {
    if ws == [] then 0
    else
      var w, m := ws[|ws| - 1], MaxEnd(ws[..|ws| - 1]);
      if End(w) > m then End(w) else m
  }

  lemma {:induction false} MaxEndIsMax(ws: seq<Patch>)
    ensures forall k :: 0 <= k < |ws| ==> End(ws[k]) <= MaxEnd(ws)
    ensures ws != [] ==> exists k :: 0 <= k < |ws| && End(ws[k]) == MaxEnd(ws)
    decreases |ws|
  {
    if ws != [] {
      var n := |ws| - 1;
      MaxEndIsMax(ws[..n]);
      forall k | 0 <= k < n ensures End(ws[k]) <= MaxEnd(ws) {
        assert ws[..n][k] == ws[k];
      }
      if n > 0 && End(ws[n]) < MaxEnd(ws[..n]) {
        var k :| 0 <= k < n && End(ws[..n][k]) == MaxEnd(ws[..n]);
        assert End(ws[k]) == MaxEnd(ws);
      } else {
        assert End(ws[n]) == MaxEnd(ws);
      }
    }
  }

  /** One more write, cell by cell. */
  lemma OverlayAppend(ws: seq<Patch>, w: Patch)
    ensures var c, c' := Overlay(ws), Overlay(ws + [w]);
      && |c'| == (if End(w) > |c| then End(w) else |c|)
      && forall i :: 0 <= i < |c'| ==>
        c'[i] == if Covers(w, i) then Some(w.data[i - w.pos]) else if i < |c| then c[i] else None
  {
    assert (ws + [w])[..|ws|] == ws;
  }

  /** A cell holds what its last writer laid there. */
  lemma {:induction false} LastWriterWins(ws: seq<Patch>, j: nat, i: nat)
    requires j < |ws| && Covers(ws[j], i)
    requires forall k :: j < k < |ws| ==> !Covers(ws[k], i)
    ensures i < |Overlay(ws)| && Overlay(ws)[i] == Some(ws[j].data[i - ws[j].pos])
    decreases |ws|
  {
    var n := |ws| - 1;
    MaxEndIsMax(ws);
    if j < n {
      LastWriterWins(ws[..n], j, i);
    }
  }

  /** A cell that no write covers is a gap. */
  lemma {:induction false} UncoveredIsGap(ws: seq<Patch>, i: nat)
    requires i < |Overlay(ws)|
    requires forall k :: 0 <= k < |ws| ==> !Covers(ws[k], i)
    ensures Overlay(ws)[i] == None
    decreases |ws|
  {
    if ws != [] {
      var n := |ws| - 1;
      if i < |Overlay(ws[..n])| {
        UncoveredIsGap(ws[..n], i);
      }
    }
  }

  /** The bytes are those of the cells, wherever something was written. */
  ghost predicate Fills(b: seq<Byte>, c: Cells) {
    |b| == |c| && forall i :: 0 <= i < |b| && c[i].Some? ==> b[i] == c[i].value
  }

  lemma OverlaidFills(b: seq<Byte>, ws: seq<Patch>, w: Patch, b': seq<Byte>)
    requires Fills(b, Overlay(ws)) && Overlaid(b, w.pos, w.data, b')
    ensures Fills(b', Overlay(ws + [w]))
  {
    hide Overlay;
    OverlayAppend(ws, w);
    var c' := Overlay(ws + [w]);
    forall i | 0 <= i < |b'| && c'[i].Some? ensures b'[i] == c'[i].value {
      if Covers(w, i) {
        assert b'[w.pos..w.pos + |w.data|][i - w.pos] == w.data[i - w.pos];
      }
    }
  }

  // ---------------------------------------------------------------- files over runs

  /** The writes that the first `n` calls of a run made to the file at `p`, through whatever handles. */
  ghost function Patches(states: seq<State>, ops: seq<Op>, p: Path, n: nat): seq<Patch>
    requires n <= |ops| && n <= |states|
  {
    if n == 0 then []
    else if WritesTo(states[n - 1], ops[n - 1], p) then
      Patches(states, ops, p, n - 1) + [Patch(states[n - 1].handles[ops[n - 1].h].pos, ops[n - 1].data)]
    else Patches(states, ops, p, n - 1)
  }

  lemma WriteFills(s: State, op: Op, ret: Ret, s': State, p: Path, ws: seq<Patch>)
    requires Allowed(s, op) && Step(s, op, ret, s') && WritesTo(s, op, p)
    requires Fills(Bytes(s, op.h), Overlay(ws))
    ensures p in s'.fs && s'.fs[p].File? && Fills(s'.fs[p].bytes, Overlay(ws + [Patch(s.handles[op.h].pos, op.data)]))
  {
    hide Overlaid, Fills, Overlay;
    OverlaidFills(Bytes(s, op.h), ws, Patch(s.handles[op.h].pos, op.data), s'.fs[p].bytes);
  }

  /**
   * Over any run, a file that starts empty (or is created on the way) is the overlay of all writes made to it: the last
   * writer of a byte wins, the size is the farthest end reached, and only bytes nobody wrote are unspecified.
   */
  lemma {:induction false} FileIsOverlay(states: seq<State>, ops: seq<Op>, rets: seq<Ret>, p: Path, n: nat)
    requires Run(states, ops, rets) && Wf(states[0]) && n <= |ops|
    requires p in states[0].fs ==> states[0].fs[p] == File([])
    ensures p in states[n].fs && states[n].fs[p].File? ==>
      Fills(states[n].fs[p].bytes, Overlay(Patches(states, ops, p, n)))
    ensures p !in states[n].fs ==> Patches(states, ops, p, n) == []
  {
    hide Wf, Allowed, Step, Fills, Overlay;
    if n == 0 {
      EmptyFills();
    } else {
      var s, op, s' := states[n - 1], ops[n - 1], states[n];
      FileIsOverlay(states, ops, rets, p, n - 1);
      RunWf(states, ops, rets, n - 1);
      StepFrame(s, op, rets[n - 1], s');
      EmptyFills();
      if WritesTo(s, op, p) {
        WriterHasFile(s, op, p);
        WriteFills(s, op, rets[n - 1], s', p, Patches(states, ops, p, n - 1));
      }
    }
  }

  lemma WriterHasFile(s: State, op: Op, p: Path)
    requires Wf(s) && Allowed(s, op) && WritesTo(s, op, p)
    ensures p in s.fs && s.fs[p].File? && Bytes(s, op.h) == s.fs[p].bytes
  {
  }

  lemma EmptyFills()
    ensures Fills([], Overlay([]))
  {
  }

  // ---------------------------------------------------------------- cutting writes up

  /** `s'` is reached from `s` by writing the chunks one after the other through `h`. */
  ghost predicate Chunks(s: State, h: nat, chunks: seq<seq<Byte>>, s': State)
    decreases |chunks|
  {
    if chunks == [] then s' == s
    else exists t, code :: Wrote(s, h, chunks[0], code, t) && Chunks(t, h, chunks[1..], s')
  }

  /** An allowed and permitted write, as a relation of its own. */
  ghost predicate Wrote(s: State, h: nat, data: seq<Byte>, code: int, s': State) {
    Allowed(s, Write(h, data)) && CanWrite(s, h) && WriteStep(s, h, data, code, s')
  }

  function Concat(chunks: seq<seq<Byte>>): seq<Byte> {
    if chunks == [] then [] else chunks[0] + Concat(chunks[1..])
  }

  /** Laying down two pieces one behind the other is laying down their concatenation. */
  lemma OverlaidTwice(b: seq<Byte>, pos: nat, x: seq<Byte>, y: seq<Byte>, b1: seq<Byte>, b2: seq<Byte>)
    requires Overlaid(b, pos, x, b1) && Overlaid(b1, pos + |x|, y, b2)
    ensures Overlaid(b, pos, x + y, b2)
  {
    assert b2[pos..pos + |x + y|] == x + y by {
      assert b2[pos..pos + |x|] == x by {
        forall i | 0 <= i < |x| ensures b2[pos..pos + |x|][i] == x[i] {
          assert b1[pos..pos + |x|][i] == x[i];
        }
      }
      assert b2[pos..pos + |x + y|] == b2[pos..pos + |x|] + b2[pos + |x|..pos + |x| + |y|];
    }
  }

  /** What the file looks like between the two pieces. */
  function Between(b: seq<Byte>, pos: nat, x: seq<Byte>, b2: seq<Byte>): (b1: seq<Byte>)
    requires pos + |x| <= |b2|
    ensures |b1| == if pos + |x| > |b| then pos + |x| else |b|
  {
    seq(if pos + |x| > |b| then pos + |x| else |b|,
        i requires 0 <= i && (i < pos + |x| || i < |b|) => if i < pos + |x| then b2[i] else b[i])
  }

  lemma OverlaidSplit(b: seq<Byte>, pos: nat, x: seq<Byte>, y: seq<Byte>, b2: seq<Byte>)
    requires Overlaid(b, pos, x + y, b2)
    ensures Overlaid(b, pos, x, Between(b, pos, x, b2))
    ensures Overlaid(Between(b, pos, x, b2), pos + |x|, y, b2)
  {
    var b1 := Between(b, pos, x, b2);
    assert b2[pos..pos + |x + y|] == x + y;
    assert b1[pos..pos + |x|] == x by {
      forall i | 0 <= i < |x| ensures b1[pos + i] == x[i] {
        assert b2[pos..pos + |x + y|][i] == (x + y)[i];
      }
    }
    assert b2[pos + |x|..pos + |x| + |y|] == y by {
      forall i | 0 <= i < |y| ensures b2[pos + |x| + i] == y[i] {
        assert b2[pos..pos + |x + y|][|x| + i] == (x + y)[|x| + i];
      }
    }
  }

  lemma WroteTwice(s: State, h: nat, x: seq<Byte>, y: seq<Byte>, c1: int, s1: State, c2: int, s2: State)
    requires Wrote(s, h, x, c1, s1) && Wrote(s1, h, y, c2, s2)
    requires |x| + |y| < TWO32
    ensures Wrote(s, h, x + y, I32(|x + y|), s2)
  {
    hide Overlaid;
    var H := s.handles[h];
    OverlaidTwice(Bytes(s, h), H.pos, x, y, s1.fs[H.path].bytes, s2.fs[H.path].bytes);
    assert s2.fs == s.fs[H.path := s2.fs[H.path]];
  }

  /** The state between the two pieces. */
  function Midway(s: State, h: nat, x: seq<Byte>, s2: State): State
    requires h in s.handles && HandleWf(s, h)
    requires s.handles[h].path in s2.fs && s2.fs[s.handles[h].path].File?
    requires s.handles[h].pos + |x| <= |s2.fs[s.handles[h].path].bytes|
  {
    var H := s.handles[h];
    SetPos(s.(fs := s.fs[H.path := File(Between(Bytes(s, h), H.pos, x, s2.fs[H.path].bytes))]), h, H.pos + |x|)
  }

  lemma WroteSplit(s: State, h: nat, x: seq<Byte>, y: seq<Byte>, c: int, s2: State)
    requires Wrote(s, h, x + y, c, s2)
    ensures Wrote(s, h, x, I32(|x|), Midway(s, h, x, s2))
    ensures Wrote(Midway(s, h, x, s2), h, y, I32(|y|), s2)
  {
    var H := s.handles[h];
    OverlaidSplit(Bytes(s, h), H.pos, x, y, s2.fs[H.path].bytes);
    hide Overlaid, Between;
    var m := Midway(s, h, x, s2);
    assert s2.fs == m.fs[H.path := s2.fs[H.path]];
  }

  /** Writing a string in any pieces has exactly the outcomes of writing it at once. */
  lemma {:induction false} ChunkedWrite(s: State, h: nat, chunks: seq<seq<Byte>>, s': State)
    requires chunks != [] && |Concat(chunks)| < TWO32
    ensures Chunks(s, h, chunks, s') <==> Wrote(s, h, Concat(chunks), I32(|Concat(chunks)|), s')
    decreases |chunks|
  {
    hide Wrote;
    var x, rest := chunks[0], chunks[1..];
    if rest == [] {
      assert chunks == [x] && Concat(chunks) == x;
      OneChunk(s, h, x, s');
    } else {
      if Chunks(s, h, chunks, s') {
        var t, code :| Wrote(s, h, x, code, t) && Chunks(t, h, rest, s');
        ChunkedWrite(t, h, rest, s');
        WroteTwice(s, h, x, Concat(rest), code, t, I32(|Concat(rest)|), s');
      }
      if Wrote(s, h, Concat(chunks), I32(|Concat(chunks)|), s') {
        WroteSplit(s, h, x, Concat(rest), I32(|Concat(chunks)|), s');
        WroteShape(s, h, x, Concat(rest), I32(|Concat(chunks)|), s');
        ChunkedWrite(Midway(s, h, x, s'), h, rest, s');
      }
    }
  }

  lemma WroteShape(s: State, h: nat, x: seq<Byte>, y: seq<Byte>, c: int, s2: State)
    requires Wrote(s, h, x + y, c, s2)
    ensures h in s.handles && HandleWf(s, h)
    ensures s.handles[h].path in s2.fs && s2.fs[s.handles[h].path].File?
    ensures s.handles[h].pos + |x| <= |s2.fs[s.handles[h].path].bytes|
  {
  }

  lemma OneChunk(s: State, h: nat, x: seq<Byte>, s': State)
    ensures Chunks(s, h, [x], s') <==> Wrote(s, h, x, I32(|x|), s')
  {
    assert [x][1..] == [];
    if Chunks(s, h, [x], s') {
      var t, code :| Wrote(s, h, x, code, t) && Chunks(t, h, [x][1..], s');
      assert t == s' && code == I32(|x|);
    }
    if Wrote(s, h, x, I32(|x|), s') {
      assert Wrote(s, h, [x][0], I32(|x|), s') && Chunks(s', h, [x][1..], s');
    }
  }

  // ---------------------------------------------------------------- cutting reads up

  /** The bytes that reads of the sizes `ns` deliver one after the other, and the state they lead to. */
  ghost function ReadAll(s: State, h: nat, ns: seq<nat>): (seq<Byte>, State)
    requires Readable(s, h)
    decreases |ns|
  {
    if ns == [] then ([], s)
    else
      var (ret, t) := ReadStep(s, h, ns[0]);
      ReadKeeps(s, h, ns[0]);
      var (d, u) := ReadAll(t, h, ns[1..]);
      (ret.data + d, u)
  }

  ghost predicate Readable(s: State, h: nat) {
    h in s.handles && HandleWf(s, h) && CanRead(s, h) && |Bytes(s, h)| < TWO32
  }

  lemma ReadKeeps(s: State, h: nat, n: nat)
    requires Readable(s, h)
    ensures var t := ReadStep(s, h, n).1;
      Readable(t, h) && Bytes(t, h) == Bytes(s, h)
      && t == SetPos(s, h, s.handles[h].pos + Available(Bytes(s, h), s.handles[h].pos, n))
    ensures ReadStep(s, h, n).0.data == Delivered(Bytes(s, h), s.handles[h].pos, n)
  {
  }

  function Sum(ns: seq<nat>): nat {
    if ns == [] then 0 else ns[0] + Sum(ns[1..])
  }

  /** Reading in any pieces delivers what one read of the total size would. */
  lemma {:induction false} ChunkedRead(s: State, h: nat, ns: seq<nat>)
    requires Readable(s, h)
    ensures var (d, u) := ReadAll(s, h, ns);
      d == Delivered(Bytes(s, h), s.handles[h].pos, Sum(ns)) && u == SetPos(s, h, s.handles[h].pos + |d|)
    decreases |ns|
  {
    hide ReadStep, Delivered, Available, CanRead;
    var b, pos := Bytes(s, h), s.handles[h].pos;
    if ns == [] {
      NothingDelivered(b, pos);
      assert SetPos(s, h, pos).handles == s.handles;
    } else {
      var t := ReadStep(s, h, ns[0]).1;
      var pos' := pos + Available(b, pos, ns[0]);
      ReadKeeps(s, h, ns[0]);
      ChunkedRead(t, h, ns[1..]);
      DeliveredTwice(b, pos, ns[0], Sum(ns[1..]));
    }
  }

  lemma NothingDelivered(b: seq<Byte>, pos: nat)
    ensures Delivered(b, pos, 0) == []
  {
  }

  lemma DeliveredTwice(b: seq<Byte>, pos: nat, m: nat, n: nat)
    ensures Delivered(b, pos, m + n) == Delivered(b, pos, m) + Delivered(b, pos + Available(b, pos, m), n)
  {
  }

  /**
   * Reads of positive sizes until one delivers nothing (and only then) have delivered the file from the position to its
   * end, in at most as many non-empty reads as there are bytes.
   */
  lemma ReadToEnd(s: State, h: nat, ns: seq<nat>, last: nat)
    requires Readable(s, h)
    requires last > 0 && s.handles[h].pos <= |Bytes(s, h)|
    ensures var (d, u) := ReadAll(s, h, ns);
      && h in u.handles && HandleWf(u, h)
      && (ReadStep(u, h, last).0.data == [] <==> d == Bytes(s, h)[s.handles[h].pos..])
  {
    ChunkedRead(s, h, ns);
  }

  /** If the last of several reads of positive sizes still delivered something, they are no more than the bytes left. */
  lemma NonEmptyReads(s: State, h: nat, ns: seq<nat>, last: nat)
    requires Readable(s, h) && last > 0 && forall k :: 0 <= k < |ns| ==> ns[k] > 0
    ensures var u := ReadAll(s, h, ns).1;
      && h in u.handles && HandleWf(u, h)
      && (ReadStep(u, h, last).0.data != [] ==> |ns| + 1 <= |Bytes(s, h)| - s.handles[h].pos)
  {
    ChunkedRead(s, h, ns);
    SumPositive(ns);
  }

  lemma {:induction false} SumPositive(ns: seq<nat>)
    requires forall k :: 0 <= k < |ns| ==> ns[k] > 0
    ensures Sum(ns) >= |ns|
  {
    if ns != [] {
      SumPositive(ns[1..]);
    }
  }

  // ---------------------------------------------------------------- sharing

  /** What one handle writes, any handle on the same path reads back. */
  lemma WriteThenRead(s: State, h: nat, data: seq<Byte>, code: int, s1: State, g: nat)
    requires Wrote(s, h, data, code, s1) && Wf(s)
    requires g in s.handles && s.handles[g].path == s.handles[h].path && CanRead(s, g)
    ensures Allowed(s1, Lseek(g, I32(s.handles[h].pos), 0))
    ensures var s2 := LseekStep(s1, g, I32(s.handles[h].pos), 0).1;
      Allowed(s2, Read(g, |data|)) && ReadStep(s2, g, |data|).0 == Ret(I32(|data|), data)
  {
    var pos := s.handles[h].pos;
    var s2 := LseekStep(s1, g, I32(pos), 0).1;
    assert s2 == SetPos(s1, g, pos);
    assert Bytes(s2, g)[pos..pos + |data|] == data;
  }

  // ---------------------------------------------------------------- reads in a run

  function Sizes(ops: seq<Op>): (ns: seq<nat>)
    requires forall i :: 0 <= i < |ops| ==> ops[i].Read?
    ensures |ns| == |ops| && forall i :: 0 <= i < |ops| ==> ns[i] == ops[i].n
  {
    seq(|ops|, i requires 0 <= i < |ops| => ops[i].n)
  }

  function DataOf(rets: seq<Ret>): seq<Byte> {
    if rets == [] then [] else rets[0].data + DataOf(rets[1..])
  }

  /** A run of reads through one handle. */
  ghost predicate ReadRun(states: seq<State>, ops: seq<Op>, rets: seq<Ret>, h: nat) {
    && Run(states, ops, rets) && Readable(states[0], h)
    && forall i :: 0 <= i < |ops| ==> ops[i].Read? && ops[i].h == h
  }

  lemma {:induction false} RunIsReadAll(states: seq<State>, ops: seq<Op>, rets: seq<Ret>, h: nat)
    requires ReadRun(states, ops, rets, h)
    ensures ReadAll(states[0], h, Sizes(ops)) == (DataOf(rets), states[|ops|])
    decreases |ops|
  {
    if ops != [] {
      var s, n := states[0], ops[0].n;
      assert Allowed(states[0], ops[0]) && Step(states[0], ops[0], rets[0], states[1]);
      ReadKeeps(s, h, n);
      assert Sizes(ops)[1..] == Sizes(ops[1..]);
      RunTail(states, ops, rets, h);
      RunIsReadAll(states[1..], ops[1..], rets[1..], h);
    }
  }

  lemma RunTail(states: seq<State>, ops: seq<Op>, rets: seq<Ret>, h: nat)
    requires ReadRun(states, ops, rets, h) && ops != [] && Readable(states[1], h)
    ensures ReadRun(states[1..], ops[1..], rets[1..], h)
  {
    hide Readable, Step, Allowed;
    forall i | 0 <= i < |ops[1..]|
      ensures Allowed(states[1..][i], ops[1..][i])
      ensures Step(states[1..][i], ops[1..][i], rets[1..][i], states[1..][i + 1])
    {
      assert Allowed(states[i + 1], ops[i + 1]) && Step(states[i + 1], ops[i + 1], rets[i + 1], states[i + 2]);
    }
  }

  /**
   * Reads that follow each other in a run deliver what lies at the position, as far as their sizes and the file reach.
   */
  lemma ReadsInARun(states: seq<State>, ops: seq<Op>, rets: seq<Ret>, h: nat)
    requires ReadRun(states, ops, rets, h)
    ensures var s := states[0]; DataOf(rets) == Delivered(Bytes(s, h), s.handles[h].pos, Sum(Sizes(ops)))
    ensures var s := states[0]; states[|ops|] == SetPos(s, h, s.handles[h].pos + |DataOf(rets)|)
  {
    hide Delivered, Sizes;
    RunIsReadAll(states, ops, rets, h);
    ChunkedRead(states[0], h, Sizes(ops));
  }
}
