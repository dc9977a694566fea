/**
 * The recursive scan of pci.c over the buses behind bridges: when it ends, what it reports, how often and in what
 * order.
 */
module PciTree {
  import opened Pci

  // ---------------------------------------------------------------- ways through bridges

  /** The bridges of `path` lead from one bus to the other. */
  ghost predicate Leads(cfg: Config, path: seq<Bdf>, from: nat, to: nat)
    decreases |path|
  {
    if path == [] then from == to
    else
      var last := path[|path| - 1];
      && Bridges(cfg, last) && SecondaryBus(cfg, last) == to
      && Leads(cfg, path[..|path| - 1], from, last.bus)
  }

  ghost predicate Connected(cfg: Config, from: nat, to: nat) {
    exists path :: Leads(cfg, path, from, to)
  }

  /** The function exists and lies behind the bus, through any number of bridges. */
  ghost predicate Reachable(cfg: Config, bus: nat, x: Bdf) {
    Scanned(cfg, x) && Connected(cfg, bus, x.bus)
  }

  /** The bridges of a bus that can be reached lead back to it. */
  ghost predicate Cyclic(cfg: Config, bus: nat) {
    exists b: nat, path :: Connected(cfg, bus, b) && path != [] && Leads(cfg, path, b, b)
  }

  lemma NoBridges(cfg: Config, bus: nat)
    requires forall x :: !Bridges(cfg, x)
    ensures !Cyclic(cfg, bus)
  {
  }

  lemma {:induction false} LeadsJoin(cfg: Config, p: seq<Bdf>, a: nat, b: nat, q: seq<Bdf>, c: nat)
    requires Leads(cfg, p, a, b) && Leads(cfg, q, b, c)
    ensures Leads(cfg, p + q, a, c)
    decreases |q|
  {
    if q == [] {
      assert p + q == p;
    } else {
      var n := |q| - 1;
      LeadsJoin(cfg, p, a, b, q[..n], q[n].bus);
      assert (p + q)[..|p| + n] == p + q[..n];
    }
  }

  lemma ConnectedJoin(cfg: Config, a: nat, b: nat, c: nat)
    requires Connected(cfg, a, b) && Connected(cfg, b, c)
    ensures Connected(cfg, a, c)
  {
    var p :| Leads(cfg, p, a, b);
    var q :| Leads(cfg, q, b, c);
    LeadsJoin(cfg, p, a, b, q, c);
  }

  lemma OneBridge(cfg: Config, x: Bdf)
    requires Bridges(cfg, x)
    ensures Leads(cfg, [x], x.bus, SecondaryBus(cfg, x)) && Connected(cfg, x.bus, SecondaryBus(cfg, x))
  {
    assert [x][..0] == [];
    assert Leads(cfg, [x], x.bus, SecondaryBus(cfg, x));
  }

  /** A way that leads anywhere goes through a first bridge. */
  lemma {:induction false} FirstBridge(cfg: Config, path: seq<Bdf>, from: nat, to: nat)
    requires Leads(cfg, path, from, to) && path != []
    ensures Bridges(cfg, path[0]) && path[0].bus == from
    ensures Leads(cfg, path[1..], SecondaryBus(cfg, path[0]), to)
    decreases |path|
  {
    var n := |path| - 1;
    if n == 0 {
      assert path[..0] == [] && path[1..] == [];
    } else {
      FirstBridge(cfg, path[..n], from, path[n].bus);
      assert path[..n][1..] == path[1..][..n - 1];
    }
  }

  // ---------------------------------------------------------------- the measure of the recursion

  ghost function Beyond(cfg: Config, bus: nat): set<nat> {
    set b: nat | b < 256 && Connected(cfg, bus, b)
  }

  /** How many buses the scan of this one can come to. */
  ghost function Reach(cfg: Config, bus: nat): nat {
    |Beyond(cfg, bus)|
  }

  lemma CyclicBehind(cfg: Config, a: nat, b: nat)
    requires Connected(cfg, a, b) && !Cyclic(cfg, a)
    ensures !Cyclic(cfg, b)
  {
    if Cyclic(cfg, b) {
      var c: nat, path :| Connected(cfg, b, c) && path != [] && Leads(cfg, path, c, c);
      ConnectedJoin(cfg, a, b, c);
    }
  }

  /** Without a cycle no way leads back from behind a bridge. */
  lemma NoWayBack(cfg: Config, x: Bdf)
    requires Bridges(cfg, x) && !Cyclic(cfg, x.bus)
    ensures !Connected(cfg, SecondaryBus(cfg, x), x.bus)
  {
    NoWay(cfg, x.bus);
    OneBridge(cfg, x);
    if path :| Leads(cfg, path, SecondaryBus(cfg, x), x.bus) {
      LeadsJoin(cfg, [x], x.bus, SecondaryBus(cfg, x), path, x.bus);
    }
  }

  lemma NoWay(cfg: Config, bus: nat)
    ensures Connected(cfg, bus, bus)
  {
    assert Leads(cfg, [], bus, bus);
  }

  /** Behind a bridge there is no cycle either, and fewer buses are left. */
  lemma Descend(cfg: Config, x: Bdf)
    requires Bridges(cfg, x) && !Cyclic(cfg, x.bus)
    ensures SecondaryBus(cfg, x) < 256 && !Cyclic(cfg, SecondaryBus(cfg, x))
    ensures Reach(cfg, SecondaryBus(cfg, x)) < Reach(cfg, x.bus)
  {
    var sec := SecondaryBus(cfg, x);
    OneBridge(cfg, x);
    CyclicBehind(cfg, x.bus, sec);
    NoWayBack(cfg, x);
    assert Leads(cfg, [], x.bus, x.bus);
    forall b | b in Beyond(cfg, sec) ensures b in Beyond(cfg, x.bus) - {x.bus} {
      ConnectedJoin(cfg, x.bus, sec, b);
    }
    SubsetSize(Beyond(cfg, sec), Beyond(cfg, x.bus) - {x.bus});
  }

  lemma SubsetSize(a: set<nat>, b: set<nat>)
    requires a <= b
    ensures |a| <= |b|
  {
    assert b == a + (b - a);
  }

  // ---------------------------------------------------------------- the order of the scan

  /** The slots of a bus are numbered device by device, function by function. */
  function Slot(bus: nat, k: nat): (x: Bdf)
    ensures x.bus == bus && (bus < 256 && k < 256 ==> InRange(x))
  {
    Bdf(bus, k / 8, k % 8)
  }

  /** The functions reported for one function number: itself, if it exists, then all behind it if it is a bridge. */
  ghost function Behind(cfg: Config, x: Bdf): seq<Bdf>
    requires !Cyclic(cfg, x.bus) && Tried(cfg, x)
    decreases Reach(cfg, x.bus), 0, 0
  {
    if !Exists(cfg, x) then []
    else if !IsBridge(cfg, x) then [x]
    else
      Descend(cfg, x);
      [x] + ScanFrom(cfg, SecondaryBus(cfg, x), 0)
  }

  /** The functions reported for the slots of a bus from the `k`-th on. */
  ghost function ScanFrom(cfg: Config, bus: nat, k: nat): seq<Bdf>
    requires !Cyclic(cfg, bus) && bus < 256 && k <= 256
    decreases Reach(cfg, bus), 1, 256 - k
  {
    if k == 256 then []
    else (if Scanned(cfg, Slot(bus, k)) then Behind(cfg, Slot(bus, k)) else []) + ScanFrom(cfg, bus, k + 1)
  }

  ghost function HeadOf(cfg: Config, bus: nat, k: nat): seq<Bdf>
    requires !Cyclic(cfg, bus) && bus < 256 && k < 256
  {
    if Scanned(cfg, Slot(bus, k)) then Behind(cfg, Slot(bus, k)) else []
  }

  lemma ScanStep(cfg: Config, bus: nat, k: nat)
    requires !Cyclic(cfg, bus) && bus < 256 && k <= 256
    ensures k == 256 ==> ScanFrom(cfg, bus, k) == []
    ensures k < 256 ==> ScanFrom(cfg, bus, k) == HeadOf(cfg, bus, k) + ScanFrom(cfg, bus, k + 1)
  {
  }

  /** What one slot contributes. */
  lemma HeadParts(cfg: Config, bus: nat, k: nat)
    requires !Cyclic(cfg, bus) && bus < 256 && k < 256
    ensures !Scanned(cfg, Slot(bus, k)) ==> HeadOf(cfg, bus, k) == []
    ensures Scanned(cfg, Slot(bus, k)) && !IsBridge(cfg, Slot(bus, k)) ==> HeadOf(cfg, bus, k) == [Slot(bus, k)]
    ensures Bridges(cfg, Slot(bus, k)) ==>
      var sec := SecondaryBus(cfg, Slot(bus, k));
      && sec < 256 && !Cyclic(cfg, sec) && Reach(cfg, sec) < Reach(cfg, bus)
      && HeadOf(cfg, bus, k) == [Slot(bus, k)] + ScanFrom(cfg, sec, 0)
  {
    hide Cyclic, Reach, Tried, Exists, IsBridge, SecondaryBus;
    if Bridges(cfg, Slot(bus, k)) {
      Descend(cfg, Slot(bus, k));
    }
  }

  // ---------------------------------------------------------------- what is scanned

  lemma SlotOf(x: Bdf)
    requires InRange(x)
    ensures SlotNumber(x) < 256 && Slot(x.bus, SlotNumber(x)) == x
  {
  }

  function SlotNumber(x: Bdf): nat { 8 * x.device + x.fn }

  lemma SlotNumbers(bus: nat, k: nat)
    ensures SlotNumber(Slot(bus, k)) == k
  {
  }

  /** Everything reported is reachable; what is on the bus itself comes from its own slots. */
  lemma {:induction false} ReportedIsReachable(cfg: Config, bus: nat, k: nat, x: Bdf)
    requires !Cyclic(cfg, bus) && bus < 256 && k <= 256 && x in ScanFrom(cfg, bus, k)
    ensures Reachable(cfg, bus, x) && (x.bus == bus ==> k <= SlotNumber(x))
    decreases Reach(cfg, bus), 256 - k
  {
    hide *;
    ScanStep(cfg, bus, k);
    if x in ScanFrom(cfg, bus, k + 1) {
      ReportedIsReachable(cfg, bus, k + 1, x);
    } else {
      HeadIsReachable(cfg, bus, k, x);
    }
  }

  lemma {:induction false} HeadIsReachable(cfg: Config, bus: nat, k: nat, x: Bdf)
    requires !Cyclic(cfg, bus) && bus < 256 && k < 256 && x in HeadOf(cfg, bus, k)
    ensures Reachable(cfg, bus, x) && (x.bus == bus ==> k <= SlotNumber(x))
    decreases Reach(cfg, bus), 256 - k, 0
  {
    hide Cyclic, Reach, Tried, Exists, IsBridge, SecondaryBus, HeadOf, Slot, SlotNumber;
    var y := Slot(bus, k);
    HeadParts(cfg, bus, k);
    SlotNumbers(bus, k);
    if x == y {
      assert Leads(cfg, [], bus, x.bus);
    } else {
      ReportedIsReachable(cfg, SecondaryBus(cfg, y), 0, x);
      OneBridge(cfg, y);
      ConnectedJoin(cfg, bus, SecondaryBus(cfg, y), x.bus);
      NoWayBack(cfg, y);
    }
  }

  /** What a slot contributes is reported. */
  lemma {:induction false} SlotIsReported(cfg: Config, bus: nat, k: nat, i: nat, x: Bdf)
    requires !Cyclic(cfg, bus) && bus < 256 && k <= i < 256 && x in HeadOf(cfg, bus, i)
    ensures x in ScanFrom(cfg, bus, k)
    decreases i - k
  {
    hide *;
    ScanStep(cfg, bus, k);
    if k < i {
      SlotIsReported(cfg, bus, k + 1, i, x);
    }
  }

  /** Everything reachable is reported. */
  lemma {:induction false} ReachableIsReported(cfg: Config, bus: nat, path: seq<Bdf>, x: Bdf)
    requires !Cyclic(cfg, bus) && bus < 256 && Scanned(cfg, x) && Leads(cfg, path, bus, x.bus)
    ensures x in ScanFrom(cfg, bus, 0)
    decreases |path|
  {
    hide Cyclic, Reach, Exists, IsBridge, SecondaryBus, HeadOf, ScanFrom, Slot, SlotNumber, IsMulti;
    if path == [] {
      SlotOf(x);
      HeadParts(cfg, bus, SlotNumber(x));
      SlotIsReported(cfg, bus, 0, SlotNumber(x), x);
    } else {
      FirstBridge(cfg, path, bus, x.bus);
      var b := path[0];
      SlotOf(b);
      HeadParts(cfg, bus, SlotNumber(b));
      ReachableIsReported(cfg, SecondaryBus(cfg, b), path[1..], x);
      SlotIsReported(cfg, bus, 0, SlotNumber(b), x);
    }
  }

  /** The scan reports exactly the reachable functions. */
  lemma ScanIsComplete(cfg: Config, bus: nat, x: Bdf)
    requires !Cyclic(cfg, bus) && bus < 256
    ensures x in ScanFrom(cfg, bus, 0) <==> Reachable(cfg, bus, x)
  {
    if x in ScanFrom(cfg, bus, 0) {
      ReportedIsReachable(cfg, bus, 0, x);
    }
    if Reachable(cfg, bus, x) {
      var path :| Leads(cfg, path, bus, x.bus);
      ReachableIsReported(cfg, bus, path, x);
    }
  }

  // ---------------------------------------------------------------- exactly once

  /** A function is found on the bus. */
  ghost predicate Inhabited(cfg: Config, bus: nat) {
    exists z :: Scanned(cfg, z) && z.bus == bus
  }

  /** No two bridges that can be reached lead to the same bus, unless nothing is found there. */
  ghost predicate OneWayIn(cfg: Config, bus: nat) {
    forall x, y :: BothWays(cfg, bus, x, y) ==> x == y
  }

  /** Two bridges that can be reached lead to the same inhabited bus. */
  ghost predicate BothWays(cfg: Config, bus: nat, x: Bdf, y: Bdf) {
    && Bridges(cfg, x) && Bridges(cfg, y) && Connected(cfg, bus, x.bus) && Connected(cfg, bus, y.bus)
    && SecondaryBus(cfg, x) == SecondaryBus(cfg, y) && Inhabited(cfg, SecondaryBus(cfg, x))
  }

  lemma OneWayBehind(cfg: Config, a: nat, b: nat)
    requires OneWayIn(cfg, a) && Connected(cfg, a, b)
    ensures OneWayIn(cfg, b)
  {
    forall x, y | BothWays(cfg, b, x, y) ensures x == y {
      ConnectedJoin(cfg, a, b, x.bus);
      ConnectedJoin(cfg, a, b, y.bus);
      assert BothWays(cfg, a, x, y);
    }
  }

  /** Two ways to one inhabited bus: one of their starts leads to the other. */
  lemma {:induction false} PathsMeet(cfg: Config, bus: nat, p: seq<Bdf>, a: nat, q: seq<Bdf>, b: nat, to: nat)
    requires OneWayIn(cfg, bus) && Connected(cfg, bus, a) && Connected(cfg, bus, b) && Inhabited(cfg, to)
    requires Leads(cfg, p, a, to) && Leads(cfg, q, b, to)
    ensures Connected(cfg, a, b) || Connected(cfg, b, a)
    decreases |p|
  {
    hide Bridges, SecondaryBus;
    if p == [] {
      assert Leads(cfg, q, b, a);
    } else if q == [] {
      assert Leads(cfg, p, a, b);
    } else {
      var x, y := p[|p| - 1], q[|q| - 1];
      assert Connected(cfg, a, x.bus) && Connected(cfg, b, y.bus);
      ConnectedJoin(cfg, bus, a, x.bus);
      ConnectedJoin(cfg, bus, b, y.bus);
      assert BothWays(cfg, bus, x, y);
      BridgeInhabits(cfg, x);
      PathsMeet(cfg, bus, p[..|p| - 1], a, q[..|q| - 1], b, x.bus);
    }
  }

  lemma BridgeInhabits(cfg: Config, x: Bdf)
    requires Bridges(cfg, x)
    ensures Inhabited(cfg, x.bus)
  {
  }

  /** A bus from which a function can be reached is inhabited. */
  lemma StartInhabited(cfg: Config, bus: nat, z: Bdf)
    requires Reachable(cfg, bus, z)
    ensures Inhabited(cfg, bus)
  {
    var path :| Leads(cfg, path, bus, z.bus);
    if path != [] {
      FirstBridge(cfg, path, bus, z.bus);
      BridgeInhabits(cfg, path[0]);
    }
  }

  /** What lies behind two bridges of the same bus has nothing in common. */
  lemma Apart(cfg: Config, x: Bdf, y: Bdf, z: Bdf)
    requires Bridges(cfg, x) && Bridges(cfg, y) && x != y && x.bus == y.bus
    requires !Cyclic(cfg, x.bus) && OneWayIn(cfg, x.bus) && Reachable(cfg, SecondaryBus(cfg, x), z)
    ensures !Reachable(cfg, SecondaryBus(cfg, y), z)
  {
    hide Bridges, Scanned, Cyclic, Leads;
    var a, b := SecondaryBus(cfg, x), SecondaryBus(cfg, y);
    if Reachable(cfg, b, z) {
      OneBridge(cfg, x);
      OneBridge(cfg, y);
      StartInhabited(cfg, a, z);
      StartInhabited(cfg, b, z);
      var p :| Leads(cfg, p, a, z.bus);
      var q :| Leads(cfg, q, b, z.bus);
      assert Inhabited(cfg, z.bus);
      PathsMeet(cfg, x.bus, p, a, q, b, z.bus);
      NoWayAcross(cfg, x, y);
      NoWayAcross(cfg, y, x);
    }
  }

  lemma NoWayAcross(cfg: Config, x: Bdf, y: Bdf)
    requires Bridges(cfg, x) && Bridges(cfg, y) && x != y && x.bus == y.bus && Inhabited(cfg, SecondaryBus(cfg, y))
    requires !Cyclic(cfg, x.bus) && OneWayIn(cfg, x.bus)
    ensures !Connected(cfg, SecondaryBus(cfg, x), SecondaryBus(cfg, y))
  {
    hide Bridges, Cyclic, OneWayIn;
    OneBridge(cfg, x);
    NoWay(cfg, x.bus);
    if path: seq<Bdf> :| Leads(cfg, path, SecondaryBus(cfg, x), SecondaryBus(cfg, y)) {
      if path == [] {
        SameBridge(cfg, x.bus, x, y);
      } else {
        var last := path[|path| - 1];
        assert Leads(cfg, path[..|path| - 1], SecondaryBus(cfg, x), last.bus);
        ConnectedJoin(cfg, x.bus, SecondaryBus(cfg, x), last.bus);
        SameBridge(cfg, x.bus, last, y);
        NoWayBack(cfg, x);
      }
    }
  }

  lemma SameBridge(cfg: Config, bus: nat, x: Bdf, y: Bdf)
    requires OneWayIn(cfg, bus)
    ensures BothWays(cfg, bus, x, y) ==> x == y
  {
  }

  ghost predicate NoRepeats(s: seq<Bdf>) {
    forall i, j :: 0 <= i < j < |s| ==> s[i] != s[j]
  }

  lemma JoinApart(a: seq<Bdf>, b: seq<Bdf>)
    requires NoRepeats(a) && NoRepeats(b) && forall x :: x in a ==> x !in b
    ensures NoRepeats(a + b)
  {
    forall i, j | 0 <= i < j < |a + b| ensures (a + b)[i] != (a + b)[j] {
      if i < |a| <= j {
        assert a[i] in a && b[j - |a|] in b;
      }
    }
  }

  /** What is reported for a slot is not reported again for a later one. */
  lemma LaterSlotsApart(cfg: Config, bus: nat, k: nat, x: Bdf)
    requires !Cyclic(cfg, bus) && OneWayIn(cfg, bus) && bus < 256 && k < 256 && x in HeadOf(cfg, bus, k)
    ensures x !in ScanFrom(cfg, bus, k + 1)
  {
    hide Cyclic, OneWayIn, Reach, HeadOf, ScanFrom, Slot, SlotNumber, Scanned, IsBridge, Reachable, SecondaryBus;
    if x in ScanFrom(cfg, bus, k + 1) {
      var y := Slot(bus, k);
      SlotNumbers(bus, k);
      HeadParts(cfg, bus, k);
      ReportedIsReachable(cfg, bus, k + 1, x);
      if x != y {
        ReportedIsReachable(cfg, SecondaryBus(cfg, y), 0, x);
        LaterFirstBridge(cfg, bus, k + 1, x, y);
      }
    }
  }

  /** What is reported for a later slot lies behind another bridge of the bus. */
  lemma {:induction false} LaterFirstBridge(cfg: Config, bus: nat, k: nat, x: Bdf, y: Bdf)
    requires !Cyclic(cfg, bus) && OneWayIn(cfg, bus) && bus < 256 && k <= 256
    requires Bridges(cfg, y) && y.bus == bus && SlotNumber(y) < k && Reachable(cfg, SecondaryBus(cfg, y), x)
    ensures x !in ScanFrom(cfg, bus, k)
    decreases 256 - k
  {
    hide Cyclic, OneWayIn, Reach, HeadOf, ScanFrom, Slot, SlotNumber, Scanned, IsBridge, SecondaryBus;
    ScanStep(cfg, bus, k);
    if k < 256 {
      LaterFirstBridge(cfg, bus, k + 1, x, y);
      var z := Slot(bus, k);
      SlotNumbers(bus, k);
      HeadParts(cfg, bus, k);
      NoWayBack(cfg, y);
      if Bridges(cfg, z) && x in ScanFrom(cfg, SecondaryBus(cfg, z), 0) {
        ReportedIsReachable(cfg, SecondaryBus(cfg, z), 0, x);
        Apart(cfg, y, z, x);
      }
    }
  }

  /** No function is reported twice if no inhabited bus has two ways in. */
  lemma {:induction false} ReportedOnce(cfg: Config, bus: nat, k: nat)
    requires !Cyclic(cfg, bus) && OneWayIn(cfg, bus) && bus < 256 && k <= 256
    ensures NoRepeats(ScanFrom(cfg, bus, k))
    decreases Reach(cfg, bus), 256 - k, 1
  {
    hide Cyclic, OneWayIn, Reach, HeadOf, ScanFrom;
    ScanStep(cfg, bus, k);
    if k < 256 {
      ReportedOnce(cfg, bus, k + 1);
      HeadOnce(cfg, bus, k);
      forall x | x in HeadOf(cfg, bus, k) ensures x !in ScanFrom(cfg, bus, k + 1) {
        LaterSlotsApart(cfg, bus, k, x);
      }
      JoinApart(HeadOf(cfg, bus, k), ScanFrom(cfg, bus, k + 1));
    }
  }

  lemma {:induction false} HeadOnce(cfg: Config, bus: nat, k: nat)
    requires !Cyclic(cfg, bus) && OneWayIn(cfg, bus) && bus < 256 && k < 256
    ensures NoRepeats(HeadOf(cfg, bus, k))
    decreases Reach(cfg, bus), 256 - k, 0
  {
    hide Cyclic, OneWayIn, Reach, HeadOf, ScanFrom, Slot, Scanned, IsBridge, SecondaryBus;
    var x := Slot(bus, k);
    HeadParts(cfg, bus, k);
    if Bridges(cfg, x) {
      var sec := SecondaryBus(cfg, x);
      OneBridge(cfg, x);
      OneWayBehind(cfg, bus, sec);
      ReportedOnce(cfg, sec, 0);
      NoWayBack(cfg, x);
      if x in ScanFrom(cfg, sec, 0) {
        ReportedIsReachable(cfg, sec, 0, x);
      }
      JoinApart([x], ScanFrom(cfg, sec, 0));
    }
  }

  /** If a function is found behind two bridges, it is reported twice. */
  lemma TwoWaysRepeat(cfg: Config, bus: nat, x: Bdf, y: Bdf, z: Bdf)
    requires !Cyclic(cfg, bus) && bus < 256 && Bridges(cfg, x) && Bridges(cfg, y) && x != y
    requires Connected(cfg, bus, x.bus) && Connected(cfg, bus, y.bus)
    requires SecondaryBus(cfg, x) == SecondaryBus(cfg, y) == z.bus && Scanned(cfg, z)
    ensures !NoRepeats(ScanFrom(cfg, bus, 0))
  {
    hide Cyclic, ScanFrom, Bridges, Scanned, SecondaryBus, Leads;
    var s := ScanFrom(cfg, bus, 0);
    BridgeIsReported(cfg, bus, x);
    BridgeIsReported(cfg, bus, y);
    var before, after := BridgeThenBehind(cfg, bus, 0, x);
    var before', after' := BridgeThenBehind(cfg, bus, 0, y);
    ScanIsComplete(cfg, z.bus, z);
    NoWay(cfg, z.bus);
    var m := ScanFrom(cfg, z.bus, 0);
    var o :| 0 <= o < |m| && m[o] == z;
    AtOffset(before, x, m, after, o);
    AtOffset(before', y, m, after', o);
  }

  lemma AtOffset(before: seq<Bdf>, x: Bdf, m: seq<Bdf>, after: seq<Bdf>, o: nat)
    requires o < |m|
    ensures var s := before + ([x] + m) + after;
      |before| + 1 + o < |s| && s[|before|] == x && s[|before| + 1 + o] == m[o]
  {
  }

  lemma BridgeIsReported(cfg: Config, bus: nat, x: Bdf)
    requires !Cyclic(cfg, bus) && bus < 256 && Bridges(cfg, x) && Connected(cfg, bus, x.bus)
    ensures x in ScanFrom(cfg, bus, 0) && SecondaryBus(cfg, x) < 256 && !Cyclic(cfg, SecondaryBus(cfg, x))
  {
    hide Cyclic, ScanFrom;
    ScanIsComplete(cfg, bus, x);
    CyclicBehind(cfg, bus, x.bus);
    Descend(cfg, x);
  }

  /** The scan reports no function twice exactly if every inhabited bus has one way in. */
  lemma ScanReportsOnce(cfg: Config, bus: nat)
    requires !Cyclic(cfg, bus) && bus < 256
    ensures NoRepeats(ScanFrom(cfg, bus, 0)) <==> OneWayIn(cfg, bus)
  {
    if OneWayIn(cfg, bus) {
      ReportedOnce(cfg, bus, 0);
    } else {
      var x, y :| BothWays(cfg, bus, x, y) && x != y;
      var z :| Scanned(cfg, z) && z.bus == SecondaryBus(cfg, x);
      TwoWaysRepeat(cfg, bus, x, y, z);
    }
  }

  // ---------------------------------------------------------------- preorder

  lemma Regroup(y: seq<Bdf>, before: seq<Bdf>, middle: seq<Bdf>, after: seq<Bdf>, rest: seq<Bdf>)
    ensures y + (before + middle + after) + rest == (y + before) + middle + (after + rest)
  {
  }

  /** Preorder: what lies behind a bridge is reported right after the bridge, without interruption. */
  lemma {:induction false} BridgeThenBehind(cfg: Config, bus: nat, k: nat, x: Bdf)
    returns (before: seq<Bdf>, after: seq<Bdf>)
    requires !Cyclic(cfg, bus) && bus < 256 && k <= 256 && x in ScanFrom(cfg, bus, k) && Bridges(cfg, x)
    requires SecondaryBus(cfg, x) < 256 && !Cyclic(cfg, SecondaryBus(cfg, x))
    ensures ScanFrom(cfg, bus, k) == before + ([x] + ScanFrom(cfg, SecondaryBus(cfg, x), 0)) + after
    decreases Reach(cfg, bus), 256 - k
  {
    hide *;
    ScanStep(cfg, bus, k);
    HeadBridges(cfg, bus, k, x);
    var y, rest, head := Slot(bus, k), ScanFrom(cfg, bus, k + 1), HeadOf(cfg, bus, k);
    var middle := [x] + ScanFrom(cfg, SecondaryBus(cfg, x), 0);
    if x in rest {
      before, after := BridgeThenBehind(cfg, bus, k + 1, x);
      Regroup(head, before, middle, after, []);
      before := head + before;
    } else if x == y {
      before, after := [], rest;
    } else {
      before, after := BridgeThenBehind(cfg, SecondaryBus(cfg, y), 0, x);
      Regroup([y], before, middle, after, rest);
      before, after := [y] + before, after + rest;
    }
  }

  lemma HeadBridges(cfg: Config, bus: nat, k: nat, x: Bdf)
    requires !Cyclic(cfg, bus) && bus < 256 && k <= 256 && Bridges(cfg, x) && x in ScanFrom(cfg, bus, k)
    ensures k < 256
    ensures x in ScanFrom(cfg, bus, k + 1) || x in HeadOf(cfg, bus, k)
    ensures x in HeadOf(cfg, bus, k) ==>
      var sec := SecondaryBus(cfg, Slot(bus, k));
      && sec < 256 && !Cyclic(cfg, sec) && Reach(cfg, sec) < Reach(cfg, bus)
      && HeadOf(cfg, bus, k) == [Slot(bus, k)] + ScanFrom(cfg, sec, 0)
      && (x != Slot(bus, k) ==> x in ScanFrom(cfg, sec, 0))
  {
    hide Cyclic, Reach, ScanFrom, HeadOf, Slot, Scanned, IsBridge, SecondaryBus;
    ScanStep(cfg, bus, k);
    HeadParts(cfg, bus, k);
  }

  /** Preorder: functions of one bus are reported in slot order. */
  lemma {:induction false} SlotOrder(cfg: Config, bus: nat, k: nat, i: nat, j: nat)
    requires !Cyclic(cfg, bus) && OneWayIn(cfg, bus) && bus < 256 && k <= 256
    requires i < j < |ScanFrom(cfg, bus, k)| && ScanFrom(cfg, bus, k)[i].bus == ScanFrom(cfg, bus, k)[j].bus
    ensures SlotNumber(ScanFrom(cfg, bus, k)[i]) < SlotNumber(ScanFrom(cfg, bus, k)[j])
    decreases Reach(cfg, bus), 256 - k, 1
  {
    hide *;
    ScanStep(cfg, bus, k);
    var rest, head := ScanFrom(cfg, bus, k + 1), HeadOf(cfg, bus, k);
    if |head| <= i {
      SlotOrder(cfg, bus, k + 1, i - |head|, j - |head|);
    } else if j < |head| {
      SlotOrderInHead(cfg, bus, k, i, j);
    } else {
      assert head[i] in head && rest[j - |head|] in rest;
      HeadBeforeRest(cfg, bus, k, head[i], rest[j - |head|]);
    }
  }

  /** That is, device by device, and on each device function by function. */
  lemma BusOrder(cfg: Config, bus: nat, i: nat, j: nat)
    requires !Cyclic(cfg, bus) && OneWayIn(cfg, bus) && bus < 256
    requires i < j < |ScanFrom(cfg, bus, 0)| && ScanFrom(cfg, bus, 0)[i].bus == ScanFrom(cfg, bus, 0)[j].bus
    ensures var x, y := ScanFrom(cfg, bus, 0)[i], ScanFrom(cfg, bus, 0)[j];
      x.device < y.device || (x.device == y.device && x.fn < y.fn)
  {
    hide ScanFrom, Cyclic, OneWayIn, Connected, Exists, IsMulti;
    var x, y := ScanFrom(cfg, bus, 0)[i], ScanFrom(cfg, bus, 0)[j];
    SlotOrder(cfg, bus, 0, i, j);
    ReportedIsReachable(cfg, bus, 0, x);
    ReportedIsReachable(cfg, bus, 0, y);
  }

  lemma {:induction false} SlotOrderInHead(cfg: Config, bus: nat, k: nat, i: nat, j: nat)
    requires !Cyclic(cfg, bus) && OneWayIn(cfg, bus) && bus < 256 && k < 256
    requires i < j < |HeadOf(cfg, bus, k)| && HeadOf(cfg, bus, k)[i].bus == HeadOf(cfg, bus, k)[j].bus
    ensures SlotNumber(HeadOf(cfg, bus, k)[i]) < SlotNumber(HeadOf(cfg, bus, k)[j])
    decreases Reach(cfg, bus), 256 - k, 0
  {
    hide Cyclic, OneWayIn, Reach, HeadOf, ScanFrom, Slot, SlotNumber, Scanned, IsBridge, SecondaryBus;
    var y, head := Slot(bus, k), HeadOf(cfg, bus, k);
    HeadParts(cfg, bus, k);
    var sec := SecondaryBus(cfg, y);
    OneBridge(cfg, y);
    if i == 0 {
      assert head[j] in ScanFrom(cfg, sec, 0);
      ReportedIsReachable(cfg, sec, 0, head[j]);
      NoWayBack(cfg, y);
    } else {
      OneWayBehind(cfg, bus, sec);
      SlotOrder(cfg, sec, 0, i - 1, j - 1);
    }
  }

  lemma HeadBeforeRest(cfg: Config, bus: nat, k: nat, x: Bdf, z: Bdf)
    requires !Cyclic(cfg, bus) && OneWayIn(cfg, bus) && bus < 256 && k < 256
    requires x in HeadOf(cfg, bus, k) && z in ScanFrom(cfg, bus, k + 1) && x.bus == z.bus
    ensures SlotNumber(x) < SlotNumber(z)
  {
    hide Cyclic, OneWayIn, Reach, HeadOf, ScanFrom, Slot, SlotNumber, Scanned, IsBridge, SecondaryBus;
    var y := Slot(bus, k);
    SlotNumbers(bus, k);
    HeadParts(cfg, bus, k);
    ReportedIsReachable(cfg, bus, k + 1, z);
    if x != y {
      var sec := SecondaryBus(cfg, y);
      ReportedIsReachable(cfg, sec, 0, x);
      ScanIsComplete(cfg, sec, z);
      LaterSlotsApart(cfg, bus, k, z);
    }
  }
}
