/**
 * The header byte of pci.c: the scan goes by the low byte of dword 0x0C where the header type is in bits 16 to 23. What
 * that hides, what it makes up, and when the scan nevertheless reports what is there.
 */
module PciHeader {
  import opened Machine
  import opened Pci
  import opened PciTree
  import PciEnd

  /** The same functions with the header type also in the byte that the scan reads. */
  function Corrected(cfg: Config): Config {
    (bus, device, fn, register) =>
      var v := cfg(bus, device, fn, register);
      if register == 0x0C then v / 0x100 * 0x100 + v / 0x1_0000 % 0x100 else v
  }

  /** Scanned by this configuration, the functions are told apart by their true header types. */
  lemma CorrectedBytes(cfg: Config, x: Bdf)
    ensures HeaderType(Corrected(cfg), x) == TrueHeaderType(cfg, x)
    ensures Exists(Corrected(cfg), x) == Exists(cfg, x) && SecondaryBus(Corrected(cfg), x) == SecondaryBus(cfg, x)
  {
  }

  // ---------------------------------------------------------------- function by function

  /** A function other than 0 is found on its bus exactly if the byte that is read of function 0 has its top bit set. */
  lemma FoundByTheByteRead(cfg: Config, x: Bdf)
    requires !Cyclic(cfg, x.bus) && InRange(x) && Exists(cfg, x) && x.fn > 0
    ensures x in ScanFrom(cfg, x.bus, 0) <==> HeaderType(cfg, Bdf(x.bus, x.device, 0)) >= 0x80
  {
    hide Cyclic, ScanFrom;
    ScanIsComplete(cfg, x.bus, x);
    NoWay(cfg, x.bus);
  }

  /** What is on a bus with one way in is found exactly if the byte that is read of that bridge calls it one. */
  lemma FollowedByTheByteRead(cfg: Config, x: Bdf, z: Bdf)
    requires !Cyclic(cfg, x.bus) && Scanned(cfg, x) && Scanned(cfg, z) && SecondaryBus(cfg, x) == z.bus != x.bus
    requires forall y :: Bridges(cfg, y) && SecondaryBus(cfg, y) == z.bus ==> y == x
    ensures z in ScanFrom(cfg, x.bus, 0) <==> HeaderType(cfg, x) % 0x80 == 0x01
  {
    assert x.bus < 256;
    hide Cyclic, ScanFrom, SecondaryBus, Scanned, HeaderType;
    ScanIsComplete(cfg, x.bus, z);
    if IsBridge(cfg, x) {
      OneBridge(cfg, x);
    }
    if Connected(cfg, x.bus, z.bus) {
      var path :| Leads(cfg, path, x.bus, z.bus);
      assert Bridges(cfg, path[|path| - 1]);
    }
  }

  // ---------------------------------------------------------------- when the scan reports what is there

  /** A bridge behind which something is found. */
  ghost predicate Counts(cfg: Config, x: Bdf) {
    Bridges(cfg, x) && Inhabited(cfg, SecondaryBus(cfg, x))
  }

  /** On this bus the byte that is read and the true header type agree on what is scanned and on which bridges count. */
  ghost predicate AgreeOn(cfg: Config, bus: nat) {
    forall x: Bdf :: x.bus == bus ==>
      (Scanned(cfg, x) <==> Scanned(Corrected(cfg), x)) && (Counts(cfg, x) <==> Counts(Corrected(cfg), x))
  }

  /** They agree on this bus and on every bus that truly lies behind it and is not empty. */
  ghost predicate Honest(cfg: Config, bus: nat) {
    AgreeOn(cfg, bus) && forall b: nat :: Connected(Corrected(cfg), bus, b) && Inhabited(Corrected(cfg), b) ==>
      AgreeOn(cfg, b)
  }

  lemma AgreeAt(cfg: Config, x: Bdf)
    requires AgreeOn(cfg, x.bus)
    ensures (Scanned(cfg, x) <==> Scanned(Corrected(cfg), x)) && (Counts(cfg, x) <==> Counts(Corrected(cfg), x))
  {
  }

  lemma HonestBehind(cfg: Config, x: Bdf)
    requires Honest(cfg, x.bus) && Counts(Corrected(cfg), x)
    ensures Honest(cfg, SecondaryBus(cfg, x))
  {
    hide AgreeOn, Scanned, IsBridge;
    var t, sec := Corrected(cfg), SecondaryBus(cfg, x);
    CorrectedBytes(cfg, x);
    OneBridge(t, x);
    forall b: nat | Connected(t, sec, b) && Inhabited(t, b) ensures AgreeOn(cfg, b) {
      ConnectedJoin(t, x.bus, sec, b);
    }
  }

  /** If they agree, the ways by the byte read to anything at all are true ways. */
  lemma {:induction false} HonestWay(cfg: Config, path: seq<Bdf>, bus: nat, to: nat)
    requires Honest(cfg, bus) && Leads(cfg, path, bus, to) && Inhabited(cfg, to)
    ensures Leads(Corrected(cfg), path, bus, to) && (path == [] || Inhabited(Corrected(cfg), to))
    decreases |path|
  {
    hide Scanned, IsBridge, SecondaryBus, AgreeOn;
    if path != [] {
      var x := path[|path| - 1];
      BridgeInhabits(cfg, x);
      HonestWay(cfg, path[..|path| - 1], bus, x.bus);
      assert AgreeOn(cfg, x.bus);
      AgreeAt(cfg, x);
      CorrectedBytes(cfg, x);
    }
  }

  /** If they agree, the byte read makes up no cycle. */
  lemma HonestEnds(cfg: Config, bus: nat)
    requires Honest(cfg, bus) && !Cyclic(Corrected(cfg), bus)
    ensures !Cyclic(cfg, bus)
  {
    hide AgreeOn, Leads, Scanned, IsBridge, SecondaryBus;
    if Cyclic(cfg, bus) {
      var b: nat, path :| Connected(cfg, bus, b) && path != [] && Leads(cfg, path, b, b);
      var way :| Leads(cfg, way, bus, b);
      FirstBridge(cfg, path, b, b);
      BridgeInhabits(cfg, path[0]);
      HonestWay(cfg, way, bus, b);
      LeadsJoin(cfg, way, bus, b, path, b);
      HonestWay(cfg, way + path, bus, b);
      TailOfWay(Corrected(cfg), way, bus, b, path, b);
    }
  }

  lemma {:induction false} TailOfWay(cfg: Config, p: seq<Bdf>, a: nat, b: nat, q: seq<Bdf>, c: nat)
    requires Leads(cfg, p, a, b) && Leads(cfg, p + q, a, c)
    ensures Leads(cfg, q, b, c)
    decreases |q|
  {
    if q == [] {
      assert p + q == p;
      LeadsTo(cfg, p, a, b, c);
    } else {
      var n := |q| - 1;
      assert (p + q)[..|p| + n] == p + q[..n];
      TailOfWay(cfg, p, a, b, q[..n], q[n].bus);
    }
  }

  lemma LeadsTo(cfg: Config, p: seq<Bdf>, a: nat, b: nat, c: nat)
    requires Leads(cfg, p, a, b) && Leads(cfg, p, a, c)
    ensures b == c
  {
  }

  /** If they agree, the two scans report the same. */
  lemma {:induction false} HonestScan(cfg: Config, bus: nat, k: nat)
    requires Honest(cfg, bus) && !Cyclic(cfg, bus) && !Cyclic(Corrected(cfg), bus) && bus < 256 && k <= 256
    ensures ScanFrom(cfg, bus, k) == ScanFrom(Corrected(cfg), bus, k)
    decreases Reach(cfg, bus), 256 - k
  {
    hide Honest, AgreeOn, Cyclic, Reach, ScanFrom, HeadOf, Slot, Scanned, IsBridge, SecondaryBus, Inhabited;
    var t, x := Corrected(cfg), Slot(bus, k);
    ScanStep(cfg, bus, k);
    ScanStep(t, bus, k);
    if k < 256 {
      HonestScan(cfg, bus, k + 1);
      HeadParts(cfg, bus, k);
      HeadParts(t, bus, k);
      HonestHere(cfg, x);
      if Counts(cfg, x) {
        HonestBehind(cfg, x);
        HonestScan(cfg, SecondaryBus(cfg, x), 0);
      } else {
        NothingBehind(cfg, x);
        NothingBehind(t, x);
      }
    }
  }

  lemma HonestHere(cfg: Config, x: Bdf)
    requires Honest(cfg, x.bus)
    ensures (Scanned(cfg, x) <==> Scanned(Corrected(cfg), x)) && (Counts(cfg, x) <==> Counts(Corrected(cfg), x))
    ensures SecondaryBus(Corrected(cfg), x) == SecondaryBus(cfg, x)
  {
    AgreeAt(cfg, x);
    CorrectedBytes(cfg, x);
  }

  lemma NothingBehind(cfg: Config, x: Bdf)
    requires !Counts(cfg, x) && !Cyclic(cfg, x.bus)
    ensures Bridges(cfg, x) ==> SecondaryBus(cfg, x) < 256 && !Cyclic(cfg, SecondaryBus(cfg, x))
    ensures Bridges(cfg, x) ==> ScanFrom(cfg, SecondaryBus(cfg, x), 0) == []
  {
    hide ScanFrom, Cyclic, Reach, Scanned, IsBridge;
    if Bridges(cfg, x) {
      Descend(cfg, x);
      EmptyScan(cfg, SecondaryBus(cfg, x));
    }
  }

  /** The scan of a bus reports something exactly if a function is found on it. */
  lemma EmptyScan(cfg: Config, bus: nat)
    requires !Cyclic(cfg, bus) && bus < 256
    ensures ScanFrom(cfg, bus, 0) == [] <==> !Inhabited(cfg, bus)
  {
    hide ScanFrom, Cyclic, Scanned;
    if Inhabited(cfg, bus) {
      var z :| Scanned(cfg, z) && z.bus == bus;
      NoWay(cfg, bus);
      ScanIsComplete(cfg, bus, z);
    } else if ScanFrom(cfg, bus, 0) != [] {
      var z := ScanFrom(cfg, bus, 0)[0];
      ReportedIsReachable(cfg, bus, 0, z);
      StartInhabited(cfg, bus, z);
    }
  }

  /** Reports begin on the bus that is scanned. */
  lemma {:induction false} FirstReported(cfg: Config, bus: nat, k: nat)
    requires !Cyclic(cfg, bus) && bus < 256 && k <= 256 && ScanFrom(cfg, bus, k) != []
    ensures ScanFrom(cfg, bus, k)[0].bus == bus
    decreases 256 - k
  {
    hide ScanFrom, HeadOf, Cyclic, Reach, Scanned, IsBridge, SecondaryBus, Slot;
    ScanStep(cfg, bus, k);
    HeadParts(cfg, bus, k);
    if HeadOf(cfg, bus, k) == [] {
      FirstReported(cfg, bus, k + 1);
    }
  }

  /** If two configurations report the same from a slot on, they do so for the slot. */
  lemma SameHeads(c: Config, d: Config, bus: nat, k: nat)
    requires !Cyclic(c, bus) && !Cyclic(d, bus) && bus < 256 && k < 256 && ScanFrom(c, bus, k) == ScanFrom(d, bus, k)
    ensures HeadOf(c, bus, k) == HeadOf(d, bus, k) && ScanFrom(c, bus, k + 1) == ScanFrom(d, bus, k + 1)
  {
    hide *;
    ScanStep(c, bus, k);
    ScanStep(d, bus, k);
    var hc, hd, rc, rd := HeadOf(c, bus, k), HeadOf(d, bus, k), ScanFrom(c, bus, k + 1), ScanFrom(d, bus, k + 1);
    if |hc| < |hd| {
      HeadNotLonger(c, d, bus, k);
    } else if |hd| < |hc| {
      HeadNotLonger(d, c, bus, k);
    }
    assert hc == (hc + rc)[..|hc|] && hd == (hd + rd)[..|hd|];
    assert rc == (hc + rc)[|hc|..] && rd == (hd + rd)[|hd|..];
  }

  lemma HeadNotLonger(c: Config, d: Config, bus: nat, k: nat)
    requires !Cyclic(c, bus) && !Cyclic(d, bus) && bus < 256 && k < 256 && ScanFrom(c, bus, k) == ScanFrom(d, bus, k)
    ensures |HeadOf(d, bus, k)| <= |HeadOf(c, bus, k)|
  {
    hide ScanFrom, HeadOf, Cyclic, Reach, Scanned, IsBridge, SecondaryBus, Slot, SlotNumber;
    ScanStep(c, bus, k);
    ScanStep(d, bus, k);
    HeadParts(c, bus, k);
    HeadParts(d, bus, k);
    SlotNumbers(bus, k);
    var hc, hd, rc, rd := HeadOf(c, bus, k), HeadOf(d, bus, k), ScanFrom(c, bus, k + 1), ScanFrom(d, bus, k + 1);
    if |hc| < |hd| {
      var e := hd[|hc|];
      assert (hd + rd)[|hc|] == e && (hc + rc)[|hc|] == rc[0];
      FirstReported(c, bus, k + 1);
      ReportedIsReachable(c, bus, k + 1, e);
      if hc != [] {
        var x := Slot(bus, k);
        assert e in ScanFrom(d, SecondaryBus(d, x), 0);
        ReportedIsReachable(d, SecondaryBus(d, x), 0, e);
        NoWayBack(d, x);
      }
    }
  }

  lemma {:induction false} SameFrom(c: Config, d: Config, bus: nat, k: nat)
    requires !Cyclic(c, bus) && !Cyclic(d, bus) && bus < 256 && k <= 256 && ScanFrom(c, bus, 0) == ScanFrom(d, bus, 0)
    ensures ScanFrom(c, bus, k) == ScanFrom(d, bus, k)
    decreases k
  {
    hide *;
    if k > 0 {
      SameFrom(c, d, bus, k - 1);
      SameHeads(c, d, bus, k - 1);
    }
  }

  /** The same reports mean agreement on the bus. */
  lemma SameAgree(cfg: Config, bus: nat)
    requires !Cyclic(cfg, bus) && !Cyclic(Corrected(cfg), bus) && bus < 256
    requires ScanFrom(cfg, bus, 0) == ScanFrom(Corrected(cfg), bus, 0)
    ensures AgreeOn(cfg, bus)
  {
    hide ScanFrom, Cyclic, Counts, Scanned;
    var t := Corrected(cfg);
    forall x: Bdf | x.bus == bus ensures (Scanned(cfg, x) <==> Scanned(t, x)) && (Counts(cfg, x) <==> Counts(t, x)) {
      if InRange(x) {
        SlotOf(x);
        SameSlot(cfg, x);
      } else {
        OutOfRange(cfg, x);
        OutOfRange(t, x);
      }
    }
  }

  lemma OutOfRange(cfg: Config, x: Bdf)
    requires !InRange(x)
    ensures !Scanned(cfg, x) && !Counts(cfg, x)
  {
  }

  lemma SameSlot(cfg: Config, x: Bdf)
    requires InRange(x) && !Cyclic(cfg, x.bus) && !Cyclic(Corrected(cfg), x.bus)
    requires ScanFrom(cfg, x.bus, 0) == ScanFrom(Corrected(cfg), x.bus, 0)
    ensures (Scanned(cfg, x) <==> Scanned(Corrected(cfg), x)) && (Counts(cfg, x) <==> Counts(Corrected(cfg), x))
    ensures Counts(cfg, x) ==>
      var sec := SecondaryBus(cfg, x);
      && sec < 256 && !Cyclic(cfg, sec) && !Cyclic(Corrected(cfg), sec)
      && ScanFrom(cfg, sec, 0) == ScanFrom(Corrected(cfg), sec, 0)
  {
    hide ScanFrom, HeadOf, Cyclic, Reach, Scanned, IsBridge, SecondaryBus, Slot, SlotNumber, Inhabited;
    var t, k := Corrected(cfg), SlotNumber(x);
    SlotOf(x);
    SameFrom(cfg, t, x.bus, k);
    SameHeads(cfg, t, x.bus, k);
    HeadParts(cfg, x.bus, k);
    HeadParts(t, x.bus, k);
    CorrectedBytes(cfg, x);
    CountsIsLong(cfg, x);
    CountsIsLong(t, x);
    if Counts(cfg, x) {
      var sec := SecondaryBus(cfg, x);
      SameTails(x, ScanFrom(cfg, sec, 0), ScanFrom(t, sec, 0));
    }
  }

  lemma SameTails(x: Bdf, a: seq<Bdf>, b: seq<Bdf>)
    requires [x] + a == [x] + b
    ensures a == b
  {
    assert a == ([x] + a)[1..] && b == ([x] + b)[1..];
  }

  lemma CountsIsLong(cfg: Config, x: Bdf)
    requires InRange(x) && !Cyclic(cfg, x.bus)
    ensures SlotNumber(x) < 256 && (Counts(cfg, x) <==> |HeadOf(cfg, x.bus, SlotNumber(x))| > 1)
  {
    hide ScanFrom, HeadOf, Cyclic, Reach, Scanned, IsBridge, SecondaryBus, Slot, SlotNumber, Inhabited;
    SlotOf(x);
    HeadParts(cfg, x.bus, SlotNumber(x));
    if Bridges(cfg, x) {
      EmptyScan(cfg, SecondaryBus(cfg, x));
    }
  }

  /** The same reports mean agreement on every bus that truly lies behind and is not empty. */
  lemma {:induction false} SameAgreeBehind(cfg: Config, path: seq<Bdf>, bus: nat, b: nat)
    requires !Cyclic(cfg, bus) && !Cyclic(Corrected(cfg), bus) && bus < 256
    requires ScanFrom(cfg, bus, 0) == ScanFrom(Corrected(cfg), bus, 0)
    requires Leads(Corrected(cfg), path, bus, b) && Inhabited(Corrected(cfg), b)
    ensures AgreeOn(cfg, b)
    decreases |path|
  {
    hide ScanFrom, Cyclic, Scanned, IsBridge, SecondaryBus, AgreeOn;
    var t := Corrected(cfg);
    if path == [] {
      SameAgree(cfg, bus);
    } else {
      FirstBridge(t, path, bus, b);
      var x := path[0];
      CorrectedBytes(cfg, x);
      if path[1..] != [] {
        FirstBridge(t, path[1..], SecondaryBus(t, x), b);
        BridgeInhabits(t, path[1]);
      }
      BridgeInRange(t, x);
      SameSlot(cfg, x);
      SameAgreeBehind(cfg, path[1..], SecondaryBus(cfg, x), b);
    }
  }

  lemma BridgeInRange(cfg: Config, x: Bdf)
    requires Bridges(cfg, x)
    ensures InRange(x)
  {
  }

  /**
   * Where the true header types make no cycle: the scan by the byte read ends and reports exactly what it would by the
   * true header types, in the same order, if and only if the two agree on the buses that are truly there.
   */
  lemma ScanIsHonest(cfg: Config, bus: nat)
    requires bus < 256 && !Cyclic(Corrected(cfg), bus)
    ensures (!Cyclic(cfg, bus) && ScanFrom(cfg, bus, 0) == ScanFrom(Corrected(cfg), bus, 0)) <==> Honest(cfg, bus)
  {
    hide ScanFrom, Cyclic, AgreeOn, Leads;
    var t := Corrected(cfg);
    if Honest(cfg, bus) {
      HonestEnds(cfg, bus);
      HonestScan(cfg, bus, 0);
    }
    if !Cyclic(cfg, bus) && ScanFrom(cfg, bus, 0) == ScanFrom(t, bus, 0) {
      SameAgree(cfg, bus);
      forall b: nat | Connected(t, bus, b) && Inhabited(t, b) ensures AgreeOn(cfg, b) {
        var path :| Leads(t, path, bus, b);
        SameAgreeBehind(cfg, path, bus, b);
      }
    }
  }

  /** What is then reported is what is truly reachable. */
  lemma HonestIsComplete(cfg: Config, bus: nat, x: Bdf)
    requires bus < 256 && !Cyclic(Corrected(cfg), bus) && Honest(cfg, bus)
    ensures !Cyclic(cfg, bus) && (x in ScanFrom(cfg, bus, 0) <==> Reachable(Corrected(cfg), bus, x))
  {
    hide ScanFrom, Cyclic, Honest, Reachable;
    ScanIsHonest(cfg, bus);
    ScanIsComplete(Corrected(cfg), bus, x);
  }

  // ---------------------------------------------------------------- what goes wrong

  /** A device at every slot, all of them with the multi-function bit set in the true header type. */
  function MultiFunction(bus: nat, device: nat, fn: nat, register: nat): Word32 {
    if register == 0x0C then 0x0080_0000 else 0x1234_8086
  }

  lemma MultiFunctionBytes(x: Bdf)
    ensures Exists(MultiFunction, x) && TrueHeaderType(MultiFunction, x) == 0x80 && HeaderType(MultiFunction, x) == 0
  {
    assert MultiFunction(x.bus, x.device, x.fn, 0x0C) == 0x0080_0000;
  }

  /** Function 1 exists and the multi-function bit is set, and function 1 is not reported. */
  lemma MultiFunctionMissed() returns (cfg: Config)
    ensures !Cyclic(cfg, 0)
    ensures Exists(cfg, Bdf(0, 0, 0)) && TrueHeaderType(cfg, Bdf(0, 0, 0)) == 0x80
    ensures Exists(cfg, Bdf(0, 0, 1)) && Bdf(0, 0, 1) !in ScanFrom(cfg, 0, 0)
  {
    hide Exists, TrueHeaderType, HeaderType, MultiFunction, Cyclic, ScanFrom;
    cfg := MultiFunction;
    forall x ensures Exists(cfg, x) && TrueHeaderType(cfg, x) == 0x80 && HeaderType(cfg, x) == 0 {
      MultiFunctionBytes(x);
    }
    NoBridges(cfg, 0);
    FoundByTheByteRead(cfg, Bdf(0, 0, 1));
  }

  /** A true bridge from bus 0 to bus 1 with cache lines of 16 dwords, and a device on bus 1. */
  function LostBridge(bus: nat, device: nat, fn: nat, register: nat): Word32 {
    if bus > 1 || device != 0 || fn != 0 then 0xFFFF_FFFF
    else if register == 0x0C then if bus == 0 then 0x0001_0010 else 0x10
    else if register == 0x18 then 0x0100
    else 0x1234_8086
  }

  lemma LostBridgeBytes(x: Bdf)
    ensures HeaderType(LostBridge, x) in {0x10, 0xFF}
    ensures x in {Bdf(0, 0, 0), Bdf(1, 0, 0)} ==> Exists(LostBridge, x)
    ensures x == Bdf(0, 0, 0) ==> TrueHeaderType(LostBridge, x) == 0x01 && SecondaryBus(LostBridge, x) == 1
  {
    assert LostBridge(0, 0, 0, 0x0C) == 0x0001_0010 && LostBridge(0, 0, 0, 0x18) == 0x0100;
  }

  /** The device behind the bridge is truly there, and is not reported. */
  lemma BridgeMissed() returns (cfg: Config)
    ensures !Cyclic(cfg, 0) && TrueHeaderType(cfg, Bdf(0, 0, 0)) == 0x01
    ensures Reachable(Corrected(cfg), 0, Bdf(1, 0, 0)) && Bdf(1, 0, 0) !in ScanFrom(cfg, 0, 0)
  {
    hide Exists, TrueHeaderType, HeaderType, SecondaryBus, LostBridge, Corrected, Cyclic, ScanFrom, Leads;
    cfg := LostBridge;
    forall x ensures HeaderType(cfg, x) in {0x10, 0xFF} {
      LostBridgeBytes(x);
    }
    NoBridges(cfg, 0);
    var b, z := Bdf(0, 0, 0), Bdf(1, 0, 0);
    LostBridgeBytes(b);
    LostBridgeBytes(z);
    CorrectedBytes(cfg, b);
    CorrectedBytes(cfg, z);
    OneBridge(Corrected(cfg), b);
    FollowedByTheByteRead(cfg, b, z);
  }

  /** No true bridge anywhere, and by the byte read the scan never ends. */
  lemma BridgeMadeUp() returns (cfg: Config)
    ensures forall x :: !IsBridge(Corrected(cfg), x)
    ensures !Cyclic(Corrected(cfg), 0) && Cyclic(cfg, 0)
  {
    hide SecondaryBus, Corrected, Cyclic, Leads, Bridges, HeaderType, TrueHeaderType;
    cfg := PciEnd.SelfBridge;
    forall x ensures !IsBridge(Corrected(cfg), x) {
      SelfBridgeTruly(x);
      CorrectedBytes(cfg, x);
    }
    NoTrueBridges(Corrected(cfg));
    NoBridges(Corrected(cfg), 0);
    PciEnd.SelfBridgeIsBridge();
    SelfCycle(cfg, Bdf(0, 0, 0));
  }

  lemma NoTrueBridges(cfg: Config)
    requires forall x :: !IsBridge(cfg, x)
    ensures forall x :: !Bridges(cfg, x)
  {
  }

  lemma SelfBridgeTruly(x: Bdf)
    ensures TrueHeaderType(PciEnd.SelfBridge, x) in {0, 0xFF}
  {
    assert PciEnd.SelfBridge(0, 0, 0, 0x0C) == 1;
  }

  lemma SelfCycle(cfg: Config, x: Bdf)
    requires Bridges(cfg, x) && SecondaryBus(cfg, x) == x.bus
    ensures Cyclic(cfg, x.bus)
  {
    OneBridge(cfg, x);
    NoWay(cfg, x.bus);
  }
}
