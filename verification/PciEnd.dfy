/**
 * When the scan ends: the same recursion with a bound on the depth gives an answer exactly if no cycle can be reached.
 */
module PciEnd {
  import opened Machine
  import opened Pci
  import opened PciTree

  function Append(a: Option<seq<Bdf>>, b: Option<seq<Bdf>>): Option<seq<Bdf>> {
    if a.Some? && b.Some? then Some(a.value + b.value) else None
  }

  /** The scan of one function, at most `fuel` bridges deep; None if that is not enough. */
  ghost function FuelledBehind(cfg: Config, x: Bdf, fuel: nat): Option<seq<Bdf>>
    decreases fuel, 0, 0
  {
    if !Exists(cfg, x) then Some([])
    else if !IsBridge(cfg, x) then Some([x])
    else if fuel == 0 then None
    else Append(Some([x]), FuelledScan(cfg, SecondaryBus(cfg, x), 0, fuel - 1))
  }

  ghost function FuelledScan(cfg: Config, bus: nat, k: nat, fuel: nat): Option<seq<Bdf>>
    requires k <= 256
    decreases fuel, 1, 256 - k
  {
    if k == 256 then Some([])
    else
      Append(if Scanned(cfg, Slot(bus, k)) then FuelledBehind(cfg, Slot(bus, k), fuel) else Some([]),
             FuelledScan(cfg, bus, k + 1, fuel))
  }

  /** Without a cycle, as many levels as there are buses within reach are enough, and the answer is the scan. */
  lemma {:induction false} FuelEnough(cfg: Config, bus: nat, k: nat, fuel: nat)
    requires !Cyclic(cfg, bus) && bus < 256 && k <= 256 && Reach(cfg, bus) <= fuel
    ensures FuelledScan(cfg, bus, k, fuel) == Some(ScanFrom(cfg, bus, k))
    decreases Reach(cfg, bus), 256 - k
  {
    hide Cyclic, Reach, ScanFrom, HeadOf, SecondaryBus, Exists, IsMulti, HeaderType, Slot;
    ScanStep(cfg, bus, k);
    if k < 256 {
      var x := Slot(bus, k);
      HeadParts(cfg, bus, k);
      FuelEnough(cfg, bus, k + 1, fuel);
      if Bridges(cfg, x) {
        FuelEnough(cfg, SecondaryBus(cfg, x), 0, fuel - 1);
      }
    }
  }

  /** An answer for a bus holds the answers for all buses right behind it. */
  lemma {:induction false} AnswerBehind(cfg: Config, bus: nat, k: nat, fuel: nat, x: Bdf)
    requires k <= 256 && FuelledScan(cfg, bus, k, fuel).Some? && Bridges(cfg, x) && x.bus == bus && k <= SlotNumber(x)
    ensures fuel > 0 && FuelledScan(cfg, SecondaryBus(cfg, x), 0, fuel - 1).Some?
    decreases 256 - k
  {
    hide SecondaryBus, Exists, IsMulti, HeaderType;
    SlotOf(x);
    if k < SlotNumber(x) {
      AnswerBehind(cfg, bus, k + 1, fuel, x);
    }
  }

  /** No way is longer than the fuel of a scan that gives an answer. */
  lemma {:induction false} WaysAreShort(cfg: Config, bus: nat, fuel: nat, path: seq<Bdf>, to: nat)
    requires FuelledScan(cfg, bus, 0, fuel).Some? && Leads(cfg, path, bus, to)
    ensures |path| <= fuel
    decreases fuel
  {
    hide FuelledScan, Bridges, SecondaryBus;
    if path != [] {
      FirstBridge(cfg, path, bus, to);
      AnswerBehind(cfg, bus, 0, fuel, path[0]);
      WaysAreShort(cfg, SecondaryBus(cfg, path[0]), fuel - 1, path[1..], to);
    }
  }

  /** Round a cycle there are ways of any length. */
  lemma {:induction false} RoundAndRound(cfg: Config, path: seq<Bdf>, b: nat, n: nat) returns (long: seq<Bdf>)
    requires path != [] && Leads(cfg, path, b, b)
    ensures Leads(cfg, long, b, b) && |long| >= n
  {
    long := [];
    for i := 0 to n
      invariant Leads(cfg, long, b, b) && |long| >= i
    {
      LeadsJoin(cfg, long, b, b, path, b);
      long := long + path;
    }
  }

  /** The scan of a bus ends exactly if no cycle of bridges can be reached from it; 256 levels are then enough. */
  lemma ScanEnds(cfg: Config, bus: nat)
    requires bus < 256
    ensures (exists fuel: nat :: FuelledScan(cfg, bus, 0, fuel).Some?) <==> !Cyclic(cfg, bus)
    ensures !Cyclic(cfg, bus) ==> FuelledScan(cfg, bus, 0, 256) == Some(ScanFrom(cfg, bus, 0))
  {
    hide FuelledScan, ScanFrom, Cyclic, Reach;
    if !Cyclic(cfg, bus) {
      AtMostAllBuses(cfg, bus);
      FuelEnough(cfg, bus, 0, 256);
    } else if fuel: nat :| FuelledScan(cfg, bus, 0, fuel).Some? {
      CycleStarves(cfg, bus, fuel);
    }
  }

  lemma CycleStarves(cfg: Config, bus: nat, fuel: nat)
    requires Cyclic(cfg, bus)
    ensures FuelledScan(cfg, bus, 0, fuel) == None
  {
    hide FuelledScan, Leads;
    var b: nat, path :| Connected(cfg, bus, b) && path != [] && Leads(cfg, path, b, b);
    var way :| Leads(cfg, way, bus, b);
    var long := RoundAndRound(cfg, path, b, fuel + 1);
    LeadsJoin(cfg, way, bus, b, long, b);
    if FuelledScan(cfg, bus, 0, fuel).Some? {
      WaysAreShort(cfg, bus, fuel, way + long, b);
    }
  }

  lemma AtMostAllBuses(cfg: Config, bus: nat)
    ensures Reach(cfg, bus) <= 256
  {
    SubsetSize(Beyond(cfg, bus), Below(256));
  }

  function Below(n: nat): (s: set<nat>)
    ensures |s| == n && forall b: nat :: b in s <==> b < n
  {
    if n == 0 then {} else Below(n - 1) + {n - 1}
  }

  /** A single function that calls itself a bridge to its own bus. */
  function SelfBridge(bus: nat, device: nat, fn: nat, register: nat): Word32 {
    if bus != 0 || device != 0 || fn != 0 then 0xFFFF_FFFF
    else if register == 0x0C then 0x01
    else if register == 0x18 then 0
    else 0x1234_8086
  }

  /** With it the scan of bus 0 never ends. */
  lemma EndlessScan(fuel: nat)
    ensures FuelledScan(SelfBridge, 0, 0, fuel) == None
  {
    hide FuelledScan, Bridges, SecondaryBus, SelfBridge;
    SelfBridgeIsBridge();
    OneBridge(SelfBridge, Bdf(0, 0, 0));
    NoWay(SelfBridge, 0);
    CycleStarves(SelfBridge, 0, fuel);
  }

  lemma SelfBridgeIsBridge()
    ensures Bridges(SelfBridge, Bdf(0, 0, 0)) && SecondaryBus(SelfBridge, Bdf(0, 0, 0)) == 0
  {
    assert SelfBridge(0, 0, 0, 0x0C) == 1 && SelfBridge(0, 0, 0, 0x18) == 0 && SelfBridge(0, 0, 0, 0) == 0x1234_8086;
  }
}
