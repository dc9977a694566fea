/** The scan of pci.c step by step: filling in device records, calling back, and looking for the EHCI controller. */
module PciScan {
  import opened Machine
  import opened Pci
  import opened PciTree

  datatype Device = Device(at: Bdf, vendorId: nat, deviceId: nat, classCode: nat, subclass: nat, progIf: nat,
                           headerType: nat, bars: seq<Word32>)

  /** The record of a function, each field read from its register. */
  function Describe(cfg: Config, x: Bdf): Device {
    Device(x, VendorId(cfg, x), DeviceId(cfg, x), Class(cfg, x), Subclass(cfg, x), ProgIf(cfg, x), HeaderType(cfg, x),
           seq(6, i requires 0 <= i < 6 => Bar(cfg, x, i)))
  }

  /** The fields of a record together are the dwords that they were read from. */
  lemma RecordHoldsDwords(cfg: Config, x: Bdf)
    ensures var d, at := Describe(cfg, x), (register: nat) => cfg(x.bus, x.device, x.fn, register);
      && d.at == x && d.vendorId < 0x1_0000 && d.deviceId < 0x1_0000 && d.classCode < 0x100 && d.subclass < 0x100
      && d.progIf < 0x100 && at(0x00) == 0x1_0000 * d.deviceId + d.vendorId
      && at(0x08) / 0x100 == 0x1_0000 * d.classCode + 0x100 * d.subclass + d.progIf
      && d.headerType == at(0x0C) % 0x100
      && |d.bars| == 6 && forall i :: 0 <= i < 6 ==> d.bars[i] == at(0x10 + 4 * i)
  {
    Halves(cfg(x.bus, x.device, x.fn, 0));
    ClassBytes(cfg(x.bus, x.device, x.fn, 8));
    hide Exists;
  }

  lemma Halves(v: Word32)
    ensures v == 0x1_0000 * (v / 0x1_0000 % 0x1_0000) + v % 0x1_0000
  {
  }

  lemma ClassBytes(v: Word32)
    ensures v / 0x100 == 0x1_0000 * (v / 0x100_0000 % 0x100) + 0x100 * (v / 0x1_0000 % 0x100) + v / 0x100 % 0x100
  {
    assert v / 0x1_0000 == v / 0x100 / 0x100;
    assert v / 0x100_0000 == v / 0x1_0000 / 0x100;
  }

  function DescribeAll(cfg: Config, s: seq<Bdf>): (r: seq<Device>)
    ensures |r| == |s| && forall i :: 0 <= i < |s| ==> r[i] == Describe(cfg, s[i])
  {
    seq(|s|, i requires 0 <= i < |s| => Describe(cfg, s[i]))
  }

  lemma DescribeJoin(cfg: Config, a: seq<Bdf>, b: seq<Bdf>)
    ensures DescribeAll(cfg, a + b) == DescribeAll(cfg, a) + DescribeAll(cfg, b)
  {
  }

  /** A callback that keeps the records it is given. */
  class Recorder {
    var seen: seq<Device>

    constructor ()
      ensures seen == []
    {
      seen := [];
    }

    method Call(dev: Device)
      modifies this
      ensures seen == old(seen) + [dev]
    {
      seen := seen + [dev];
    }
  }

  method ReadBars(ports: Ports, x: Bdf) returns (bars: seq<Word32>)
    requires InRange(x)
    modifies ports
    ensures |bars| == 6 && forall i :: 0 <= i < 6 ==> bars[i] == Bar(ports.cfg, x, i)
  {
    bars := [];
    for i := 0 to 6
      invariant |bars| == i && forall j :: 0 <= j < i ==> bars[j] == Bar(ports.cfg, x, j)
    {
      var bar := ports.ReadConfig(x, 0x10 + 4 * i);
      bars := bars + [bar];
    }
  }

  method DeviceExists(ports: Ports, x: Bdf) returns (exist: bool)
    requires InRange(x)
    modifies ports
    ensures exist == Exists(ports.cfg, x)
  {
    var id := ports.ReadConfig(x, 0x00);
    exist := id % 0x10000 != 0xFFFF;
  }

  method ReadHeaderType(ports: Ports, x: Bdf) returns (h: nat)
    requires InRange(x)
    modifies ports
    ensures h == HeaderType(ports.cfg, x)
  {
    var dword := ports.ReadConfig(x, 0x0E);
    h := dword % 0x100;
  }

  method ReadSecondaryBus(ports: Ports, x: Bdf) returns (b: nat)
    requires InRange(x)
    modifies ports
    ensures b == SecondaryBus(ports.cfg, x)
  {
    var dword := ports.ReadConfig(x, 0x19);
    b := dword / 0x100 % 0x100;
  }

  method ReadDevice(ports: Ports, x: Bdf) returns (dev: Device)
    requires InRange(x)
    modifies ports
    ensures dev == Describe(ports.cfg, x)
  {
    var vendor := ports.ReadConfig(x, 0x00);
    var device := ports.ReadConfig(x, 0x02);
    var classCode := ports.ReadConfig(x, 0x0B);
    var subclass := ports.ReadConfig(x, 0x0B);
    var progIf := ports.ReadConfig(x, 0x0B);
    var header := ReadHeaderType(ports, x);
    var bars := ReadBars(ports, x);
    assert bars == Describe(ports.cfg, x).bars;
    dev := Device(x, vendor % 0x10000, device / 0x10000 % 0x10000, classCode / 0x1000000 % 0x100,
                  subclass / 0x10000 % 0x100, progIf / 0x100 % 0x100, header, bars);
  }

  /** What the callback has been given, if there is one. */
  twostate predicate Reported(cfg: Config, callback: Recorder?, s: seq<Bdf>)
    reads callback
  {
    callback != null ==> callback.seen == old(callback.seen) + DescribeAll(cfg, s)
  }

  lemma BehindParts(cfg: Config, x: Bdf)
    requires Tried(cfg, x) && !Cyclic(cfg, x.bus)
    ensures DescribeAll(cfg, []) == [] && DescribeAll(cfg, [x]) == [Describe(cfg, x)]
    ensures !Exists(cfg, x) ==> Behind(cfg, x) == []
    ensures Describe(cfg, x).headerType % 0x80 == 0x01 <==> IsBridge(cfg, x)
    ensures Exists(cfg, x) && !IsBridge(cfg, x) ==> Behind(cfg, x) == [x]
    ensures Exists(cfg, x) && IsBridge(cfg, x) ==>
      var sec := SecondaryBus(cfg, x);
      && sec < 256 && !Cyclic(cfg, sec) && Reach(cfg, sec) < Reach(cfg, x.bus)
      && Behind(cfg, x) == [x] + ScanFrom(cfg, sec, 0)
  {
    hide HeaderType, SecondaryBus, Exists, Reach, Cyclic;
    if Exists(cfg, x) && IsBridge(cfg, x) {
      Descend(cfg, x);
    }
  }

  method ScanFunction(ports: Ports, x: Bdf, callback: Recorder?)
    requires Tried(ports.cfg, x) && !Cyclic(ports.cfg, x.bus)
    modifies ports, callback
    ensures Reported(ports.cfg, callback, Behind(ports.cfg, x))
    decreases Reach(ports.cfg, x.bus), 0, 0
  {
    hide DescribeAll, Behind, ScanFrom, Cyclic, Reach, Exists, Describe, SecondaryBus, IsBridge;
    BehindParts(ports.cfg, x);
    var exist := DeviceExists(ports, x);
    if !exist {
      return;
    }
    var dev := ReadDevice(ports, x);
    if callback != null {
      callback.Call(dev);
    }
    if dev.headerType % 0x80 == 0x01 {
      var secondary := ReadSecondaryBus(ports, x);
      ScanBus(ports, secondary, callback);
      DescribeJoin(ports.cfg, [x], ScanFrom(ports.cfg, secondary, 0));
    }
  }

  method ScanBus(ports: Ports, bus: nat, callback: Recorder?)
    requires bus < 256 && !Cyclic(ports.cfg, bus)
    modifies ports, callback
    ensures Reported(ports.cfg, callback, ScanFrom(ports.cfg, bus, 0))
    decreases Reach(ports.cfg, bus), 2, 0
  {
    hide ScanFrom, Cyclic, DescribeAll;
    ghost var done: seq<Bdf> := [];
    ScanEnd(ports.cfg, bus);
    DescribeJoin(ports.cfg, [], []);
    for device := 0 to 32
      invariant Reported(ports.cfg, callback, done)
      invariant ScanFrom(ports.cfg, bus, 0) == done + ScanFrom(ports.cfg, bus, 8 * device)
    {
      ghost var more := ScanDevice(ports, bus, device, callback);
      DescribeJoin(ports.cfg, done, more);
      AppendMore(done, more, ScanFrom(ports.cfg, bus, 8 * device + 8));
      done := done + more;
    }
  }

  method ScanDevice(ports: Ports, bus: nat, device: nat, callback: Recorder?) returns (ghost more: seq<Bdf>)
    requires bus < 256 && device < 32 && !Cyclic(ports.cfg, bus)
    modifies ports, callback
    ensures Reported(ports.cfg, callback, more)
    ensures ScanFrom(ports.cfg, bus, 8 * device) == more + ScanFrom(ports.cfg, bus, 8 * device + 8)
    decreases Reach(ports.cfg, bus), 1, 0
  {
    hide ScanFrom, Cyclic, DescribeAll, Behind, Exists, HeaderType;
    var header := ReadHeaderType(ports, Bdf(bus, device, 0));
    ScanFunction(ports, Bdf(bus, device, 0), callback);
    more := Behind(ports.cfg, Bdf(bus, device, 0));
    SlotStep(ports.cfg, bus, device, 0);
    if header / 0x80 == 1 {
      for fn := 1 to 8
        invariant Reported(ports.cfg, callback, more)
        invariant ScanFrom(ports.cfg, bus, 8 * device) == more + ScanFrom(ports.cfg, bus, 8 * device + fn)
      {
        var exist := DeviceExists(ports, Bdf(bus, device, fn));
        SlotStep(ports.cfg, bus, device, fn);
        if exist {
          ScanFunction(ports, Bdf(bus, device, fn), callback);
          ghost var here := Behind(ports.cfg, Bdf(bus, device, fn));
          DescribeJoin(ports.cfg, more, here);
          AppendMore(more, here, ScanFrom(ports.cfg, bus, 8 * device + fn + 1));
          more := more + here;
        }
      }
    } else {
      SkipFunctions(ports.cfg, bus, device, 1);
    }
  }

  lemma AppendMore(done: seq<Bdf>, more: seq<Bdf>, rest: seq<Bdf>)
    ensures done + (more + rest) == (done + more) + rest
  {
  }

  lemma ScanEnd(cfg: Config, bus: nat)
    requires !Cyclic(cfg, bus) && bus < 256
    ensures ScanFrom(cfg, bus, 256) == []
    ensures DescribeAll(cfg, []) == []
  {
  }

  /** What the scan reports for one function number of a device. */
  lemma SlotStep(cfg: Config, bus: nat, device: nat, fn: nat)
    requires !Cyclic(cfg, bus) && bus < 256 && device < 32 && fn < 8
    ensures fn == 0 || (IsMulti(cfg, bus, device) && Exists(cfg, Bdf(bus, device, fn)))
      ==> ScanFrom(cfg, bus, 8 * device + fn)
          == Behind(cfg, Bdf(bus, device, fn)) + ScanFrom(cfg, bus, 8 * device + fn + 1)
    ensures fn != 0 && !(IsMulti(cfg, bus, device) && Exists(cfg, Bdf(bus, device, fn)))
      ==> ScanFrom(cfg, bus, 8 * device + fn) == ScanFrom(cfg, bus, 8 * device + fn + 1)
  {
    SlotAt(bus, device, fn);
    hide ScanFrom, Exists, IsMulti, Cyclic, Slot;
    var x := Bdf(bus, device, fn);
    ScanStep(cfg, bus, 8 * device + fn);
    if !Scanned(cfg, x) {
      assert HeadOf(cfg, bus, 8 * device + fn) == [];
      if fn == 0 {
        assert Behind(cfg, x) == [];
      }
    }
  }

  lemma SlotAt(bus: nat, device: nat, fn: nat)
    requires fn < 8
    ensures Slot(bus, 8 * device + fn) == Bdf(bus, device, fn)
  {
  }

  /** The other functions of a single-function device are passed over. */
  lemma {:induction false} SkipFunctions(cfg: Config, bus: nat, device: nat, fn: nat)
    requires !Cyclic(cfg, bus) && bus < 256 && device < 32 && 1 <= fn <= 8 && !IsMulti(cfg, bus, device)
    ensures ScanFrom(cfg, bus, 8 * device + fn) == ScanFrom(cfg, bus, 8 * device + 8)
    decreases 8 - fn
  {
    hide *;
    if fn < 8 {
      SlotStep(cfg, bus, device, fn);
      SkipFunctions(cfg, bus, device, fn + 1);
    }
  }

  /** `pci_scan`: one record for each function reachable from bus 0, none twice unless its bus has two ways in. */
  method Scan(ports: Ports, callback: Recorder)
    requires !Cyclic(ports.cfg, 0)
    modifies ports, callback
    ensures callback.seen == old(callback.seen) + DescribeAll(ports.cfg, ScanFrom(ports.cfg, 0, 0))
    ensures forall x :: x in ScanFrom(ports.cfg, 0, 0) <==> Reachable(ports.cfg, 0, x)
    ensures NoRepeats(ScanFrom(ports.cfg, 0, 0)) <==> OneWayIn(ports.cfg, 0)
  {
    hide ScanFrom, Cyclic, DescribeAll, Reachable, OneWayIn, NoRepeats;
    ScanBus(ports, 0, callback);
    forall x ensures x in ScanFrom(ports.cfg, 0, 0) <==> Reachable(ports.cfg, 0, x) {
      ScanIsComplete(ports.cfg, 0, x);
    }
    ScanReportsOnce(ports.cfg, 0);
  }

  // ---------------------------------------------------------------- looking for the EHCI controller

  /** Function 0 of the slot is an EHCI controller: serial bus, USB, programming interface 0x20. */
  predicate IsEhci(cfg: Config, x: Bdf) {
    Exists(cfg, x) && Class(cfg, x) == 0x0C && Subclass(cfg, x) == 0x03 && ProgIf(cfg, x) == 0x20
  }

  /** A present function whose class dword, but for the revision, is 0x0C0320. */
  lemma EhciDwords(cfg: Config, x: Bdf)
    ensures IsEhci(cfg, x) <==>
      cfg(x.bus, x.device, x.fn, 0) % 0x1_0000 != 0xFFFF && cfg(x.bus, x.device, x.fn, 8) / 0x100 == 0x0C0320
  {
    ClassBytes(cfg(x.bus, x.device, x.fn, 8));
  }

  /** No controller on a device before this one, bus by bus. */
  ghost predicate NoneBefore(cfg: Config, bus: nat, device: nat) {
    forall b: nat, d: nat {:trigger Bdf(b, d, 0)} :: d < 32 && (b < bus || (b == bus && d < device)) ==>
      !IsEhci(cfg, Bdf(b, d, 0))
  }

  /** The record of the first controller in the order of the search. */
  ghost predicate FirstEhci(cfg: Config, dev: Device) {
    && dev.at.device < 32 && dev.at.fn == 0 && IsEhci(cfg, dev.at) && dev == Describe(cfg, dev.at)
    && NoneBefore(cfg, dev.at.bus, dev.at.device)
  }

  class DeviceSlot {
    var dev: Device

    constructor (dev: Device)
      ensures this.dev == dev
    {
      this.dev := dev;
    }
  }

  /** `pci_find_ehci`: every bus is searched, reachable or not, and the first controller is handed out. */
  method FindEhci(ports: Ports, out: DeviceSlot?) returns (found: bool)
    requires !Cyclic(ports.cfg, 0)
    modifies ports, out
    ensures found <==> exists b: nat, d: nat :: b < 256 && d < 32 && IsEhci(ports.cfg, Bdf(b, d, 0))
    ensures out != null && !found ==> out.dev == old(out.dev)
    ensures out != null && found ==> out.dev.at.bus < 256 && FirstEhci(ports.cfg, out.dev)
  {
    hide ScanFrom, Exists, Class, Subclass, ProgIf, Describe;
    ScanBus(ports, 0, null);
    found := false;
    var foundDev := Device(Bdf(0, 0, 0), 0, 0, 0, 0, 0, 0, []);
    var bus := 0;
    while bus < 256 && !found
      invariant bus <= 256
      invariant !found ==> NoneBefore(ports.cfg, bus, 0)
      invariant found ==> foundDev.at.bus < 256 && FirstEhci(ports.cfg, foundDev)
      decreases 256 - bus
      modifies ports
    {
      var device := 0;
      while device < 32 && !found
        invariant device <= 32
        invariant !found ==> NoneBefore(ports.cfg, bus, device)
        invariant found ==> foundDev.at.bus < 256 && FirstEhci(ports.cfg, foundDev)
        decreases 32 - device
        modifies ports
      {
        var x := Bdf(bus, device, 0);
        var matches := MatchesEhci(ports, x);
        if matches {
          foundDev := ReadDevice(ports, x);
          DescribedAt(ports.cfg, x);
          found := true;
        }
        device := device + 1;
      }
      bus := bus + 1;
    }
    if found && out != null {
      out.dev := foundDev;
    }
  }

  /** A machine whose only function is an EHCI controller at 0:29.0. */
  function OneController(bus: nat, device: nat, fn: nat, register: nat): Word32 {
    if bus != 0 || device != 29 || fn != 0 then 0xFFFF_FFFF
    else if register == 0x00 then 0x24CD_8086
    else if register == 0x08 then 0x0C03_2002
    else 0
  }

  /** On it the search ends and finds that controller, and hands out its record. */
  method FindTheController(out: DeviceSlot) returns (found: bool)
    modifies out
    ensures found && out.dev.at == Bdf(0, 29, 0) && IsTheController(out.dev)
  {
    OneIsFound();
    hide OneController, IsEhci, Cyclic, Describe, IsTheController;
    var ports := new Ports(OneController);
    assert IsEhci(OneController, Bdf(0, 29, 0));
    found := FindEhci(ports, out);
    OneRecord();
  }

  predicate IsTheController(d: Device) {
    && d.vendorId == 0x8086 && d.deviceId == 0x24CD && d.classCode == 0x0C && d.subclass == 0x03 && d.progIf == 0x20
  }

  lemma OneIsFound()
    ensures !Cyclic(OneController, 0)
    ensures forall x :: IsEhci(OneController, x) <==> x == Bdf(0, 29, 0)
  {
    hide Cyclic, IsEhci, Bridges, Exists;
    forall x ensures !Bridges(OneController, x) && (IsEhci(OneController, x) <==> x == Bdf(0, 29, 0)) {
      OneAt(x);
    }
    NoBridges(OneController, 0);
  }

  lemma OneAt(x: Bdf)
    ensures !Bridges(OneController, x) && (IsEhci(OneController, x) <==> x == Bdf(0, 29, 0))
  {
    ScannedDwords(OneController, x);
    EhciDwords(OneController, x);
    assert OneController(0, 29, 0, 0) == 0x24CD_8086 && OneController(0, 29, 0, 8) == 0x0C03_2002;
    hide Bridges, IsEhci, Exists;
  }

  lemma OneRecord()
    ensures IsTheController(Describe(OneController, Bdf(0, 29, 0)))
  {
    hide Describe;
    RecordHoldsDwords(OneController, Bdf(0, 29, 0));
    assert OneController(0, 29, 0, 0) == 0x24CD_8086 && OneController(0, 29, 0, 8) == 0x0C03_2002;
  }

  lemma DescribedAt(cfg: Config, x: Bdf)
    ensures Describe(cfg, x).at == x
  {
  }

  method MatchesEhci(ports: Ports, x: Bdf) returns (yes: bool)
    requires InRange(x)
    modifies ports
    ensures yes == IsEhci(ports.cfg, x)
  {
    yes := DeviceExists(ports, x);
    if yes {
      var classCode := ports.ReadConfig(x, 0x0B);
      var subclass := ports.ReadConfig(x, 0x0B);
      var progIf := ports.ReadConfig(x, 0x0B);
      yes :=
        classCode / 0x1000000 % 0x100 == 0x0C && subclass / 0x10000 % 0x100 == 0x03 && progIf / 0x100 % 0x100 == 0x20;
    }
  }
}
