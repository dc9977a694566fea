/** PCI configuration space as pci.c reads it: addresses, register fields, and which functions a scan tries. */
module Pci {
  import opened Machine

  /** The configuration space: the dword at bus, device, function and (dword-aligned) register. */
  type Config = (nat, nat, nat, nat) -> Word32

  // ---------------------------------------------------------------- addressing

  /** The address that `pci_read_config` writes to port 0xCF8. */
  function ConfigAddress(bus: bv8, device: bv8, fn: bv8, offset: bv8): bv32 {
    ((bus as bv32) << 16) | ((device as bv32) << 11) | ((fn as bv32) << 8) | ((offset & 0xFC) as bv32) | 0x80000000
  }

  /** The fields a host bridge reads from it (section 3.2.2.3.2 of the PCI Local Bus Specification 3.0). */
  datatype Fields = Fields(enabled: bool, bus: bv32, device: bv32, fn: bv32, register: bv32, low: bv32)

  function Decode(a: bv32): Fields {
    Fields(a >> 31 == 1, (a >> 16) & 0xFF, (a >> 11) & 0x1F, (a >> 8) & 0x7, (a >> 2) & 0x3F, a & 0x3)
  }

  /**
   * Every function and register has an address of its own, which the bridge reads as meant; the reserved bits are zero.
   */
  lemma AddressDecodes(bus: bv8, device: bv8, fn: bv8, offset: bv8)
    requires device < 32 && fn < 8
    ensures Decode(ConfigAddress(bus, device, fn, offset))
      == Fields(true, bus as bv32, device as bv32, fn as bv32, (offset as bv32) >> 2, 0)
    ensures (ConfigAddress(bus, device, fn, offset) >> 24) & 0x7F == 0
  {
  }

  /** In numbers: a bus has 64 KB of addresses, a device 2 KB, a function 256 bytes. */
  lemma AddressIsSum(bus: bv8, device: bv8, fn: bv8, offset: bv8)
    requires device < 32 && fn < 8
    ensures ConfigAddress(bus, device, fn, offset)
      == 0x8000_0000 + 0x1_0000 * (bus as bv32) + 0x800 * (device as bv32) + 0x100 * (fn as bv32)
         + (offset as bv32) / 4 * 4
  {
  }

  // ---------------------------------------------------------------- registers

  datatype Bdf = Bdf(bus: nat, device: nat, fn: nat)

  predicate InRange(x: Bdf) {
    x.bus < 256 && x.device < 32 && x.fn < 8
  }

  function Dword(cfg: Config, x: Bdf, offset: nat): Word32 {
    cfg(x.bus, x.device, x.fn, offset - offset % 4)
  }

  function VendorId(cfg: Config, x: Bdf): nat { Dword(cfg, x, 0x00) % 0x10000 }

  function DeviceId(cfg: Config, x: Bdf): nat { Dword(cfg, x, 0x02) / 0x10000 % 0x10000 }

  function Class(cfg: Config, x: Bdf): nat { Dword(cfg, x, 0x0B) / 0x1000000 % 0x100 }

  function Subclass(cfg: Config, x: Bdf): nat { Dword(cfg, x, 0x0B) / 0x10000 % 0x100 }

  function ProgIf(cfg: Config, x: Bdf): nat { Dword(cfg, x, 0x0B) / 0x100 % 0x100 }

  /** The byte that `pci_read_header_type` reads: offset 0x0E is rounded down to 0x0C, whose low byte is taken. */
  function HeaderType(cfg: Config, x: Bdf): nat { Dword(cfg, x, 0x0E) % 0x100 }

  /** The header type proper: bits 16 to 23 of the same dword. */
  function TrueHeaderType(cfg: Config, x: Bdf): nat { Dword(cfg, x, 0x0E) / 0x10000 % 0x100 }

  function Bar(cfg: Config, x: Bdf, i: nat): Word32 { Dword(cfg, x, 0x10 + 4 * i) }

  function SecondaryBus(cfg: Config, x: Bdf): (b: nat)
    ensures b < 256
  {
    Dword(cfg, x, 0x19) / 0x100 % 0x100
  }

  predicate Exists(cfg: Config, x: Bdf) {
    VendorId(cfg, x) != 0xFFFF
  }

  predicate IsBridge(cfg: Config, x: Bdf) {
    HeaderType(cfg, x) % 0x80 == 0x01
  }

  /** The multi-function bit of the device, read from its function 0 whether that exists or not. */
  predicate IsMulti(cfg: Config, bus: nat, device: nat) {
    HeaderType(cfg, Bdf(bus, device, 0)) / 0x80 == 1
  }

  /** The scan of the bus comes to this function number. */
  predicate Tried(cfg: Config, x: Bdf) {
    InRange(x) && (x.fn == 0 || IsMulti(cfg, x.bus, x.device))
  }

  predicate Scanned(cfg: Config, x: Bdf) {
    Tried(cfg, x) && Exists(cfg, x)
  }

  predicate Bridges(cfg: Config, x: Bdf) {
    Scanned(cfg, x) && IsBridge(cfg, x)
  }

  /** What a scan goes by, in the dwords of the configuration space. */
  lemma ScannedDwords(cfg: Config, x: Bdf)
    ensures Exists(cfg, x) <==> cfg(x.bus, x.device, x.fn, 0) % 0x1_0000 != 0xFFFF
    ensures Scanned(cfg, x) <==>
      && x.bus < 256 && x.device < 32 && x.fn < 8 && cfg(x.bus, x.device, x.fn, 0) % 0x1_0000 != 0xFFFF
      && (x.fn == 0 || cfg(x.bus, x.device, 0, 0x0C) % 0x100 >= 0x80)
    ensures Bridges(cfg, x) <==> Scanned(cfg, x) && cfg(x.bus, x.device, x.fn, 0x0C) % 0x100 in {0x01, 0x81}
    ensures SecondaryBus(cfg, x) == cfg(x.bus, x.device, x.fn, 0x18) / 0x100 % 0x100
    ensures TrueHeaderType(cfg, x) == cfg(x.bus, x.device, x.fn, 0x0C) / 0x1_0000 % 0x100
  {
    HighBit(HeaderType(cfg, x));
    HighBit(HeaderType(cfg, Bdf(x.bus, x.device, 0)));
  }

  lemma HighBit(b: nat)
    requires b < 0x100
    ensures (b / 0x80 == 1 <==> b >= 0x80) && (b % 0x80 == 0x01 <==> b in {0x01, 0x81})
  {
  }

  // ---------------------------------------------------------------- reading through the ports

  /** What the host bridge answers on port 0xCFC for the address latched from port 0xCF8. */
  function HostBridge(cfg: Config, a: bv32): Word32 {
    var f := Decode(a);
    if f.enabled then cfg(f.bus as nat, f.device as nat, f.fn as nat, 4 * (f.register as nat)) else 0xFFFF_FFFF
  }

  lemma Widened(b: bv8)
    ensures (b as bv32) as nat == b as nat && ((b as bv32) >> 2) as nat == b as nat / 4
  {
  }

  /** Reading through the ports reads the register asked for. */
  lemma PortsRead(cfg: Config, bus: bv8, device: bv8, fn: bv8, offset: bv8)
    requires device < 32 && fn < 8
    ensures HostBridge(cfg, ConfigAddress(bus, device, fn, offset))
      == Dword(cfg, Bdf(bus as nat, device as nat, fn as nat), offset as nat)
  {
    hide ConfigAddress, Decode;
    AddressDecodes(bus, device, fn, offset);
    Widened(bus);
    Widened(device);
    Widened(fn);
    Widened(offset);
  }

  lemma AsByte(n: nat)
    requires n < 256
    ensures (n as bv8) as nat == n && (n < 32 ==> n as bv8 < 32) && (n < 8 ==> n as bv8 < 8)
  {
  }

  /** The address of a register, from numbers. */
  function AddressFor(x: Bdf, offset: nat): bv32
    requires InRange(x) && offset < 256
  {
    ConfigAddress(x.bus as bv8, x.device as bv8, x.fn as bv8, offset as bv8)
  }

  lemma PortsReadAt(cfg: Config, x: Bdf, offset: nat)
    requires InRange(x) && offset < 256
    ensures HostBridge(cfg, AddressFor(x, offset)) == Dword(cfg, x, offset)
  {
    hide ConfigAddress, HostBridge, Dword, Decode;
    AsByte(x.bus);
    AsByte(x.device);
    AsByte(x.fn);
    AsByte(offset);
    PortsReadFor(cfg, x, offset, x.bus as bv8, x.device as bv8, x.fn as bv8, offset as bv8);
  }

  lemma PortsReadFor(cfg: Config, x: Bdf, offset: nat, bus: bv8, device: bv8, fn: bv8, at: bv8)
    requires device < 32 && fn < 8
    requires bus as nat == x.bus && device as nat == x.device && fn as nat == x.fn && at as nat == offset
    ensures HostBridge(cfg, ConfigAddress(bus, device, fn, at)) == Dword(cfg, x, offset)
  {
    hide *;
    PortsRead(cfg, bus, device, fn, at);
    assert Bdf(bus as nat, device as nat, fn as nat) == x;
  }

  class Ports {
    const cfg: Config
    var address: bv32

    constructor (cfg: Config)
      ensures this.cfg == cfg
    {
      this.cfg := cfg;
    }

    method OutAddress(a: bv32)
      modifies this
      ensures address == a
    {
      address := a;
    }

    method InData() returns (v: Word32)
      ensures v == HostBridge(cfg, address)
    {
      v := HostBridge(cfg, address);
    }

    /** `pci_read_config`. */
    method ReadConfig(x: Bdf, offset: nat) returns (v: Word32)
      requires InRange(x) && offset < 256
      modifies this
      ensures v == Dword(cfg, x, offset)
    {
      hide AddressFor, HostBridge, Dword;
      OutAddress(AddressFor(x, offset));
      v := InData();
      PortsReadAt(cfg, x, offset);
    }
  }
}
