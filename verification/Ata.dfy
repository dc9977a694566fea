/** The PIO sector driver of ata.c, run against a controller that answers on its ports. */
module Ata {
  import opened Machine

  type Sector = s: seq<Word16> | |s| == 256 witness seq(256, i => 0)

  const BSY: bv8 := 0x80
  const DRQ: bv8 := 0x08
  const ERR: bv8 := 0x01

  datatype Port = SectCount | LbaLo | LbaMid | LbaHi | Drive
  datatype Command = ReadSectors | WriteSectors
  datatype Phase = Idle | DataIn(words: seq<Word16>) | DataOut(address: nat, words: seq<Word16>)

  /** What becomes of a command. A spoilt one asks for its data all the same, and moves these words instead. */
  datatype Fate = Refused | Good | Spoilt(data: Sector)

  /** What arrives of the words that should be moved. */
  function Arrived(fate: Fate, data: Sector): Sector {
    if fate.Spoilt? then fate.data else data
  }

  /** The sector that the address registers name: four bits of the drive register, then the three bytes. */
  function AddressOf(drive: Byte, hi: Byte, mid: Byte, lo: Byte): nat {
    0x100_0000 * (drive % 0x10) + 0x1_0000 * hi + 0x100 * mid + lo
  }

  /**
   * The sector that a call for `lba` is about: its low 28 bits. Blocks below 2^28 are their own target, others are not.
   */
  function Target(lba: nat): (t: nat)
    ensures t == lba <==> lba < 0x1000_0000
  {
    lba % 0x1000_0000
  }

  /** What the driver writes to the drive register and to the three address registers. */
  function DriveByte(lba: Word32): Byte { Or8(0xE0, lba / 0x100_0000 % 0x10) }

  function HiByte(lba: Word32): Byte { lba / 0x1_0000 % 0x100 }

  function MidByte(lba: Word32): Byte { lba / 0x100 % 0x100 }

  function LoByte(lba: Word32): Byte { lba % 0x100 }

  /** The master drive, in block mode. */
  predicate Master(drive: Byte) { drive / 0x10 == 0xE }

  /** The bytes the driver writes name the target, on the master drive and in block mode. */
  lemma RegistersNameTarget(lba: Word32)
    ensures Master(DriveByte(lba)) && Target(lba) == AddressOf(DriveByte(lba), HiByte(lba), MidByte(lba), LoByte(lba))
  {
    hide Or8;
    OrDrive(lba / 0x100_0000 % 0x10);
    Digits(lba);
  }

  lemma Digits(lba: nat)
    ensures 0x100_0000 * (lba / 0x100_0000 % 0x10) + 0x1_0000 * (lba / 0x1_0000 % 0x100) + 0x100 * (lba / 0x100 % 0x100)
      + lba % 0x100 == lba % 0x1000_0000
  {
    assert lba / 0x1_0000 == lba / 0x100 / 0x100;
    assert lba / 0x100_0000 == lba / 0x1_0000 / 0x100;
    assert lba / 0x1000_0000 == lba / 0x100_0000 / 0x10;
  }

  lemma OrDrive(x: Byte)
    requires x < 0x10
    ensures Or8(0xE0, x) == 0xE0 + x
  {
  }

  /**
   * The drive as seen from its ports. After a command it is busy for a finite time of its own choosing. Every command
   * may be refused, and one for a sector that the drive does not have always is; one that is not refused may still go
   * wrong with its data, which only the error bit of the status tells. The drive can be spoken to only when not busy,
   * and data moves only when it asks for it: the preconditions of its methods are the protocol that the driver has to
   * keep.
   */
  class Controller {
    var sectors: map<nat, Sector>
    var drive: Byte
    var count: Byte
    var lo: Byte
    var mid: Byte
    var hi: Byte
    var busy: nat
    var phase: Phase
    var commands: nat
    const delay: nat -> nat
    var error: bool
    /** What becomes of the n-th command. */
    const fate: nat -> Fate

    constructor (sectors: map<nat, Sector>, delay: nat -> nat, fate: nat -> Fate)
      ensures this.sectors == sectors && this.delay == delay && this.fate == fate && phase == Idle && commands == 0
    {
      this.sectors, this.delay, this.fate := sectors, delay, fate;
      busy, phase, commands, error := delay(0), Idle, 0, false;
    }

    /** The next command, if it is for this sector, will ask for its data. */
    predicate Accepts(address: nat)
      reads this
    {
      address in sectors && !fate(commands + 1).Refused?
    }

    /** Reading the status register. */
    method InStatus() returns (status: bv8)
      modifies `busy
      ensures status & BSY != 0 <==> old(busy) > 0
      ensures old(busy) > 0 ==> busy == old(busy) - 1
      ensures old(busy) == 0 ==> busy == 0 && (status & DRQ != 0 <==> phase != Idle) && (status & ERR != 0 <==> error)
    {
      if busy > 0 {
        busy := busy - 1;
        status := 0x80;
      } else {
        status := (if phase == Idle then 0x50 else 0x58) | if error then ERR else 0;
      }
    }

    method Out(port: Port, value: Byte)
      requires busy == 0
      modifies `drive, `count, `lo, `mid, `hi
      ensures drive == if port == Drive then value else old(drive)
      ensures count == if port == SectCount then value else old(count)
      ensures lo == (if port == LbaLo then value else old(lo)) && mid == (if port == LbaMid then value else old(mid))
      ensures hi == if port == LbaHi then value else old(hi)
    {
      match port {
        case SectCount => count := value;
        case LbaLo => lo := value;
        case LbaMid => mid := value;
        case LbaHi => hi := value;
        case Drive => drive := value;
      }
    }

    /** A command for one sector of the master drive. */
    method OutCommand(command: Command)
      requires busy == 0 && phase == Idle && count == 1 && Master(drive)
      modifies `busy, `phase, `commands, `error
      ensures commands == old(commands) + 1
      ensures phase == if !old(Accepts(AddressOf(drive, hi, mid, lo))) then Idle
                       else if command == ReadSectors then
                         DataIn(Arrived(fate(commands), sectors[AddressOf(drive, hi, mid, lo)]))
                       else DataOut(AddressOf(drive, hi, mid, lo), [])
      ensures phase.DataIn? ==> error == fate(commands).Spoilt?
    {
      var address := AddressOf(drive, hi, mid, lo);
      var accepted := Accepts(address);
      commands := commands + 1;
      if !accepted {
        phase, error := Idle, true;
      } else if command == ReadSectors {
        phase, error := DataIn(Arrived(fate(commands), sectors[address])), fate(commands).Spoilt?;
      } else {
        phase, error := DataOut(address, []), false;
      }
      busy := delay(commands);
    }

    method InData() returns (word: Word16)
      requires busy == 0 && phase.DataIn? && phase.words != []
      modifies `phase
      ensures word == old(phase.words)[0]
      ensures phase == if |old(phase.words)| == 1 then Idle else DataIn(old(phase.words)[1..])
    {
      word := phase.words[0];
      phase := if |phase.words| == 1 then Idle else DataIn(phase.words[1..]);
    }

    /** The sector is written when its last word has come; the error bit tells if that went wrong. */
    method OutData(word: Word16)
      requires busy == 0 && phase.DataOut? && |phase.words| < 256
      modifies `phase, `sectors, `busy, `error
      ensures |old(phase.words)| < 255 ==>
        sectors == old(sectors) && busy == 0 && phase == DataOut(old(phase.address), old(phase.words) + [word])
      ensures |old(phase.words)| == 255 ==>
        && phase == Idle && error == fate(commands).Spoilt?
        && sectors == old(sectors)[old(phase.address) := Arrived(fate(commands), old(phase.words) + [word])]
    {
      var words := phase.words + [word];
      if |words| < 256 {
        phase := DataOut(phase.address, words);
      } else {
        sectors := sectors[phase.address := Arrived(fate(commands), words)];
        error := fate(commands).Spoilt?;
        busy := delay(commands);
        phase := Idle;
      }
    }
  }

  method AwaitReady(c: Controller)
    modifies c`busy
    ensures c.busy == 0
  {
    var status := c.InStatus();
    while status & BSY != 0
      invariant status & BSY == 0 ==> c.busy == 0
      decreases c.busy + (if status & BSY != 0 then 1 else 0)
    {
      status := c.InStatus();
    }
  }

  method SetRegisters(c: Controller, lba: Word32)
    requires c.busy == 0
    modifies c`drive, c`count, c`lo, c`mid, c`hi
    ensures c.drive == DriveByte(lba) && c.count == 1
    ensures c.hi == HiByte(lba) && c.mid == MidByte(lba) && c.lo == LoByte(lba)
  {
    hide DriveByte, HiByte, MidByte, LoByte;
    c.Out(Drive, DriveByte(lba));
    c.Out(SectCount, 1);
    c.Out(LbaLo, LoByte(lba));
    c.Out(LbaMid, MidByte(lba));
    c.Out(LbaHi, HiByte(lba));
  }

  /** Ready, then drive, count and address, then the command, then ready again: is data asked for? */
  method Issue(c: Controller, lba: Word32, command: Command) returns (asked: bool)
    requires c.phase == Idle
    modifies c`busy, c`drive, c`count, c`lo, c`mid, c`hi, c`phase, c`commands, c`error
    ensures asked == old(c.Accepts(Target(lba))) && c.commands == old(c.commands) + 1 && c.busy == 0
    ensures c.phase == if !asked then Idle
                       else if command == ReadSectors then DataIn(Arrived(c.fate(c.commands), c.sectors[Target(lba)]))
                       else DataOut(Target(lba), [])
    ensures c.phase.DataIn? ==> c.error == c.fate(c.commands).Spoilt?
  {
    hide AddressOf, Target, Master, DriveByte, HiByte, MidByte, LoByte, Arrived;
    AwaitReady(c);
    SetRegisters(c, lba);
    RegistersNameTarget(lba);
    c.OutCommand(command);
    AwaitReady(c);
    var status := c.InStatus();
    asked := status & DRQ != 0;
  }

  /**
   * The driver does not look at the error bit: 1 says that the drive asked for the data, not that the data is right.
   */
  method ReadSector(c: Controller, lba: Word32, buffer: array<Word16>) returns (r: int)
    requires c.phase == Idle && buffer.Length >= 256
    modifies c`busy, c`drive, c`count, c`lo, c`mid, c`hi, c`phase, c`commands, c`error, buffer
    ensures c.phase == Idle && c.commands == old(c.commands) + 1
    ensures r == if old(c.Accepts(Target(lba))) then 1 else -1
    ensures r == 1 ==> c.error == c.fate(c.commands).Spoilt?
    ensures r == 1 ==> buffer[..] == Arrived(c.fate(c.commands), c.sectors[Target(lba)]) + old(buffer[256..])
    ensures r == -1 ==> buffer[..] == old(buffer[..])
  {
    var asked := Issue(c, lba, ReadSectors);
    if !asked {
      return -1;
    }
    ghost var sector := Arrived(c.fate(c.commands), c.sectors[Target(lba)]);
    assert |sector| == 256 && sector[0..] == sector;
    for i := 0 to 256
      invariant c.busy == 0 && c.commands == old(c.commands) + 1 && c.error == c.fate(c.commands).Spoilt?
      invariant c.phase == if i < 256 then DataIn(sector[i..]) else Idle
      invariant buffer[..i] == sector[..i] && buffer[256..] == old(buffer[256..])
    {
      var word := c.InData();
      buffer[i] := word;
      assert sector[..i + 1] == sector[..i] + [sector[i]];
    }
    return 1;
  }

  method WriteSector(c: Controller, lba: Word32, buffer: array<Word16>) returns (r: int)
    requires c.phase == Idle && buffer.Length >= 256
    modifies c
    ensures c.phase == Idle && c.commands == old(c.commands) + 1
    ensures r == if old(c.Accepts(Target(lba))) then 1 else -1
    ensures r == 1 ==> c.error == c.fate(c.commands).Spoilt?
    ensures r == 1 ==> c.sectors == old(c.sectors)[Target(lba) := Arrived(c.fate(c.commands), buffer[..256])]
    ensures r == -1 ==> c.sectors == old(c.sectors)
  {
    var asked := Issue(c, lba, WriteSectors);
    if !asked {
      return -1;
    }
    for i := 0 to 256
      invariant i < 256 ==> c.busy == 0 && c.phase == DataOut(Target(lba), buffer[..i]) && c.sectors == old(c.sectors)
      invariant i == 256 ==> c.phase == Idle && c.error == c.fate(c.commands).Spoilt?
      invariant i == 256 ==> c.sectors == old(c.sectors)[Target(lba) := Arrived(c.fate(c.commands), buffer[..256])]
      invariant c.commands == old(c.commands) + 1
    {
      assert buffer[..i + 1] == buffer[..i] + [buffer[i]];
      c.OutData(buffer[i]);
    }
    AwaitReady(c);
    return 1;
  }

  // ---------------------------------------------------------------- whole runs

  datatype Call = ReadCall(lba: Word32) | WriteCall(lba: Word32, data: Sector)
  datatype Answer = Failed | Done | Got(data: Sector)

  /**
   * One call to a store of sectors. It fails, and changes nothing, exactly if the command is refused or there is no
   * such sector; otherwise a read delivers and a write stores what arrives of the sector.
   */
  predicate Explains(before: map<nat, Sector>, call: Call, fate: Fate, answer: Answer, after: map<nat, Sector>) {
    if fate.Refused? || Target(call.lba) !in before then answer == Failed && after == before
    else
      match call
      case ReadCall(lba) => answer == Got(Arrived(fate, before[Target(lba)])) && after == before
      case WriteCall(lba, data) => answer == Done && after == before[Target(lba) := Arrived(fate, data)]
  }

  /** The stores that the disk goes through. */
  predicate IsRun(calls: seq<Call>, fates: seq<Fate>, answers: seq<Answer>, stores: seq<map<nat, Sector>>) {
    && |fates| == |answers| == |calls| && |stores| == |calls| + 1
    && forall i :: 0 <= i < |calls| ==> Explains(stores[i], calls[i], fates[i], answers[i], stores[i + 1])
  }

  /** Any calls at all: the driver and the drive behave like a store of sectors. */
  method Execute(c: Controller, calls: seq<Call>)
    returns (answers: seq<Answer>, ghost fates: seq<Fate>, ghost stores: seq<map<nat, Sector>>)
    requires c.phase == Idle
    modifies c
    ensures c.phase == Idle && IsRun(calls, fates, answers, stores)
    ensures stores[0] == old(c.sectors) && stores[|calls|] == c.sectors
    ensures forall i :: 0 <= i < |calls| ==> fates[i] == c.fate(old(c.commands) + i + 1)
  {
    answers, fates, stores := [], [], [c.sectors];
    for i := 0 to |calls|
      invariant c.phase == Idle && IsRun(calls[..i], fates, answers, stores) && c.commands == old(c.commands) + i
      invariant stores[0] == old(c.sectors) && stores[i] == c.sectors
      invariant forall k :: 0 <= k < i ==> fates[k] == c.fate(old(c.commands) + k + 1)
    {
      var answer := Perform(c, calls[i]);
      answers, fates, stores := answers + [answer], fates + [c.fate(c.commands)], stores + [c.sectors];
      assert calls[..i + 1] == calls[..i] + [calls[i]];
    }
    assert calls[..|calls|] == calls;
  }

  method Perform(c: Controller, call: Call) returns (answer: Answer)
    requires c.phase == Idle
    modifies c
    ensures c.phase == Idle && c.commands == old(c.commands) + 1
    ensures Explains(old(c.sectors), call, c.fate(c.commands), answer, c.sectors)
  {
    var buffer := new Word16[256];
    match call {
      case ReadCall(lba) =>
        var r := ReadSector(c, lba, buffer);
        answer := if r == 1 then Got(buffer[..]) else Failed;
      case WriteCall(lba, data) =>
        forall i | 0 <= i < 256 {
          buffer[i] := data[i];
        }
        assert buffer[..256] == data;
        var r := WriteSector(c, lba, buffer);
        answer := if r == 1 then Done else Failed;
    }
  }

  /**
   * A successful read returns what arrived of the last successful write of that sector, whatever happened to the
   * others. So it returns what was written exactly if neither was spoilt, or only into just that.
   */
  lemma {:induction false} ReadsLastWrite(calls: seq<Call>, fates: seq<Fate>, answers: seq<Answer>,
                                          stores: seq<map<nat, Sector>>, w: nat, r: nat)
    requires IsRun(calls, fates, answers, stores) && w < r < |calls|
    requires calls[w].WriteCall? && answers[w] == Done && calls[r].ReadCall? && answers[r] != Failed
    requires Target(calls[r].lba) == Target(calls[w].lba)
    requires forall k :: w < k < r && calls[k].WriteCall? && answers[k] == Done ==>
      Target(calls[k].lba) != Target(calls[w].lba)
    ensures answers[r] == Got(Arrived(fates[r], Arrived(fates[w], calls[w].data)))
    ensures answers[r] == Got(calls[w].data) <==>
      if fates[r].Spoilt? then fates[r].data == calls[w].data else fates[w].Spoilt? ==> fates[w].data == calls[w].data
  {
    var at := Target(calls[w].lba);
    assert Explains(stores[w], calls[w], fates[w], answers[w], stores[w + 1]);
    var k := w + 1;
    while k < r
      invariant w < k <= r && at in stores[k] && stores[k][at] == Arrived(fates[w], calls[w].data)
    {
      assert Explains(stores[k], calls[k], fates[k], answers[k], stores[k + 1]);
      k := k + 1;
    }
    assert Explains(stores[r], calls[r], fates[r], answers[r], stores[r + 1]);
  }

  /** A write answered as done after which the sector is read, successfully, as it was not written. */
  lemma LostWrite() returns (calls: seq<Call>, fates: seq<Fate>, answers: seq<Answer>, stores: seq<map<nat, Sector>>)
    ensures IsRun(calls, fates, answers, stores) && |calls| == 2
    ensures calls[0].WriteCall? && answers[0] == Done && calls[1] == ReadCall(calls[0].lba)
    ensures answers[1].Got? && answers[1].data != calls[0].data
  {
    var zeros, ones: Sector := seq(256, _ => 0), seq(256, _ => 1);
    assert zeros[0] == 0 && ones[0] == 1;
    calls, fates, answers := [WriteCall(0, ones), ReadCall(0)], [Spoilt(zeros), Good], [Done, Got(zeros)];
    stores := [map[0 := zeros], map[0 := zeros], map[0 := zeros]];
  }
}
