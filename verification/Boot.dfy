/** The first boot stage, boot2.asm: block addresses for the BIOS, reads with retries, and loading the second stage. */
module Boot {
  import opened Machine

  function Lo(w: Word16): Byte { w % 0x100 }

  function Hi(w: Word16): Byte { w / 0x100 }

  function Pair(hi: Byte, lo: Byte): Word16 { 0x100 * hi + lo }

  datatype Regs = Regs(eaxHigh: Word16, ax: Word16, bx: Word16, cx: Word16, dx: Word16, si: Word16, di: Word16,
                       es: Word16) {
    function Eax(): nat { 0x1_0000 * eaxHigh + ax }
  }

  datatype Stack = Empty | Cell(top: Word16, below: Stack)

  // ---------------------------------------------------------------- cylinder, head, sector

  /** How the BIOS unpacks CX and DH: six bits of sector, ten bits of cylinder split over CL and CH. */
  function SectorOf(cx: Word16): nat { cx % 64 }

  function CylinderOf(cx: Word16): nat { cx / 0x100 + 0x100 * (cx / 64 % 4) }

  function BlockOf(cylinder: nat, head: nat, sector: nat, heads: nat, spt: nat): int {
    (cylinder * heads + head) * spt + sector - 1
  }

  predicate Geometry(heads: nat, spt: nat) {
    1 <= heads <= 256 && 1 <= spt <= 63
  }

  lemma DivMod(a: nat, b: nat)
    requires b > 0
    ensures a == a / b * b + a % b
  {
  }

  lemma DivUnique(q: nat, r: nat, b: nat, q': nat, r': nat)
    requires r < b && r' < b && q * b + r == q' * b + r'
    ensures q == q' && r == r'
  {
    if q < q' {
      Below(q, r, q', b);
    } else if q' < q {
      Below(q', r', q, b);
    }
  }

  lemma Below(q: nat, r: nat, q': nat, b: nat)
    requires q < q' && r < b
    ensures q * b + r < q' * b
  {
    Times(q + 1, q', b);
  }

  /** The parts of a block number. */
  function CylinderPart(lba: nat, heads: nat, spt: nat): nat
    requires Geometry(heads, spt)
  {
    QuotientFits(lba, spt);
    QuotientFits(lba / spt, heads);
    lba / spt / heads
  }

  function HeadPart(lba: nat, heads: nat, spt: nat): (h: nat)
    requires Geometry(heads, spt)
    ensures h < heads
  {
    lba / spt % heads
  }

  function SectorPart(lba: nat, heads: nat, spt: nat): (s: nat)
    requires Geometry(heads, spt)
    ensures 1 <= s <= spt
  {
    lba % spt + 1
  }

  /** Taking the block number apart and putting it together again. */
  lemma BlockOfParts(lba: nat, heads: nat, spt: nat)
    requires Geometry(heads, spt)
    ensures BlockOf(CylinderPart(lba, heads, spt), HeadPart(lba, heads, spt), SectorPart(lba, heads, spt), heads, spt)
      == lba
  {
    DivMod(lba, spt);
    DivMod(lba / spt, heads);
  }

  /** No other cylinder, head and sector name the same block. */
  lemma PartsUnique(c: nat, h: nat, s: nat, c': nat, h': nat, s': nat, heads: nat, spt: nat)
    requires Geometry(heads, spt) && h < heads && h' < heads && 1 <= s <= spt && 1 <= s' <= spt
    requires BlockOf(c, h, s, heads, spt) == BlockOf(c', h', s', heads, spt)
    ensures c == c' && h == h' && s == s'
  {
    DivUnique(c * heads + h, s - 1, spt, c' * heads + h', s' - 1);
    DivUnique(c, h, heads, c', h');
  }

  lemma Bound(c: nat, h: nat, s: nat, heads: nat, spt: nat)
    requires c < 1024 && h < heads && 1 <= s <= spt
    ensures BlockOf(c, h, s, heads, spt) < 1024 * heads * spt
  {
    Times(c + 1, 1024, heads);
    Times(c * heads + h + 1, 1024 * heads, spt);
  }

  lemma Times(a: nat, b: nat, k: nat)
    requires a <= b
    ensures a * k <= b * k
  {
  }

  /** With the cylinder cut to ten bits, the parts name the block modulo all that ten bits of cylinder reach. */
  lemma FieldsNameBlock(lba: nat, heads: nat, spt: nat)
    requires Geometry(heads, spt)
    ensures 1024 * heads * spt > 0
    ensures BlockOf(CylinderPart(lba, heads, spt) % 1024, HeadPart(lba, heads, spt), SectorPart(lba, heads, spt),
                    heads, spt)
      == lba % (1024 * heads * spt)
  {
    hide CylinderPart, HeadPart, SectorPart, BlockOf;
    var c, h, s := CylinderPart(lba, heads, spt), HeadPart(lba, heads, spt), SectorPart(lba, heads, spt);
    BlockOfParts(lba, heads, spt);
    Cylinders(c, h, s, heads, spt);
    Bound(c % 1024, h, s, heads, spt);
    ModIs(lba, 1024 * heads * spt, c / 1024, BlockOf(c % 1024, h, s, heads, spt));
  }

  lemma ModIs(n: nat, m: nat, q: nat, r: nat)
    requires r < m && n == q * m + r
    ensures n % m == r
  {
    DivMod(n, m);
    DivUnique(n / m, n % m, m, q, r);
  }

  lemma Cylinders(c: nat, h: nat, s: nat, heads: nat, spt: nat)
    requires s > 0
    ensures BlockOf(c, h, s, heads, spt) == c / 1024 * (1024 * heads * spt) + BlockOf(c % 1024, h, s, heads, spt)
    ensures BlockOf(c % 1024, h, s, heads, spt) >= 0
  {
    var q, m := c / 1024, c % 1024;
    assert c * heads == q * (1024 * heads) + m * heads;
    assert (c * heads + h) * spt == q * (1024 * heads) * spt + (m * heads + h) * spt;
    assert q * (1024 * heads) * spt == q * (1024 * heads * spt);
  }

  // ---------------------------------------------------------------- the blocks that are read

  /** Without extensions a block number is cut to 16 bits, and its cylinder to ten. */
  function BlockRead(haveExtensions: bool, heads: nat, spt: nat, lba: nat): nat
    requires Geometry(heads, spt)
  {
    FieldsNameBlock(0, heads, spt);
    if haveExtensions then lba else lba % 0x1_0000 % (1024 * heads * spt)
  }

  predicate Addressable(haveExtensions: bool, heads: nat, spt: nat, lba: nat) {
    haveExtensions || (lba < 0x1_0000 && lba < 1024 * heads * spt)
  }

  /**
   * The block that is read is the one asked for exactly if the BIOS takes block numbers or the number is small enough.
   */
  lemma ReadsTheBlock(haveExtensions: bool, heads: nat, spt: nat, lba: nat)
    requires Geometry(heads, spt)
    ensures BlockRead(haveExtensions, heads, spt, lba) == lba <==> Addressable(haveExtensions, heads, spt, lba)
  {
    FieldsNameBlock(0, heads, spt);
    CutTwice(lba, 0x1_0000, 1024 * heads * spt);
  }

  lemma CutTwice(n: nat, a: nat, b: nat)
    requires a > 0 && b > 0
    ensures n % a % b == n <==> n < a && n < b
  {
    CutOnce(n, a);
    CutOnce(n % a, b);
  }

  lemma CutOnce(n: nat, a: nat)
    requires a > 0
    ensures 0 <= n % a <= n && (n % a == n <==> n < a)
  {
    DivMod(n, a);
    Times(0, n / a, a);
    if n < a {
      ModIs(n, a, 0, n);
    }
  }

  /** The fields made from the low half of a block number name the block that is read. */
  lemma FieldsNameBlockRead(high: Word16, low: Word16, heads: nat, spt: nat)
    requires Geometry(heads, spt)
    ensures BlockOf(CylinderPart(low, heads, spt) % 1024, HeadPart(low, heads, spt), SectorPart(low, heads, spt),
                    heads, spt)
      == BlockRead(false, heads, spt, 0x1_0000 * high + low)
  {
    hide BlockOf, CylinderPart, HeadPart, SectorPart;
    FieldsNameBlock(low, heads, spt);
    LowHalf(high, low);
  }

  lemma LowHalf(high: Word16, low: Word16)
    ensures (0x1_0000 * high + low) % 0x1_0000 == low
  {
  }

  /** On a 1.44 MB floppy, two heads and 18 sectors a track: block 65537 is read as 1, and 40000 as 3136. */
  lemma WrongBlocks()
    ensures BlockRead(false, 2, 18, 65537) == 1 && BlockRead(false, 2, 18, 40000) == 3136
  {
  }

  /** `shl ah, 6` */
  function Shl6(a: Byte): Byte { a * 64 % 0x100 }

  /** `div word`, of a dividend with DX = 0: the quotient always fits in AX. */
  function Quotient(ax: Word16, divisor: Word16): Word16
    requires divisor > 0
  {
    QuotientFits(ax, divisor);
    ax / divisor
  }

  function Remainder(ax: Word16, divisor: Word16): (r: Word16)
    requires divisor > 0
    ensures r < divisor
  {
    ax % divisor
  }

  lemma QuotientFits(a: nat, b: nat)
    requires b > 0
    ensures 0 <= a / b <= a
  {
    DivMod(a, b);
    Times(1, b, a / b);
  }

  /** What the BIOS finds in registers packed like this. */
  lemma Unpacked(cylinder: Word16, sector: Word16)
    requires sector < 64
    ensures var cx := Pair(Lo(cylinder), Or8(Lo(sector), Shl6(Hi(cylinder))));
            SectorOf(cx) == sector && CylinderOf(cx) == cylinder % 1024
  {
    hide *;
    NoCollision(sector, Hi(cylinder));
    CylinderBits(cylinder);
    LowByte(sector);
    Fields(Lo(cylinder), Hi(cylinder) % 4, sector);
  }

  /** `shl cx, 5` */
  function Shl5(w: Word16): Word16 { w * 32 % 0x1_0000 }

  function Add16(a: Word16, b: Word16): Word16 { (a + b) % 0x1_0000 }

  lemma NoWrap(es: Word16, count: Byte)
    requires es + 32 * count < 0x1_0000
    ensures Shl5(count) == 32 * count && Add16(es, Shl5(count)) == es + 32 * count
  {
  }

  lemma PairZero(lo: Byte)
    ensures Pair(0, lo) == lo
  {
  }

  lemma LowByte(w: Word16)
    requires w < 0x100
    ensures Lo(w) == w
  {
  }

  lemma CylinderBits(cylinder: Word16)
    ensures cylinder % 1024 == Lo(cylinder) + 0x100 * (Hi(cylinder) % 4)
  {
  }

  lemma Fields(ch: Byte, high: nat, sector: nat)
    requires high < 4 && sector < 64
    ensures SectorOf(Pair(ch, sector + 64 * high)) == sector
    ensures CylinderOf(Pair(ch, sector + 64 * high)) == ch + 0x100 * high
  {
    var cx := 0x100 * ch + (sector + 64 * high);
    assert cx == 64 * (4 * ch + high) + sector;
    assert cx / 64 == 4 * ch + high;
    assert cx / 0x100 == cx / 64 / 4;
  }

  /** The sector and the two high bits of the cylinder do not meet in CL. */
  lemma NoCollision(sector: Byte, ah: Byte)
    requires sector < 64
    ensures Or8(sector, Shl6(ah)) == sector + 64 * (ah % 4)
  {
    OrHigh(sector);
    assert Shl6(ah) == 64 * (ah % 4);
  }

  lemma OrHigh(sector: Byte)
    requires sector < 64
    ensures Or8(sector, 0) == sector && Or8(sector, 64) == sector + 64
    ensures Or8(sector, 128) == sector + 128 && Or8(sector, 192) == sector + 192
  {
  }

  // ---------------------------------------------------------------- tries

  /**
   * The tries before try `t` of a read failed, and the controller was reset after each of them; the calls to the BIOS
   * alternate between reads and resets, from the `n`-th on.
   */
  ghost predicate FailedBefore(fails: nat -> bool, n: nat, t: nat) {
    t > 0 ==> FailedBefore(fails, n, t - 1) && fails(n + 2 * t - 2) && !fails(n + 2 * t - 1)
  }

  /** Try `t` is the first that works. */
  ghost predicate WorksAt(fails: nat -> bool, n: nat, t: nat) {
    FailedBefore(fails, n, t) && !fails(n + 2 * t)
  }

  /** Given up after try `t`: every try failed, and it was the third, or the reset after it failed. */
  ghost predicate GaveUpAt(fails: nat -> bool, n: nat, t: nat) {
    FailedBefore(fails, n, t) && fails(n + 2 * t) && (t == 2 || fails(n + 2 * t + 1))
  }

  /** What the BIOS answers decides whether a read works. */
  lemma WorksOrGivesUp(fails: nat -> bool, n: nat)
    ensures (exists t: nat :: t < 3 && WorksAt(fails, n, t)) <==> !exists t: nat :: t < 3 && GaveUpAt(fails, n, t)
  {
    assert FailedBefore(fails, n, 0);
    assert FailedBefore(fails, n, 1) <==> fails(n) && !fails(n + 1);
    assert FailedBefore(fails, n, 2) <==> FailedBefore(fails, n, 1) && fails(n + 2) && !fails(n + 3);
    assert WorksAt(fails, n, 0) || WorksAt(fails, n, 1) || WorksAt(fails, n, 2)
        || GaveUpAt(fails, n, 0) || GaveUpAt(fails, n, 1) || GaveUpAt(fails, n, 2);
  }

  // ---------------------------------------------------------------- the machine

  const MEMORY := 0x10_0000
  const LOAD_ADDRESS := 0x7E00

  /** What a disk request asks the BIOS for: this many sectors from this block on, to this address. */
  datatype Request = Request(lba: int, count: nat, address: nat)

  datatype Packet = Packet(lba: nat, segment: Word16, offset: Word16, count: Byte)

  function Linear(segment: Word16, offset: Word16): nat { 16 * segment + offset }

  class Cpu {
    var r: Regs
    var carry: bool
    var stack: Stack
    var packet: Packet
    var calls: nat
    const mem: array<Byte>
    const spt: Word16
    const heads: Word16
    const haveExtensions: bool
    /** The disk, byte by byte. */
    const disk: int -> Byte
    /** Which of the calls to the BIOS fail. */
    const fails: nat -> bool

    predicate Valid() {
      mem.Length == MEMORY && Geometry(heads, spt)
    }

    /** What the registers ask of `int 13h`. */
    function Asked(): Request
      requires Valid()
      reads this
    {
      if Hi(r.ax) == 0x42 then Request(packet.lba, packet.count, Linear(packet.segment, packet.offset))
      else if Hi(r.ax) == 0x02 then
        Request(BlockOf(CylinderOf(r.cx), Hi(r.dx), SectorOf(r.cx), heads, spt), Lo(r.ax), Linear(r.es, r.bx))
      else Request(0, 0, 0)
    }

    /** The sectors are in memory. */
    ghost predicate Holds(q: Request)
      requires Valid() && q.address + 512 * q.count <= MEMORY
      reads mem
    {
      forall a :: q.address <= a < q.address + 512 * q.count ==> mem[a] == disk(512 * q.lba + (a - q.address))
    }

    twostate predicate OnlyInside(q: Request)
      requires Valid()
      reads mem
    {
      forall i :: 0 <= i < MEMORY && !(q.address <= i < q.address + 512 * q.count) ==> mem[i] == old(mem[i])
    }

    constructor (r: Regs, mem: array<Byte>, spt: Word16, heads: Word16, haveExtensions: bool, disk: int -> Byte,
                 fails: nat -> bool)
      requires mem.Length == MEMORY && Geometry(heads, spt)
      ensures Valid() && this.r == r && this.mem == mem && this.spt == spt && this.heads == heads && calls == 0
      ensures this.haveExtensions == haveExtensions && this.disk == disk && this.fails == fails
    {
      this.r, this.mem, this.spt, this.heads := r, mem, spt, heads;
      this.haveExtensions, this.disk, this.fails := haveExtensions, disk, fails;
      carry, stack, packet, calls := false, Empty, Packet(0, 0, 0, 0), 0;
    }

    /**
     * Between a request and its retry only the high half of EAX, which nothing saves, and the count in DI may differ.
     */
    static predicate SameRequest(a: Regs, b: Regs) {
      b == a.(eaxHigh := b.eaxHigh, di := b.di)
    }

    method Push(v: Word16)
      modifies `stack
      ensures stack == Cell(v, old(stack))
    {
      stack := Cell(v, stack);
    }

    method Pop() returns (v: Word16)
      requires stack.Cell?
      modifies `stack
      ensures Cell(v, stack) == old(stack)
    {
      v := stack.top;
      stack := stack.below;
    }

    /** `lba_to_chs`: the block number in AX becomes the fields of CX and DH; everything else is put back. */
    method LbaToChs()
      requires Valid()
      modifies `r, `stack
      ensures stack == old(stack) && r == old(r).(cx := r.cx, dx := r.dx) && Lo(r.dx) == old(Lo(r.dx))
      ensures SectorOf(r.cx) == SectorPart(r.ax, heads, spt) && Hi(r.dx) == HeadPart(r.ax, heads, spt)
      ensures CylinderOf(r.cx) == CylinderPart(r.ax, heads, spt) % 1024
    {
      hide Lo, Hi, Pair, Or8, Shl6, Quotient, Remainder, SectorOf, CylinderOf, SectorPart, HeadPart, CylinderPart;
      ghost var sector: Word16, head: Word16, cylinder: Word16 :=
        Remainder(r.ax, spt) + 1, Remainder(Quotient(r.ax, spt), heads), Quotient(Quotient(r.ax, spt), heads);
      Push(r.ax);
      Push(r.dx);
      r := r.(dx := 0);
      r := r.(ax := Quotient(r.ax, spt), dx := Remainder(r.ax, spt));
      r := r.(dx := (r.dx + 1) % 0x1_0000);
      r := r.(cx := r.dx);
      r := r.(dx := 0);
      r := r.(ax := Quotient(r.ax, heads), dx := Remainder(r.ax, heads));
      r := r.(dx := Pair(Lo(r.dx), Lo(r.dx)));
      PairOf(Lo(head), Lo(head));
      LowByte(head);
      r := r.(cx := Pair(Lo(r.ax), Lo(r.cx)));
      PairOf(Lo(cylinder), Lo(sector));
      r := r.(ax := Pair(Shl6(Hi(r.ax)), Lo(r.ax)));
      PairOf(Shl6(Hi(cylinder)), Lo(cylinder));
      r := r.(cx := Pair(Hi(r.cx), Or8(Lo(r.cx), Hi(r.ax))));
      Unpacked(cylinder, sector);
      var ax := Pop();
      r := r.(ax := ax);
      r := r.(dx := Pair(Hi(r.dx), Lo(r.ax)));
      PairOf(head, Lo(r.ax));
      ax := Pop();
      r := r.(ax := ax);
      Divided(r.ax, spt, heads);
    }

    /**
     * `int 13h`. A read that fails may leave anything in its buffer, and the general registers come back with anything;
     * ES and the stack are kept.
     */
    method Int13()
      requires Valid() && (Hi(r.ax) == 0x02 ==> SectorOf(r.cx) > 0) && Asked().address + 512 * Asked().count <= MEMORY
      modifies `r, `carry, `calls, mem
      ensures r.es == old(r.es) && calls == old(calls) + 1 && carry == fails(old(calls))
      ensures OnlyInside(old(Asked())) && (!carry ==> Holds(old(Asked())))
    {
      hide Asked;
      var q := Asked();
      carry := fails(calls);
      calls := calls + 1;
      if q.count > 0 {
        Transfer(q, carry);
      }
      var after: Regs :| after.es == r.es;
      r := after;
    }

    method Transfer(q: Request, bad: bool)
      requires Valid() && q.address + 512 * q.count <= MEMORY
      modifies mem
      ensures OnlyInside(q) && (!bad ==> Holds(q))
    {
      for i := 0 to 512 * q.count
        invariant OnlyInside(q)
        invariant !bad ==> forall a :: q.address <= a < q.address + i ==> mem[a] == disk(512 * q.lba + (a - q.address))
      {
        var junk: Byte :| true;
        mem[q.address + i] := if bad then junk else disk(512 * q.lba + i);
      }
    }

    /** `pusha`, for the registers in use. */
    method PushAll()
      modifies `stack
      ensures stack == Saved(r, old(stack))
    {
      stack := Saved(r, stack);
    }

    /** `popa` */
    method PopAll(ghost saved: Regs, ghost rest: Stack)
      requires stack == Saved(saved, rest)
      modifies `r, `stack
      ensures stack == rest && r == saved.(eaxHigh := old(r.eaxHigh), es := old(r.es))
    {
      var di := Pop();
      var si := Pop();
      var bx := Pop();
      var dx := Pop();
      var cx := Pop();
      var ax := Pop();
      r := Regs(r.eaxHigh, ax, bx, cx, dx, si, di, r.es);
    }

    /** `disk_reset`; on failure it jumps to the error handler and does not return. */
    method DiskReset() returns (ok: bool)
      requires Valid()
      modifies `r, `carry, `calls, `stack, mem
      ensures calls == old(calls) + 1 && ok == !fails(old(calls)) && OnlyInside(NOTHING)
      ensures ok ==> stack == old(stack) && r == old(r).(eaxHigh := r.eaxHigh)
    {
      PushAll();
      r := r.(ax := Pair(0, Lo(r.ax)));
      PairOf(0, Lo(r.ax));
      carry := true;
      Int13();
      if carry {
        return false;
      }
      PopAll(old(r), old(stack));
      return true;
    }

    /** One try, and the reset after it if it failed. */
    method Try() returns (done: bool, ok: bool)
      requires Valid() && (Hi(r.ax) == 0x02 ==> SectorOf(r.cx) > 0) && Asked().address + 512 * Asked().count <= MEMORY
      modifies `r, `carry, `calls, `stack, mem
      ensures OnlyInside(old(Asked())) && done == !fails(old(calls))
      ensures done ==> calls == old(calls) + 1 && Holds(old(Asked()))
      ensures !done ==> calls == old(calls) + 2 && ok == !fails(old(calls) + 1)
      ensures done || ok ==> stack == old(stack) && r == old(r).(eaxHigh := r.eaxHigh)
    {
      hide Holds;
      ghost var q := Asked();
      PushAll();
      carry := true;
      assert Asked() == q;
      Int13();
      if !carry {
        PopAll(old(r), old(stack));
        return true, true;
      }
      PopAll(old(r), old(stack));
      ok := DiskReset();
      return false, ok;
    }

    /** The retry loop: three tries, with a reset of the controller after every failed one. */
    method Tries() returns (ok: bool)
      requires Valid() && r.di == 3 && (Hi(r.ax) == 0x02 ==> SectorOf(r.cx) > 0)
      requires Asked().address + 512 * Asked().count <= MEMORY
      modifies `r, `carry, `calls, `stack, mem
      ensures OnlyInside(old(Asked()))
      ensures ok ==> stack == old(stack) && SameRequest(old(r), r) && Holds(old(Asked()))
      ensures ok ==> exists t: nat :: t < 3 && WorksAt(fails, old(calls), t) && calls == old(calls) + 2 * t + 1
      ensures !ok ==> exists t: nat :: t < 3 && GaveUpAt(fails, old(calls), t) && calls == old(calls) + 2 * t + 2
    {
      hide Holds;
      ghost var n, q, t: nat := calls, Asked(), 0;
      while true
        invariant t < 3 && r.di == 3 - t && calls == n + 2 * t && FailedBefore(fails, n, t)
        invariant stack == old(stack) && SameRequest(old(r), r) && OnlyInside(q)
        decreases r.di
      {
        var done, reset := Try();
        if done {
          assert WorksAt(fails, n, t);
          return true;
        }
        if !reset {
          assert GaveUpAt(fails, n, t);
          return false;
        }
        r := r.(di := r.di - 1);
        if r.di == 0 {
          assert GaveUpAt(fails, n, t);
          return false;
        }
        t := t + 1;
      }
    }

    /** The block that stands for `lba` in what `disk_read` asks of the BIOS. */
    function Start(lba: nat): nat
      requires Valid()
    {
      BlockRead(haveExtensions, heads, spt, lba)
    }

    /** What a call of `disk_read` reads. */
    function Wanted(): Request
      requires Valid()
      reads `r
    {
      Request(Start(r.Eax()), Lo(r.cx), Linear(r.es, r.bx))
    }

    /** The request for the BIOS: the packet, or the registers. */
    method Prepare()
      requires Valid()
      modifies `r, `stack, `packet
      ensures Asked() == old(Wanted()) && stack == old(stack)
      ensures r.di == 3 && r.es == old(r.es) && (Hi(r.ax) == 0x02 ==> SectorOf(r.cx) > 0)
    {
      if haveExtensions {
        packet := packet.(lba := r.Eax());
        packet := packet.(segment := r.es);
        packet := packet.(offset := r.bx);
        packet := packet.(count := Lo(r.cx));
        PairOf(0x42, Lo(r.ax));
        r := r.(ax := Pair(0x42, Lo(r.ax)));
        r := r.(si := PACKET_ADDRESS);
        r := r.(di := 3);
      } else {
        hide BlockOf, BlockRead, SectorOf, CylinderOf, SectorPart, HeadPart, CylinderPart, Pair, Lo, Hi, Linear;
        FieldsNameBlockRead(r.eaxHigh, r.ax, heads, spt);
        Push(r.cx);
        LbaToChs();
        var ax := Pop();
        r := r.(ax := ax);
        PairOf(0x02, Lo(ax));
        r := r.(ax := Pair(0x02, Lo(r.ax)));
        r := r.(di := 3);
      }
    }

    /** `disk_read`; on failure it jumps to the error handler and does not return. */
    method DiskRead() returns (ok: bool)
      requires Valid() && Wanted().address + 512 * Wanted().count <= MEMORY
      modifies `r, `carry, `calls, `stack, `packet, mem
      ensures OnlyInside(old(Wanted()))
      ensures ok ==> stack == old(stack) && r == old(r) && Holds(old(Wanted()))
      ensures ok ==> exists t: nat :: t < 3 && WorksAt(fails, old(calls), t) && calls == old(calls) + 2 * t + 1
      ensures !ok ==> exists t: nat :: t < 3 && GaveUpAt(fails, old(calls), t) && calls == old(calls) + 2 * t + 2
    {
      hide Holds, WorksAt, GaveUpAt, Asked, Wanted;
      Push(r.eaxHigh);
      Push(r.ax);
      Push(r.bx);
      Push(r.cx);
      Push(r.dx);
      Push(r.si);
      Push(r.di);
      Prepare();
      ok := Tries();
      if !ok {
        return;
      }
      var di := Pop();
      var si := Pop();
      var dx := Pop();
      var cx := Pop();
      var bx := Pop();
      var ax := Pop();
      var eaxHigh := Pop();
      r := Regs(eaxHigh, ax, bx, cx, dx, si, di, r.es);
    }

    /** The little-endian bytes at SI. */
    method LoadExtent(ghost e: Extent)
      requires Valid() && r.si + 5 <= LOAD_ADDRESS && Entry(mem[r.si..r.si + 5], e)
      modifies `r
      ensures r.Eax() == e.lba && Lo(r.cx) == e.count && r.si == old(r.si) + 5 && r.es == old(r.es) && r.bx == old(r.bx)
    {
      var si := r.si;
      r := r.(ax := Pair(mem[si + 1], mem[si]), eaxHigh := Pair(mem[si + 3], mem[si + 2]));
      r := r.(si := r.si + 4);
      r := r.(cx := Pair(Hi(r.cx), mem[r.si]));
      PairOf(Hi(r.cx), Lo(r.cx));
      r := r.(si := r.si + 1);
    }

    /** The segment moves on by what was read. */
    method Advance()
      requires r.es + 32 * Lo(r.cx) < 0x1_0000
      modifies `r
      ensures r == old(r).(cx := r.cx, di := r.di, es := old(r.es) + 32 * Lo(old(r.cx)))
    {
      PairOf(0, Lo(r.cx));
      PairZero(Lo(r.cx));
      NoWrap(r.es, Lo(r.cx));
      hide *;
      r := r.(cx := Pair(0, Lo(r.cx)));
      r := r.(cx := Shl5(r.cx));
      r := r.(di := r.es);
      r := r.(di := Add16(r.di, r.cx));
      r := r.(es := r.di);
    }

    /** The extents that are read for these. */
    function AsRead(extents: seq<Extent>): (read: seq<Extent>)
      requires Valid()
    {
      seq(|extents|, i requires 0 <= i < |extents| => AsReadOne(extents[i]))
    }

    function AsReadOne(e: Extent): Extent
      requires Valid()
    {
      e.(lba := Start(e.lba))
    }

    ghost predicate AllAddressable(extents: seq<Extent>) {
      forall e :: e in extents && e.count > 0 ==> Addressable(haveExtensions, heads, spt, e.lba)
    }

    lemma SectorsHeld(e: Extent, base: nat)
      requires Valid() && base + 512 * e.count <= MEMORY && Holds(Request(e.lba, e.count, base))
      ensures mem[base..base + 512 * e.count] == Sectors(disk, e)
    {
    }

    /** Reading one extent, and moving on. */
    method LoadOne(ghost e: Extent, ghost base: nat) returns (ok: bool)
      requires Valid() && r.Eax() == e.lba && Lo(r.cx) == e.count && Linear(r.es, r.bx) == base
      requires base + 512 * e.count <= MEMORY && r.es + 32 * e.count < 0x1_0000
      modifies `r, `carry, `calls, `stack, `packet, mem
      ensures forall a :: 0 <= a < MEMORY && !(base <= a < base + 512 * e.count) ==> mem[a] == old(mem[a])
      ensures ok ==> mem[base..base + 512 * e.count] == Sectors(disk, AsReadOne(e))
      ensures ok ==> stack == old(stack) && calls >= old(calls)
      ensures ok ==> r.es == old(r.es) + 32 * e.count && r.si == old(r.si) && r.bx == old(r.bx)
      ensures !ok ==>
        exists n: nat, t: nat :: old(calls) <= n && t < 3 && GaveUpAt(fails, n, t) && calls == n + 2 * t + 2
    {
      hide GaveUpAt, WorksAt, Linear, Holds, Sectors, Geometry, Lo;
      ghost var q := Request(Start(e.lba), e.count, base);
      assert Wanted() == q;
      ok := DiskRead();
      if ok {
        SectorsHeld(AsReadOne(e), base);
        Advance();
      }
    }

    /** The loop that loads the second stage from the list at `list`. */
    method LoadStage2(list: Word16, ghost extents: seq<Extent>) returns (ok: bool)
      requires Valid() && list + 5 * |extents| + 5 <= LOAD_ADDRESS && LOAD_ADDRESS + 512 * Total(extents) <= MEMORY
      requires IsList(mem[list..list + 5 * |extents| + 5], extents) && forall e :: e in extents ==> e.lba != 0
      modifies `r, `carry, `calls, `stack, `packet, mem
      ensures ok ==> stack == old(stack)
      ensures ok ==> mem[LOAD_ADDRESS..LOAD_ADDRESS + 512 * Total(extents)] == Image(disk, AsRead(extents))
      ensures ok && AllAddressable(extents) ==>
        mem[LOAD_ADDRESS..LOAD_ADDRESS + 512 * Total(extents)] == Image(disk, extents)
      ensures forall a :: 0 <= a < MEMORY && !(LOAD_ADDRESS <= a < LOAD_ADDRESS + 512 * Total(extents)) ==>
        mem[a] == old(mem[a])
      ensures !ok ==>
        exists n: nat, t: nat :: old(calls) <= n && t < 3 && GaveUpAt(fails, n, t) && calls == n + 2 * t + 2
    {
      hide Total, Image, Entry, GaveUpAt, Sectors, Geometry, AsRead, AsReadOne, AllAddressable, Lo;
      ghost var bytes, n, read := mem[list..list + 5 * |extents| + 5], |extents|, AsRead(extents);
      r := r.(si := list);
      r := r.(es := 0);
      r := r.(bx := LOAD_ADDRESS);
      ghost var k, end := 0, LOAD_ADDRESS;
      Nothing(disk);
      SameTotal(extents, n);
      while true
        invariant k <= n && r.si == list + 5 * k && r.bx == LOAD_ADDRESS && stack == old(stack) && calls >= old(calls)
        invariant end == LOAD_ADDRESS + 512 * Total(read[..k]) && 16 * r.es + LOAD_ADDRESS == end <= MEMORY
        invariant forall a :: 0 <= a < MEMORY && !(LOAD_ADDRESS <= a < end) ==> mem[a] == old(mem[a])
        invariant mem[LOAD_ADDRESS..end] == Image(disk, read[..k])
        decreases n - k
      {
        ghost var e := if k < n then extents[k] else Extent(0, bytes[5 * n + 4]);
        ListUnchanged(bytes, list, k);
        assert Entry(bytes[5 * k..5 * k + 5], e);
        LoadExtent(e);
        if r.Eax() == 0 {
          assert read[..n] == read;
          RightImage(disk, extents);
          return true;
        }
        OneMore(disk, read, k);
        ReadAt(extents, k);
        ok := LoadOne(e, end);
        if !ok {
          return;
        }
        k, end := k + 1, end + 512 * e.count;
      }
    }

    /** The list lies below all that is loaded. */
    lemma ListUnchanged(bytes: seq<Byte>, list: nat, k: nat)
      requires Valid() && 5 * k + 5 <= |bytes| && list + |bytes| <= LOAD_ADDRESS
      requires forall a :: 0 <= a < LOAD_ADDRESS && list <= a < list + |bytes| ==> mem[a] == bytes[a - list]
      ensures mem[list + 5 * k..list + 5 * k + 5] == bytes[5 * k..5 * k + 5]
    {
    }

    /** As many sectors are read as are asked for. */
    lemma {:induction false} SameTotal(extents: seq<Extent>, k: nat)
      requires Valid() && k <= |extents|
      ensures Total(AsRead(extents)[..k]) == Total(extents[..k])
      ensures |AsRead(extents)| == |extents| && (k == |extents| ==> Total(AsRead(extents)) == Total(extents))
      decreases k
    {
      hide Geometry, BlockRead;
      var read := AsRead(extents);
      if k > 0 {
        SameTotal(extents, k - 1);
        assert read[..k][..k - 1] == read[..k - 1] && extents[..k][..k - 1] == extents[..k - 1];
      }
      assert read[..|extents|] == read && extents[..|extents|] == extents;
    }

    /** Small enough numbers are read as they stand. */
    lemma RightImage(disk: int -> Byte, extents: seq<Extent>)
      requires Valid()
      ensures AllAddressable(extents) ==> Image(disk, AsRead(extents)) == Image(disk, extents)
    {
      if AllAddressable(extents) {
        SameImage(disk, extents, |extents|);
        assert extents[..|extents|] == extents && AsRead(extents)[..|extents|] == AsRead(extents);
      }
    }

    lemma {:induction false} SameImage(disk: int -> Byte, extents: seq<Extent>, k: nat)
      requires Valid() && AllAddressable(extents) && k <= |extents|
      ensures Image(disk, AsRead(extents)[..k]) == Image(disk, extents[..k])
      decreases k
    {
      hide Geometry, BlockRead, Addressable, Sectors;
      var read := AsRead(extents);
      if k > 0 {
        SameImage(disk, extents, k - 1);
        assert read[..k][..k - 1] == read[..k - 1] && extents[..k][..k - 1] == extents[..k - 1];
        var e := extents[k - 1];
        assert e in extents;
        ReadsTheBlock(haveExtensions, heads, spt, e.lba);
        NoSectors(disk, e, AsReadOne(e));
      }
    }

    /**
     * Whatever is on the disk, what is loaded is what the list names: this holds exactly if every number in it (of an
     * extent that is not empty) is small enough.
     */
    lemma LoadsTheList(extents: seq<Extent>)
      requires Valid()
      ensures (forall disk: int -> Byte :: Image(disk, AsRead(extents)) == Image(disk, extents))
        <==> AllAddressable(extents)
    {
      hide Geometry, BlockRead, Addressable, Sectors, Image, AsRead;
      if AllAddressable(extents) {
        forall disk: int -> Byte ensures Image(disk, AsRead(extents)) == Image(disk, extents) {
          RightImage(disk, extents);
        }
      } else {
        var e :| e in extents && e.count > 0 && !Addressable(haveExtensions, heads, spt, e.lba);
        var k :| 0 <= k < |extents| && extents[k] == e;
        ReadsTheBlock(haveExtensions, heads, spt, e.lba);
        var disk := Marked(512 * e.lba);
        ByteOfImage(disk, extents, k, 0);
        ReadAt(extents, k);
        ByteOfImage(disk, AsRead(extents), k, 0);
        SameTotal(extents, k);
        assert Image(disk, AsRead(extents)) != Image(disk, extents);
      }
    }

    lemma ReadAt(extents: seq<Extent>, k: nat)
      requires Valid() && k < |extents|
      ensures |AsRead(extents)| == |extents| && AsRead(extents)[k] == AsReadOne(extents[k])
      ensures AsReadOne(extents[k]).count == extents[k].count
    {
    }
  }

  // ---------------------------------------------------------------- the list of extents

  datatype Extent = Extent(lba: nat, count: Byte)

  /** Five bytes of the list: the block number, little-endian, and the count of sectors. */
  ghost predicate Entry(bytes: seq<Byte>, e: Extent)
    requires |bytes| == 5
  {
    var b0: int, b1: int, b2: int, b3: int := bytes[0], bytes[1], bytes[2], bytes[3];
    b0 + 0x100 * b1 + 0x1_0000 * b2 + 0x100_0000 * b3 == e.lba && bytes[4] == e.count
  }

  /** An entry holds the digits of the block number in base 256, the low one first, and then the count. */
  lemma EntryBytes(b: seq<Byte>, e: Extent)
    requires |b| == 5 && Entry(b, e)
    ensures b[0] == e.lba % 0x100 && b[1] == e.lba / 0x100 % 0x100 && b[2] == e.lba / 0x1_0000 % 0x100
    ensures b[3] == e.lba / 0x100_0000 && b[4] == e.count
  {
    var n: int, b1: int, b2: int, b3: int := e.lba, b[1], b[2], b[3];
    LastDigit(n, b1 + 0x100 * b2 + 0x1_0000 * b3, b[0]);
    LastDigit(n / 0x100, b2 + 0x100 * b3, b[1]);
    LastDigit(n / 0x100 / 0x100, b[3], b[2]);
    assert n / 0x1_0000 == n / 0x100 / 0x100 && n / 0x100_0000 == n / 0x1_0000 / 0x100;
  }

  lemma LastDigit(n: nat, q: nat, r: Byte)
    requires n == 0x100 * q + r
    ensures n % 0x100 == r && n / 0x100 == q
  {
  }

  /** The entries, then one with block number zero. */
  ghost predicate IsList(bytes: seq<Byte>, extents: seq<Extent>)
    requires |bytes| == 5 * |extents| + 5
  {
    && (forall k {:trigger extents[k]} :: 0 <= k < |extents| ==> Entry(bytes[5 * k..5 * k + 5], extents[k]))
    && Entry(bytes[5 * |extents|..5 * |extents| + 5], Extent(0, bytes[5 * |extents| + 4]))
  }

  ghost function Total(extents: seq<Extent>): nat {
    if extents == [] then 0 else Total(extents[..|extents| - 1]) + extents[|extents| - 1].count
  }

  function Sectors(disk: int -> Byte, e: Extent): (s: seq<Byte>)
    ensures |s| == 512 * e.count
  {
    seq(512 * e.count, i => disk(512 * e.lba + i))
  }

  /** The sectors of the extents, one extent after the other. */
  ghost function Image(disk: int -> Byte, extents: seq<Extent>): (image: seq<Byte>)
    ensures |image| == 512 * Total(extents)
  {
    if extents == [] then []
    else Image(disk, extents[..|extents| - 1]) + Sectors(disk, extents[|extents| - 1])
  }

  lemma Nothing(disk: int -> Byte)
    ensures Total([]) == 0 && Image(disk, []) == []
  {
  }

  lemma OneMore(disk: int -> Byte, extents: seq<Extent>, k: nat)
    requires k < |extents|
    ensures Total(extents[..k + 1]) == Total(extents[..k]) + extents[k].count <= Total(extents)
    ensures Image(disk, extents[..k + 1]) == Image(disk, extents[..k]) + Sectors(disk, extents[k])
    ensures Image(disk, extents[..k + 1]) <= Image(disk, extents)
    decreases |extents| - k
  {
    assert extents[..k + 1][..k] == extents[..k];
    assert extents[..|extents|] == extents;
    if k + 1 < |extents| {
      OneMore(disk, extents, k + 1);
    }
  }

  lemma NoSectors(disk: int -> Byte, e: Extent, e': Extent)
    requires e.count == e'.count && (e.count > 0 ==> e == e')
    ensures Sectors(disk, e) == Sectors(disk, e')
  {
  }

  /** In the image each extent stands behind the ones before it, byte by byte as on the disk. */
  lemma ByteOfImage(disk: int -> Byte, extents: seq<Extent>, k: nat, i: nat)
    requires k < |extents| && i < 512 * extents[k].count
    ensures 512 * Total(extents[..k]) + i < |Image(disk, extents)|
    ensures Image(disk, extents)[512 * Total(extents[..k]) + i] == disk(512 * extents[k].lba + i)
  {
    hide Total, Image;
    OneMore(disk, extents, k);
    var head := Image(disk, extents[..k]);
    assert (head + Sectors(disk, extents[k]))[|head| + i] == Sectors(disk, extents[k])[i];
  }

  /** A disk with one byte that is not zero. */
  function Marked(at: int): int -> Byte {
    b => if b == at then 1 else 0
  }

  /** Where the disk address packet is; nothing depends on the number. */
  const PACKET_ADDRESS: Word16 := 0x7DD0

  const NOTHING := Request(0, 0, 0)

  function Saved(r: Regs, stack: Stack): Stack {
    Cell(r.di, Cell(r.si, Cell(r.bx, Cell(r.dx, Cell(r.cx, Cell(r.ax, stack))))))
  }

  lemma PairOf(hi: Byte, lo: Byte)
    ensures Hi(Pair(hi, lo)) == hi && Lo(Pair(hi, lo)) == lo
  {
  }

  lemma Divided(ax: Word16, spt: Word16, heads: Word16)
    requires Geometry(heads, spt)
    ensures Remainder(ax, spt) + 1 == SectorPart(ax, heads, spt)
    ensures Remainder(Quotient(ax, spt), heads) == HeadPart(ax, heads, spt)
    ensures Quotient(Quotient(ax, spt), heads) == CylinderPart(ax, heads, spt)
  {
  }
}
