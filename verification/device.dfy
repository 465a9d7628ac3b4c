/**
 The DS1302 register map and a model of the chip on the other end of the bus.

 The chip is a map from each even (write) command byte to the byte it holds.
 Two behaviours come from the chip's datasheet, not from the driver, and are
 assumptions of this model, stated here as definitions:
   - a read command at the odd address `a + 1` shifts out the byte held at `a`;
   - while bit 7 of the write-protect register is set, writes to every other
     register are ignored.
 The chip's own timekeeping (the seconds counter advancing) is not modelled:
 the register contents change only through transactions on the bus.
 */
module Device {
  import opened Bits
  import opened Bus
  import opened Frame
  import opened Wrappers

  // The register map, as even (write) command bytes.
  const RegSecond: Byte := 0x80
  const RegMinute: Byte := 0x82
  const RegHour: Byte := 0x84
  const RegDay: Byte := 0x86
  const RegMonth: Byte := 0x88
  const RegWeekday: Byte := 0x8A
  const RegYear: Byte := 0x8C
  const RegWp: Byte := 0x8E
  const RegCtrl: Byte := 0x90
  const RegRam: Byte := 0xC0

  /** Bit 7 of the write-protect register: writes are refused while it is set. */
  const WpBit: Byte := 0x80

  /** The register a command byte addresses: the command with its read bit (bit 0) cleared. */
  function Key(cmd: Byte): (k: Byte)
    ensures k % 2 == 0 && (k == cmd || k + 1 == cmd)
  {
    cmd - cmd % 2
  }

  datatype Chip = Chip(regs: map<Byte, Byte>) {

    /** Every register the command bytes can address holds a byte. */
    predicate Valid()
    {
      forall a: Byte :: a % 2 == 0 ==> a in regs
    }

    predicate Locked()
      requires Valid()
    {
      regs[RegWp] >= WpBit
    }

    /** The byte the chip shifts out after the command byte `cmd`. */
    function Respond(cmd: Byte): Byte
      requires Valid()
    {
      regs[Key(cmd)]
    }

    /**
     The chip's reaction to a data byte written after the command `cmd`: an even
     command stores it, unless write protection is on and `cmd` is not the
     write-protect register itself; an odd (read) command stores nothing.
     */
    function Accept(cmd: Byte, data: Byte): (c: Chip)
      requires Valid()
      ensures c.Valid()
      ensures cmd % 2 == 0 && (cmd == RegWp || !Locked()) ==> c.regs[cmd] == data
    {
      if cmd % 2 == 0 && (cmd == RegWp || !Locked()) then Chip(regs[cmd := data]) else this
    }

    /** The chip's reaction to one transaction: reads change nothing. */
    function Step(tx: Transaction): (c: Chip)
      requires Valid()
      ensures c.Valid()
    {
      match tx
      case WriteTx(cmd, data) => Accept(cmd, data)
      case ReadTx(_, _) => this
    }

    /** The chip's reaction to a run of transactions, in order. */
    function Replay(txs: seq<Transaction>): (c: Chip)
      requires Valid()
      ensures c.Valid()
      decreases |txs|
    {
      if |txs| == 0 then this else Step(txs[0]).Replay(txs[1..])
    }
  }

  /** The chip's reaction to a bus trace: the transactions it decodes to, replayed; a malformed trace changes nothing. */
  function Observe(c: Chip, t: seq<Event>): (d: Chip)
    requires c.Valid()
    ensures d.Valid()
  {
    match Parse(t)
    case Some(txs) => c.Replay(txs)
    case None => c
  }

  /** A valid chip holds every named register of the map. */
  lemma NamedRegisters(c: Chip)
    requires c.Valid()
    ensures RegSecond in c.regs && RegMinute in c.regs && RegHour in c.regs && RegDay in c.regs
    ensures RegMonth in c.regs && RegWeekday in c.regs && RegYear in c.regs && RegWp in c.regs
    ensures RegCtrl in c.regs && RegRam in c.regs
  {
    assert RegSecond % 2 == 0 && RegMinute % 2 == 0 && RegHour % 2 == 0 && RegDay % 2 == 0;
    assert RegMonth % 2 == 0 && RegWeekday % 2 == 0 && RegYear % 2 == 0 && RegWp % 2 == 0;
    assert RegCtrl % 2 == 0 && RegRam % 2 == 0;
  }

  /** Accepting a byte for one register leaves every other register as it was. */
  lemma AcceptKeepsOthers(c: Chip, cmd: Byte, data: Byte, a: Byte)
    requires c.Valid() && a != cmd && a % 2 == 0
    ensures c.Accept(cmd, data).regs[a] == c.regs[a]
  {
  }

  /** Replaying a single write is accepting it. */
  lemma ReplayWrite(c: Chip, cmd: Byte, data: Byte)
    requires c.Valid()
    ensures c.Replay([WriteTx(cmd, data)]) == c.Accept(cmd, data)
  {
    assert [WriteTx(cmd, data)][1..] == [];
  }

  /** Replaying two runs one after the other is replaying their concatenation. */
  lemma {:induction false} ReplayAppend(c: Chip, xs: seq<Transaction>, ys: seq<Transaction>)
    requires c.Valid()
    ensures c.Replay(xs + ys) == c.Replay(xs).Replay(ys)
    decreases |xs|
  {
    if |xs| == 0 {
      assert xs + ys == ys;
    } else {
      assert (xs + ys)[1..] == xs[1..] + ys;
      ReplayAppend(c.Step(xs[0]), xs[1..], ys);
    }
  }

  /** The chip's reaction to two traces run one after the other is its reaction to the first, then to the second. */
  lemma ObserveAppend(c: Chip, a: seq<Event>, b: seq<Event>)
    requires c.Valid() && Parse(a).Some? && Parse(b).Some?
    ensures Parse(a + b).Some?
    ensures Observe(c, a + b) == Observe(Observe(c, a), b)
  {
    ParseAppend(a, b);
    ReplayAppend(c, Parse(a).value, Parse(b).value);
  }

  /** A read transaction leaves the chip as it was. */
  lemma ObserveRead(c: Chip, t: seq<Event>, cmd: Byte, data: Byte)
    requires c.Valid() && Parse(t) == Some([ReadTx(cmd, data)])
    ensures Observe(c, t) == c
  {
    var txs := [ReadTx(cmd, data)];
    assert txs[1..] == [];
    assert c.Replay(txs) == c.Step(txs[0]).Replay(txs[1..]);
  }

  /**
   The datasheet behaviour the driver relies on: once a write at even address
   `a` is accepted, a read at `a + 1` returns the written byte.
   */
  lemma WriteThenRead(c: Chip, a: Byte, v: Byte)
    requires c.Valid() && a % 2 == 0 && a < 255
    requires a == RegWp || !c.Locked()
    ensures c.Accept(a, v).Respond(a + 1) == v
  {
  }

  /** While write protection is on, a write to any other register leaves the chip as it was. */
  lemma LockedIgnoresWrites(c: Chip, a: Byte, v: Byte)
    requires c.Valid() && c.Locked() && a != RegWp
    ensures c.Accept(a, v) == c
  {
  }
}
