/**
 Register access over the bus: `getReg`, `setReg`, the write-protect wrapper
 `wr`, and the oscillator controls `start` and `stop`. Each operation takes the
 chip's state and returns a `Run`: the chip's state afterwards, the operation's
 result, and the pin trace the host drove. Every contract ties the three
 together: the trace decodes to the transactions the source performs, and the
 chip's new state is its reaction to that trace.
 */
module Registers {
  import opened Bits
  import opened Bus
  import opened Frame
  import opened Device
  import opened Wrappers

  /** What a driver operation leaves behind: the chip's new state, the result, the pin events. */
  datatype Run<T> = Run(chip: Chip, out: T, trace: seq<Event>)

  /**
   `getReg(reg)`: raise chip-select, send `reg`, read one byte while the chip
   shifts out the addressed register, lower chip-select.
   */
  method GetReg(chip: Chip, reg: int) returns (r: Run<Byte>)
    requires chip.Valid()
    ensures r.chip == chip == Observe(chip, r.trace)
    ensures r.out == chip.Respond(reg % 256)
    ensures Parse(r.trace) == Some([ReadTx(reg % 256, r.out)])
  {
    var v := chip.Respond(reg % 256);
    var line := ToBits(v, 8);
    var cmd := WriteByteLoop(reg);
    var d, rt := ReadByteLoop(line);
    ByteBitsRoundTrip(v);
    ToFromBits(line);
    assert d == v by {
      ByteBitsRoundTrip(d);
    }
    ReadFrame(reg, line);
    r := Run(chip, d, [CsHigh] + cmd + rt + [CsLow]);
    ObserveRead(chip, r.trace, reg % 256, d);
  }

  /** `setReg(reg, dat)`: raise chip-select, send `reg`, send `dat`, lower chip-select. */
  method SetReg(chip: Chip, reg: int, dat: int) returns (r: Run<()>)
    requires chip.Valid()
    ensures r.chip.Valid()
    ensures Parse(r.trace) == Some([WriteTx(reg % 256, dat % 256)])
    ensures r.chip == Observe(chip, r.trace) == chip.Accept(reg % 256, dat % 256)
  {
    var cmd := WriteByteLoop(reg);
    var data := WriteByteLoop(dat);
    WriteFrame(reg, dat);
    ReplayWrite(chip, reg % 256, dat % 256);
    r := Run(chip.Accept(reg % 256, dat % 256), (), [CsHigh] + cmd + data + [CsLow]);
  }

  /** `wr(reg, dat)`: unlock write protection, write, lock again. */
  method Wr(chip: Chip, reg: int, dat: int) returns (r: Run<()>)
    requires chip.Valid()
    ensures r.chip.Valid() && r.chip.Locked() && r.chip.regs[RegWp] == WpBit
    ensures Parse(r.trace) == Some([WriteTx(RegWp, 0), WriteTx(reg % 256, dat % 256), WriteTx(RegWp, WpBit)])
    ensures r.chip == Observe(chip, r.trace)
    ensures (reg % 256) % 2 == 0 && reg % 256 != RegWp ==>
      r.chip.regs == chip.regs[reg % 256 := dat % 256][RegWp := WpBit]
    ensures (reg % 256) % 2 == 1 ==> r.chip.regs == chip.regs[RegWp := WpBit]
  {
    assert RegWp % 256 == RegWp && WpBit % 256 == WpBit && 0 % 256 == 0;
    var unlock := SetReg(chip, RegWp, 0);
    var write := SetReg(unlock.chip, reg, dat);
    var lock := SetReg(write.chip, RegWp, WpBit);
    var t := unlock.trace + write.trace + lock.trace;
    var x1, x2, x3 := WriteTx(RegWp, 0), WriteTx(reg % 256, dat % 256), WriteTx(RegWp, WpBit);
    ObserveAppend(chip, unlock.trace, write.trace);
    ObserveAppend(chip, unlock.trace + write.trace, lock.trace);
    ParseAppend(unlock.trace, write.trace);
    ParseAppend(unlock.trace + write.trace, lock.trace);
    assert [x1] + [x2] + [x3] == [x1, x2, x3];
    WrRegs(chip, reg % 256, dat % 256);
    r := Run(lock.chip, (), t);
  }

  /** The registers after `wr`'s three writes, whatever the write-protect state was. */
  lemma WrRegs(chip: Chip, cmd: Byte, dat: Byte)
    requires chip.Valid()
    ensures chip.Accept(RegWp, 0).Accept(cmd, dat).Accept(RegWp, WpBit).regs ==
      if cmd % 2 == 0 && cmd != RegWp then chip.regs[cmd := dat][RegWp := WpBit] else chip.regs[RegWp := WpBit]
  {
    var c1 := chip.Accept(RegWp, 0);
    assert c1.regs == chip.regs[RegWp := 0];
    assert !c1.Locked();
    var c2 := c1.Accept(cmd, dat);
    if cmd % 2 == 0 && cmd != RegWp {
      assert c2.regs == chip.regs[RegWp := 0][cmd := dat];
      assert c2.Accept(RegWp, WpBit).regs == chip.regs[RegWp := 0][cmd := dat][RegWp := WpBit];
    } else if cmd == RegWp {
      assert c2.regs == chip.regs[RegWp := dat];
    } else {
      assert c2 == c1;
    }
  }

  /** `stop()`: read the seconds register, write it back with the clock-halt bit (bit 7) set. */
  method Stop(chip: Chip) returns (r: Run<()>)
    requires chip.Valid()
    ensures r.chip.Valid() && r.chip.Locked()
    ensures r.chip.regs[RegSecond] >= 0x80
    ensures r.chip.regs[RegSecond] % 128 == chip.regs[RegSecond] % 128
    ensures r.chip.regs == chip.regs[RegSecond := r.chip.regs[RegSecond]][RegWp := WpBit]
    ensures r.chip == Observe(chip, r.trace)
    ensures Parse(r.trace) == Some([ReadTx(RegSecond + 1, chip.regs[RegSecond]), WriteTx(RegWp, 0),
                                    WriteTx(RegSecond, r.chip.regs[RegSecond]), WriteTx(RegWp, WpBit)])
  {
    NamedRegisters(chip);
    assert (RegSecond + 1) % 256 == RegSecond + 1 && RegSecond % 256 == RegSecond;
    assert Key(RegSecond + 1) == RegSecond;
    var t := GetReg(chip, RegSecond + 1);
    OrHighBit(t.out);
    var v := Or(t.out, 0x80);
    var w := Wr(t.chip, RegSecond, v);
    ParseAppend(t.trace, w.trace);
    var read := ReadTx(RegSecond + 1, chip.regs[RegSecond]);
    var writes := [WriteTx(RegWp, 0), WriteTx(RegSecond, v), WriteTx(RegWp, WpBit)];
    ConsThree(read, writes);
    ObserveAppend(chip, t.trace, w.trace);
    r := Run(w.chip, (), t.trace + w.trace);
  }

  /** `start()`: read the seconds register, write it back with the clock-halt bit (bit 7) cleared. */
  method Start(chip: Chip) returns (r: Run<()>)
    requires chip.Valid()
    ensures r.chip.Valid() && r.chip.Locked()
    ensures r.chip.regs[RegSecond] < 0x80
    ensures r.chip.regs[RegSecond] % 128 == chip.regs[RegSecond] % 128
    ensures r.chip.regs == chip.regs[RegSecond := r.chip.regs[RegSecond]][RegWp := WpBit]
    ensures r.chip == Observe(chip, r.trace)
    ensures Parse(r.trace) == Some([ReadTx(RegSecond + 1, chip.regs[RegSecond]), WriteTx(RegWp, 0),
                                    WriteTx(RegSecond, r.chip.regs[RegSecond]), WriteTx(RegWp, WpBit)])
  {
    NamedRegisters(chip);
    assert (RegSecond + 1) % 256 == RegSecond + 1 && RegSecond % 256 == RegSecond;
    assert Key(RegSecond + 1) == RegSecond;
    var t := GetReg(chip, RegSecond + 1);
    AndLowBits(t.out);
    var v := And(t.out, 0x7F);
    var w := Wr(t.chip, RegSecond, v);
    ParseAppend(t.trace, w.trace);
    var read := ReadTx(RegSecond + 1, chip.regs[RegSecond]);
    var writes := [WriteTx(RegWp, 0), WriteTx(RegSecond, v), WriteTx(RegWp, WpBit)];
    ConsThree(read, writes);
    ObserveAppend(chip, t.trace, w.trace);
    r := Run(w.chip, (), t.trace + w.trace);
  }

  /**
   `stop()` then `start()`: the clock-halt bit ends up clear and the seconds
   count in bits 0-6 is untouched, so a running clock's seconds register comes
   back exactly as it was.
   */
  method StopThenStart(chip: Chip) returns (r: Run<()>)
    requires chip.Valid()
    ensures r.chip.regs == chip.regs[RegSecond := chip.regs[RegSecond] % 128][RegWp := WpBit]
    ensures chip.regs[RegSecond] < 0x80 ==> r.chip.regs == chip.regs[RegWp := WpBit]
    ensures r.chip == Observe(chip, r.trace)
  {
    NamedRegisters(chip);
    var stopped := Stop(chip);
    var started := Start(stopped.chip);
    var x := chip.regs[RegSecond];
    var s := started.chip.regs[RegSecond];
    LowSeven(x, s);
    SecondRestored(chip.regs, stopped.chip.regs, started.chip.regs, stopped.chip.regs[RegSecond], s);
    ObserveAppend(chip, stopped.trace, started.trace);
    r := Run(started.chip, (), stopped.trace + started.trace);
  }

  /** The register maps of `stop()` followed by `start()`: `h` is the seconds byte the first leaves, `s` the one the second leaves. */
  lemma SecondRestored(m0: map<Byte, Byte>, m1: map<Byte, Byte>, m2: map<Byte, Byte>, h: Byte, s: Byte)
    requires RegSecond in m0 && m1 == m0[RegSecond := h][RegWp := WpBit]
    requires m2 == m1[RegSecond := s][RegWp := WpBit]
    ensures m2 == m0[RegSecond := s][RegWp := WpBit]
    ensures s == m0[RegSecond] ==> m2 == m0[RegWp := WpBit]
  {
    if s == m0[RegSecond] {
      assert m0[RegSecond := s] == m0;
    }
  }
}
