/**
 Transactions on the DS1302 bus, and the decoder that recovers them from a pin
 trace. A transaction is chip-select raised, a command byte sent, one data byte
 sent or received, chip-select lowered. The decoder is an independent reading of
 a trace: the driver's operations are specified by what it finds in their traces.
 */
module Frame {
  import opened Bits
  import opened Bus
  import opened Wrappers

  /** One chip-select-framed access: the command byte and the data byte written or read. */
  datatype Transaction =
    | WriteTx(cmd: Byte, data: Byte)
    | ReadTx(cmd: Byte, data: Byte)

  /** Events per transaction: CS high, 8 + 8 bit periods of 3 events, CS low. */
  const FrameLength: nat := 50

  /** The bits of a run of sent bit periods, or None if the trace is not made of them. */
  function SentBits(t: seq<Event>): (r: Option<seq<Bit>>)
    ensures r.Some? ==> 3 * |r.value| == |t|
    decreases |t|
  {
    if |t| == 0 then Some([])
    else if |t| >= 3 && t[0].Drive? && t[1] == ClkHigh && t[2] == ClkLow then
      match SentBits(t[3..])
      case Some(rest) => Some([t[0].bit] + rest)
      case None => None
    else None
  }

  /** The bits of a run of received bit periods, or None if the trace is not made of them. */
  function SampledBits(t: seq<Event>): (r: Option<seq<Bit>>)
    ensures r.Some? ==> 3 * |r.value| == |t|
    decreases |t|
  {
    if |t| == 0 then Some([])
    else if |t| >= 3 && t[0].Sample? && t[1] == ClkHigh && t[2] == ClkLow then
      match SampledBits(t[3..])
      case Some(rest) => Some([t[0].bit] + rest)
      case None => None
    else None
  }

  lemma {:induction false} SentBitsOfSend(bs: seq<Bit>)
    ensures SentBits(SendBits(bs)) == Some(bs)
    decreases |bs|
  {
    if |bs| > 0 {
      var t := SendBits(bs);
      SendBitsCons(bs);
      assert t[0] == Drive(bs[0]) && t[1] == ClkHigh && t[2] == ClkLow;
      assert t[3..] == SendBits(bs[1..]);
      SentBitsOfSend(bs[1..]);
      assert [bs[0]] + bs[1..] == bs;
    }
  }

  lemma {:induction false} SampledBitsOfReceive(bs: seq<Bit>)
    ensures SampledBits(ReceiveBits(bs)) == Some(bs)
    decreases |bs|
  {
    if |bs| > 0 {
      var t := ReceiveBits(bs);
      ReceiveBitsCons(bs);
      assert t[0] == Sample(bs[0]) && t[1] == ClkHigh && t[2] == ClkLow;
      assert t[3..] == ReceiveBits(bs[1..]);
      SampledBitsOfReceive(bs[1..]);
      assert [bs[0]] + bs[1..] == bs;
    }
  }

  /** A received run never decodes as a sent one. */
  lemma ReceiveIsNotSend(bs: seq<Bit>)
    requires |bs| > 0
    ensures SentBits(ReceiveBits(bs)).None?
  {
    assert ReceiveBits(bs)[0] == Sample(bs[0]);
  }

  /** Decodes one transaction of exactly `FrameLength` events. */
  function ParseFrame(t: seq<Event>): Option<Transaction>
    requires |t| == FrameLength
  {
    if t[0] != CsHigh || t[49] != CsLow then None
    else
      match SentBits(t[1..25])
      case None => None
      case Some(c) =>
        ByteBound(c);
        match SentBits(t[25..49])
        case Some(d) => ByteBound(d); Some(WriteTx(FromBits(c), FromBits(d)))
        case None =>
          match SampledBits(t[25..49])
          case Some(d) => ByteBound(d); Some(ReadTx(FromBits(c), FromBits(d)))
          case None => None
  }

  /** Decodes a trace into the transactions it consists of, or None if it is not a run of whole frames. */
  function Parse(t: seq<Event>): (r: Option<seq<Transaction>>)
    ensures r.Some? ==> |t| == FrameLength * |r.value|
    decreases |t|
  {
    if |t| == 0 then Some([])
    else if |t| < FrameLength then None
    else
      match ParseFrame(t[..FrameLength])
      case None => None
      case Some(tx) =>
        match Parse(t[FrameLength..])
        case None => None
        case Some(rest) => Some([tx] + rest)
  }

  /** The transactions of two traces run one after the other are those of the first, then those of the second. */
  lemma {:induction false} ParseAppend(a: seq<Event>, b: seq<Event>)
    requires Parse(a).Some? && Parse(b).Some?
    ensures Parse(a + b) == Some(Parse(a).value + Parse(b).value)
    decreases |a|
  {
    if |a| > 0 {
      var tx := ParseFrame(a[..FrameLength]).value;
      var rest := a[FrameLength..];
      assert Parse(a).value == [tx] + Parse(rest).value;
      assert (a + b)[..FrameLength] == a[..FrameLength];
      assert (a + b)[FrameLength..] == rest + b;
      ParseAppend(rest, b);
      assert Parse(a + b) == Some([tx] + (Parse(rest).value + Parse(b).value));
      ConsAppend(tx, Parse(rest).value, Parse(b).value);
    } else {
      assert a == [];
      assert a + b == b;
      assert Parse(a).value == [];
      assert Parse(a).value + Parse(b).value == Parse(b).value;
    }
  }

  /** Putting one element in front of a concatenation is putting it in front of the first part. */
  lemma ConsAppend<T>(x: T, p: seq<T>, q: seq<T>)
    ensures [x] + (p + q) == ([x] + p) + q
  {
  }

  /** One element followed by three is the four-element sequence. */
  lemma ConsThree<T>(x: T, ys: seq<T>)
    requires |ys| == 3
    ensures [x] + ys == [x, ys[0], ys[1], ys[2]]
  {
  }

  /** The eight bit periods of `write_byte(dat)` decode to the low byte of `dat`. */
  lemma SentByte(dat: int)
    ensures SentBits(WriteByte(dat)) == Some(ToBits(dat, 8))
    ensures FromBits(ToBits(dat, 8)) == dat % 256
  {
    SentBitsOfSend(ToBits(dat, 8));
    FromToBits(dat, 8);
    assert Pow2(8) == 256;
  }

  /** A frame that parses as one transaction parses as a one-element run. */
  lemma SingleFrame(t: seq<Event>, tx: Transaction)
    requires |t| == FrameLength && ParseFrame(t) == Some(tx)
    ensures Parse(t) == Some([tx])
  {
    assert t[..FrameLength] == t;
    assert t[FrameLength..] == [];
    assert Parse(t[FrameLength..]) == Some([]);
    assert [tx] + [] == [tx];
  }

  /** `setReg(reg, dat)`'s frame decodes to one write of the low bytes of `reg` and `dat`. */
  lemma WriteFrame(reg: int, dat: int)
    ensures Parse([CsHigh] + WriteByte(reg) + WriteByte(dat) + [CsLow]) == Some([WriteTx(reg % 256, dat % 256)])
  {
    var t := [CsHigh] + WriteByte(reg) + WriteByte(dat) + [CsLow];
    assert t[0] == CsHigh && t[49] == CsLow;
    assert t[1..25] == WriteByte(reg);
    assert t[25..49] == WriteByte(dat);
    SentByte(reg);
    SentByte(dat);
    assert ParseFrame(t) == Some(WriteTx(reg % 256, dat % 256));
    SingleFrame(t, WriteTx(reg % 256, dat % 256));
  }

  /** `getReg(reg)`'s frame, with the device presenting `line`, decodes to one read of the byte `line` spells. */
  lemma ReadFrame(reg: int, line: seq<Bit>)
    requires |line| == 8
    ensures Parse([CsHigh] + WriteByte(reg) + ReadByte(line).1 + [CsLow]) == Some([ReadTx(reg % 256, ReadByte(line).0)])
  {
    var r := ReadByte(line);
    assert r.1 == ReceiveBits(line);
    var t := [CsHigh] + WriteByte(reg) + r.1 + [CsLow];
    assert t[0] == CsHigh && t[49] == CsLow;
    assert t[1..25] == WriteByte(reg);
    assert t[25..49] == r.1;
    SentByte(reg);
    SampledBitsOfReceive(line);
    ReceiveIsNotSend(line);
    assert r.0 == FromBits(line);
    assert ParseFrame(t) == Some(ReadTx(reg % 256, r.0));
    SingleFrame(t, ReadTx(reg % 256, r.0));
  }
}
