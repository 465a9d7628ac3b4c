/**
 The three-wire bus between the host and the DS1302 (clock, bidirectional data,
 chip-select), seen as the sequence of events the host performs on its pins.
 Pin objects, pin directions and electrical timing are abstracted away: what
 remains is the order of the events and the data-line levels they carry.
 */
module Bus {
  import opened Bits

  /** One observable action of the host on its three pins. */
  datatype Event =
    | CsHigh          // chip-select raised: a transaction begins
    | CsLow           // chip-select lowered: the transaction ends
    | Drive(bit: Bit) // the host drives the data line to `bit`
    | Sample(bit: Bit) // the host reads `bit` off the data line
    | ClkHigh         // clock raised
    | ClkLow          // clock lowered

  /** One bit period of a transmitted byte: drive the line, then pulse the clock high then low. */
  function SendPeriod(b: Bit): seq<Event>
  {
    [Drive(b), ClkHigh, ClkLow]
  }

  /** One bit period of a received byte: sample the line, then pulse the clock high then low. */
  function ReceivePeriod(b: Bit): seq<Event>
  {
    [Sample(b), ClkHigh, ClkLow]
  }

  /** The `i`-th three-event bit period of a trace. */
  function Period(t: seq<Event>, i: nat): seq<Event>
    requires 3 * i + 3 <= |t|
  {
    t[3 * i .. 3 * i + 3]
  }

  /** The event at position `phase` (0, 1 or 2) of a bit period that drives or samples `b`. */
  function PeriodEvent(b: Bit, phase: int, send: bool): Event
  {
    if phase == 0 then (if send then Drive(b) else Sample(b))
    else if phase == 1 then ClkHigh
    else ClkLow
  }

  function SendBits(bs: seq<Bit>): (t: seq<Event>)
    ensures |t| == 3 * |bs|
  {
    seq(3 * |bs|, k requires 0 <= k < 3 * |bs| => PeriodEvent(bs[k / 3], k % 3, true))
  }

  function ReceiveBits(bs: seq<Bit>): (t: seq<Event>)
    ensures |t| == 3 * |bs|
  {
    seq(3 * |bs|, k requires 0 <= k < 3 * |bs| => PeriodEvent(bs[k / 3], k % 3, false))
  }

  /** A sent run is the first bit's period followed by the run of the rest. */
  lemma SendBitsCons(bs: seq<Bit>)
    requires |bs| > 0
    ensures SendBits(bs) == SendPeriod(bs[0]) + SendBits(bs[1..])
  {
    var t := SendBits(bs);
    var u := SendPeriod(bs[0]) + SendBits(bs[1..]);
    forall k | 3 <= k < |t|
      ensures t[k] == u[k]
    {
      assert (k - 3) / 3 == k / 3 - 1 && (k - 3) % 3 == k % 3;
    }
    assert t[..3] == u[..3];
  }

  /** A received run is the first bit's period followed by the run of the rest. */
  lemma ReceiveBitsCons(bs: seq<Bit>)
    requires |bs| > 0
    ensures ReceiveBits(bs) == ReceivePeriod(bs[0]) + ReceiveBits(bs[1..])
  {
    var t := ReceiveBits(bs);
    var u := ReceivePeriod(bs[0]) + ReceiveBits(bs[1..]);
    forall k | 3 <= k < |t|
      ensures t[k] == u[k]
    {
      assert (k - 3) / 3 == k / 3 - 1 && (k - 3) % 3 == k % 3;
    }
    assert t[..3] == u[..3];
  }

  /** The `i`-th bit period of a sent run drives the `i`-th bit. */
  lemma {:induction false} SendBitsPeriods(bs: seq<Bit>)
    ensures forall i :: 0 <= i < |bs| ==> Period(SendBits(bs), i) == SendPeriod(bs[i])
    decreases |bs|
  {
    if |bs| > 0 {
      var rest := SendBits(bs[1..]);
      var t := SendBits(bs);
      SendBitsCons(bs);
      SendBitsPeriods(bs[1..]);
      assert forall i :: 1 <= i < |bs| ==> Period(t, i) == Period(rest, i - 1);
    }
  }

  /** The `i`-th bit period of a received run samples the `i`-th bit. */
  lemma {:induction false} ReceiveBitsPeriods(bs: seq<Bit>)
    ensures forall i :: 0 <= i < |bs| ==> Period(ReceiveBits(bs), i) == ReceivePeriod(bs[i])
    decreases |bs|
  {
    if |bs| > 0 {
      var rest := ReceiveBits(bs[1..]);
      var t := ReceiveBits(bs);
      ReceiveBitsCons(bs);
      ReceiveBitsPeriods(bs[1..]);
      assert forall i :: 1 <= i < |bs| ==> Period(t, i) == Period(rest, i - 1);
    }
  }

  /**
   `write_byte(dat)`: eight bit periods, least-significant bit first, the `i`-th
   driving `(dat >> i) & 1`. Bits above the eighth are never transmitted.
   */
  function WriteByte(dat: int): (t: seq<Event>)
    ensures |t| == 24
    ensures DrivenBits(t) == ToBits(dat, 8)
  {
    DrivenBitsOfSend(ToBits(dat, 8));
    SendBits(ToBits(dat, 8))
  }

  /** `write_byte(dat)` is eight bit periods, the `i`-th driving `(dat >> i) & 1` and then pulsing the clock. */
  lemma WriteBytePeriods(dat: int)
    ensures forall i :: 0 <= i < 8 ==> Period(WriteByte(dat), i) == [Drive(BitOf(dat, i)), ClkHigh, ClkLow]
  {
    SendBitsPeriods(ToBits(dat, 8));
  }

  /**
   `read_byte()`: eight bit periods, each sampling the data line before its clock
   pulse. `line` holds the eight levels the device presents, in order; the
   result is the byte they spell least-significant bit first, and the trace.
   */
  function ReadByte(line: seq<Bit>): (r: (Byte, seq<Event>))
    requires |line| == 8
    ensures ToBits(r.0, 8) == line
    ensures |r.1| == 24
  {
    ToFromBits(line);
    ByteBound(line);
    (FromBits(line), ReceiveBits(line))
  }

  /** `read_byte()` is eight bit periods, the `i`-th sampling the `i`-th level the device presents. */
  lemma ReadBytePeriods(line: seq<Bit>)
    requires |line| == 8
    ensures forall i :: 0 <= i < 8 ==> Period(ReadByte(line).1, i) == [Sample(line[i]), ClkHigh, ClkLow]
  {
    ReceiveBitsPeriods(line);
  }

  /** Two traces made of the same bit periods are the same trace. */
  lemma PeriodsDetermine(t: seq<Event>, u: seq<Event>, n: nat)
    requires |t| == 3 * n && |u| == 3 * n
    requires forall i :: 0 <= i < n ==> Period(t, i) == Period(u, i)
    ensures t == u
  {
    forall k | 0 <= k < |t|
      ensures t[k] == u[k]
    {
      var i := k / 3;
      assert Period(t, i)[k - 3 * i] == t[k];
      assert Period(u, i)[k - 3 * i] == u[k];
    }
  }

  /** Appending one bit period to whole periods keeps the earlier periods and adds the new one last. */
  lemma PeriodAppend(t: seq<Event>, p: seq<Event>, n: nat)
    requires |t| == 3 * n && |p| == 3
    ensures Period(t + p, n) == p
    ensures forall j :: 0 <= j < n ==> Period(t + p, j) == Period(t, j)
  {
    assert (t + p)[3 * n .. 3 * n + 3] == p;
    forall j | 0 <= j < n
      ensures Period(t + p, j) == Period(t, j)
    {
      assert (t + p)[3 * j .. 3 * j + 3] == t[3 * j .. 3 * j + 3];
    }
  }

  /**
   The loop of `write_byte` as written: for `i` in `range(8)`, drive bit `i`,
   raise the clock, lower the clock. It emits the trace `WriteByte` describes.
   */
  method WriteByteLoop(dat: int) returns (t: seq<Event>)
    ensures t == WriteByte(dat)
  {
    t := [];
    for i := 0 to 8
      invariant |t| == 3 * i
      invariant forall j :: 0 <= j < i ==> Period(t, j) == SendPeriod(BitOf(dat, j))
    {
      var t' := t + [Drive(BitOf(dat, i)), ClkHigh, ClkLow];
      PeriodAppend(t, SendPeriod(BitOf(dat, i)), i);
      t := t';
    }
    WriteBytePeriods(dat);
    PeriodsDetermine(t, WriteByte(dat), 8);
  }

  /** Appending a bit at the top adds its weight: the step of `read_byte`'s loop. */
  lemma {:induction false} FromBitsSnoc(bs: seq<Bit>, b: Bit)
    ensures FromBits(bs + [b]) == FromBits(bs) + b * Pow2(|bs|)
    decreases |bs|
  {
    if |bs| > 0 {
      assert (bs + [b])[1..] == bs[1..] + [b];
      FromBitsSnoc(bs[1..], b);
    }
  }

  /** Appending the period that samples `line[i]` to the periods sampling `line[..i]` gives the periods sampling `line[..i + 1]`. */
  lemma ReceivedPeriodsExtend(t: seq<Event>, line: seq<Bit>, i: nat)
    requires i < |line| && |t| == 3 * i
    requires forall j :: 0 <= j < i ==> Period(t, j) == ReceivePeriod(line[j])
    ensures forall j :: 0 <= j < i + 1 ==> Period(t + ReceivePeriod(line[i]), j) == ReceivePeriod(line[j])
  {
    PeriodAppend(t, ReceivePeriod(line[i]), i);
  }

  /**
   The loop of `read_byte` as written: `d = d | (level << i)`, then a clock
   pulse. Because `d < 2^i` before step `i`, the OR sets a bit that is still
   clear (`OrDisjoint`); the result is the byte `ReadByte` gives.
   */
  method ReadByteLoop(line: seq<Bit>) returns (d: int, t: seq<Event>)
    requires |line| == 8
    ensures 0 <= d < 256 && ToBits(d, 8) == line
    ensures t == ReadByte(line).1
  {
    d := 0;
    t := [];
    for i := 0 to 8
      invariant 0 <= d < Pow2(i)
      invariant d == FromBits(line[..i])
      invariant |t| == 3 * i
      invariant forall j :: 0 <= j < i ==> Period(t, j) == ReceivePeriod(line[j])
    {
      FromBitsSnoc(line[..i], line[i]);
      assert line[..i + 1] == line[..i] + [line[i]];
      OrDisjoint(d, line[i], i);
      d := OrBits(d, line[i] * Pow2(i), i + 1);
      var t' := t + [Sample(line[i]), ClkHigh, ClkLow];
      ReceivedPeriodsExtend(t, line, i);
      t := t';
    }
    assert line[..8] == line;
    ToFromBits(line);
    ReadBytePeriods(line);
    PeriodsDetermine(t, ReadByte(line).1, 8);
  }

  /** The data-line levels a trace drives, in order. */
  function DrivenBits(t: seq<Event>): seq<Bit>
  {
    if |t| == 0 then []
    else if t[0].Drive? then [t[0].bit] + DrivenBits(t[1..])
    else DrivenBits(t[1..])
  }

  lemma {:induction false} DrivenBitsOfSend(bs: seq<Bit>)
    ensures DrivenBits(SendBits(bs)) == bs
    decreases |bs|
  {
    if |bs| > 0 {
      var t := SendBits(bs);
      SendBitsCons(bs);
      assert t[3..] == SendBits(bs[1..]);
      assert t[1..][1..] == t[2..] && t[2..][1..] == t[3..];
      calc {
        DrivenBits(t);
        [bs[0]] + DrivenBits(t[1..]);
        [bs[0]] + DrivenBits(t[2..]);
        [bs[0]] + DrivenBits(t[3..]);
        { DrivenBitsOfSend(bs[1..]); }
        [bs[0]] + bs[1..];
      }
    }
  }

  /** `write_byte(0b10110010)` drives 0,1,0,0,1,1,0,1: least-significant bit first. */
  lemma WriteByteBitOrder()
    ensures DrivenBits(WriteByte(0xB2)) == [0, 1, 0, 0, 1, 1, 0, 1]
  {
    assert ToBits(1, 1) == [1];
    assert ToBits(2, 2) == [0, 1];
    assert ToBits(5, 3) == [1, 0, 1];
    assert ToBits(11, 4) == [1, 1, 0, 1];
    assert ToBits(22, 5) == [0, 1, 1, 0, 1];
    assert ToBits(44, 6) == [0, 0, 1, 1, 0, 1];
    assert ToBits(89, 7) == [1, 0, 0, 1, 1, 0, 1];
    assert ToBits(0xB2, 8) == [0, 1, 0, 0, 1, 1, 0, 1];
  }

  /** The driven bits of `write_byte(dat)`, read back as `read_byte` assembles them, give the low byte of `dat`. */
  lemma WriteThenReadByte(dat: int)
    ensures |DrivenBits(WriteByte(dat))| == 8
    ensures ReadByte(DrivenBits(WriteByte(dat))).0 == dat % 256
  {
    DrivenBitsOfSend(ToBits(dat, 8));
    FromToBits(dat, 8);
  }
}
