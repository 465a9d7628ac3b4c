/**
 The calendar accessors of the driver (`Second` … `Year`), `DateTime`, and the
 battery-backed RAM accessor `ram`. Each field accessor is a getter when called
 without an argument and a setter when called with one; the getter decodes the
 field's BCD register, the setter reduces its argument by the field's modulus,
 encodes it as BCD and writes it through `wr`.
 */
module Calendar {
  import opened Bits
  import opened Bcd
  import opened Bus
  import opened Frame
  import opened Device
  import opened Registers
  import opened Wrappers

  /** The seven calendar fields, each with an accessor of its own. */
  datatype Field = Second | Minute | Hour | Weekday | Day | Month | Year

  /** The register a field is kept in: an even (write) address, not the write-protect register, with its read address one above. */
  function Reg(f: Field): (r: Byte)
    ensures r % 2 == 0 && r != RegWp && RegSecond <= r <= RegYear
  {
    match f
    case Second => RegSecond
    case Minute => RegMinute
    case Hour => RegHour
    case Weekday => RegWeekday
    case Day => RegDay
    case Month => RegMonth
    case Year => RegYear
  }

  /** The modulus a setter reduces its argument by before encoding it. */
  function Modulus(f: Field): nat
  {
    match f
    case Second => 60
    case Minute => 60
    case Hour => 24
    case Weekday => 8
    case Day => 32
    case Month => 13
    case Year => 100
  }

  /** The facts about a field's register the accessors rely on: it is a plain even register, read one above. */
  lemma FieldReg(f: Field)
    ensures Reg(f) % 2 == 0 && Reg(f) != RegWp && Reg(f) + 1 < 256
    ensures Reg(f) % 256 == Reg(f) && (Reg(f) + 1) % 256 == Reg(f) + 1
    ensures Key(Reg(f) + 1) == Reg(f)
    ensures 1 <= Modulus(f) <= 100
  {
  }

  /** Different fields are kept in different registers. */
  lemma RegInjective(f: Field, g: Field)
    ensures Reg(f) == Reg(g) <==> f == g
  {
  }

  /**
   The two readings of the accessors: the driver as written, and the driver
   with the two corrections this model proposes (an argument of zero is
   written, not taken for "no argument"; the seconds getter masks off the
   clock-halt bit before decoding).
   */
  datatype Accessor = AsWritten | Corrected

  /** Whether an accessor called with `arg` takes its setter branch. As written the test is Python's truthiness, so `0` reads like `None`. */
  predicate Sets(a: Accessor, arg: Option<int>)
  {
    match a
    case AsWritten => arg.Some? && arg.value != 0
    case Corrected => arg.Some?
  }

  /**
   What a getter makes of the byte in its field's register: the year is offset
   by 2000, the seconds as written are reduced modulo 60, and the corrected
   seconds getter ignores bit 7.
   */
  function Decode(a: Accessor, f: Field, b: Byte): (d: int)
    ensures f == Year ==> 2000 <= d <= 2165
    ensures f != Year ==> 0 <= d <= 165
    ensures f == Second && a == AsWritten ==> d < 60
    ensures f == Second && a == Corrected ==> d == HexToDec(b % 128)
    ensures f != Second && IsBcd(b) ==> d == (if f == Year then 2000 else 0) + 10 * Tens(b) + Ones(b)
  {
    AndLowBits(b);
    match f
    case Second => if a == AsWritten then HexToDec(b) % 60 else HexToDec(And(b, 0x7F))
    case Year => HexToDec(b) + 2000
    case _ => HexToDec(b)
  }

  /** The byte a setter writes for the argument `v`: `DecToHex(v % m)` for the field's modulus `m`. */
  function Encode(f: Field, v: int): (e: Byte)
    ensures IsBcd(e) && HexToDec(e) == v % Modulus(f)
  {
    FieldReg(f);
    DecodeEncode(v % Modulus(f));
    DecToHex(v % Modulus(f))
  }

  /** The byte a setter writes is valid BCD, and it decodes to the reduced argument. */
  lemma EncodeIsBcd(f: Field, v: int)
    ensures IsBcd(Encode(f, v)) && HexToDec(Encode(f, v)) == v % Modulus(f)
  {
    FieldReg(f);
    DecodeEncode(v % Modulus(f));
  }

  /** The value a getter returns after a setter stored `v`: the argument reduced, and for the year offset to the 2000s. */
  function Expected(f: Field, v: int): int
  {
    if f == Year then 2000 + v % 100 else v % Modulus(f)
  }

  /** Reading back a stored field gives the argument reduced by the field's modulus, through either accessor. */
  lemma FieldRoundTrip(a: Accessor, f: Field, v: int)
    ensures Decode(a, f, Encode(f, v)) == Expected(f, v)
  {
    FieldReg(f);
    EncodeIsBcd(f, v);
    if f == Second {
      var m := v % 60;
      DivModUnique(m, 60, 0, m);
      if a == Corrected {
        EncodedSecondBelow60(v);
        HaltBitMasked(Encode(Second, v));
      }
    }
  }

  /** The byte a seconds setter writes has the clock-halt bit clear: it is BCD below 0x60. */
  lemma EncodedSecondBelow60(v: int)
    ensures Encode(Second, v) < 0x60
  {
    var m := v % 60;
    var b := Encode(Second, v);
    assert 0 <= m < 60;
    assert Tens(b) == m / 10 && Ones(b) == m % 10;
    assert Tens(b) <= 5;
    assert b == 16 * Tens(b) + Ones(b);
  }

  /** What a getter returns for the byte a setter wrote lies below the field's modulus; the year reads back as 2000-2099. */
  lemma ReadBackRange(a: Accessor, f: Field, v: int)
    ensures f != Year ==> 0 <= Decode(a, f, Encode(f, v)) < Modulus(f)
    ensures f == Year ==> 2000 <= Decode(a, f, Encode(f, v)) <= 2099
  {
    FieldReg(f);
    FieldRoundTrip(a, f, v);
  }

  /** An argument already below the modulus is stored and read back as it is. */
  lemma ExpectedBelow(f: Field, v: int)
    requires f != Year && 0 <= v < Modulus(f)
    ensures Expected(f, v) == v
  {
    DivModUnique(v, Modulus(f), 0, v);
  }

  /** The registers after a setter stored `v` in field `f`: that field changed, write protection on again. */
  function Store(c: Chip, f: Field, v: int): (d: Chip)
    requires c.Valid()
    ensures d.Valid()
  {
    Chip(c.regs[Reg(f) := Encode(f, v)][RegWp := WpBit])
  }

  /** A getter: read the field's register at its read address and decode it. */
  method Get(chip: Chip, f: Field, a: Accessor) returns (r: Run<int>)
    requires chip.Valid()
    ensures r.chip == chip == Observe(chip, r.trace)
    ensures r.out == Decode(a, f, chip.regs[Reg(f)])
    ensures Parse(r.trace) == Some([ReadTx(Reg(f) + 1, chip.regs[Reg(f)])])
  {
    FieldReg(f);
    var t := GetReg(chip, Reg(f) + 1);
    r := Run(chip, Decode(a, f, t.out), t.trace);
  }

  /** A setter: reduce, encode and write through `wr`. */
  method Set(chip: Chip, f: Field, v: int) returns (r: Run<()>)
    requires chip.Valid()
    ensures r.chip.Valid() && r.chip.Locked()
    ensures r.chip == Store(chip, f, v) == Observe(chip, r.trace)
    ensures Parse(r.trace) == Some([WriteTx(RegWp, 0), WriteTx(Reg(f), Encode(f, v)), WriteTx(RegWp, WpBit)])
  {
    FieldReg(f);
    var b := Encode(f, v);
    LowByte(b);
    var reg := Reg(f);
    assert reg % 256 == reg && reg % 2 == 0 && reg != RegWp;
    r := Wr(chip, reg, b);
    assert r.chip.regs == chip.regs[reg := b][RegWp := WpBit];
    assert r.chip.regs == Store(chip, f, v).regs;
  }

  /** The transactions of a setter call: `wr`'s unlock, the write of the encoded value, the lock. */
  function SetTxs(f: Field, v: int): (txs: seq<Transaction>)
    ensures |txs| == 3 && txs[1].WriteTx? && txs[1].cmd == Reg(f) && IsBcd(txs[1].data)
  {
    EncodeIsBcd(f, v);
    [WriteTx(RegWp, 0), WriteTx(Reg(f), Encode(f, v)), WriteTx(RegWp, WpBit)]
  }

  /**
   The transactions of one accessor call: the setter branch is `wr`'s three
   writes of the encoded argument to the field's even register; the getter
   branch is a single read at the register's odd read address, and no write.
   */
  function AccessTxs(c: Chip, f: Field, arg: Option<int>, a: Accessor): (txs: seq<Transaction>)
    requires c.Valid()
    ensures |txs| == (if Sets(a, arg) then 3 else 1)
    ensures forall i :: 0 <= i < |txs| ==> (txs[i].WriteTx? <==> Sets(a, arg))
  {
    FieldReg(f);
    if Sets(a, arg) then SetTxs(f, arg.value)
    else [ReadTx(Reg(f) + 1, c.regs[Reg(f)])]
  }

  /**
   A field accessor: set when `Sets` says so, else get. A setter returns
   nothing and touches only its field and the write-protect register; a
   getter returns the decoded field and changes nothing.
   */
  method Access(chip: Chip, f: Field, arg: Option<int>, a: Accessor) returns (r: Run<Option<int>>)
    requires chip.Valid()
    ensures r.chip.Valid() && r.chip == Observe(chip, r.trace)
    ensures Sets(a, arg) ==> Parse(r.trace) == Some([WriteTx(RegWp, 0), WriteTx(Reg(f), Encode(f, arg.value)), WriteTx(RegWp, WpBit)])
    ensures !Sets(a, arg) ==> Parse(r.trace) == Some([ReadTx(Reg(f) + 1, chip.regs[Reg(f)])])
    ensures Sets(a, arg) ==> r.out == None && r.chip == Store(chip, f, arg.value)
    ensures !Sets(a, arg) ==> r.out == Some(Decode(a, f, chip.regs[Reg(f)])) && r.chip == chip
  {
    if Sets(a, arg) {
      var s := Set(chip, f, arg.value);
      r := Run(s.chip, None, s.trace);
    } else {
      var g := Get(chip, f, a);
      r := Run(g.chip, Some(g.out), g.trace);
    }
  }

  /**
   Setting a field and reading it back through the accessor as written: a
   non-zero argument comes back reduced by the modulus, but a zero argument
   is taken for "no argument", so the read returns the old value.
   */
  method SetThenGet(chip: Chip, f: Field, v: int) returns (r: Run<Option<int>>)
    requires chip.Valid()
    ensures v != 0 ==> r.out == Some(Expected(f, v))
    ensures v == 0 ==> r.out == Some(Decode(AsWritten, f, chip.regs[Reg(f)])) && r.chip == chip
  {
    var s := Access(chip, f, Some(v), AsWritten);
    r := Access(s.chip, f, None, AsWritten);
    if v != 0 {
      FieldRoundTrip(AsWritten, f, v);
    }
  }

  /** Setting a field and reading it back through the corrected accessor: every argument, zero included, comes back reduced. */
  method SetThenGetFixed(chip: Chip, f: Field, v: int) returns (r: Run<Option<int>>)
    requires chip.Valid()
    ensures r.out == Some(Expected(f, v))
    ensures r.chip == Store(chip, f, v)
  {
    var s := Access(chip, f, Some(v), Corrected);
    r := Access(s.chip, f, None, Corrected);
    FieldRoundTrip(Corrected, f, v);
  }

  /** Storing one field leaves every other field's register as it was. */
  lemma StoreKeepsOthers(c: Chip, f: Field, g: Field, v: int)
    requires c.Valid() && f != g
    ensures Store(c, f, v).regs[Reg(g)] == c.regs[Reg(g)]
  {
    RegInjective(f, g);
    FieldReg(g);
  }

  // ---------------------------------------------------------------------------
  // DateTime

  /** The order in which `DateTime` visits the fields, and the order of the list it returns. */
  const Order: seq<Field> := [Year, Month, Day, Weekday, Hour, Minute, Second]

  /** What `DateTime` returns: the list of field values, nothing (after setting), or an `IndexError` raised part-way. */
  datatype Reply = Values(values: seq<int>) | NoValue | IndexError

  /** The seven field values a chip's registers hold, in `DateTime`'s order. */
  function Reading(c: Chip, a: Accessor): (vs: seq<int>)
    requires c.Valid()
    ensures |vs| == 7
  {
    seq(7, i requires 0 <= i < 7 => Decode(a, Order[i], c.regs[Reg(Order[i])]))
  }

  /** The chip after `DateTime`'s first `n` field accessors were called with the list `dat`. */
  function Apply(c: Chip, dat: seq<int>, n: nat, a: Accessor): (d: Chip)
    requires c.Valid() && n <= |dat| && n <= 7
    ensures d.Valid()
  {
    if n == 0 then c
    else
      var p := Apply(c, dat, n - 1, a);
      if Sets(a, Some(dat[n - 1])) then Store(p, Order[n - 1], dat[n - 1]) else p
  }

  /** The transactions of `DateTime()`: one read per field at the field's read address, year first and seconds last. */
  function DateTimeReads(c: Chip): (txs: seq<Transaction>)
    requires c.Valid()
    ensures |txs| == 7
    ensures forall i :: 0 <= i < 7 ==> txs[i].ReadTx? && txs[i].cmd % 2 == 1 && Key(txs[i].cmd) == Reg(Order[i])
  {
    seq(7, i requires 0 <= i < 7 => FieldReg(Order[i]); ReadTx(Reg(Order[i]) + 1, c.regs[Reg(Order[i])]))
  }

  /**
   The transactions of `DateTime(dat)`'s first `n` accessor calls, in call
   order: each call's own transactions, taken against the chip as the calls
   before it left it.
   */
  function DateTimeWrites(c: Chip, dat: seq<int>, n: nat, a: Accessor): seq<Transaction>
    requires c.Valid() && n <= |dat| && n <= 7
    decreases n
  {
    if n == 0 then []
    else DateTimeWrites(c, dat, n - 1, a) + AccessTxs(Apply(c, dat, n - 1, a), Order[n - 1], Some(dat[n - 1]), a)
  }

  /**
   When every value takes the setter branch, `DateTime(dat)` is `wr`'s three
   writes for year, month, day, weekday, hour, minute and second, in that order.
   */
  lemma {:induction false} SetterOrder(c: Chip, dat: seq<int>, n: nat, a: Accessor)
    requires c.Valid() && n <= |dat| && n <= 7
    requires forall i :: 0 <= i < n ==> Sets(a, Some(dat[i]))
    ensures |DateTimeWrites(c, dat, n, a)| == 3 * n
    ensures forall i :: 0 <= i < n ==> DateTimeWrites(c, dat, n, a)[3 * i .. 3 * i + 3] == SetTxs(Order[i], dat[i])
    decreases n
  {
    if n > 0 {
      SetterOrder(c, dat, n - 1, a);
      var prev := DateTimeWrites(c, dat, n - 1, a);
      var last := AccessTxs(Apply(c, dat, n - 1, a), Order[n - 1], Some(dat[n - 1]), a);
      assert last == SetTxs(Order[n - 1], dat[n - 1]);
      assert DateTimeWrites(c, dat, n, a) == prev + last;
      TriplesExtend(prev, last, dat, n - 1);
    }
  }

  /**
   Appending the setter's three writes for field `k` to the writes for fields
   before `k` gives the writes for fields up to and including `k`.
   */
  lemma TriplesExtend(prev: seq<Transaction>, last: seq<Transaction>, dat: seq<int>, k: nat)
    requires k < 7 && k < |dat| && |prev| == 3 * k && last == SetTxs(Order[k], dat[k])
    requires forall i :: 0 <= i < k ==> prev[3 * i .. 3 * i + 3] == SetTxs(Order[i], dat[i])
    ensures |prev + last| == 3 * (k + 1)
    ensures forall i :: 0 <= i < k + 1 ==> (prev + last)[3 * i .. 3 * i + 3] == SetTxs(Order[i], dat[i])
  {
    forall i | 0 <= i < k + 1
      ensures (prev + last)[3 * i .. 3 * i + 3] == SetTxs(Order[i], dat[i])
    {
      if i < k {
        assert (prev + last)[3 * i .. 3 * i + 3] == prev[3 * i .. 3 * i + 3];
      }
    }
  }

  /** A prefix one longer is the prefix followed by the next element. */
  lemma TakeOneMore<T>(s: seq<T>, i: nat)
    requires i < |s|
    ensures s[..i + 1] == s[..i] + [s[i]]
  {
  }

  /** A read that leaves the chip alone extends a trace of the first `i` expected transactions to the first `i + 1`. */
  lemma ReadStep(chip: Chip, expected: seq<Transaction>, i: nat, trace: seq<Event>, t: seq<Event>)
    requires chip.Valid() && i < |expected|
    requires Parse(trace) == Some(expected[..i]) && Observe(chip, trace) == chip
    requires Parse(t) == Some([expected[i]]) && Observe(chip, t) == chip
    ensures Parse(trace + t) == Some(expected[..i + 1]) && Observe(chip, trace + t) == chip
  {
    ObserveAppend(chip, trace, t);
    ParseAppend(trace, t);
    TakeOneMore(expected, i);
  }

  /** `DateTime()`: call the seven getters in order and collect their values in a list. */
  method ReadDateTime(chip: Chip, a: Accessor) returns (r: Run<seq<int>>)
    requires chip.Valid()
    ensures r.chip == chip == Observe(chip, r.trace)
    ensures Parse(r.trace) == Some(DateTimeReads(chip))
    ensures r.out == Reading(chip, a)
  {
    var trace: seq<Event> := [];
    var values: seq<int> := [];
    var expected := DateTimeReads(chip);
    var want := Reading(chip, a);
    assert Parse(trace) == Some(expected[..0]);
    for i := 0 to 7
      invariant values == want[..i]
      invariant Parse(trace) == Some(expected[..i]) && Observe(chip, trace) == chip
    {
      var g := Get(chip, Order[i], a);
      ReadStep(chip, expected, i, trace, g.trace);
      TakeOneMore(want, i);
      values := values + [g.out];
      trace := trace + g.trace;
    }
    assert expected[..7] == expected && want[..7] == want;
    r := Run(chip, values, trace);
  }

  /**
   `DateTime(dat)` for a non-empty list: pass `dat[0]` … `dat[6]` to the
   accessors in order. A list shorter than seven raises `IndexError` after
   the accessors it did reach.
   */
  method WriteDateTime(chip: Chip, xs: seq<int>, a: Accessor) returns (r: Run<Reply>)
    requires chip.Valid()
    ensures r.chip.Valid() && r.chip == Observe(chip, r.trace)
    ensures Parse(r.trace) == Some(DateTimeWrites(chip, xs, if |xs| < 7 then |xs| else 7, a))
    ensures |xs| < 7 ==> r.out == IndexError && r.chip == Apply(chip, xs, |xs|, a)
    ensures |xs| >= 7 ==> r.out == NoValue && r.chip == Apply(chip, xs, 7, a)
  {
    var trace: seq<Event> := [];
    assert Parse(trace) == Some([]);
    var n := if |xs| < 7 then |xs| else 7;
    var c := chip;
    for i := 0 to n
      invariant c.Valid() && c == Apply(chip, xs, i, a)
      invariant Parse(trace) == Some(DateTimeWrites(chip, xs, i, a)) && Observe(chip, trace) == c
    {
      var s := WriteField(chip, xs, i, a, trace);
      c := s.chip;
      trace := trace + s.trace;
    }
    r := Run(c, if |xs| < 7 then IndexError else NoValue, trace);
  }

  /** A trace with the transactions `Access` promises has the transactions `AccessTxs` lists. */
  lemma AccessTrace(c: Chip, f: Field, arg: Option<int>, a: Accessor, t: seq<Event>)
    requires c.Valid()
    requires Sets(a, arg) ==> Parse(t) == Some([WriteTx(RegWp, 0), WriteTx(Reg(f), Encode(f, arg.value)), WriteTx(RegWp, WpBit)])
    requires !Sets(a, arg) ==> Parse(t) == Some([ReadTx(Reg(f) + 1, c.regs[Reg(f)])])
    ensures Parse(t) == Some(AccessTxs(c, f, arg, a))
  {
    FieldReg(f);
  }

  /**
   `DateTime(dat)`'s accessor call for field `i`, after the calls before it:
   it extends the trace by that call's transactions and leaves the chip as
   `Apply` says.
   */
  method WriteField(chip: Chip, xs: seq<int>, i: nat, a: Accessor, trace: seq<Event>) returns (r: Run<Option<int>>)
    requires chip.Valid() && i < |xs| && i < 7
    requires Parse(trace) == Some(DateTimeWrites(chip, xs, i, a))
    requires Observe(chip, trace) == Apply(chip, xs, i, a)
    ensures r.chip.Valid() && r.chip == Apply(chip, xs, i + 1, a)
    ensures Parse(trace + r.trace) == Some(DateTimeWrites(chip, xs, i + 1, a))
    ensures Observe(chip, trace + r.trace) == r.chip
  {
    var c := Apply(chip, xs, i, a);
    r := Access(c, Order[i], Some(xs[i]), a);
    AccessTrace(c, Order[i], Some(xs[i]), a, r.trace);
    ObserveAppend(chip, trace, r.trace);
    ParseAppend(trace, r.trace);
  }

  /** `DateTime(dat)`: with no list, or an empty one, read all seven fields; otherwise set them from the list. */
  method DateTime(chip: Chip, dat: Option<seq<int>>, a: Accessor) returns (r: Run<Reply>)
    requires chip.Valid()
    ensures r.chip.Valid() && r.chip == Observe(chip, r.trace)
    ensures dat.None? || dat.value == [] ==> Parse(r.trace) == Some(DateTimeReads(chip))
    ensures dat.Some? && dat.value != [] ==>
      Parse(r.trace) == Some(DateTimeWrites(chip, dat.value, if |dat.value| < 7 then |dat.value| else 7, a))
    ensures dat.None? || dat.value == [] ==> r.chip == chip && r.out == Values(Reading(chip, a))
    ensures dat.Some? && 0 < |dat.value| < 7 ==> r.out == IndexError && r.chip == Apply(chip, dat.value, |dat.value|, a)
    ensures dat.Some? && |dat.value| >= 7 ==> r.out == NoValue && r.chip == Apply(chip, dat.value, 7, a)
  {
    if dat.None? || dat.value == [] {
      var g := ReadDateTime(chip, a);
      r := Run(g.chip, Values(g.out), g.trace);
    } else {
      r := WriteDateTime(chip, dat.value, a);
    }
  }

  /** After `DateTime`'s first `n` accessors, field `i` holds the stored `dat[i]` if it was reached and set, and its old byte otherwise. */
  lemma {:induction false} ApplyField(c: Chip, dat: seq<int>, n: nat, i: nat, a: Accessor)
    requires c.Valid() && n <= |dat| && n <= 7 && i < 7
    ensures Apply(c, dat, n, a).regs[Reg(Order[i])] ==
      if i < n && Sets(a, Some(dat[i])) then Encode(Order[i], dat[i]) else c.regs[Reg(Order[i])]
    decreases n
  {
    if n > 0 {
      ApplyField(c, dat, n - 1, i, a);
      var p := Apply(c, dat, n - 1, a);
      var f, g := Order[n - 1], Order[i];
      assert Apply(c, dat, n, a) == if Sets(a, Some(dat[n - 1])) then Store(p, f, dat[n - 1]) else p;
      if Sets(a, Some(dat[n - 1])) {
        if n - 1 == i {
          StoreHits(p, f, dat[n - 1]);
        } else {
          OrderDistinct(n - 1, i);
          StoreKeepsOthers(p, f, g, dat[n - 1]);
        }
      }
    }
  }

  /** `DateTime` visits seven different fields. */
  lemma OrderDistinct(i: nat, j: nat)
    requires i < 7 && j < 7 && i != j
    ensures Order[i] != Order[j]
  {
  }

  /** Storing a field puts its encoded value in the field's register. */
  lemma StoreHits(c: Chip, f: Field, v: int)
    requires c.Valid()
    ensures Store(c, f, v).regs[Reg(f)] == Encode(f, v)
  {
    FieldReg(f);
  }

  /** Setting all seven fields and reading them back gives the values reduced by their moduli, provided every value took the setter branch. */
  lemma DateTimeRoundTrip(c: Chip, dat: seq<int>, a: Accessor)
    requires c.Valid() && |dat| >= 7
    requires forall i :: 0 <= i < 7 ==> Sets(a, Some(dat[i]))
    ensures Reading(Apply(c, dat, 7, a), a) == seq(7, i requires 0 <= i < 7 => Expected(Order[i], dat[i]))
  {
    var d := Apply(c, dat, 7, a);
    forall i | 0 <= i < 7
      ensures Reading(d, a)[i] == Expected(Order[i], dat[i])
    {
      ApplyField(c, dat, 7, i, a);
      FieldRoundTrip(a, Order[i], dat[i]);
    }
  }

  /** Each value of `dat` is below its field's modulus (the year within 2000-2099), so it reads back as it is. */
  lemma ValuesInRange(dat: seq<int>)
    requires |dat| == 7 && 2000 <= dat[0] <= 2099
    requires forall i :: 1 <= i < 7 ==> 0 <= dat[i] < Modulus(Order[i])
    ensures seq(7, i requires 0 <= i < 7 => Expected(Order[i], dat[i])) == dat
  {
    var want := seq(7, i requires 0 <= i < 7 => Expected(Order[i], dat[i]));
    DivModUnique(dat[0], 100, 20, dat[0] - 2000);
    forall i | 1 <= i < 7
      ensures want[i] == dat[i]
    {
      ExpectedBelow(Order[i], dat[i]);
    }
  }

  /** The demonstration in the driver's main block: setting 2022-03-25, weekday 5, 18:03:45 reads back unchanged. */
  lemma DemoDateReadsBack(c: Chip, dat: seq<int>, a: Accessor)
    requires c.Valid() && dat == [2022, 3, 25, 5, 18, 3, 45]
    ensures Reading(Apply(c, dat, 7, a), a) == dat
  {
    InRangeReadsBack(c, dat, a);
  }

  /** A full list of in-range values, each of which takes the setter branch, reads back unchanged after `DateTime(dat)`. */
  lemma InRangeReadsBack(c: Chip, dat: seq<int>, a: Accessor)
    requires c.Valid() && |dat| == 7 && 2000 <= dat[0] <= 2099
    requires forall i :: 1 <= i < 7 ==> 0 <= dat[i] < Modulus(Order[i])
    requires forall i :: 0 <= i < 7 ==> Sets(a, Some(dat[i]))
    ensures Reading(Apply(c, dat, 7, a), a) == dat
  {
    DateTimeRoundTrip(c, dat, a);
    ValuesInRange(dat);
  }

  /** `DateTime` as written cannot set midnight: zeros for hour, minute and second leave those registers as they were. */
  lemma MidnightIsNotWritten(c: Chip, dat: seq<int>)
    requires c.Valid() && dat == [2022, 3, 25, 5, 0, 0, 0]
    ensures Apply(c, dat, 7, AsWritten).regs[RegHour] == c.regs[RegHour]
    ensures Apply(c, dat, 7, AsWritten).regs[RegMinute] == c.regs[RegMinute]
    ensures Apply(c, dat, 7, AsWritten).regs[RegSecond] == c.regs[RegSecond]
  {
    ApplyField(c, dat, 7, 4, AsWritten);
    ApplyField(c, dat, 7, 5, AsWritten);
    ApplyField(c, dat, 7, 6, AsWritten);
  }

  /** With the corrected accessors, `DateTime` sets midnight like any other time, and it reads back. */
  lemma MidnightIsWritten(c: Chip, dat: seq<int>)
    requires c.Valid() && dat == [2022, 3, 25, 5, 0, 0, 0]
    ensures Reading(Apply(c, dat, 7, Corrected), Corrected) == dat
  {
    InRangeReadsBack(c, dat, Corrected);
  }

  // ---------------------------------------------------------------------------
  // The seconds register and the clock-halt bit

  /**
   The seconds register holds the clock-halt flag in bit 7 and the BCD seconds
   in bits 0-6. The getter as written decodes the whole byte and takes `% 60`,
   which does not remove the flag: a halted clock at 45 seconds (0xC5) reads 5.
   The corrected getter masks the flag and reads 45.
   */
  lemma HaltedSecondMisread()
    ensures Decode(AsWritten, Second, 0xC5) == 5
    ensures Decode(Corrected, Second, 0xC5) == 45
  {
    DivModUnique(0xC5, 16, 12, 5);
    DivModUnique(125, 60, 2, 5);
    AndLowBits(0xC5);
    DivModUnique(0xC5, 128, 1, 0x45);
    DivModUnique(0x45, 16, 4, 5);
  }

  /** With the clock-halt bit masked off, a halted and a running clock read the same seconds, which the getter as written reads too while the clock runs. */
  lemma SecondFixedIgnoresHalt(s: Byte)
    requires IsBcd(s) && s < 0x60
    ensures Decode(Corrected, Second, s) == Decode(Corrected, Second, s + 0x80) == HexToDec(s) == Decode(AsWritten, Second, s)
    ensures 0 <= Decode(Corrected, Second, s) < 60
  {
    HaltBitMasked(s);
    BcdSeconds(s);
  }

  /** Bytes that agree in bits 0-6 read the same seconds through the corrected getter, whatever their clock-halt bits. */
  lemma HaltKeepsSeconds(x: Byte, y: Byte)
    requires x % 128 == y % 128
    ensures Decode(Corrected, Second, x) == Decode(Corrected, Second, y)
  {
    AndLowBits(x);
    AndLowBits(y);
  }

  /** `stop()` followed by the corrected seconds getter reads the seconds the register held before the clock was halted. */
  method StopThenReadSecond(chip: Chip) returns (r: Run<int>)
    requires chip.Valid()
    ensures r.chip.Valid() && r.chip.regs[RegSecond] >= 0x80
    ensures r.chip == Observe(chip, r.trace)
    ensures r.out == Decode(Corrected, Second, chip.regs[RegSecond])
  {
    FieldReg(Second);
    assert RegSecond in chip.regs;
    var s := Stop(chip);
    assert RegSecond in s.chip.regs;
    var g := Get(s.chip, Second, Corrected);
    assert g.out == Decode(Corrected, Second, chip.regs[RegSecond]) by {
      HaltKeepsSeconds(chip.regs[RegSecond], s.chip.regs[RegSecond]);
    }
    assert Observe(chip, s.trace + g.trace) == g.chip by {
      ObserveAppend(chip, s.trace, g.trace);
    }
    r := Run(g.chip, g.out, s.trace + g.trace);
  }

  /** Masking with 0x7F removes the clock-halt bit and keeps a byte below 0x80 as it is. */
  lemma HaltBitMasked(s: Byte)
    requires s < 0x80
    ensures And(s, 0x7F) == s && And(s + 0x80, 0x7F) == s
  {
    AndLowBits(s);
    AndLowBits(s + 0x80);
    DivModUnique(s, 128, 0, s);
    DivModUnique(s + 0x80, 128, 1, s);
  }

  /** A BCD byte below 0x60 decodes to a number of seconds, which `% 60` leaves alone. */
  lemma BcdSeconds(s: Byte)
    requires IsBcd(s) && s < 0x60
    ensures 0 <= HexToDec(s) < 60 && Decode(AsWritten, Second, s) == HexToDec(s)
  {
    var d := HexToDec(s);
    assert Tens(s) <= 5;
    assert d == Tens(s) * 10 + Ones(s);
    DivModUnique(d, 60, 0, d);
  }

  // ---------------------------------------------------------------------------
  // RAM

  /** The write address of RAM slot `reg`: 31 two-byte slots from 0xC0, the slot number taken modulo 31. */
  function RamAddress(reg: int): (a: Byte)
    ensures a % 2 == 0 && RegRam <= a <= RegRam + 60
  {
    RegRam + (reg % 31) * 2
  }

  /** Slot numbers that agree modulo 31 address the same byte, and only those. */
  lemma RamSlots(a: int, b: int)
    ensures RamAddress(a) == RamAddress(b) <==> a % 31 == b % 31
  {
  }

  /** Slot `reg` and slot `reg + 31` are the same byte. */
  lemma RamAlias(reg: int)
    ensures RamAddress(reg + 31) == RamAddress(reg)
  {
    DivModUnique(reg + 31, 31, reg / 31 + 1, reg % 31);
  }

  /** No RAM slot overlaps a calendar register, the write-protect register or the trickle-charge register. */
  lemma RamIsNotCalendar(reg: int, f: Field)
    ensures RamAddress(reg) != Reg(f) && RamAddress(reg) != RegWp && RamAddress(reg) != RegCtrl
  {
  }

  /** `ram(reg, dat)`: with `dat` None, read slot `reg` at its read address; otherwise write `dat` to it through `wr`. */
  method Ram(chip: Chip, reg: int, dat: Option<int>) returns (r: Run<Option<Byte>>)
    requires chip.Valid()
    ensures r.chip.Valid() && r.chip == Observe(chip, r.trace)
    ensures dat.None? ==> Parse(r.trace) == Some([ReadTx(RamAddress(reg) + 1, chip.regs[RamAddress(reg)])])
    ensures dat.Some? ==> Parse(r.trace) == Some([WriteTx(RegWp, 0), WriteTx(RamAddress(reg), dat.value % 256), WriteTx(RegWp, WpBit)])
    ensures dat.None? ==> r.chip == chip && r.out == Some(chip.regs[RamAddress(reg)])
    ensures dat.Some? ==> r.out == None && r.chip.regs == chip.regs[RamAddress(reg) := dat.value % 256][RegWp := WpBit]
  {
    var a := RamAddress(reg);
    assert a % 256 == a && (a + 1) % 256 == a + 1 && Key(a + 1) == a && a != RegWp;
    if dat.None? {
      var t := GetReg(chip, RegRam + 1 + (reg % 31) * 2);
      r := Run(t.chip, Some(t.out), t.trace);
    } else {
      var w := Wr(chip, RegRam + (reg % 31) * 2, dat.value);
      r := Run(w.chip, None, w.trace);
    }
  }

  /** Writing a RAM slot and reading it back gives the low byte of what was written. */
  method RamWriteThenRead(chip: Chip, reg: int, dat: int) returns (r: Run<Option<Byte>>)
    requires chip.Valid()
    ensures r.out == Some(dat % 256)
  {
    var w := Ram(chip, reg, Some(dat));
    r := Ram(w.chip, reg, None);
  }
}
