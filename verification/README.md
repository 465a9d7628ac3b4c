# DS1302 real-time-clock driver, modelled in Dafny

This project models the CircuitPython driver for the DS1302 real-time clock. It also models the small menu-navigation state machine of the application that uses it. The driver talks to the chip over a three-wire bus (clock, bidirectional data, chip-select).

## The model in brief

- **Bits** — the arithmetic the driver does with Python's `>>`, `&` and `|`:
  - bit `i` of an integer;
  - a byte as eight bits, least-significant first;
  - AND and OR with a mask.
- **Bcd** — the packed binary-coded decimal codec `DecToHex` / `HexToDec`.
- **Bus** — the pins as a trace of events: chip-select high or low, the host driving or sampling a data bit, a clock edge.
  - `write_byte` and `read_byte` are modelled both as loops (as written) and as the trace they produce.
- **Frame** — an independent decoder from a trace to the transactions it contains. A transaction is one command byte and one data byte, written or read, between chip-select going high and going low. Every driver operation (`getReg`, `setReg`, `wr`, `start`, `stop`, the field accessors, `DateTime` and `ram`) is specified by the exact list of transactions this decoder finds in its trace.
- **Device** — the chip at the other end of the bus: a map from each even (write) command byte to the byte that register holds. Two datasheet behaviours are assumptions of this model, stated as definitions, because the driver relies on them without enforcing them:
  - a read at the odd address `a + 1` returns the byte held at `a`;
  - while bit 7 of the write-protect register (0x8E) is set, writes to every other register are ignored.
- **Registers** — `getReg`, `setReg`, `wr`, `start`, `stop`.
  - Each one takes the chip's state and returns the new state, its result, and the pin trace.
  - Its contract says which transactions the trace decodes to, and that the new state is the chip's reaction to that trace.
- **Calendar** — the seven field accessors `Second` … `Year`, `DateTime` and `ram`.
  - The accessors take an `Accessor` argument: `AsWritten` is the driver's code; `Corrected` is the driver with the two fixes listed under Findings.
  - Every property of the code as written is stated with `AsWritten`.
- **Menu** — `input_status` and the per-iteration window update of the application's main loop in `code.py`, as pure functions.

Python's `//` and `%` with a positive divisor agree with Dafny's `/` and `%`, so they are written directly. Python integers are unbounded like Dafny's. A byte sent over the bus is its argument modulo 256, because `write_byte` transmits only the eight low bits.

## Model

| member | source | states |
|---|---|---|
| Bcd.DecToHex | DS1302.py:40-41 | for 0 ≤ n ≤ 99 the encoding is a valid BCD byte whose high nibble is the tens digit and whose low nibble is the ones digit |
| Bcd.HexToDec | DS1302.py:44-45 | every byte decodes to 0..165; a valid BCD byte decodes to the two-digit number whose digits are its nibbles |
| Bcd.DecodeEncode | DS1302.py:40-45 | decoding the encoding of any 0 ≤ n ≤ 99 gives n back |
| Bcd.EncodeDecode | DS1302.py:40-45 | encoding the decoding of any valid BCD byte gives the byte back |
| Bcd.BcdBelowA0 | DS1302.py:40-41 | every valid BCD byte, so every encoding of 0..99, is below 0xA0 |
| Bcd.EncodeInjective | DS1302.py:40-41 | two different numbers in 0..99 never encode to the same byte |
| Bits.BitOf | DS1302.py:51 | `(x >> i) & 1` is the parity of `x` divided by `2^i` with floor division: the shift, then the low bit |
| Bits.And | DS1302.py:89 | the AND of two bytes is a byte whose bit i, for each of the eight bits, is set exactly when bit i is set in both `a` and `b` |
| Bits.AndLowBits | DS1302.py:89 | `t & 0x7f` is `t % 128`: bit 7 is cleared and bits 0-6 are kept |
| Bits.Or | DS1302.py:94 | the OR of two bytes is a byte whose bit i, for each of the eight bits, is set exactly when bit i is set in `a` or in `b` |
| Bits.OrHighBit | DS1302.py:94 | the OR of `t` with 0x80 is `t % 128 + 128`: bit 7 is set and bits 0-6 are kept |
| Bus.WriteByte | DS1302.py:48-53 | `write_byte(dat)` is 24 events, and the levels it drives, in order, are the low eight bits of `dat`, least-significant first |
| Bus.WriteByteLoop | DS1302.py:48-53 | the loop as written emits eight bit periods; period i drives `(dat >> i) & 1` and then pulses the clock high then low |
| Bus.WriteBytePeriods | DS1302.py:48-53 | bit period i of `write_byte(dat)` is exactly: drive bit i of dat, clock high, clock low |
| Bus.WriteByteBitOrder | DS1302.py:48-53 | `write_byte(0b10110010)` drives 0,1,0,0,1,1,0,1, least-significant bit first |
| Bus.ReadByte | DS1302.py:56-63 | `read_byte` returns the byte whose eight bits, least-significant first, are the levels the device presents, and its trace is 24 events |
| Bus.ReadByteLoop | DS1302.py:56-63 | the loop as written, accumulating with OR, returns a value below 256 whose bits, least-significant first, are the eight sampled levels; its trace is eight sample-then-clock periods |
| Bits.OrDisjoint | DS1302.py:60 | OR-ing `d` with `level << i`, where `d < 2^i`, adds the shifted level: the OR sets a bit that is still clear |
| Bus.ReadBytePeriods | DS1302.py:56-63 | bit period i of `read_byte` samples the i-th level the device presents and then pulses the clock |
| Bus.WriteThenReadByte | DS1302.py:48-63 | the eight levels `write_byte(dat)` drives, assembled as `read_byte` assembles them, give `dat % 256` |
| Frame.WriteFrame | DS1302.py:74-78 | the trace of `setReg(reg, dat)` decodes to exactly one write transaction of `reg % 256` and `dat % 256` |
| Frame.ReadFrame | DS1302.py:66-71 | the trace of `getReg(reg)` decodes to exactly one read transaction of `reg % 256` carrying the byte the device presented |
| Frame.ParseAppend | DS1302.py:81-84 | the transactions of two traces run one after the other are those of the first followed by those of the second |
| Device.WriteThenRead | DS1302.py:97-101 | the datasheet assumption the getters rely on: after a write at even address a is accepted, a read at a + 1 returns the written byte |
| Device.LockedIgnoresWrites | DS1302.py:81-84 | while write protection is on, a write to any register other than 0x8E leaves the chip unchanged; this is why `wr` unlocks first |
| Device.ObserveAppend | DS1302.py:81-84 | the chip's reaction to two traces in sequence is its reaction to the first followed by its reaction to the second |
| Registers.GetReg | DS1302.py:66-71 | `getReg(reg)` returns the byte the chip holds at the register addressed by `reg % 256`, changes nothing, and its trace is one read transaction |
| Registers.SetReg | DS1302.py:74-78 | `setReg(reg, dat)`'s trace is one write transaction of `reg % 256`, `dat % 256`, and the chip's new state is its acceptance of that write |
| Registers.Wr | DS1302.py:81-84 | `wr(reg, dat)` is exactly the writes (0x8E, 0), (reg, dat), (0x8E, 0x80) in order; the chip ends locked; an even reg other than 0x8E now holds `dat % 256`, whatever the lock state before; every other register is unchanged |
| Registers.Stop | DS1302.py:92-94 | `stop()` reads 0x81 then writes the old byte OR 0x80 to 0x80 through `wr`: bit 7 of the seconds register ends set, bits 0-6 unchanged, no other register but 0x8E touched |
| Registers.Start | DS1302.py:87-89 | `start()` reads 0x81 then writes `old & 0x7F` to 0x80 through `wr`: bit 7 ends clear, bits 0-6 unchanged, no other register but 0x8E touched |
| Registers.StopThenStart | DS1302.py:87-94 | `stop()` then `start()` leaves the seconds register with bit 7 clear and bits 0-6 as they were; a running clock's registers come back exactly, apart from the write-protect lock |
| Calendar.FieldReg | DS1302.py:6-15 | each calendar register is an even address other than 0x8E, read at the address one above it; each field's modulus is between 1 and 100 |
| Calendar.RegInjective | DS1302.py:6-12 | the seven fields are kept in seven different registers |
| Calendar.EncodeIsBcd | DS1302.py:97-143 | for every argument, negative included, the byte a setter writes is valid BCD and decodes to the argument modulo the field's modulus |
| Calendar.FieldRoundTrip | DS1302.py:97-143 | a getter reading the byte a setter wrote returns the argument modulo 60/60/24/8/32/13/100; the year getter adds 2000 |
| Calendar.ReadBackRange | DS1302.py:97-143 | what a getter returns for the byte a setter wrote is below the field's modulus, and a year reads back as 2000-2099, through either accessor |
| Calendar.Decode | DS1302.py:101-141 | a getter's value: the year is `2000 +` the decoded byte (2000..2165) and the other fields are 0..165; a valid BCD byte gives its tens and ones digits; the seconds as written are below 60, and the corrected seconds are the decoding of the byte with bit 7 cleared |
| Calendar.Encode | DS1302.py:99-143 | a setter's byte is valid BCD and decodes to the argument reduced modulo the field's modulus (60, 60, 24, 8, 32, 13, 100), for every integer argument |
| Calendar.Get | DS1302.py:97-143 | a getter reads its field's register at the address one above it, decodes the byte (`+ 2000` for the year; for seconds `% 60` as written, bit 7 masked off when corrected), and changes nothing |
| Calendar.Set | DS1302.py:97-143 | a setter writes `DecToHex(v % m)` to its field's even register through `wr`'s three writes; only that register and 0x8E change |
| Calendar.Access | DS1302.py:97-143 | as written, a truthy argument sets and returns nothing, while `None` or `0` takes the getter branch, is one read at the field's odd read address with no write, returns the decoded field, so `Hour(0)` changes nothing on the chip; the corrected accessor sets whenever an argument is passed |
| Calendar.AccessTxs | DS1302.py:97-143 | an accessor call in the setter branch issues three transactions, all writes; in the getter branch it issues one, a read |
| Calendar.SetThenGet | DS1302.py:111-115 | through the accessor as written, setting a non-zero v and reading back returns v reduced by the modulus; setting 0 returns the old value and leaves the chip unchanged |
| Calendar.SetThenGetFixed | DS1302.py:97-143 | through the corrected accessor, setting any v, zero included, and reading back returns v reduced by the modulus |
| Calendar.StoreKeepsOthers | DS1302.py:97-143 | setting one field leaves every other field's register as it was |
| Calendar.ReadDateTime | DS1302.py:146-148 | `DateTime()` performs exactly seven reads, each at a field's read address, in the order year, month, day, weekday, hour, minute, second; it returns the decoded fields in that order and changes nothing |
| Calendar.DateTimeReads | DS1302.py:148 | the transactions of `DateTime()` are seven reads, the i-th addressing the i-th field of year … second at its odd read address |
| Calendar.WriteDateTime | DS1302.py:149-156 | `DateTime(dat)`'s trace is the transactions of the accessors called with `dat[0]` … `dat[6]` in the order year … second, each against the chip the earlier calls left; a list shorter than seven raises `IndexError` after the calls it reached |
| Calendar.WriteField | DS1302.py:150-156 | one accessor call of `DateTime(dat)`, made after the calls before it, appends exactly that call's transactions to the trace and leaves the chip with the first `i + 1` values applied |
| Calendar.SetterOrder | DS1302.py:150-156 | when every value takes the setter branch, `DateTime(dat)` is `wr`'s three writes for year, month, day, weekday, hour, minute and second, in that order, each writing the encoded value |
| Calendar.DateTime | DS1302.py:146-156 | `None` or an empty list performs the seven reads in order and returns the fields; a non-empty list performs the accessor calls in order, or raises `IndexError` part-way |
| Calendar.ApplyField | DS1302.py:149-156 | after `DateTime(dat)`, each field holds the encoded `dat[i]` if the call reached it and took the setter branch, and its old byte otherwise |
| Calendar.DateTimeRoundTrip | DS1302.py:146-156 | setting all seven fields with values that take the setter branch, then reading them, returns each value reduced by its field's modulus |
| Calendar.DemoDateReadsBack | DS1302.py:173-179 | setting 2022-03-25, weekday 5, 18:03:45, as the driver's demonstration does, reads back unchanged |
| Calendar.MidnightIsNotWritten | DS1302.py:149-156 | as written, `DateTime([2022, 3, 25, 5, 0, 0, 0])` leaves the hour, minute and second registers as they were |
| Calendar.MidnightIsWritten | DS1302.py:149-156 | with the corrected accessors, the same list sets midnight and reads back unchanged |
| Calendar.HaltedSecondMisread | DS1302.py:97-101 | as written, a halted clock at 45 seconds (register 0xC5) reads as 5 seconds; the corrected getter reads 45 |
| Calendar.SecondFixedIgnoresHalt | DS1302.py:97-101 | the corrected seconds getter reads the same value whether or not the halt bit is set; for a running clock it agrees with the getter as written |
| Calendar.StopThenReadSecond | DS1302.py:92-101 | after `stop()`, the corrected seconds getter still returns the seconds held before the clock was halted |
| Calendar.RamAddress | DS1302.py:159-163 | a RAM slot's write address is even and lies in 0xC0..0xFC, whatever `reg` is, negative included |
| Calendar.RamSlots | DS1302.py:159-163 | two slot numbers address the same RAM byte exactly when they agree modulo 31 |
| Calendar.RamAlias | DS1302.py:159-163 | slots `reg` and `reg + 31` are the same byte |
| Calendar.RamIsNotCalendar | DS1302.py:6-15 | no RAM slot overlaps a calendar register, the write-protect register or the trickle-charge register |
| Calendar.Ram | DS1302.py:159-163 | `ram(reg)` is one read at the odd address one above slot `reg % 31`, returns that slot's byte and changes nothing; `ram(reg, dat)` is `wr`'s three writes putting `dat % 256` in the slot, for every dat including 0 |
| Calendar.RamWriteThenRead | DS1302.py:159-163 | writing a RAM slot and reading it back returns the low byte of what was written |
| Menu.Any | code.py:112 | Python's `any` holds exactly when some element of the list is true |
| Menu.InputStatus | code.py:111-112 | `input_status()` is true exactly when none of forward, back and switch is pressed |
| Menu.Step | code.py:213-216 | one navigation step from a window in 0..2 stays in 0..2 |
| Menu.StepIsModular | code.py:206-216 | forward moves to (w + 1) mod 3, wrapping 2 to 0, and wins when both buttons are pressed; back alone moves to (w - 1) mod 3, wrapping 0 to 2; with neither, the window is unchanged |
| Menu.ForwardBackInverse | code.py:213-216 | forward then back returns to the starting window, and so does back then forward |
| Menu.NavigateInRange | code.py:206-216 | starting from window 0..2, any sequence of button presses keeps the window in 0..2 |
| Menu.NavigateIsNetModular | code.py:206-216 | after any sequence of presses the window is the start plus the net number of forward and back steps, modulo 3 |

## Left out

- Pin objects and their setup: `digitalio`, `board`, the constructor and pin directions (DS1302.py:26-37, 49, 58). Pins appear only as events in a trace.
- Electrical timing and the chip's edge semantics. The driver has no delays. In `Bus.ReadByte` and `Bus.ReadByteLoop` the levels the device presents are an input; in `Registers.GetReg` and everything built on it, they come from the device model, as the eight bits of the byte `chip.Respond(reg % 256)`.
- The chip's own timekeeping: in this model registers change only through bus writes.
- The datasheet behaviours the driver relies on (read at `a + 1`, the write-protect bit). They are assumptions of the device model, stated as definitions, not derived.
- The trickle-charge register at DS1302.py:14 (0x90): no driver operation uses it. The model keeps the constant only so that `Calendar.RamIsNotCalendar` can state that no RAM slot overlaps it.
- The `__main__` block's construction, `print` and `sleep` loop (DS1302.py:168-183). Only its setting of the demonstration date is modelled.
- A `DateTime` list whose elements are not integers, and Python's arbitrary-object truthiness. Arguments are modelled as optional integers.
- Everything in code.py except `input_status` and the window update: the display, the voltage and sine computations (floating point), `to_sleep` and its alarms, the wait for button release (code.py:218-219), and the infinite loop itself. The main loop is modelled only as a sequence of per-iteration button readings.
- button_test.py: pin polling and printing, with no logic.

## Findings

| source | as written | input that shows it | evidently intended | confidence | as-written member | corrected member |
|---|---|---|---|---|---|---|
| DS1302.py:97-143 | each accessor chooses between getter and setter with Python truthiness (`if second:`, `if not hour:`), so an argument of 0 takes the getter branch and writes nothing | `Hour(0)`, or `DateTime([2022, 3, 25, 5, 0, 0, 0])`, leaves the hour, minute and second registers unchanged: midnight cannot be set | set whenever an argument is passed, as `ram` does with `dat == None` | high; not executed | Calendar.MidnightIsNotWritten | Calendar.MidnightIsWritten |
| DS1302.py:101 | the seconds getter decodes the whole register and applies `% 60`, which does not remove the clock-halt flag in bit 7 | after `stop()` at 45 seconds the register holds 0xC5, and `Second()` returns 5 instead of 45 | mask bit 7 (`& 0x7F`) before decoding, as `start()` does | medium; not executed | Calendar.HaltedSecondMisread | Calendar.SecondFixedIgnoresHalt |

The corrected accessors are the `Corrected` case of `Calendar.Accessor`. They are used by:
- `Calendar.SetThenGetFixed`;
- `Calendar.StopThenReadSecond`;
- `DateTime` and the lemmas about it, which take the accessor as a parameter.

`Calendar.SetThenGet` states the first finding for a single field, next to its corrected counterpart `Calendar.SetThenGetFixed`.
