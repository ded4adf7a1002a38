# NES APU register-trace decoder, modelled in Dafny

`nesMusicTranslate` reads a trace of register writes made to the NES Audio
Processing Unit (APU). Each write is a `(cycle, register, value)` triple.
The program keeps the writes to registers below 0x4010 and replays them in
order against a 32-slot shadow copy of the registers (`prevVals`). For each
write it reports:

- whether the value differs from the one stored before ("Old: X" or "No change");
- the synthesis parameters the write sets: duty and envelope, sweep, timer
  period, length index, or a bare channel/register placeholder.

The model has four modules:

- `Events` (`events.dfy`): the `Event` triple, with explicit 16- and 32-bit
  ranges. It holds the filter as a function (`AudioEvents`) and the reading
  loop that appends to the event list as a method (`CollectAudioEvents`).
- `Decoders` (`decode.dfy`): the `switch` on the register, as pure
  functions that return the decoded integer fields. Shifts and masks are
  written as division and remainder by powers of two. All operands are
  unsigned, so this is exact.
- `Bank` (`bank.dfy`): `prevVals` as the class `RegisterBank`. It holds a
  32-element `array` that starts zeroed. `Step` does one iteration of the
  event loop: it reads the slot `reg % 0x20` to decide the change flag,
  overwrites the slot, then decodes with the updated bank. `Write` and
  `Describe` are the value-level specification of `Step`.
- `Translate` (`translate.dfy`): the whole pipeline. `Trace` is the
  specification of the list of reports. `Run` and `TranslateTrace` are the
  loops of `main`, proved equal to it. The lemmas cover which value each
  slot holds, the change flag, and order independence of the timer period.

The source does not mask the written value to 8 bits (`data` is a
`uint16_t`). The model keeps the full 16-bit range. Field bounds that hold
only for byte values take `data < 256` as a hypothesis.

The source holds the period in a `float`. It is always an integer of at most
`7 * 256 + 0xffff`, which a `float` represents exactly, so the model uses an
integer.

The filter has no lower bound. A write below the APU range is kept, and it
shares a shadow slot with an APU register: 0x2003 and 0x4003 both use slot
3. `LowAddressAliasesSlot` shows that such a write changes the period
reported by a later 0x4002 write. The model keeps this behaviour as written.

## Model

| member | source | states |
|---|---|---|
| `Events.AudioEvents` | nesMusicTranslate.cpp:44-46 | the kept events are all writes to registers below 0x4010, and there are no more of them than input events |
| `Events.CollectAudioEvents` | nesMusicTranslate.cpp:44-47 | the appending loop builds exactly the filtered list `AudioEvents(parsed)` |
| `Events.AudioEventsMembership` | nesMusicTranslate.cpp:44-46 | an event is kept if and only if it is in the input and its register is below 0x4010 |
| `Events.AudioEventsAppend` | nesMusicTranslate.cpp:44-46 | filtering distributes over concatenation, so the filter keeps input order and only drops events |
| `Events.AudioEventsIdentity` | nesMusicTranslate.cpp:44-46 | the filter returns its input unchanged if and only if every event is an audio write |
| `Decoders.DecodeDutyEnvelope` | nesMusicTranslate.cpp:66 | loop and constant-volume flags are single bits and volume is below 16; duty is below 4 for byte data; the four fields rebuild the written value exactly |
| `Decoders.DecodeSweep` | nesMusicTranslate.cpp:69-72 | enable is the value's bits from 7 up; period/direction/shift are present if and only if bit 7 is set, and then lie in 1..8, 0..1, 0..7 and rebuild bits 0-6; for byte data this is if and only if enable is 1 |
| `Decoders.Period` | nesMusicTranslate.cpp:75-80 | the period `((high & 7) << 8) + low` lies between `low` and `low + 0x700`; for a byte-sized low half it is below 2048, its low byte is `low` and its high bits are `high & 7` |
| `Decoders.Decode` | nesMusicTranslate.cpp:63-124 | the description is empty if and only if the register has no case (everything outside 0x4000-0x400f, and 0x4009, 0x400d); 0x4000/0x4004 get the duty/envelope decoder and 0x4001/0x4005 the sweep decoder of square 1/2; 0x4002/0x4006 report `Period(bank[3 or 7], data)`; 0x4003/0x4007 report length index `data >> 3` (stated as `8*length <= data < 8*length + 8`) and `Period(data, bank[2 or 6])`; the triangle and noise registers report their channel and their offset from 0x4008 or 0x400c |
| `Decoders.DecodeBounds` | nesMusicTranslate.cpp:63-103 | for byte data and byte-sized stored low halves, every decoded field fits its APU width (duty < 4, volume < 16, enable <= 1, length < 32, period < 2048) |
| `Bank.Slot` | nesMusicTranslate.cpp:53 | the slot index is below 32 and congruent to the register modulo 32, so every register (also those below 0x4000) shares its slot with the registers 32 apart; registers 0x4000-0x401f each get slot `reg - 0x4000` |
| `Bank.Zeros` | nesMusicTranslate.cpp:49-50 | the initial bank has 32 slots, all zero |
| `Bank.Write` | nesMusicTranslate.cpp:58 | after a write, the event's slot holds its data and the other 31 slots are unchanged |
| `Bank.Describe` | nesMusicTranslate.cpp:53-63 | the report says "No change" if and only if the slot held the data before the write, otherwise it gives that differing old value; the decoder sees the bank after the write |
| `Bank.RegisterBank.constructor` | nesMusicTranslate.cpp:49-50 | the new 32-slot array is all zero |
| `Bank.RegisterBank.Step` | nesMusicTranslate.cpp:51-124 | the new bank is `Write(old bank, e)` and the report is `Describe(old bank, e)`, so the flag is read before the overwrite |
| `Translate.Trace` | nesMusicTranslate.cpp:51-126 | the event loop yields exactly one report per event |
| `Translate.Run` | nesMusicTranslate.cpp:49-126 | the loop over a fresh zeroed bank produces exactly `Trace(Zeros(), events)` |
| `Translate.TranslateTrace` | nesMusicTranslate.cpp:44-126 | main's reports are `Trace(Zeros(), AudioEvents(parsed))` |
| `Translate.ReplaySnoc` | nesMusicTranslate.cpp:58 | replaying one more event applies one more write to the replayed bank |
| `Translate.ReplayHoldsLastWrite` | nesMusicTranslate.cpp:58 | after any sequence of events, each slot holds the data of the last event for that slot, or its initial value if there is none |
| `Translate.TraceAt` | nesMusicTranslate.cpp:51-63 | the i-th report is computed from the bank that the first i events leave behind |
| `Translate.ChangeFlag` | nesMusicTranslate.cpp:53-58 | from a zeroed bank, event i is "No change" if and only if the last earlier write to its slot (or 0) equals its data; otherwise that earlier value is reported |
| `Translate.RepeatIsNoChange` | nesMusicTranslate.cpp:53-58 | the same register and value written twice in a row is "No change" the second time |
| `Translate.PeriodOrderIndependent` | nesMusicTranslate.cpp:74-83 | for either square channel, writing the low and high timer bytes in either order gives the same period `((high & 7) << 8) + low` at the second write |
| `Translate.PeriodExample` | nesMusicTranslate.cpp:74-83 | low 0x34 and high 0x03 give period 0x334 in either order, with length index 0 on the trigger |
| `Translate.LowAddressAliasesSlot` | nesMusicTranslate.cpp:44-75 | a write to 0x2003 passes the filter and its value becomes the high bits of the next 0x4002 period |
| `Translate.ShortTraceExample` | nesMusicTranslate.cpp:44-103 | a trace 0x4000=0x80, 0x4002=0x10, 0x4015=0x0f, 0x4003=0x03 yields three changed reports: duty 2, period 0x10, then trigger length 0 with period 0x310 |

## Left out

- Command-line handling and opening the input file (nesMusicTranslate.cpp:22-32): I/O.
- Line reading and `std::stringstream` number parsing (nesMusicTranslate.cpp:34-43): library text I/O. A failed parse leaves `r` and `d` uninitialised, which has no stateable meaning. The model's input is an already-parsed sequence of triples.
- The frequency `cpuFreq / (16.0 * (wavelength + 1))` (nesMusicTranslate.cpp:60-61, 76, 81, 96, 101): floating point. Reports carry the integer period it is computed from.
- Text rendering with `std::format` and `std::cout` (nesMusicTranslate.cpp:52-57, 66-122, 125): output formatting. Reports carry the decoded integer fields and the old value. The echoed cycle, register and value are the event's own fields.
- The `lengths` table (nesMusicTranslate.cpp:17): it is never used, and its declaration has no type.
- Binary output: the program writes only console text. It emits no packed records, keeps no set of observed periods and prints no end-of-run summary, so the model has none of these.
