# Apple Juice learning board — digital logic in Dafny

The Apple Juice board is a hobby circuit. A 555 timer clocks a CD4017 ring
counter, whose one-hot output drives a row of LEDs. The same clock drives a
pair of CD4026 decade counters, which show a two-digit count on seven-segment
displays. The simulator models each chip as a C++ class. The window (or, in
the console versions, the terminal) switches the board on and off with
ENTER, resets it with R, and clears the displays with a button. A worker
thread clocks the chips once per 555 period.

This project models the integer state machines of that simulator and proves
what they do:

- **CD4026 decade counter** (`Chip4026`, `Unidade`, `Dezena`), in
  `decade_counter.dfy`. A digit 0..9 plus a carry flag that only the 9 → 0
  add raises. `addOnCarry` advances only when a carry arrives.
- **CD4017 ring counter** (`Chip4017`). A one-hot word over `LimitReset`
  slots, where `LimitReset` lies in 1..10. The repository has three
  different versions of it, each modelled as written:
  - `ring_counter.dfy`: start at `1 << (LimitReset-1)`, shift right, and
    wrap when the word becomes 0. The copies in apple-juice.cpp (339-374),
    janela.cpp (56-83), teste.cpp (10-39), testes/teste.cpp (56-85) and
    testes/testes.cpp (121-145) behave the same, so one module covers all
    five.
  - `ring_counter_wrap_on_one.dfy` (testes/teste-appleJuice.cpp): the same
    start, but the wrap happens when the word is 1.
  - `ring_counter_left.dfy` (appleJuice.cpp): start at 1, shift left, and
    wrap back to 1 from the top slot.
- **The Apple Juice board** (`BoardAppleJuice::run` in apple-juice.cpp), in
  `board.dfy`. One clock is shift, then `unidade.add()`, then
  `dezena.addOnCarry(unidade.getCarryOut())`. The model also covers the
  powered and unpowered passes of the worker loop, the two reset commands,
  the power toggle and the LED read.
- **The LED-only boards** (janela.cpp, teste.cpp, testes/teste.cpp), in
  `lamp_board.dfy`. One ring counter that shifts once per worker pass while
  the board is switched on.
- **The seven-segment decoder** (the `switch` of `DrawSevenSegment`), in
  `seven_segment.dfy`. It maps a display value to the segments a..g that it
  lights.
- **The chip unit tests** (`testarChip4026`, `testarChip4017` in
  testes/testes.cpp), in `chip_tests.dfy`. Each test is a method that drives
  the models the way the test drives the classes and returns the values the
  test checks.

Each chip is a `class` whose methods update its fields (`out`, `carryOut`,
`limitReset`). The methods are specified by functions on values:

- `RingCounter.NextMask` and `DecadeCounter.Next` give one step.
- `RingCounter.MaskAfter`, `DecadeCounter.AfterAdds` and
  `AppleJuiceBoard.AfterCycles` give many steps.

The lemmas prove the properties of those functions: one-hotness, the period,
the digit range and the count modulo 100. A constructor that throws
`std::invalid_argument` is modelled by a `Build` method. It returns
`Errors.Result`, which is `InvalidArgument` exactly when the C++ constructor
throws. The Dafny constructors take only arguments inside the range.

Masks are unbounded naturals. Every reachable mask is below 2^10, so the
32-bit width of `uint32_t`/`unsigned` never comes into play. `1u << k` is
`Bits.Pow2(k)`, `>>= 1` is `/ 2` and `<< 1` is `* 2`.

## Model

| member | source | states |
|---|---|---|
| RingCounter.InitialMask | apple-juice.cpp:362-364 | the reset word has exactly one bit set, in slot LimitReset-1 |
| RingCounter.NextMaskAt | apple-juice.cpp:354-359 | a shift moves the bit from slot j to slot j-1, and from slot 0 back to slot LimitReset-1 |
| RingCounter.NextMaskOneHot | apple-juice.cpp:354-359 | a shift keeps exactly one bit set, below slot LimitReset |
| RingCounter.MaskAfterAt | apple-juice.cpp:354-359 | k shifts from slot j leave the bit in slot (j - k) mod LimitReset |
| RingCounter.MaskPeriod | janela.cpp:66-71 | LimitReset consecutive shifts bring any valid word back to itself |
| RingCounter.MaskReturns | teste.cpp:18-24 | k shifts bring a valid word back to itself if and only if k is a multiple of LimitReset |
| RingCounter.MaskAfterReset | testes/teste.cpp:64-75 | k shifts after a reset leave the bit in slot (LimitReset-1-k) mod LimitReset, still one-hot |
| RingCounter.Chip4017.constructor | apple-juice.cpp:345-351 | an in-range LimitReset gives a counter holding LimitReset and the reset word |
| RingCounter.Chip4017.Shift | apple-juice.cpp:354-359 | the word becomes the next mask, the invariant holds, and LimitReset does not change |
| RingCounter.Chip4017.Reset | apple-juice.cpp:362-364 | the word becomes the reset word whatever it was, so a second reset changes nothing; LimitReset does not change |
| RingCounter.Chip4017.GetOut | apple-juice.cpp:367-369 | returns the word, which is one-hot below LimitReset |
| RingCounter.Chip4017.GetLimitReset | janela.cpp:78 | returns the constructor argument, which lies in 1..10 |
| RingCounter.Build | testes/testes.cpp:126-130 | construction fails exactly when LimitReset is outside 1..10; otherwise the counter starts at the reset word |
| RingCounterWrapOnOne.SameAsWrapOnZero | testes/teste-appleJuice.cpp:51-57 | the wrap-on-one shift and the wrap-on-zero shift agree on every word except 0 |
| RingCounterWrapOnOne.NextMaskOneHot | testes/teste-appleJuice.cpp:51-57 | a shift keeps exactly one bit set, below slot LimitReset |
| RingCounterWrapOnOne.MaskAfterSame | testes/teste-appleJuice.cpp:51-57 | from a valid word, any number of shifts gives the same word as the wrap-on-zero counter, and it stays one-hot |
| RingCounterWrapOnOne.MaskReturns | testes/teste-appleJuice.cpp:51-57 | k shifts bring a valid word back to itself if and only if k is a multiple of LimitReset |
| RingCounterWrapOnOne.Chip4017.constructor | testes/teste-appleJuice.cpp:41-48 | an in-range LimitReset gives the word 1 << (LimitReset-1) |
| RingCounterWrapOnOne.Chip4017.Shift | testes/teste-appleJuice.cpp:51-57 | a word of 1 goes back to the reset word; any other word halves; LimitReset does not change |
| RingCounterWrapOnOne.Chip4017.Reset | testes/teste-appleJuice.cpp:60-62 | the word becomes 1 << (LimitReset-1) whatever it was |
| RingCounterWrapOnOne.Chip4017.GetOut | testes/teste-appleJuice.cpp:66-68 | returns the word, which is one-hot below LimitReset |
| RingCounterWrapOnOne.Build | testes/teste-appleJuice.cpp:41-44 | construction fails exactly when limitReset is 0 or above 10 |
| RingCounterLeft.NextMaskAt | appleJuice.cpp:37-43 | a shift moves the bit from slot j to slot j+1, and from slot LimitReset-1 back to slot 0 |
| RingCounterLeft.NextMaskOneHot | appleJuice.cpp:37-43 | a shift keeps exactly one bit set, and the word never exceeds 1 << (LimitReset-1) |
| RingCounterLeft.MaskAfterAt | appleJuice.cpp:37-43 | k shifts from slot j leave the bit in slot (j + k) mod LimitReset |
| RingCounterLeft.MaskReturns | appleJuice.cpp:37-43 | k shifts bring a valid word back to itself if and only if k is a multiple of LimitReset |
| RingCounterLeft.SingleSlot | appleJuice.cpp:37-43 | with LimitReset = 1, every number of shifts leaves the word at 1 |
| RingCounterLeft.MirrorOfShiftRight | appleJuice.cpp:37-43 | started in mirrored slots, this counter and the shift-right counter always occupy mirrored slots (their slot numbers add up to LimitReset-1) |
| RingCounterLeft.Chip4017.constructor | appleJuice.cpp:27-35 | an in-range LimitReset gives the word 1 |
| RingCounterLeft.Chip4017.Shift | appleJuice.cpp:37-43 | the word moves one slot left or wraps to 1; LimitReset does not change |
| RingCounterLeft.Chip4017.Reset | appleJuice.cpp:45-47 | the word becomes 1; LimitReset does not change |
| RingCounterLeft.Chip4017.GetOut | appleJuice.cpp:49-51 | returns the word, which is one-hot below LimitReset |
| RingCounterLeft.Build | appleJuice.cpp:31-35 | construction fails exactly when limitReset is 0 or above 10 |
| DecadeCounter.Next | apple-juice.cpp:69-77 | an add from a digit yields the next digit mod 10, and raises the carry exactly when the digit wraps to 0 |
| DecadeCounter.AfterAddsIs | apple-juice.cpp:69-77 | k adds from cleared show k mod 10, with the carry up exactly when k > 0 and k is a multiple of 10 |
| DecadeCounter.NextMoves | apple-juice.cpp:69-77 | an add always changes an in-range digit |
| DecadeCounter.Chip4026.constructor | apple-juice.cpp:62-63 | a new counter shows 0 with no carry |
| DecadeCounter.Chip4026.Add | apple-juice.cpp:69-77 | the state becomes the next digit and carry, and the digit stays in 0..9 |
| DecadeCounter.Chip4026.Reset | apple-juice.cpp:80-83 | digit 0 and no carry, whatever the prior state |
| DecadeCounter.Chip4026.GetOut | apple-juice.cpp:86-88 | returns the digit, which is in 0..9 |
| DecadeCounter.Chip4026.GetCarryOut | apple-juice.cpp:91-93 | returns the carry flag |
| DecadeCounter.Chip4026.AddOnCarry | apple-juice.cpp:118-122 | with a carry it behaves as an add; without one, digit and carry are unchanged |
| AppleJuiceBoard.CycleCounts | apple-juice.cpp:481-484 | one clock keeps the chip invariants and adds one to the two-digit count, mod 100 |
| AppleJuiceBoard.TensFollowRollover | apple-juice.cpp:481-484 | the tens digit moves exactly on the clocks where the units digit rolls over from 9, which are exactly the clocks that raise the units carry |
| AppleJuiceBoard.CountAfterCycles | apple-juice.cpp:481-484 | n clocks from any reachable state add n to the count, mod 100 |
| AppleJuiceBoard.CyclesFromReset | apple-juice.cpp:481-484 | after n clocks from a full reset, the LEDs show n shifts, units n adds and tens n / 10 adds |
| AppleJuiceBoard.CountFromReset | apple-juice.cpp:481-484 | after n clocks from a full reset, the displays read n mod 100 and the LED bit is in slot (leds-1-n) mod leds |
| AppleJuiceBoard.Board.constructor | apple-juice.cpp:447-466 | the chips start reset and the board starts switched off |
| AppleJuiceBoard.Board.Cycle | apple-juice.cpp:481-484 | the three chips advance together by one clock |
| AppleJuiceBoard.Board.Iterate | apple-juice.cpp:472-485 | a pass clocks the chips when the board is on, and changes no chip when it is off |
| AppleJuiceBoard.Board.Run | apple-juice.cpp:471-486 | n passes with no command between them give n clocks when on and none when off |
| AppleJuiceBoard.Board.ResetAll | apple-juice.cpp:498-503 | the LEDs return to the reset word and both displays are cleared |
| AppleJuiceBoard.Board.ResetDisplay | apple-juice.cpp:527-532 | both displays are cleared and the LED word is left unchanged |
| AppleJuiceBoard.Board.TogglePower | apple-juice.cpp:494-496 | the power flag flips and no chip changes |
| AppleJuiceBoard.Board.ReadLeds | apple-juice.cpp:510-514 | the read word is the counter's word, one-hot below the LED count |
| AppleJuiceBoard.Build | apple-juice.cpp:447 | the board cannot be built exactly when the LED count is outside 1..10 |
| LedBoard.LampBoard.constructor | janela.cpp:145-149 | the worker uses the given counter, and the board starts switched off |
| LedBoard.LampBoard.Iterate | janela.cpp:155-165 | a pass shifts the counter once when on, and leaves it unchanged when off |
| LedBoard.LampBoard.Reset | janela.cpp:174-177 | the R key puts the counter back at its reset word |
| LedBoard.LampBoard.TogglePower | janela.cpp:171-173 | the ENTER key flips the power flag |
| LedBoard.RunWorker | janela.cpp:154-166 | n passes with the power flag unchanged give n shifts when on and none when off |
| SevenSegment.LitToCode | apple-juice.cpp:163-244 | reading the lit segments back recovers the value's segment code, so no information is lost |
| SevenSegment.Decode | apple-juice.cpp:163-244 | the switch lights exactly the segments of the value's code, and lights none for values above 9 |
| SevenSegment.EightLightsAll | apple-juice.cpp:226-234 | 8 lights every segment |
| SevenSegment.OneAndSeven | apple-juice.cpp:174-224 | 1 lights exactly b and c, and 7 lights exactly a, b and c |
| SevenSegment.BlankAboveNine | apple-juice.cpp:163-164 | a value above 9 lights no segment, because the switch has no default case |
| SevenSegment.DigitsDistinct | apple-juice.cpp:165-243 | no two digits light the same set of segments |
| ChipTests.TestChip4026 | testes/testes.cpp:149-178 | a units counter shows 0 and no carry when new; after 9 adds it shows 9 and no carry; the 10th add gives 0 with carry; the 11th clears the carry; reset gives 0 and no carry; a tens counter stays at 0 without a carry and reaches 1 with one |
| ChipTests.TestChip4017 | testes/testes.cpp:202-231 | Chip4017(4) starts at 0b1000, reads 0b0100 after one shift, and reads 0b1000 again after four shifts and after shift plus reset; 0 and 11 are rejected; LimitReset 1 starts at 1 and 10 starts at 1 << 9 |

## Left out

- `Chip555` in every file. Its period and frequency are floating-point arithmetic, and `pulse()` is a real-time sleep. In the model, a clock is simply "one pass of the worker while on".
- Threads, `std::mutex`/`lock_guard`, the atomic `running`/`ligado` flags and `join`. Each worker pass and each command is a sequential method, as if it ran under the lock. Interleavings between the worker and the window are not modelled. The quit command only stops the loops, so it is not modelled either.
- All raylib drawing. This covers the segment and LED geometry, glow and panel, and the polling of keys and the mouse. Also the console panels (`LampPanel::draw`) and the line-reading input loops of teste.cpp and testes/teste.cpp.
- `Converter::toBinary` and `ErrorMsg::CriticalError`. They only print, or exit the process.
- The `Chip`/`visualize()` hierarchy of testes/testes.cpp, which only prints, and its `testarChip555` and `testarPolimorfismo` tests.
- The text of each `std::invalid_argument` message, which differs from file to file. Only the fact that construction fails is modelled.
- SevenSegment.Decode: the decoder's local `bool seg[7]` is a sequence value that the method rebuilds segment by segment, not a heap array. The array never leaves the function, so no aliasing is lost.
- DecadeCounter.Chip4026: `Unidade::add` only forwards to `Chip4026::add`, so one class stands for the base class and both subclasses. `AddOnCarry`, which belongs to `Dezena`, is on the same class.
