# Verification of the SPI testbench and the library parts it rests on

A Dafny 4.11 project.  `dafny verify dfyconfig.toml` checks all of it.

The repository is a synchronous SPI slave with a register file, a testbench that drives and
monitors it, and the UVM library the testbench is compiled with.  The project models the
parts with real state machines, codecs and precedence rules:

- **The SPI system.** `SpiSlave` is the slave as one step per clk edge, and a class that takes the
  step on its flip-flops. `SpiWindow` says what the slave computes on any input trace. `SpiDriver`
  generates the sampled waveform in modes 0 to 3, `SpiWaveform` reads it back, `SpiTiming` gives
  its timing diagram, `SpiMonitor` decodes MISO, `SpiBits` and `SpiSystem` put the three together
  and prove that they behave as a plain register map (`SpiSystem.EndToEnd`). `SpiRegisterMap` says
  what the map means to software, that reads give what was last written, and runs the driver,
  slave and monitor objects together. `SpiRisingEdge` says exactly when a master that samples on
  rising edges would read the right bytes.
- **Signal polling.** `PollingProtocol` is the change list with its notifier bit as a step
  relation over any number of signals; `PollingChangeList` is the intrusive list on heap objects.
- **The packer.** `PackerCodec` is the bit layout and its round trip, `PackerLayout` says position
  by position where each bit lies, `Packer` is the class, and `PackerSession` the round trip on
  two objects of it.
- **Globs.** `GlobMatcher` is the matcher that is used when the foreign regular expression library
  is compiled out, as this repository does, against a recursive reference; `Deglob` is the
  translation to extended regular expressions, whose language `Ere` defines as section 9.4 of
  IEEE Std 1003.1 Base Definitions does.
- **The factory.** `FactoryOverrides` is the override log and the map it stands for,
  `FactoryResolution` the search along overrides, `Factory` the class.
- **Callbacks.** `CallbackQueues` is the typewide and instance queues as steps on values,
  `Callbacks` the registry with its recursion over derived types.
- **The barrier.** `BarrierProtocol` is the barrier over the event with the blocked processes,
  `Barrier` the two classes; a call runs up to the point where its process blocks.
- **Words as text.** `BinaryText` and `HdlStrings` print a multi-word value and parse it back.
- **The component tree** (`ComponentTree`), **reading a signal in chunks** (`ChunkedRead`) and
  **splitting strings** (`Splitting`).

A byte on the SPI bus is a sequence of eight bits, most significant first; a vector of the
packer and a word of a chunk list their bits from bit 0 up.  Delays are whole numbers of clk
periods.  Methods that change state are specified by functions on the state before and after,
and the theorems are about those functions.

## Where code and documentation disagree

The model follows the code.

- `uvm_polling_getValue32`: the documentation says a chunk beyond the vector is an error
  (`testbench/lib/1800.2-2020.3.1/src/dpi/uvm_hdl_polling.c` lines 93-98); the code reads the
  last chunk (`ChunkedRead.ChunkIsExtension`).
- `uvm_callbacks::add` with no object is documented to register the callback for all instances,
  but returns early when the type's own queue already has it, although instance queues may lack
  it (`CallbackQueues.TypewideAddCanMiss` and `ForeignAddCanMiss`; `TypewideAddsReach` says in
  which runs every such call reaches all queues).
- The first callback of a report object copies the report objects' typewide queue and the named
  type's; where these share a callback it is there twice, and deleting it typewide may leave a copy
  (`CallbackQueues.DuplicateSurvives`, with the exact conditions in `NoDuplicates` and
  `TypewideDeleteClears`).
- `uvm_re_deglobbed` maps a lone slash to the expression of the empty text
  (`Deglob.LoneBracketDiffers`).  The two builds of `uvm_re_match` differ on the empty expression
  (`Deglob.MatchersDifferOnEmpty`), on every glob with a `+` and on every glob with a closing `$`
  (`Deglob.MatchersAgree`).  A long glob that starts with `^` can make the translation write past
  its buffer (`Deglob.Convert`, `Deglob.OverrunHappens`).
- The factory's check for override loops never finds one, since every search starts with an empty
  list (`FactoryResolution.LoopCheckNeverFires`); a cycle of overrides is accepted and the search
  does not end (`CyclesHappen`; `SearchEnds` says exactly when it does).
- Component names are not checked.  A dot in a name can give two components one full name
  (`ComponentTree.DottedNamesCollide`; without dots full names are unique, `Tree.FullNamesAreUnique`),
  and `get_depth` counts it (`Tree.GetDepth`); lookup does not find a component when a name on the
  way to it has a dot or a wildcard (`Tree.LookupInvertsFullName`).
- `uvm_barrier::set_threshold` is documented to release the waiters when the new threshold is less
  than their number; the code also does so when they are equal.
- The comments in the low-level monitor say that MISO is sampled on rising edges; in mode 0 the
  code waits for falling edges, which is what makes one clk period per half SCLK period enough.
- The string built by `uvm_hdl_set_mhdl` loses low bits of the top word when that word does not fit
  its share of the size (`HdlStrings.ForceStringDenotes`).

## Model

| member | source | states |
|---|---|---|
| `SpiSystem.EndToEnd` | source/spi_slave_gpio_regmap.sv:88-160 | for every half period, gap and lead of at least one clk period, every transaction list and every GPIO input, the driven waveform leaves the register file as a plain map that ignores writes to 0 and 1, and the monitor publishes exactly the map's answers: 8'hA5, the GPIO input at the edge that completes the address byte, or the last value written |
| `SpiSystem.OneTransaction` | source/spi_slave_gpio_regmap.sv:113-157 | from any settled state one driven transaction applies its write and fetches the read value, whatever the slave held before |
| `SpiSystem.SessionRegisters` | source/spi_slave_gpio_regmap.sv:134-139 | after back-to-back transactions the registers are those of the map applied in order |
| `SpiSystem.SessionAnswers` | testbench/lib/tb_monitors.sv:54-63 | what the monitor publishes for back-to-back transactions is the map's answer to each, and it ends where the last window ends |
| `SpiSystem.ReadBits` | source/spi_slave_gpio_regmap.sv:154-157 | MISO sampled at the falling edges of the third word is the fetched value, most significant bit first |
| `SpiSystem.ReceiveTxn` | testbench/lib/tb_spi_monitor.sv:56-74 | the monitor collects exactly three bytes from a driven transaction and stops where chip select rises |
| `SpiSystem.CarriesSession` | testbench/lib/tb_drivers.sv:53-67 | a trace that samples the driver's waveform is a sequence of transactions at computable edges |
| `SpiSystem.Encode` | testbench/lib/tb_drivers.sv:56-60 | a transaction is a command byte whose number is 1 for a write and 0 for a read, then address, data |
| `SpiSystem.DriveAll` | testbench/lib/tb_drivers.sv:53-67 | driving a list of items appends the waveform of each to the bus |
| `SpiRisingEdge.RisingMaster` | source/spi_slave_gpio_regmap.sv:151-157 | one word: a master that samples MISO on rising edges gets the byte being shifted if and only if half an SCLK period is at least two clk periods or all bits of the byte are equal |
| `SpiRisingEdge.RisingTransaction` | source/spi_slave_gpio_regmap.sv:113-157 | a driven read: what a rising-edge master samples in the third word is the value the read fetches if and only if half an SCLK period is at least two clk periods or all bits of that value are equal |
| `SpiRisingEdge.RisingIdentification` | source/spi_slave_gpio_regmap.sv:77-83 | the witness: a rising-edge master reads 8'hA5 from address 0 if and only if half an SCLK period is at least two clk periods |
| `SpiRisingEdge.RisingEndToEnd` | source/spi_slave_gpio_regmap.sv:88-160 | a whole driven session: a rising-edge master agrees with the register map at every read if and only if half an SCLK period is at least two clk periods or every byte read has equal bits |
| `SpiWindow.SlaveRefinesWindow` | source/spi_slave_gpio_regmap.sv:88-160 | on any input trace the flip-flops hold what the bits clocked in since chip select fell determine, and nothing else |
| `SpiWindow.OutOfReset` | source/spi_slave_gpio_regmap.sv:89-101 | out of reset chip select counts as high, MISO is low, and the counters, shift registers and all 256 registers are zero |
| `SpiWindow.EdgeEffect` | source/spi_slave_gpio_regmap.sv:46-159 | on the wires: an edge acts on chip select, SCLK and MOSI of two edges before and SCLK of the edge before; a rise shifts that MOSI bit in from the right and counts it, a fall moves the top bit of the output register to MISO and shifts a zero in, chip select high clears the counters, anything else changes nothing |
| `SpiWindow.ByteEffect` | source/spi_slave_gpio_regmap.sv:117-145 | the eighth rise of a byte, in every trace: bit 0 of the first byte is the command, the second is the address and fetches a read (8'hA5 at 8'h00, the GPIO input at 8'h01, else the register), the third changes the register of that address and no other, and none at 8'h00 and 8'h01, if the command was a write |
| `SpiWindow.CountersCountRises` | source/spi_slave_gpio_regmap.sv:104-149 | 8 * byte_cnt + bit_cnt is the number of active rising edges since the last inactive cycle modulo 32 |
| `SpiWindow.ShortWindowWritesNothing` | source/spi_slave_gpio_regmap.sv:134-138 | a chip-select window with fewer than 24 rising edges changes no register |
| `SpiWindow.StaleStateIsForgotten` | source/spi_slave_gpio_regmap.sv:104-108 | after an inactive cycle, slaves with equal registers that see the same events keep equal registers whatever rw, addr, shift_in they inherited |
| `SpiWindow.ByteRepresents` | source/spi_slave_gpio_regmap.sv:117-145 | the eighth edge of a byte stores the command bit, fetches a read, or writes a register, by its place in a group of four bytes |
| `SpiWindow.FallRepresents` | source/spi_slave_gpio_regmap.sv:154-157 | each falling edge shows the next bit of the fetched value, zeros after the last |
| `SpiSlave.Slave.Clock` | source/spi_slave_gpio_regmap.sv:41-160 | one rising clk edge updates every flip-flop from the values before the edge |
| `SpiSlave.Slave.MainLogic` | source/spi_slave_gpio_regmap.sv:102-159 | the main block: counters, shifting, byte actions and MISO |
| `SpiSlave.Slave.TakeByte` | source/spi_slave_gpio_regmap.sv:117-144 | the action of a completed byte for each value of byte_cnt |
| `SpiSlave.Slave.Synchronise` | source/spi_slave_gpio_regmap.sv:46-55 | the two-flop synchronisers |
| `SpiSlave.Slave.Reset` | source/spi_slave_gpio_regmap.sv:89-101 | the reset values of all flip-flops and of the 256 registers |
| `Bits.IndexIsValue` | source/spi_slave_gpio_regmap.sv:77-83 | the entry of the register file that an address selects is the number its bits denote, most significant first |
| `Bits.IndexShifted` | source/spi_slave_gpio_regmap.sv:115-115 | shifting one more bit in from the right doubles that number and adds the bit, modulo 256 |
| `SpiRegisterMap.WriteIsLocal` | source/spi_slave_gpio_regmap.sv:77-83 | a write changes the answer of its own address and of no other, and those of 8'h00 and 8'h01 never; both are written out as bits |
| `SpiRegisterMap.ReadsLastWritten` | source/spi_slave_gpio_regmap.sv:134-139 | after any transactions an address answers with the byte last written to it, zero if none, 8'hA5 at 8'h00 and the GPIO input at 8'h01, with these three written out as bits |
| `SpiRegisterMap.RemembersOutput` | source/spi_slave_gpio_regmap.sv:32-32 | once every address answers as it should, gpio_out, which is register 2, is the byte last written to 8'h02 |
| `SpiRegisterMap.ReadYourWrites` | testbench/lib/tb_monitors.sv:54-63 | over a whole driven session the monitor publishes each write as sent and each read with the byte last written to its address before it, or the constant, or the GPIO input at its own address edge |
| `SpiRegisterMap.AddressEdgeTime` | testbench/lib/tb_spi_driver.sv:107-155 | when that address edge is: the k-th transaction's is a fixed number of clk periods, given by half period, gap and lead, behind k whole transactions |
| `SpiRegisterMap.Observe` | source/spi_slave_gpio_regmap.sv:88-160 | clocking the slave object over a trace gives the state of the whole run, and MISO before each edge |
| `SpiRegisterMap.Testbench` | testbench/lib/tb_drivers.sv:53-67 | driver, slave and monitor objects together: every address of the slave ends with what was last written to it, gpio_out with what was last written to the byte 8'h02, and the published list is the right one |
| `SpiDriver.Driver.InitSpiClock` | testbench/lib/tb_spi_driver.sv:87-93 | SCLK goes to its resting level for one period, high in modes 2 and 3 and low in modes 0 and 1 |
| `SpiDriver.Driver.SendBit` | testbench/lib/tb_spi_driver.sv:112-134 | the samples of one bit at either chip-select level: half a period with SCLK as it was, half with it inverted, and back; MOSI has the bit all the time in modes 0 and 2 and from the inversion on in modes 1 and 3 |
| `SpiDriver.Driver.SendByte` | testbench/lib/tb_spi_driver.sv:107-135 | the low bits of a byte, most significant first, at either chip-select level |
| `SpiDriver.Driver.SendMultiByte` | testbench/lib/tb_spi_driver.sv:141-155 | one chip-select window with the idle clock, lead, words and gaps |
| `SpiTiming.WindowTiming` | testbench/lib/tb_spi_driver.sv:107-155 | the timing diagram: the pins in every clk period of a window, for every mode, word length and delay, each word's bits from bit bits_per_word - 1 down at fixed multiples of the period, and the length of the window |
| `SpiWaveform.WaveformInverse` | testbench/lib/tb_spi_driver.sv:107-155 | in every mode and for 1 to 8 bits a word, sampling MOSI at the capture edges of a window gives back the words' low bits in order |
| `SpiWaveform.CapturedWords` | testbench/lib/tb_spi_driver.sv:148-151 | the same for any list of words, followed by anything at rest |
| `SpiBits.BitEvents` | source/spi_slave_gpio_regmap.sv:58-60 | one driven bit is seen as one rising and one falling event, each two edges late |
| `SpiBits.WordClocked` | source/spi_slave_gpio_regmap.sv:113-149 | the bits of one driven word are clocked in, for every half period |
| `SpiBits.CarriesBits` | testbench/lib/tb_spi_driver.sv:112-134 | the driver's bits have the shape the slave's events are derived from |
| `SpiMonitor.CollectByte` | testbench/lib/tb_spi_monitor.sv:38-51 | eight MISO samples, most significant first, at falling edges in modes 0 and 2 and at rising edges in modes 1 and 3 |
| `SpiMonitor.WaitEdge` | testbench/lib/tb_spi_monitor.sv:42-48 | the first edge of SCLK to the given level after a point, with none between |
| `SpiMonitor.WaitWord` | testbench/lib/tb_spi_monitor.sv:67-71 | the first point where SCLK is at the given level or chip select is high, with none before |
| `SpiMonitor.CollectWindow` | testbench/lib/tb_spi_monitor.sv:56-74 | the bytes of one chip-select window in any mode |
| `SpiMonitor.MonitorRunPhase` | testbench/lib/tb_monitors.sv:54-63 | each intent is paired with a window; a read takes its third byte |
| `PollingProtocol.NoLostNotification` | testbench/lib/1800.2-2020.3.1/src/dpi/uvm_hdl_polling.c:441-468 | in every interleaving a signal changed since its last notification is on the list and is notified by the next completed drain |
| `PollingProtocol.ListHoldsUnnotifiedChanges` | testbench/lib/1800.2-2020.3.1/src/dpi/uvm_hdl_polling.c:318-327 | the list holds exactly the signals that changed since they were last notified |
| `PollingProtocol.TogglesAreWakeups` | testbench/lib/1800.2-2020.3.1/src/dpi/uvm_hdl_polling.c:422-435 | notifier toggles count the transitions of the list from empty to non-empty, and the notifier shows their parity |
| `PollingProtocol.WakeupIsNotCancelled` | testbench/lib/1800.2-2020.3.1/src/dpi/uvm_hdl_polling.c:450-464 | from the change that fills the list until the list is empty again the notifier keeps its level |
| `PollingProtocol.ListStaysDuplicateFree` | testbench/lib/1800.2-2020.3.1/src/dpi/uvm_hdl_polling.c:322-326 | no interleaving puts a signal on the list twice |
| `PollingProtocol.PendingIsNotifiedOrStays` | testbench/lib/1800.2-2020.3.1/src/dpi/uvm_hdl_polling.c:655-660 | a pending signal is notified or still pending, and notified if the list is empty in the end |
| `PollingProtocol.Conservation` | testbench/lib/1800.2-2020.3.1/src/dpi/uvm_hdl_polling.c:303-327 | every push is notified once or still pending |
| `PollingProtocol.DrainIsARun` | testbench/lib/1800.2-2020.3.1/src/dpi/uvm_hdl_polling.c:655-660 | a drain with changes arriving in between is one of the interleavings |
| `PollingProtocol.QuietDrain` | testbench/lib/1800.2-2020.3.1/src/dpi/uvm_hdl_polling.c:655-660 | a drain without new changes notifies each pending signal once, newest first, and ends empty |
| `PollingChangeList.Polling.Create` | testbench/lib/1800.2-2020.3.1/src/dpi/uvm_hdl_polling.c:538-551 | a new record is not on the list |
| `PollingChangeList.Polling.PushIfNeeded` | testbench/lib/1800.2-2020.3.1/src/dpi/uvm_hdl_polling.c:318-327 | the intrusive list gets the record in front unless it is on it; the list stays acyclic and is exactly the flagged records |
| `PollingChangeList.Polling.ToggleNotifier` | testbench/lib/1800.2-2020.3.1/src/dpi/uvm_hdl_polling.c:422-440 | the notifier bit is inverted |
| `PollingChangeList.Polling.ValueChange` | testbench/lib/1800.2-2020.3.1/src/dpi/uvm_hdl_polling.c:441-468 | the record goes in front of the list unless it is on it, and the notifier is inverted if and only if the list was empty |
| `PollingChangeList.Polling.GetNewestEntry` | testbench/lib/1800.2-2020.3.1/src/dpi/uvm_hdl_polling.c:303-311 | the newest record is unlinked and its flag cleared |
| `PollingChangeList.Polling.ProcessChangelist` | testbench/lib/1800.2-2020.3.1/src/dpi/uvm_hdl_polling.c:655-660 | the drain loop, with the changes that arrive during each notification |
| `PackerCodec.PackerRoundTrip` | testbench/lib/1800.2-2020.3.1/compat/uvm_compat_packer.svh:58-420 | packing any typed values in either endianness, exporting in words of any width, importing and unpacking the same types gives every value back, despite the padded last word |
| `PackerSession.RoundTrip` | testbench/lib/1800.2-2020.3.1/compat/uvm_compat_packer.svh:58-420 | on packer objects: packing any values, exporting them as bits or in words of any width, importing them into a second packer and unpacking gives the same values |
| `PackerSession.SizedRoundTrip` | testbench/lib/1800.2-2020.3.1/compat/uvm_compat_packer.svh:173-387 | on packer objects, with an explicit size: the first bits of an array packed between other values arrive in another array, whose further bits are kept, and the other values arrive too |
| `PackerSession.Transfer` | testbench/lib/1800.2-2020.3.1/compat/uvm_compat_packer.svh:58-141 | a second packer holds exactly the exported bits, and behind words the zeros of the last one |
| `PackerSession.PackAll` | testbench/lib/1800.2-2020.3.1/compat/uvm_compat_packer.svh:147-283 | successive pack calls append the encodings of their values |
| `PackerSession.UnpackAll` | testbench/lib/1800.2-2020.3.1/compat/uvm_compat_packer.svh:285-420 | successive unpack calls decode the stream in order, and what they leave of it |
| `PackerCodec.ImportExported` | testbench/lib/1800.2-2020.3.1/compat/uvm_compat_packer.svh:68-143 | importing an exported stream gives its bits followed by the zeros that fill the last word |
| `PackerCodec.DecodeEncodedAll` | testbench/lib/1800.2-2020.3.1/compat/uvm_compat_packer.svh:147-420 | unpacking a list of shapes gives back the list of values that were packed, whatever follows |
| `PackerCodec.DecodeEncodedText` | testbench/lib/1800.2-2020.3.1/compat/uvm_compat_packer.svh:263-420 | a NUL-free string closed by a NUL is read back and the NUL skipped |
| `PackerCodec.LaidOrder` | testbench/lib/1800.2-2020.3.1/compat/uvm_compat_packer.svh:152-156 | the order in which a field is laid down: bit 0 first, or with big_endian the top bit first |
| `PackerLayout.WordsExported` | testbench/lib/1800.2-2020.3.1/compat/uvm_compat_packer.svh:68-92 | the codec's words lie on the bits from position 64 on, one after the other and bit by bit, with zeros behind the last |
| `PackerLayout.TextDecoded` | testbench/lib/1800.2-2020.3.1/compat/uvm_compat_packer.svh:390-420 | what the codec decodes as a text is read off the bits character by character |
| `Packer.Packer.PackField` | testbench/lib/1800.2-2020.3.1/compat/uvm_compat_packer.svh:147-171 | bit i of the value at pack position + i, or with big_endian bit size - 1 - i, for all its low size bits |
| `Packer.Packer.PackElements` | testbench/lib/1800.2-2020.3.1/compat/uvm_compat_packer.svh:173-261 | the first bits of an array of bits, bytes or ints, element 0 from its bit 0 up first, or with big_endian all of them in reverse; too large a size packs nothing |
| `Packer.Packer.PackString` | testbench/lib/1800.2-2020.3.1/compat/uvm_compat_packer.svh:263-283 | the characters one after the other, each from bit 0 up or with big_endian from bit 7 down, and eight zeros when metadata is used |
| `Packer.Packer.UnpackField` | testbench/lib/1800.2-2020.3.1/compat/uvm_compat_packer.svh:285-309 | the next bits, the first as bit 0 or with big_endian as the top bit, or zeros without progress when there are too few |
| `Packer.Packer.UnpackElements` | testbench/lib/1800.2-2020.3.1/compat/uvm_compat_packer.svh:311-387 | the first bits of an array are replaced by the next of the stream, element 0 from its bit 0 up or with big_endian from the other end, the others kept; nothing changes when the size is too large or the stream too short |
| `Packer.WholeArrayIsDecoded` | testbench/lib/1800.2-2020.3.1/compat/uvm_compat_packer.svh:334-387 | filling a whole array is the decoding the round trip is about |
| `Packer.Packer.UnpackString` | testbench/lib/1800.2-2020.3.1/compat/uvm_compat_packer.svh:390-420 | characters, each from bit 0 up or with big_endian from bit 7 down and none of them zero, up to eight zeros that are skipped or to fewer than eight bits |
| `Packer.Packer.GetPackedBits` | testbench/lib/1800.2-2020.3.1/compat/uvm_compat_packer.svh:58-66 | the packed bits |
| `Packer.Packer.GetPackedWords` | testbench/lib/1800.2-2020.3.1/compat/uvm_compat_packer.svh:68-92 | the packed bits in words, each from bit 0 up or with big_endian from the top bit down, zeros behind the last bit, and no more words than it takes |
| `Packer.Packer.SetPackedBits` | testbench/lib/1800.2-2020.3.1/compat/uvm_compat_packer.svh:104-122 | the stream becomes the packed bits |
| `Packer.Packer.SetPackedWords` | testbench/lib/1800.2-2020.3.1/compat/uvm_compat_packer.svh:124-141 | the words one after the other, each from bit 0 up or with big_endian from the top bit down |
| `Packer.Packer.Flush` | testbench/lib/1800.2-2020.3.1/src/base/uvm_packer.svh:420-432 | both positions go to 64 and the bits are cleared |
| `Deglob.DeglobPreservesMeaning` | testbench/lib/1800.2-2020.3.1/src/dpi/uvm_regex.cc:65-215 | for every glob whose part between optional anchors is free of ^ $ \ { } and the vertical bar, other than a lone slash and a bracketed expression, the emitted expression accepts exactly the strings the glob matches under a recursive matcher |
| `Deglob.FormsAgree` | testbench/lib/1800.2-2020.3.1/src/dpi/uvm_regex.cc:85-209 | the bracketed form is a fixed point of the translation, and stripping it gives the unbracketed form |
| `Deglob.Written` | testbench/lib/1800.2-2020.3.1/src/dpi/uvm_regex.cc:132-176 | what is written for each character wherever it stands: a dot in front of * and +, a backslash in front of . [ ] ( and the closing parenthesis, a dot for ?, any other as it is |
| `Deglob.LengthLimit` | testbench/lib/1800.2-2020.3.1/src/dpi/uvm_regex.cc:115-209 | an expression is returned if and only if the glob's length, twice the characters that are written as two, the anchors and brackets added and the NUL are at most 2048, and how long it is |
| `Deglob.BracketedLimit` | testbench/lib/1800.2-2020.3.1/src/dpi/uvm_regex.cc:95-110 | what comes in brackets is returned as it is, with or without them, up to 2048 characters |
| `Deglob.LoneBracketDiffers` | testbench/lib/1800.2-2020.3.1/src/dpi/uvm_regex.cc:85-92 | a lone slash is translated to the expression of the empty text, although as a glob it matches itself |
| `Deglob.MatchersAgree` | testbench/lib/1800.2-2020.3.1/src/dpi/uvm_regex.svh:77-149 | the foreign-library and the native matcher accept the same strings if and only if the glob has no + and no closing anchor |
| `Deglob.MatchersDiffer` | testbench/lib/1800.2-2020.3.1/src/dpi/uvm_regex.svh:77-149 | with a + or a closing anchor they differ on a text given by the glob: nothing for each *, an a for each ? and +, any other character itself |
| `Deglob.MatchersDifferOnEmpty` | testbench/lib/1800.2-2020.3.1/src/dpi/uvm_regex.svh:107-108 | on the empty expression the native matcher accepts everything, the other only the empty string |
| `Deglob.Convert` | testbench/lib/1800.2-2020.3.1/src/dpi/uvm_regex.cc:65-215 | for every glob: the buffer gets the translation and a NUL, or NULL is returned, exactly as the tracked length says; a write leaves the 2052-byte buffer if and only if no brackets are asked for, the glob starts with ^, and more than 2052 characters precede the first of * + . [ ] ( and the closing parenthesis; globs up to the limit never write at or beyond 2048 |
| `Deglob.ConvertAll` | testbench/lib/1800.2-2020.3.1/src/dpi/uvm_regex.cc:132-176 | the loop over the glob: where it ends, how much it has charged, and exactly when it writes past the buffer |
| `Deglob.LongGlobOverruns` | testbench/lib/1800.2-2020.3.1/src/dpi/uvm_regex.cc:132-176 | a glob of ^ and characters that are not charged is written past the buffer if and only if there are at least 2052 of them |
| `Deglob.OverrunHappens` | testbench/lib/1800.2-2020.3.1/src/dpi/uvm_regex.cc:132-176 | the smallest such glob: ^ and 2052 letters |
| `GlobMatcher.ReMatch` | testbench/lib/1800.2-2020.3.1/src/dpi/uvm_regex.svh:100-149 | the two-loop matcher with one backtracking point decides exactly the recursive matcher |
| `GlobMatcher.GlobMeans` | testbench/lib/1800.2-2020.3.1/src/dpi/uvm_regex.svh:100-149 | the recursive matcher, character by character: * stands for any characters, ? for one, + for one or more or for itself, any other for itself |
| `GlobMatcher.SecondStar` | testbench/lib/1800.2-2020.3.1/src/dpi/uvm_regex.svh:125-132 | when a second star is met, the place chosen for the first is as good as any |
| `GlobMatcher.Backtrack` | testbench/lib/1800.2-2020.3.1/src/dpi/uvm_regex.svh:137-140 | a mismatch rules out the place chosen for the last star and no other |
| `FactoryOverrides.LogRefinesMap` | testbench/lib/1800.2-2020.3.1/src/base/uvm_factory.svh:1087-1282 | after any sequence of override calls by type or by any name, of types with or without a name, and late registrations, the newest-first scan answers every request as the map folded oldest first with replace wins, else keep first |
| `FactoryOverrides.DuplicatesHappen` | testbench/lib/1800.2-2020.3.1/src/base/uvm_factory.svh:1257-1262 | the early end of the scan does leave two entries for one name, the newer in force |
| `FactoryOverrides.ScanReplaces` | testbench/lib/1800.2-2020.3.1/src/base/uvm_factory.svh:1239-1262 | a replacement that found an entry is in force whatever duplicates lie behind |
| `FactoryOverrides.ResolveKeepsChoice` | testbench/lib/1800.2-2020.3.1/src/base/uvm_factory.svh:1087-1105 | late registration fills in types and changes no answer |
| `FactoryResolution.ResolutionIsFinal` | testbench/lib/1800.2-2020.3.1/src/base/uvm_factory.svh:1785-1894 | if following the overrides from a type never comes back to a key, the search ends, visits no key twice, reaches a key without a further override, returns its type if it has one, and returns that again when asked for it |
| `FactoryResolution.SearchEnds` | testbench/lib/1800.2-2020.3.1/src/base/uvm_factory.svh:1677-1894 | the search for a request ends if and only if no chain of overrides from it comes back to a key, and then within as many steps as there are overrides |
| `FactoryResolution.LoopCheckNeverFires` | testbench/lib/1800.2-2020.3.1/src/base/uvm_factory.svh:1777-1805 | every search by type starts with an empty list of visited overrides, so that the check for loops stops none and a search returns only where the overrides end |
| `FactoryResolution.CyclesHappen` | testbench/lib/1800.2-2020.3.1/src/base/uvm_factory.svh:1785-1805 | after any calls any two types can be made to override each other, and the search for either then never returns although it checks for loops |
| `FactoryResolution.StepFollowsCalls` | testbench/lib/1800.2-2020.3.1/src/base/uvm_factory.svh:1806-1856 | each step takes the earliest matching instance override call, whose path is a glob for the request's, else what the type override calls amount to |
| `FactoryResolution.InstOverridesInOrder` | testbench/lib/1800.2-2020.3.1/src/base/uvm_factory.svh:1287-1420 | the first matching entry is that of the earliest matching call, although exact duplicates are not stored; a path matches as a glob in which * and ? are wildcards |
| `FactoryResolution.PathIsGlob` | testbench/lib/1800.2-2020.3.1/src/base/uvm_factory.svh:2287-2309 | the factory's test of a path, with its flag for wildcards and its shortcuts, is one match of the recursive matcher, a ^ in front dropped where there is a wildcard |
| `FactoryResolution.InstLogIsAsked` | testbench/lib/1800.2-2020.3.1/src/base/uvm_factory.svh:1287-1420 | after any calls the instance overrides are those asked for, each once, in the order they were first asked for |
| `FactoryResolution.LastCall` | testbench/lib/1800.2-2020.3.1/src/base/uvm_factory.svh:1114-1284 | what one more call does to the type override in force for any key: replace wins, else only if there was none; nothing is ever in force for the empty name and for `<unknown>` |
| `FactoryResolution.FindEndsAtPath` | testbench/lib/1800.2-2020.3.1/src/base/uvm_factory.svh:1679-1894 | both searches follow the same chain, for registered and unregistered types and any name; without any override one by type gives the type and one by name null |
| `Factory.Factory.Register` | testbench/lib/1800.2-2020.3.1/src/base/uvm_factory.svh:1058-1108 | the tables of names and types, and the types of waiting overrides; a type without a name is entered for its proxy only |
| `Factory.Factory.SetTypeOverrideByType` | testbench/lib/1800.2-2020.3.1/src/base/uvm_factory.svh:1114-1194 | the log after the call |
| `Factory.Factory.SetTypeOverrideByName` | testbench/lib/1800.2-2020.3.1/src/base/uvm_factory.svh:1200-1284 | the log after the call; identical names are ignored |
| `Factory.Factory.SetInstOverrideByType` | testbench/lib/1800.2-2020.3.1/src/base/uvm_factory.svh:1318-1359 | the instance overrides after the call |
| `Factory.Factory.SetInstOverrideByName` | testbench/lib/1800.2-2020.3.1/src/base/uvm_factory.svh:1365-1420 | the instance overrides after the call |
| `Factory.Factory.Update` | testbench/lib/1800.2-2020.3.1/src/base/uvm_factory.svh:1239-1262 | the scan that updates matches in place and gives up at an unknown type |
| `Factory.Factory.FindOverrideByType` | testbench/lib/1800.2-2020.3.1/src/base/uvm_factory.svh:1777-1783 | the recursive search by type, registered or not, for every request whose search ends |
| `Factory.Factory.FindUnlisted` | testbench/lib/1800.2-2020.3.1/src/base/uvm_factory.svh:1785-1894 | the same with the list of visited overrides and its check for loops |
| `Factory.Factory.FindOverrideByName` | testbench/lib/1800.2-2020.3.1/src/base/uvm_factory.svh:1677-1769 | the recursive search by any name, for every request whose search ends |
| `CallbackQueues.NoDuplicates` | testbench/lib/1800.2-2020.3.1/src/base/uvm_callback.svh:776-829 | a run keeps every queue free of duplicates if and only if no report object's queue was started from a type's queue and the report objects' queue with a callback in common |
| `CallbackQueues.DuplicateSurvives` | testbench/lib/1800.2-2020.3.1/src/base/uvm_callback.svh:785-806 | a report object that gets its first own callback after a typewide one was added holds that one twice, and still once after it is deleted typewide |
| `CallbackQueues.RunValid` | testbench/lib/1800.2-2020.3.1/src/base/uvm_callback.svh:238-329 | in every run no type's queue holds a callback twice |
| `CallbackQueues.AddObjOrder` | testbench/lib/1800.2-2020.3.1/src/base/uvm_callback.svh:785-826 | a callback that an object's queue lacks comes last with append and first with prepend, the others in their order; an empty queue takes the report objects' callbacks first and then the type's |
| `CallbackQueues.AddTypeOrder` | testbench/lib/1800.2-2020.3.1/src/base/uvm_callback.svh:282-329 | the same for the queue of the type, of each derived type and of each object that casts to the type, and no other queue changes |
| `CallbackQueues.DeleteOrder` | testbench/lib/1800.2-2020.3.1/src/base/uvm_callback.svh:333-362 | a typewide delete takes the first occurrences off each queue, one for every visit, and keeps the order of everything else; a delete from an object takes its first |
| `CallbackQueues.TypewideAddCanMiss` | testbench/lib/1800.2-2020.3.1/src/base/uvm_callback.svh:751-768 | a run in which a typewide add leaves an object of the type without the callback, after that was deleted from the object |
| `CallbackQueues.ForeignAddCanMiss` | testbench/lib/1800.2-2020.3.1/src/base/uvm_callback.svh:776-806 | the same without a deletion, after an object was given its first callback through a base type |
| `CallbackQueues.TypewideDeleteClears` | testbench/lib/1800.2-2020.3.1/src/base/uvm_callback.svh:333-362 | a typewide delete removes the callback from the type and its derived types, from an object's queue if and only if that holds it no more often than there are types to go through, and touches no other callback |
| `CallbackQueues.TypewideAddsReach` | testbench/lib/1800.2-2020.3.1/src/base/uvm_callback.svh:676-920 | typewide adds of a callback would reach every queue at every point of a run if and only if no call of the run was harmful to that callback, which is read off the queues before the call |
| `CallbackQueues.SparedReaches` | testbench/lib/1800.2-2020.3.1/src/base/uvm_callback.svh:676-920 | in runs where a callback is itself never deleted and objects add through their own type, typewide adds of it reach every queue at every point, whatever happens to other callbacks |
| `CallbackQueues.CallKeeps` | testbench/lib/1800.2-2020.3.1/src/base/uvm_callback.svh:676-920 | for each of the four calls, exactly when the callback still stands wherever the types that hold it say |
| `Callbacks.Registry.AddTwCbs` | testbench/lib/1800.2-2020.3.1/src/base/uvm_callback.svh:282-329 | the recursion over derived types has the effect of the typewide step, whose order CallbackQueues.AddTypeOrder gives |
| `Callbacks.Registry.DeleteTwCbs` | testbench/lib/1800.2-2020.3.1/src/base/uvm_callback.svh:333-362 | one occurrence goes from each visited type's queue and, at each visit, from every object's, and whether there was any |
| `Callbacks.Registry.Add` | testbench/lib/1800.2-2020.3.1/src/base/uvm_callback.svh:676-829 | typewide with its early end, or on an object, whose empty queue is started from the report objects' queue if it is one and then from the type's; where the callback goes is CallbackQueues.AddObjOrder and AddTypeOrder |
| `Callbacks.Registry.Delete` | testbench/lib/1800.2-2020.3.1/src/base/uvm_callback.svh:886-920 | typewide or on an object, and whether there was anything to delete |
| `Callbacks.Registry.TypewideOwner` | testbench/lib/1800.2-2020.3.1/src/base/uvm_callback.svh:171-192 | a type at or below the one asked that the object is of, none of whose derived types it is of |
| `Callbacks.Registry.QueueOf` | testbench/lib/1800.2-2020.3.1/src/base/uvm_callback.svh:964-975 | the object's own queue, else its most derived type's; the typewide queue without an object |
| `Callbacks.Registry.NextEnabled` | testbench/lib/1800.2-2020.3.1/src/base/uvm_callback.svh:991-1066 | the first enabled callback of the iterator's type at or after a position |
| `BarrierProtocol.BarrierConservation` | testbench/lib/1800.2-2020.3.1/src/base/uvm_barrier.svh:77-210 | in every run, kills and cancels in any order, the barrier's count is the event's, is 0 or below the threshold, and differs from the number of blocked processes by exactly the kills not yet cancelled less the cancels without a kill; every arrival went on, is blocked, was left on an old event object, or was killed |
| `BarrierProtocol.PairedCancelsCount` | testbench/lib/1800.2-2020.3.1/src/base/uvm_barrier.svh:194-204 | used as documented, with a cancel right after each kill, the count is the number of blocked processes |
| `BarrierProtocol.UnpairedCancel` | testbench/lib/1800.2-2020.3.1/src/base/uvm_barrier.svh:201-204 | a cancel without a kill makes the count wrong if and only if someone is blocked |
| `BarrierProtocol.AutoResetGroups` | testbench/lib/1800.2-2020.3.1/src/base/uvm_barrier.svh:77-100 | with auto-reset and a fixed threshold n, after k arrivals the first n * (k / n) went on in order and the last k % n are blocked |
| `BarrierProtocol.StaysOpen` | testbench/lib/1800.2-2020.3.1/src/base/uvm_barrier.svh:80-96 | without auto-reset all wait until the threshold is met and then the barrier is open |
| `BarrierProtocol.ResetStartsAfresh` | testbench/lib/1800.2-2020.3.1/src/base/uvm_barrier.svh:114-130 | after a reset a barrier that had opened, or had processes waiting, is closed with nobody waiting, and later arrivals wait until there are as many as the threshold again |
| `BarrierProtocol.AutoResetStartsAfresh` | testbench/lib/1800.2-2020.3.1/src/base/uvm_barrier.svh:145-148 | setting auto-reset closes an open barrier too; who waits at a closed one is the first of those the next arrivals wait with, in groups or until it opens |
| `BarrierProtocol.ResetClears` | testbench/lib/1800.2-2020.3.1/src/base/uvm_barrier.svh:114-130 | in every run a reset closes the barrier, keeps threshold and auto-reset, releases or leaves behind who is blocked if anyone is counted, and makes it as new if and only if someone was counted or nobody was blocked |
| `BarrierProtocol.ArrivalsAfresh` | testbench/lib/1800.2-2020.3.1/src/base/uvm_barrier.svh:77-100 | arrivals at any barrier that is as new go on as at a new one, whatever was released before |
| `BarrierProtocol.ThresholdEffect` | testbench/lib/1800.2-2020.3.1/src/base/uvm_barrier.svh:165-172 | in every run a new threshold that the count has reached acts as a reset with wakeup, any other changes nothing else |
| `BarrierProtocol.OnSinceTrigger` | testbench/lib/1800.2-2020.3.1/src/base/uvm_event.svh:206-392 | an event is on if and only if there was a trigger no callback vetoed and no reset since |
| `BarrierProtocol.BlockedSince` | testbench/lib/1800.2-2020.3.1/src/base/uvm_event.svh:135-392 | whoever waited since the last such trigger or reset is blocked, in that order, and without a cancel since is what is counted |
| `Barrier.Barrier.WaitFor` | testbench/lib/1800.2-2020.3.1/src/base/uvm_barrier.svh:77-100 | the call up to its blocking point and who goes on |
| `Barrier.Barrier.Reset` | testbench/lib/1800.2-2020.3.1/src/base/uvm_barrier.svh:114-130 | the reset with and without wakeup, which closes the barrier; what follows from it is BarrierProtocol.ResetStartsAfresh |
| `Barrier.Barrier.SetThreshold` | testbench/lib/1800.2-2020.3.1/src/base/uvm_barrier.svh:165-172 | the new threshold, releasing all when it is met |
| `Barrier.Barrier.SetAutoReset` | testbench/lib/1800.2-2020.3.1/src/base/uvm_barrier.svh:145-148 | the flag, and the barrier closed |
| `Barrier.Barrier.Cancel` | testbench/lib/1800.2-2020.3.1/src/base/uvm_barrier.svh:201-204 | the event's count goes down and the barrier's follows, whether or not a waiter was killed |
| `Barrier.Event.WaitTrigger` | testbench/lib/1800.2-2020.3.1/src/base/uvm_event.svh:135-138 | one more waiter on the current event object |
| `Barrier.Event.Trigger` | testbench/lib/1800.2-2020.3.1/src/base/uvm_event.svh:366-392 | all waiters go on and the count is 0, unless a pre_trigger callback asks to skip it; then nothing changes |
| `Barrier.Event.Reset` | testbench/lib/1800.2-2020.3.1/src/base/uvm_event.svh:206-217 | a new event object; without wakeup the old waiters stay behind |
| `Barrier.Event.Cancel` | testbench/lib/1800.2-2020.3.1/src/base/uvm_event.svh:232-239 | the count goes down, not below 0 |
| `HdlStrings.ForceStringDenotes` | testbench/lib/1800.2-2020.3.1/src/dpi/uvm_hdl_vcs.c:1149-1159 | the string built for forcing denotes the multi-word value if and only if the top word fits its share, and never exceeds the size |
| `HdlStrings.ForceReadBack` | testbench/lib/1800.2-2020.3.1/src/dpi/uvm_hdl_vcs.c:871-910 | reading that string back, padded to the size, into empty words gives every word with nothing unknown, the top one if and only if it fits its share |
| `HdlStrings.FullShareForgets` | testbench/lib/1800.2-2020.3.1/src/dpi/uvm_hdl_vcs.c:885-907 | a full share of 32 characters leaves nothing of the word's previous contents |
| `HdlStrings.ShiftAllIs` | testbench/lib/1800.2-2020.3.1/src/dpi/uvm_hdl_vcs.c:885-907 | shifting in any four-state string leaves its number in each plane, with the old contents moved up and cut at 32 bits |
| `HdlStrings.ShiftedInBits` | testbench/lib/1800.2-2020.3.1/src/dpi/uvm_hdl_vcs.c:885-907 | bit by bit: each of the last 32 characters is at its place, 0 as 0 0, 1 as 1 0, Z as 0 1, X and any other as 1 1 in the two planes, and what was there has moved up |
| `HdlStrings.ParsedBit` | testbench/lib/1800.2-2020.3.1/src/dpi/uvm_hdl_vcs.c:871-910 | bit k of word j is read from the character 32 * j + k places from the end of the string |
| `HdlStrings.ForcedBits` | testbench/lib/1800.2-2020.3.1/src/dpi/uvm_hdl_vcs.c:1149-1159 | bit k of a lower word stands 32 * j + k places from the end of the string to be forced, and in front of them are the leading digits of the top word, as many as its share |
| `BinaryText.BitsBit` | testbench/lib/1800.2-2020.3.1/src/dpi/uvm_hdl_vcs.c:699-713 | the minimal digits of a number are its bits, the highest first, starting with a 1 unless it is 0 |
| `HdlStrings.Dtob` | testbench/lib/1800.2-2020.3.1/src/dpi/uvm_hdl_vcs.c:689-713 | the top word without leading zeros, any other with 32 digits |
| `HdlStrings.Divide` | testbench/lib/1800.2-2020.3.1/src/dpi/uvm_hdl_vcs.c:699-703 | the digits of the number, lowest first |
| `HdlStrings.BuildForceString` | testbench/lib/1800.2-2020.3.1/src/dpi/uvm_hdl_vcs.c:1149-1159 | the loop from the top word down with truncating concatenation |
| `HdlStrings.ParseWords` | testbench/lib/1800.2-2020.3.1/src/dpi/uvm_hdl_vcs.c:871-910 | each word gets its share of the characters shifted in, the others are kept |
| `BinaryText.NumLower` | testbench/lib/1800.2-2020.3.1/src/dpi/uvm_hdl_vcs.c:1154-1159 | the digits of the lower words, highest first, denote their value |
| `ComponentTree.Tree.FullNamesAreUnique` | testbench/lib/1800.2-2020.3.1/src/base/uvm_component.svh:1947-1966 | two components with equal full names are the same when no name on the way to either has a dot, wildcards or not |
| `ComponentTree.DottedNamesCollide` | testbench/lib/1800.2-2020.3.1/src/base/uvm_component.svh:1947-1966 | for any two nonempty parts a and b there is a tree in which a.b below the root and b below a have one full name, and looking it up finds the second where the parts have no dot or wildcard |
| `ComponentTree.Tree.LookupInvertsFullName` | testbench/lib/1800.2-2020.3.1/src/base/uvm_component.svh:1972-2015 | looking up a component's full name from the root gives the component if and only if no name on the way to it has a dot or a wildcard |
| `ComponentTree.Tree.FoundIsGood` | testbench/lib/1800.2-2020.3.1/src/base/uvm_component.svh:1972-2015 | whatever is looked up, only components with such names are found |
| `ComponentTree.Tree.AbsoluteLookup` | testbench/lib/1800.2-2020.3.1/src/base/uvm_component.svh:1996-1999 | with a dot in front the same from any component |
| `ComponentTree.Tree.FindSnoc` | testbench/lib/1800.2-2020.3.1/src/base/uvm_component.svh:2001-2013 | looking up a longer path goes on from what the shorter finds |
| `ComponentTree.Tree.RejectsMalformed` | testbench/lib/1800.2-2020.3.1/src/base/uvm_component.svh:1987-1992 | a string with *, ? or two dots in a row anywhere finds nothing |
| `ComponentTree.DecimalDenotes` | testbench/lib/1800.2-2020.3.1/src/base/uvm_component.svh:1729-1733 | the instance count in a generated name is written in decimal without leading zeros |
| `ComponentTree.Tree.DepthCountsDots` | testbench/lib/1800.2-2020.3.1/src/base/uvm_component.svh:2021-2035 | one more than the dots in the full name is the tree depth plus the dots inside names |
| `ComponentTree.Tree.New` | testbench/lib/1800.2-2020.3.1/src/base/uvm_component.svh:1729-1833 | under any name the component is linked below its parent, or nothing changes when the name is taken; an empty name is replaced by a generated one |
| `ComponentTree.Tree.Lookup` | testbench/lib/1800.2-2020.3.1/src/base/uvm_component.svh:1972-2015 | the recursive lookup with its rejection of malformed strings |
| `ComponentTree.Tree.GetDepth` | testbench/lib/1800.2-2020.3.1/src/base/uvm_component.svh:2021-2035 | the loop gives one more than the dots, which is the tree depth if and only if no name on the way has a dot |
| `ComponentTree.Tree.ExtractName` | testbench/lib/1800.2-2020.3.1/src/base/uvm_component.svh:2041-2063 | the part before the first dot and the part behind it |
| `ComponentTree.NameParts` | testbench/lib/1800.2-2020.3.1/src/base/uvm_component.svh:2041-2063 | these two parts with the dot between them are the string, and the first has no dot |
| `ChunkedRead.ChunkIsExtension` | testbench/lib/1800.2-2020.3.1/src/dpi/uvm_hdl_polling.c:576-618 | each bit returned for a chunk is that bit of the zero- or sign-extended vector, for every size and both planes; a chunk beyond the end reads the last one |
| `ChunkedRead.ChunkBits` | testbench/lib/1800.2-2020.3.1/src/dpi/uvm_hdl_polling.c:576-618 | both planes: bit j of chunk c is bit j of word c below the size, and beyond it the value's top bit if it is signed, else 0 |
| `ChunkedRead.MaskBits` | testbench/lib/1800.2-2020.3.1/src/dpi/uvm_hdl_polling.c:547-548 | the mask has the bits up to the most significant one, also for sizes that are multiples of 32 |
| `ChunkedRead.GetValue32` | testbench/lib/1800.2-2020.3.1/src/dpi/uvm_hdl_polling.c:576-618 | the masking and sign extension on both planes; nothing for a negative chunk |
| `ChunkedRead.MakeProbe` | testbench/lib/1800.2-2020.3.1/src/dpi/uvm_hdl_polling.c:543-548 | the most significant bit and mask of a signal |
| `Splitting.JoinInvertsSplit` | testbench/lib/1800.2-2020.3.1/src/base/uvm_globals.svh:568-586 | joining the pieces gives the input back and no piece holds the separator |
| `Splitting.SplitInvertsJoin` | testbench/lib/1800.2-2020.3.1/src/base/uvm_globals.svh:568-586 | splitting a joined list of separator-free pieces gives the list |
| `Splitting.StringSplit` | testbench/lib/1800.2-2020.3.1/src/base/uvm_globals.svh:568-586 | all the pieces in order |
| `Splitting.SplitString` | testbench/lib/1800.2-2020.3.1/src/base/uvm_globals.svh:539-558 | exactly the pieces that are not empty, in order |
| `Splitting.NonEmptyJoin` | testbench/lib/1800.2-2020.3.1/src/base/uvm_globals.svh:539-558 | dropping the empty pieces keeps every other piece in its place |

## Left out

- SpiSystem.EndToEnd: modes 1 to 3 and words shorter than 8 bits, because the slave implements mode 0 with 8-bit words and the monitor reads past the last capture edge in other modes; a reset in the middle of a trace; X and Z on the pins, real-valued delays and delays below one clk period.
- SpiMonitor.MonitorRunPhase: GPIO drivers and monitors, scoreboard and stimulus files, which only forward items.
- PollingProtocol.NoLostNotification: the case where no notifier is set up, simulator restart and deallocation, and the simulator calls that place and remove value-change callbacks.
- Packer.Packer.PackElements: reports and the two flags that only choose them; a size larger than the array is the only error that changes what is packed.
- Packer.Packer.GetPackedWords: exporting after an import, which starts 64 bits in although an import starts at bit 0.
- Packer.Packer.UnpackString: strings of a given length, which skip one more character without looking at it.
- PackerCodec.PackerRoundTrip: object packing with metadata, which rests on field operations that are not part of this model; strings without metadata, which do not end.
- Deglob.DeglobPreservesMeaning: compiling and executing expressions, where a string is matched as the standard says; an escaped closing bracket, which the standard leaves undefined, is read as the character itself.
- Deglob.Convert: the error text that a failing call leaves in the buffer, and whatever follows a write past it.
- FactoryOverrides.LogRefinesMap: type aliases, and two types of one name; the proxy of a named type is identified with the name.
- FactoryResolution.ResolutionIsFinal: usage counts, debug passes and reports.
- Factory.Factory.FindOverrideByType: requests on which the search does not end have no result to state; FactoryResolution.SearchEnds says which these are.
- Factory.Factory.FindOverrideByName: the same.
- CallbackQueues.NoDuplicates: registration checks, which only warn; deleting from an object that never had a queue, which dereferences null.
- Callbacks.Registry.NextEnabled: iterating backwards, and the collection of all callbacks of an object.
- BarrierProtocol.BarrierConservation: callbacks on the barrier's own event, copying barriers, and the delta delay by which the last process to arrive goes on after the others, which is the order of the released list.
- HdlStrings.ForceReadBack: the simulator calls around printing and parsing, sizes above the maximum, and the compile-time choice to clear the words first, which is the empty word the lemma starts from.
- ComponentTree.Tree.New: creation without a parent, which stands for the root, or under the root's reserved name; phases, domains, configuration and messages.
- ChunkedRead.GetValue32: bad handles, and chunk numbers so large that 32 times the number overflows an int.
- The configuration database, phases, domains, comparer, copier, cache, heartbeat and command line: they would only add easy members or rest on files that are not part of this model.
