# arm-dcc in Dafny

A model of `arm-dcc` and `panic-dcc`. They send bytes from an ARM core to a
debugger host over the Debug Communications Channel (DCC), and report panics
that way. The DCC side follows the debug registers described in chapter C11 of
the ARMv7-A/R Architecture Reference Manual.

`dcc.dfy` (module `Dcc`) models `src/lib.rs`:

- `Channel` is the register pair seen from the core. It holds the TXfull flag
  (bit 29 of the status register, `1 << 29`), DBGDTRTX, and the host that
  drains it. Ghost state records the words the host has received and every
  register access in order.
- `Channel.ReadStatus` and `Channel.WriteData` are the `MRC` and `MCR`
  instructions.
- `Write` is `write`, for both the `nop` and the `inline-asm` builds. The
  `inline-asm` build is the busy-polling loop over the status register.
- `WriteAll` and `WriteStr` are `write_all` and `write_str`.
- `Writer.WriteStr` is the `uWrite` sink. Like the source, it goes through
  the crate-level `WriteStr`.
- `Grows` says that a trace only gains register accesses, and gains none in
  the `nop` build. Every writing method promises it.
- `Words()` is every word the channel has accepted, in order. The host-side
  reader `LowBytes` is the partner of the byte-to-word widening.

`panic_dcc.dfy` (module `PanicDcc`) models `panic/src/lib.rs`:

- `PanicMessage` is the exact report as a function of the payload (`None`
  when it is not text) and the optional location.
- `Decimal` is the rendering of a `u32`.
- `LineAndColumn` is a reader of the report's tail, used to show that the
  numbers read back.
- `Panic` is the panic handler. It performs the handler's sequence of writes
  and then halts. It is proved to put the bytes of `PanicMessage` on the
  wire, each widened to a word, or nothing in the `nop` build.

Strings are their UTF-8 bytes (`seq<u8>`). The fixed fragments are ASCII byte
constants, each commented with its text.

## Model

| member | source | states |
|---|---|---|
| Dcc.StatusValue | src/lib.rs:125-134 | the status value reads as free (`r & (1 << 29) == 0`) exactly when TXfull is clear; the other bits are untouched |
| Dcc.Channel.ReadStatus | src/lib.rs:131 | a status read is possible only before the halt; it logs itself in the trace and never changes the words accepted; it reports free exactly when TXfull is clear; while TXfull stays set, the host's drain countdown strictly decreases |
| Dcc.Channel.WriteData | src/lib.rs:136 | a data write is allowed only right after a read that saw TXfull clear; it appends exactly its word to the words accepted |
| Dcc.Write | src/lib.rs:117-138 | `nop` build: no register access and no word; `inline-asm` build: the trace grows by reads that saw TXfull set, then one read that saw it clear, then the write of `word`; exactly one word, `word`, is appended; earlier accesses are kept |
| Dcc.GrowsPrefix | src/lib.rs:121-122 | a trace that grows keeps every earlier access as its prefix, and in the `nop` build it is unchanged |
| Dcc.GrowsTrans | src/lib.rs:153-155 | growth composes, so a sequence of writes only adds to the trace |
| Dcc.TransferGrows | src/lib.rs:129-136 | a blocking transfer only adds accesses after the earlier trace |
| Dcc.TransferOf | src/lib.rs:129-136 | busy reads, then a free read, then a data write form one complete blocking transfer of that word after the earlier trace |
| Dcc.WidenZeroExtends | src/lib.rs:152-154 | each widened word has its byte's value, so every word sent by `write_all` is below 256 |
| Dcc.WidenConcat | src/lib.rs:153-155 | widening a concatenation is the concatenation of the widenings |
| Dcc.LowBytesWiden | src/lib.rs:150-155 | the host recovers exactly the bytes written: nothing dropped, duplicated, reordered or altered |
| Dcc.TransmittedConcat | src/lib.rs:153-155 | writing two byte strings one after the other puts the same words on the wire as writing their concatenation |
| Dcc.TransmittedStep | src/lib.rs:154 | one more byte of the slice adds exactly its widened word, or nothing in the `nop` build |
| Dcc.WriteAll | src/lib.rs:153-155 | the words accepted grow by exactly one widened word per byte, in order; an empty slice leaves them unchanged; earlier register accesses are kept, and `nop` makes none and adds nothing |
| Dcc.WriteStr | src/lib.rs:158-160 | appends exactly the string's bytes, widened, in order; earlier accesses are kept, and `nop` makes none |
| Dcc.Writer.WriteStr | src/lib.rs:103-109 | always returns `Ok` and appends exactly the string's bytes, widened; earlier accesses are kept, and `nop` makes none |
| PanicDcc.Halt | panic/src/lib.rs:107-112 | the channel is left halted with the words and trace unchanged; every register access requires a channel that is not halted |
| PanicDcc.Decimal | panic/src/lib.rs:100-102 | decimal rendering is non-empty, all digits, and starts with `0` only for zero |
| PanicDcc.DecimalRoundTrip | panic/src/lib.rs:100-102 | the rendered digits read back as the number |
| PanicDcc.DecimalLength | panic/src/lib.rs:100-102 | the rendering has exactly as many digits as the number needs |
| PanicDcc.DecimalU32Width | panic/src/lib.rs:100-102 | a `u32` line or column takes at most ten digits |
| PanicDcc.MessageFrame | panic/src/lib.rs:86-105 | every report starts with `panicked at '` and ends with a newline |
| PanicDcc.PayloadFollowsPrefix | panic/src/lib.rs:86-94 | right after the prefix comes the payload text, or `dyn Any` when the payload is not text, and then the closing quote |
| PanicDcc.NoLocationNoSegment | panic/src/lib.rs:94-105 | without a location the closing quote is followed directly by the newline, so no comma and no part of the segment appears |
| PanicDcc.LocationInserted | panic/src/lib.rs:96-103 | a location inserts exactly `, file:line:column` between the closing quote and the newline |
| PanicDcc.LocationNoNewline | panic/src/lib.rs:96-103 | the location segment holds no newline unless the file name does |
| PanicDcc.SingleNewline | panic/src/lib.rs:86-105 | when neither the payload nor the file name holds a newline, the report holds exactly one newline, as its last byte |
| PanicDcc.LineAndColumnRecovered | panic/src/lib.rs:96-105 | whatever the payload and file name, the line and column read back exactly from the report's tail |
| PanicDcc.NoLineAndColumn | panic/src/lib.rs:94-105 | a report without a location carries no `:line:column` tail |
| PanicDcc.HelloExample | panic/src/lib.rs:46 | payload `Oops` at `src/hello.rs:4:4` gives `panicked at 'Oops', src/hello.rs:4:4` and a newline |
| PanicDcc.WriteLocation | panic/src/lib.rs:96-103 | with a location, appends exactly `, file:line:column`, widened; without one, nothing; earlier accesses are kept |
| PanicDcc.Panic | panic/src/lib.rs:78-113 | the handler appends exactly the bytes of `PanicMessage`, widened (nothing in the `nop` build), keeps every earlier register access and then halts |

## Left out

- The FFI build of `write`, which calls the externally assembled `__dcc_write` (src/lib.rs:139-146), is not modelled. Its body is not visible. `Backend` has only the `nop` and `inline-asm` variants.
- The non-ARM `unimplemented!()` arm of `write` (src/lib.rs:119-120) is a build-configuration artefact and is not modelled.
- The `dprint!`/`dprintln!` macros are not modelled. They only forward to the external `ufmt` macros.
- `ufmt` (`Formatter`, `uDisplay`) is not part of this model. The formatter passes each fragment on to `Writer`, and `Decimal` is this model's own specification of how a `u32` is rendered.
- The host is assumed to drain DBGDTRTX after at most `drainLatency` status reads. The hardware promises no such bound. Without it the busy-wait loop has no termination measure.
- Bits of the status register other than bit 29 are fixed when the `Channel` is constructed. The core never looks at them.
- `Halt`: the final `loop {}` is not modelled as a loop. It is a ghost `halted` flag that every later write requires to be clear. The `compiler_fence` inside the loop is an optimiser concern and is left out.
- `Writer.WriteStr`: `Infallible` cannot be written as an empty type here. The error type is a one-value placeholder `Never`, and the method promises `r == Ok` instead.
- `PanicInfo` and the payload's `downcast_ref::<&str>()` are not modelled. The payload is an `Option` of bytes, with `None` standing for a payload that is not a string.
- `Writer` is a zero-sized struct in the source. Here it holds a reference to the one `Channel` it writes to.
