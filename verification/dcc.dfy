/**
 * The ARM Debug Communications Channel (DCC) writer: one 32-bit word at a
 * time through the DBGDTRTX data register, gated by the TXfull bit (bit 29)
 * of the status register, as described with the debug registers in chapter
 * C11 of the ARMv7-A/R Architecture Reference Manual.
 *
 * The register pair and the host that drains it are modelled by the class
 * `Channel`; `Write`, `WriteAll` and `WriteStr` are the crate's free
 * functions, and `Writer` is the formatting sink built on them.
 */
module Dcc {

  newtype u8 = x: int | 0 <= x < 0x100
  newtype u32 = x: int | 0 <= x < 0x1_0000_0000

  /** The TXfull bit of the status register: set while DBGDTRTX holds a word
      the host has not yet read. */
  const TXFULL: bv32 := 1 << 29

  /** The build-time choice of how `Write` reaches the hardware. */
  datatype Backend =
    | Nop        // feature `nop`: every word is discarded
    | InlineAsm  // feature `inline-asm`: poll the status register, then write DBGDTRTX

  /** What the core does to the register pair, in program order. */
  datatype Event =
    | StatusRead(status: bv32)  // an MRC of the status register and the value it returned
    | DataWrite(word: u32)       // an MCR of a word into DBGDTRTX

  /** The status value observed "free": bit 29 clear. */
  predicate IsFree(status: bv32) {
    status & TXFULL == 0
  }

  /** The status register's value: TXfull as bit 29, the other bits as
      given. */
  function StatusValue(full: bool, other: bv32): (r: bv32)
    ensures IsFree(r) <==> !full
    ensures r & !TXFULL == other & !TXFULL
  {
    if full then other | TXFULL else other & !TXFULL
  }

  /** Every data write in `t` comes right after a status read that saw the
      channel free. */
  ghost predicate Handshaken(t: seq<Event>) {
    t != [] ==>
      && Handshaken(t[..|t| - 1])
      && (t[|t| - 1].DataWrite? ==> |t| >= 2 && t[|t| - 2].StatusRead? && IsFree(t[|t| - 2].status))
  }

  lemma HandshakenSnoc(t: seq<Event>, e: Event)
    requires Handshaken(t)
    requires e.DataWrite? ==> t != [] && t[|t| - 1].StatusRead? && IsFree(t[|t| - 1].status)
    ensures Handshaken(t + [e])
  {
    assert (t + [e])[..|t|] == t;
  }

  /** Status reads that all saw the channel full. */
  ghost predicate AllBusy(polls: seq<Event>) {
    forall i :: 0 <= i < |polls| ==> polls[i].StatusRead? && !IsFree(polls[i].status)
  }

  lemma AllBusySnoc(t: seq<Event>, polls: seq<Event>, r: bv32)
    requires AllBusy(polls) && !IsFree(r)
    ensures AllBusy(polls + [StatusRead(r)])
    ensures t + polls + [StatusRead(r)] == t + (polls + [StatusRead(r)])
  {
  }

  /** One blocking word transfer: reads that saw the channel full, one read
      that saw it free, then the write of `word`. */
  ghost predicate OneHandshake(t: seq<Event>, word: u32) {
    && |t| >= 2
    && t[|t| - 1] == DataWrite(word)
    && t[|t| - 2].StatusRead? && IsFree(t[|t| - 2].status)
    && AllBusy(t[..|t| - 2])
  }

  /** `after` is `before` followed by one blocking transfer of `word`. */
  ghost predicate Transfer(before: seq<Event>, after: seq<Event>, word: u32) {
    |after| >= |before| && after[..|before|] == before && OneHandshake(after[|before|..], word)
  }

  lemma TransferOf(before: seq<Event>, polls: seq<Event>, r: bv32, word: u32)
    requires AllBusy(polls) && IsFree(r)
    ensures Transfer(before, before + polls + [StatusRead(r)] + [DataWrite(word)], word)
  {
    var after := before + polls + [StatusRead(r)] + [DataWrite(word)];
    assert after[..|before|] == before;
    var t := after[|before|..];
    assert t == polls + [StatusRead(r), DataWrite(word)];
    assert t[..|t| - 2] == polls;
  }

  /** `after` is `before` followed by further register accesses, of which
      there are none in the `nop` build. */
  ghost predicate Grows(backend: Backend, before: seq<Event>, after: seq<Event>)
    decreases |after|
  {
    || after == before
    || (backend.InlineAsm? && |after| > |before| && Grows(backend, before, after[..|after| - 1]))
  }

  /** Growing keeps every earlier access, and under `nop` changes nothing. */
  lemma {:induction false} GrowsPrefix(backend: Backend, before: seq<Event>, after: seq<Event>)
    requires Grows(backend, before, after)
    ensures before <= after
    ensures backend.Nop? ==> after == before
  {
    if after != before {
      GrowsPrefix(backend, before, after[..|after| - 1]);
    }
  }

  /** Under `inline-asm`, any extension of the trace is growth. */
  lemma {:induction false} GrowsAppend(before: seq<Event>, added: seq<Event>)
    ensures Grows(InlineAsm, before, before + added)
  {
    if added != [] {
      assert (before + added)[..|before + added| - 1] == before + added[..|added| - 1];
      GrowsAppend(before, added[..|added| - 1]);
    }
  }

  lemma {:induction false} GrowsTrans(backend: Backend, a: seq<Event>, b: seq<Event>, c: seq<Event>)
    requires Grows(backend, a, b) && Grows(backend, b, c)
    ensures Grows(backend, a, c)
    decreases |c|
  {
    if c != b {
      GrowsTrans(backend, a, b, c[..|c| - 1]);
    }
  }

  /** A blocking transfer only adds to the trace. */
  lemma TransferGrows(before: seq<Event>, after: seq<Event>, word: u32)
    requires Transfer(before, after, word)
    ensures Grows(InlineAsm, before, after)
  {
    assert after == before + after[|before|..];
    GrowsAppend(before, after[|before|..]);
  }

  /** The words written into DBGDTRTX, in order. */
  ghost function Puts(t: seq<Event>): (ws: seq<u32>)
    ensures |ws| <= |t|
  {
    if t == [] then []
    else
      var last := t[|t| - 1];
      Puts(t[..|t| - 1]) + (if last.DataWrite? then [last.word] else [])
  }

  lemma PutsSnoc(t: seq<Event>, e: Event)
    ensures Puts(t + [e]) == Puts(t) + (if e.DataWrite? then [e.word] else [])
  {
    assert (t + [e])[..|t|] == t;
  }

  /** Zero-extension of each byte to a word, as `u32::from(byte)`. */
  function Widen(bytes: seq<u8>): (ws: seq<u32>)
    ensures |ws| == |bytes|
  {
    if bytes == [] then [] else [bytes[0] as u32] + Widen(bytes[1..])
  }

  /** Each word is its byte, zero-extended: the same value, below 256. */
  lemma {:induction false} WidenZeroExtends(bytes: seq<u8>)
    ensures forall i :: 0 <= i < |bytes| ==>
      Widen(bytes)[i] as int == bytes[i] as int && Widen(bytes)[i] < 256
  {
    if bytes != [] {
      WidenZeroExtends(bytes[1..]);
    }
  }

  lemma {:induction false} WidenConcat(a: seq<u8>, b: seq<u8>)
    ensures Widen(a + b) == Widen(a) + Widen(b)
  {
    if a == [] {
      assert a + b == b;
    } else {
      assert (a + b)[1..] == a[1..] + b;
      WidenConcat(a[1..], b);
    }
  }

  /** The host side: each received word rendered as the raw byte it carries
      (its low eight bits). */
  function LowBytes(ws: seq<u32>): (bytes: seq<u8>)
    ensures |bytes| == |ws|
  {
    if ws == [] then [] else [(ws[0] % 0x100) as u8] + LowBytes(ws[1..])
  }

  /** What the host reads back is exactly what was written: nothing dropped,
      duplicated, reordered or altered by the widening. */
  lemma {:induction false} LowBytesWiden(bytes: seq<u8>)
    ensures LowBytes(Widen(bytes)) == bytes
  {
    if bytes != [] {
      assert Widen(bytes)[1..] == Widen(bytes[1..]);
      LowBytesWiden(bytes[1..]);
    }
  }

  /** The words a byte string puts on the wire under `backend`. */
  function Transmitted(backend: Backend, bytes: seq<u8>): seq<u32>
  {
    if backend.Nop? then [] else Widen(bytes)
  }

  lemma TransmittedConcat(backend: Backend, a: seq<u8>, b: seq<u8>)
    ensures Transmitted(backend, a + b) == Transmitted(backend, a) + Transmitted(backend, b)
  {
    WidenConcat(a, b);
  }

  lemma TransmittedStep(backend: Backend, bytes: seq<u8>, i: nat)
    requires i < |bytes|
    ensures Transmitted(backend, bytes[..i + 1])
         == Transmitted(backend, bytes[..i]) + (if backend.Nop? then [] else [bytes[i] as u32])
  {
    assert bytes[..i + 1] == bytes[..i] + [bytes[i]];
    TransmittedConcat(backend, bytes[..i], [bytes[i]]);
  }

  /** One more byte written after the first `i` extends what was sent by the
      first `i + 1`. */
  lemma SentStep(backend: Backend, start: seq<u32>, before: seq<u32>, now: seq<u32>, bytes: seq<u8>, i: nat)
    requires i < |bytes|
    requires before == start + Transmitted(backend, bytes[..i])
    requires now == before + (if backend.Nop? then [] else [bytes[i] as u32])
    ensures now == start + Transmitted(backend, bytes[..i + 1])
  {
    TransmittedStep(backend, bytes, i);
  }

  /** The DCC register pair together with the host that drains it. */
  class Channel {
    const backend: Backend
    /** Status reads the host lets pass before it drains a pending word. */
    const drainLatency: nat

    /** TXfull, bit 29 of the status register. */
    var txFull: bool
    /** DBGDTRTX: the word most recently written. */
    var dtrtx: u32
    /** The other status bits; the core never relies on them. */
    var otherStatus: bv32
    /** Status reads left before the host drains the pending word. */
    var drainCountdown: nat

    /** The words the host has drained, in order. */
    ghost var log: seq<u32>
    /** Every register access made by the core, in order. */
    ghost var trace: seq<Event>
    /** Set once the panic handler has entered its halt loop. */
    ghost var halted: bool

    /** Every word the channel has accepted: drained ones, then the one still
        waiting in DBGDTRTX. */
    ghost function Words(): seq<u32>
      reads this
    {
      log + (if txFull then [dtrtx] else [])
    }

    ghost predicate LastReadFree()
      reads this
    {
      trace != [] && trace[|trace| - 1].StatusRead? && IsFree(trace[|trace| - 1].status)
    }

    ghost predicate Valid()
      reads this
    {
      && Puts(trace) == Words()
      && Handshaken(trace)
      && (LastReadFree() ==> !txFull)
    }

    constructor (backend: Backend, drainLatency: nat, otherStatus: bv32)
      ensures Valid() && !halted
      ensures this.backend == backend && this.drainLatency == drainLatency
      ensures Words() == [] && trace == []
    {
      this.backend := backend;
      this.drainLatency := drainLatency;
      txFull := false;
      dtrtx := 0;
      this.otherStatus := otherStatus;
      drainCountdown := 0;
      log := [];
      trace := [];
      halted := false;
    }

    /** `MRC p14, 0, r, c0, c1, 0`: read the status register. Between two
        reads the host may drain the pending word into its log. */
    method ReadStatus() returns (r: bv32)
      requires Valid() && !halted
      modifies this
      ensures Valid() && !halted
      ensures Words() == old(Words())
      ensures trace == old(trace) + [StatusRead(r)]
      ensures IsFree(r) <==> !txFull
      ensures txFull ==> old(txFull) && drainCountdown < old(drainCountdown)
      ensures |log| >= |old(log)|
    {
      if txFull {
        if drainCountdown == 0 {
          log := log + [dtrtx];
          txFull := false;
        } else {
          drainCountdown := drainCountdown - 1;
        }
      }
      r := StatusValue(txFull, otherStatus);
      PutsSnoc(trace, StatusRead(r));
      HandshakenSnoc(trace, StatusRead(r));
      trace := trace + [StatusRead(r)];
    }

    /** `MCR p14, 0, word, c0, c5, 0`: write DBGDTRTX. Allowed only right
        after a status read that saw TXfull clear. */
    method WriteData(word: u32)
      requires Valid() && !halted
      requires LastReadFree()
      modifies this
      ensures Valid() && !halted
      ensures Words() == old(Words()) + [word]
      ensures trace == old(trace) + [DataWrite(word)]
    {
      dtrtx := word;
      txFull := true;
      drainCountdown := drainLatency;
      PutsSnoc(trace, DataWrite(word));
      HandshakenSnoc(trace, DataWrite(word));
      trace := trace + [DataWrite(word)];
    }
  }

  /** `write`: send one word, blocking until the channel accepts it. */
  method Write(ch: Channel, word: u32)
    requires ch.Valid() && !ch.halted
    modifies ch
    ensures ch.Valid() && !ch.halted
    ensures ch.Words() == old(ch.Words()) + (if ch.backend.Nop? then [] else [word])
    ensures ch.backend.Nop? ==> ch.trace == old(ch.trace)
    ensures ch.backend.InlineAsm? ==> Transfer(old(ch.trace), ch.trace, word)
    ensures Grows(ch.backend, old(ch.trace), ch.trace)
  {
    match ch.backend
    case Nop =>
    case InlineAsm =>
      var r: bv32;
      ghost var polls: seq<Event> := [];
      while true
        invariant ch.Valid() && !ch.halted
        invariant ch.Words() == old(ch.Words())
        invariant ch.trace == old(ch.trace) + polls && AllBusy(polls)
        decreases if ch.txFull then ch.drainCountdown + 1 else 0
      {
        r := ch.ReadStatus();
        if IsFree(r) {
          break;
        }
        AllBusySnoc(old(ch.trace), polls, r);
        polls := polls + [StatusRead(r)];
      }
      ch.WriteData(word);
      TransferOf(old(ch.trace), polls, r, word);
      TransferGrows(old(ch.trace), ch.trace, word);
  }

  /** `write_all`: each byte, widened to a word, is written in order. */
  method WriteAll(ch: Channel, bytes: seq<u8>)
    requires ch.Valid() && !ch.halted
    modifies ch
    ensures ch.Valid() && !ch.halted
    ensures ch.Words() == old(ch.Words()) + Transmitted(ch.backend, bytes)
    ensures Grows(ch.backend, old(ch.trace), ch.trace)
  {
    var i := 0;
    while i < |bytes|
      invariant i <= |bytes|
      invariant ch.Valid() && !ch.halted
      invariant ch.Words() == old(ch.Words()) + Transmitted(ch.backend, bytes[..i])
      invariant Grows(ch.backend, old(ch.trace), ch.trace)
    {
      ghost var before, seen := ch.Words(), ch.trace;
      Write(ch, bytes[i] as u32);
      GrowsTrans(ch.backend, old(ch.trace), seen, ch.trace);
      SentStep(ch.backend, old(ch.Words()), before, ch.Words(), bytes, i);
      i := i + 1;
    }
    assert bytes[..|bytes|] == bytes;
  }

  /** `write_str`: the UTF-8 bytes of a string, in order. */
  method WriteStr(ch: Channel, s: seq<u8>)
    requires ch.Valid() && !ch.halted
    modifies ch
    ensures ch.Valid() && !ch.halted
    ensures ch.Words() == old(ch.Words()) + Transmitted(ch.backend, s)
    ensures Grows(ch.backend, old(ch.trace), ch.trace)
  {
    WriteAll(ch, s);
  }

  /** Stands in for `core::convert::Infallible`; no `Writer` operation ever
      produces one. */
  datatype Never = Never

  datatype Result<E> = Ok | Err(error: E)

  /** The formatting sink over the DCC. */
  class Writer {
    const dcc: Channel

    constructor (dcc: Channel)
      ensures this.dcc == dcc
    {
      this.dcc := dcc;
    }

    /** `uWrite::write_str`: writes the fragment and always succeeds. */
    method WriteStr(s: seq<u8>) returns (r: Result<Never>)
      requires dcc.Valid() && !dcc.halted
      modifies dcc
      ensures dcc.Valid() && !dcc.halted
      ensures dcc.Words() == old(dcc.Words()) + Transmitted(dcc.backend, s)
      ensures Grows(dcc.backend, old(dcc.trace), dcc.trace)
      ensures r == Ok
    {
      _default.WriteStr(dcc, s);
      r := Ok;
    }
  }
}
