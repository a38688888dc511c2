/**
 * The panic handler that reports over the DCC: it renders
 *
 *   panicked at '<payload>', <file>:<line>:<column>\n
 *
 * through `Writer`, leaving out the location segment when there is none and
 * writing `dyn Any` for a payload that is not text, and then halts.
 */
module PanicDcc {
  import opened Dcc

  datatype Option<T> = None | Some(value: T)

  /** Where the panic happened, as reported by the compiler. */
  datatype Location = Location(file: seq<u8>, line: u32, column: u32)

  const NEWLINE: u8 := 0x0A
  const COLON: u8 := 0x3A
  const QUOTE: u8 := 0x27
  const ZERO: u8 := 0x30

  predicate IsDigit(b: u8) {
    ZERO <= b <= 0x39
  }

  predicate AllDigits(s: seq<u8>) {
    forall i :: 0 <= i < |s| ==> IsDigit(s[i])
  }

  function Digit(d: nat): (b: u8)
    requires d < 10
    ensures IsDigit(b) && DigitValue(b) == d
  {
    (0x30 + d) as u8
  }

  function DigitValue(b: u8): nat
    requires IsDigit(b)
  {
    (b - ZERO) as nat
  }

  function Pow10(k: nat): (p: nat)
    ensures p >= 1
  {
    if k == 0 then 1 else 10 * Pow10(k - 1)
  }

  /** Decimal rendering of an unsigned integer: digits only, most significant
      first, no leading zero, and exactly as many digits as `n` needs. */
  function Decimal(n: nat): (d: seq<u8>)
    ensures 1 <= |d| && AllDigits(d)
    ensures d[0] == ZERO <==> n == 0
  {
    if n < 10 then [Digit(n)] else Decimal(n / 10) + [Digit(n % 10)]
  }

  /** Reads a string of decimal digits back as a number. */
  function ParseDecimal(d: seq<u8>): nat
    requires AllDigits(d)
  {
    if d == [] then 0
    else ParseDecimal(d[..|d| - 1]) * 10 + DigitValue(d[|d| - 1])
  }

  lemma {:induction false} DecimalRoundTrip(n: nat)
    ensures ParseDecimal(Decimal(n)) == n
  {
    if n >= 10 {
      var d := Decimal(n);
      assert d[..|d| - 1] == Decimal(n / 10);
      DecimalRoundTrip(n / 10);
    }
  }

  /** `Decimal(n)` has exactly as many digits as `n` needs. */
  lemma {:induction false} DecimalLength(n: nat)
    ensures n < Pow10(|Decimal(n)|)
    ensures |Decimal(n)| == 1 || Pow10(|Decimal(n)| - 1) <= n
  {
    if n >= 10 {
      DecimalLength(n / 10);
    }
  }

  /** A 32-bit value never takes more than ten digits. */
  lemma DecimalU32Width(n: u32)
    ensures |Decimal(n as nat)| <= 10
  {
    var d := Decimal(n as nat);
    DecimalLength(n as nat);
    if |d| > 10 {
      Pow10Monotone(10, |d| - 1);
    }
  }

  lemma {:induction false} Pow10Monotone(j: nat, k: nat)
    requires j <= k
    ensures Pow10(j) <= Pow10(k)
  {
    if j < k {
      Pow10Monotone(j, k - 1);
    }
  }

  /** The fixed fragments of the report, as ASCII bytes. */
  const PREFIX: seq<u8> := [0x70, 0x61, 0x6E, 0x69, 0x63, 0x6B, 0x65, 0x64, 0x20, 0x61, 0x74, 0x20, 0x27] // "panicked at '"
  const DYN_ANY: seq<u8> := [0x64, 0x79, 0x6E, 0x20, 0x41, 0x6E, 0x79] // "dyn Any"
  const SEPARATOR: seq<u8> := [0x2C, 0x20] // ", "

  /** The payload as printed: its text, or `dyn Any` when it is not text. */
  function PayloadText(payload: Option<seq<u8>>): seq<u8>
  {
    match payload
    case Some(s) => s
    case None => DYN_ANY
  }

  /** The location segment: `, file:line:column`, or nothing at all. */
  function LocationText(loc: Option<Location>): seq<u8>
  {
    match loc
    case None => []
    case Some(l) =>
      SEPARATOR + l.file + [COLON] + Decimal(l.line as nat) + [COLON] + Decimal(l.column as nat)
  }

  /** The whole report the panic handler sends. */
  function PanicMessage(payload: Option<seq<u8>>, loc: Option<Location>): seq<u8>
  {
    PREFIX + PayloadText(payload) + [QUOTE] + LocationText(loc) + [NEWLINE]
  }

  /** The report's five parts, grouped as the first two and the rest. */
  lemma Regroup5(a: seq<u8>, t: seq<u8>, q: u8, l: seq<u8>, n: u8)
    ensures a + t + [q] + l + [n] == a + t + ([q] + l + [n])
  {
  }

  /** Whatever the payload and location, the report opens with the fixed
      prefix and closes with a newline. */
  lemma MessageFrame(payload: Option<seq<u8>>, loc: Option<Location>)
    ensures var m := PanicMessage(payload, loc);
      && |m| >= |PREFIX| + 2
      && m[..|PREFIX|] == PREFIX
      && m[|m| - 1] == NEWLINE
  {
    var t, rest := PayloadText(payload), [QUOTE] + LocationText(loc) + [NEWLINE];
    Regroup5(PREFIX, t, QUOTE, LocationText(loc), NEWLINE);
    Frame(PREFIX, t + rest);
  }

  lemma Frame(a: seq<u8>, rest: seq<u8>)
    requires rest != []
    ensures (a + rest)[..|a|] == a
    ensures (a + rest)[|a + rest| - 1] == rest[|rest| - 1]
  {
  }

  /** The payload text comes right after the prefix and is closed by a quote. */
  lemma PayloadFollowsPrefix(payload: Option<seq<u8>>, loc: Option<Location>)
    ensures var m, t := PanicMessage(payload, loc), if payload.Some? then payload.value else DYN_ANY;
      && |m| > |PREFIX| + |t|
      && m[|PREFIX|..|PREFIX| + |t|] == t
      && m[|PREFIX| + |t|] == QUOTE
  {
    var t := PayloadText(payload);
    Regroup5(PREFIX, t, QUOTE, LocationText(loc), NEWLINE);
    Slices(PREFIX, t, [QUOTE] + LocationText(loc) + [NEWLINE]);
  }

  lemma Slices(a: seq<u8>, t: seq<u8>, rest: seq<u8>)
    requires rest != []
    ensures |a + t + rest| > |a| + |t|
    ensures (a + t + rest)[|a|..|a| + |t|] == t
    ensures (a + t + rest)[|a| + |t|] == rest[0]
  {
  }

  /** Without a location the quote is followed directly by the newline: no
      comma, no space, nothing of the location segment. */
  lemma NoLocationNoSegment(payload: Option<seq<u8>>)
    ensures var m := PanicMessage(payload, None);
      && |m| == |PREFIX| + |PayloadText(payload)| + 2
      && m[|m| - 2] == QUOTE
  {
  }

  /** A location adds exactly its segment, between the closing quote and the
      newline, to the report without one. */
  lemma LocationInserted(payload: Option<seq<u8>>, l: Location)
    ensures var bare := PanicMessage(payload, None);
      PanicMessage(payload, Some(l)) == bare[..|bare| - 1] + LocationText(Some(l)) + [NEWLINE]
  {
    var bare := PanicMessage(payload, None);
    assert bare[..|bare| - 1] == PREFIX + PayloadText(payload) + [QUOTE];
  }

  predicate NoNewline(s: seq<u8>) {
    forall i :: 0 <= i < |s| ==> s[i] != NEWLINE
  }

  /** When neither the payload nor the file name holds a newline, the report
      holds exactly one, as its last byte. */
  lemma SingleNewline(payload: Option<seq<u8>>, loc: Option<Location>)
    requires payload.Some? ==> NoNewline(payload.value)
    requires loc.Some? ==> NoNewline(loc.value.file)
    ensures var m := PanicMessage(payload, loc);
      m[|m| - 1] == NEWLINE && NoNewline(m[..|m| - 1])
  {
    var opening := PREFIX + PayloadText(payload);
    assert NoNewline(PREFIX);
    assert NoNewline(PayloadText(payload));
    NoNewlineConcat(PREFIX, PayloadText(payload));
    NoNewlineConcat(opening, [QUOTE]);
    LocationNoNewline(loc);
    NoNewlineConcat(opening + [QUOTE], LocationText(loc));
    LastByte(opening + [QUOTE] + LocationText(loc), NEWLINE);
  }

  lemma NoNewlineConcat(a: seq<u8>, b: seq<u8>)
    requires NoNewline(a) && NoNewline(b)
    ensures NoNewline(a + b)
  {
    assert forall i :: 0 <= i < |a + b| ==> (a + b)[i] == (if i < |a| then a[i] else b[i - |a|]);
  }

  lemma LastByte(body: seq<u8>, b: u8)
    ensures (body + [b])[|body + [b]| - 1] == b
    ensures (body + [b])[..|body + [b]| - 1] == body
  {
  }

  /** The location segment never holds a newline unless its file name does. */
  lemma LocationNoNewline(loc: Option<Location>)
    requires loc.Some? ==> NoNewline(loc.value.file)
    ensures NoNewline(LocationText(loc))
  {
    if loc.Some? {
      var l := loc.value;
      var line, col := Decimal(l.line as nat), Decimal(l.column as nat);
      assert NoNewline(SEPARATOR) && NoNewline([COLON]);
      assert NoNewline(line) && NoNewline(col);
      NoNewlineConcat(SEPARATOR, l.file);
      NoNewlineConcat(SEPARATOR + l.file, [COLON]);
      NoNewlineConcat(SEPARATOR + l.file + [COLON], line);
      NoNewlineConcat(SEPARATOR + l.file + [COLON] + line, [COLON]);
      NoNewlineConcat(SEPARATOR + l.file + [COLON] + line + [COLON], col);
    }
  }

  /** The number of decimal digits at the end of `s`. */
  function TrailingDigits(s: seq<u8>): (k: nat)
    ensures k <= |s| && AllDigits(s[|s| - k..])
    ensures k < |s| ==> !IsDigit(s[|s| - k - 1])
  {
    if s == [] || !IsDigit(s[|s| - 1]) then 0
    else
      var k := 1 + TrailingDigits(s[..|s| - 1]);
      DigitsSnoc(s, k);
      k
  }

  lemma DigitsSnoc(s: seq<u8>, k: nat)
    requires 1 <= k <= |s| && IsDigit(s[|s| - 1])
    requires AllDigits(s[..|s| - 1][|s| - k..])
    ensures AllDigits(s[|s| - k..])
  {
    assert s[|s| - k..] == s[..|s| - 1][|s| - k..] + [s[|s| - 1]];
  }

  lemma {:induction false} TrailingDigitsOf(p: seq<u8>, d: seq<u8>)
    requires AllDigits(d)
    requires p != [] && !IsDigit(p[|p| - 1])
    ensures TrailingDigits(p + d) == |d|
  {
    if d != [] {
      assert (p + d)[..|p + d| - 1] == p + d[..|d| - 1];
      TrailingDigitsOf(p, d[..|d| - 1]);
    }
  }

  /** Splits `text:digits` into the text before the colon and the number. */
  function SplitNumber(s: seq<u8>): (r: Option<(seq<u8>, nat)>)
    ensures r.Some? ==> |r.value.0| < |s|
  {
    var k := TrailingDigits(s);
    if k == 0 || k == |s| || s[|s| - k - 1] != COLON then None
    else Some((s[..|s| - k - 1], ParseDecimal(s[|s| - k..])))
  }

  lemma SplitNumberOf(head: seq<u8>, d: seq<u8>)
    requires AllDigits(d) && d != []
    ensures SplitNumber(head + [COLON] + d) == Some((head, ParseDecimal(d)))
  {
    var s := head + [COLON] + d;
    TrailingDigitsOf(head + [COLON], d);
    assert s[|s| - |d| - 1] == COLON;
    assert s[..|s| - |d| - 1] == head;
    assert s[|s| - |d|..] == d;
  }

  /** A reader of the report's tail: the line and column numbers, when the
      report ends in `:line:column` and a newline. */
  function LineAndColumn(m: seq<u8>): Option<(nat, nat)>
  {
    if m == [] || m[|m| - 1] != NEWLINE then None
    else
      match SplitNumber(m[..|m| - 1])
      case None => None
      case Some((rest, column)) =>
        match SplitNumber(rest)
        case None => None
        case Some((_, line)) => Some((line, column))
  }

  /** Any text ending in `:line:column` and a newline reads back as those
      two numbers. */
  lemma ReadTail(head: seq<u8>, line: seq<u8>, col: seq<u8>)
    requires AllDigits(line) && AllDigits(col) && line != [] && col != []
    ensures LineAndColumn(head + [COLON] + line + [COLON] + col + [NEWLINE])
         == Some((ParseDecimal(line), ParseDecimal(col)))
  {
    var m := head + [COLON] + line + [COLON] + col + [NEWLINE];
    assert m[..|m| - 1] == (head + [COLON] + line) + [COLON] + col;
    SplitNumberOf(head + [COLON] + line, col);
    SplitNumberOf(head, line);
  }

  /** The report carries its location's line and column in a form that reads
      back exactly, whatever the payload and file name hold. */
  lemma LineAndColumnRecovered(payload: Option<seq<u8>>, l: Location)
    ensures LineAndColumn(PanicMessage(payload, Some(l))) == Some((l.line as nat, l.column as nat))
  {
    var line, col := Decimal(l.line as nat), Decimal(l.column as nat);
    var opening := PREFIX + PayloadText(payload) + [QUOTE];
    var head := opening + SEPARATOR + l.file;
    Regroup(opening, SEPARATOR, l.file, line, col);
    ReadTail(head, line, col);
    DecimalRoundTrip(l.line as nat);
    DecimalRoundTrip(l.column as nat);
  }

  lemma Regroup(x: seq<u8>, a: seq<u8>, f: seq<u8>, line: seq<u8>, col: seq<u8>)
    ensures x + (a + f + [COLON] + line + [COLON] + col) + [NEWLINE]
         == (x + a + f) + [COLON] + line + [COLON] + col + [NEWLINE]
  {
  }

  /** Without a location there is nothing to read back. */
  lemma NoLineAndColumn(payload: Option<seq<u8>>)
    ensures LineAndColumn(PanicMessage(payload, None)) == None
  {
    var m := PanicMessage(payload, None);
    assert m[..|m| - 1][|m| - 2] == QUOTE;
  }

  const OOPS: seq<u8> := [0x4F, 0x6F, 0x70, 0x73] // "Oops"
  const HELLO_RS: seq<u8> := [0x73, 0x72, 0x63, 0x2F, 0x68, 0x65, 0x6C, 0x6C, 0x6F, 0x2E, 0x72, 0x73] // "src/hello.rs"

  /** The example from the crate's documentation: a panic with payload
      `Oops` at `src/hello.rs:4:4` reports
      "panicked at 'Oops', src/hello.rs:4:4\n", that is the prefix, `Oops`,
      "', ", the file name and ":4:4\n". */
  lemma HelloExample()
    ensures PanicMessage(Some(OOPS), Some(Location(HELLO_RS, 4, 4)))
         == PREFIX + OOPS + ([0x27, 0x2C, 0x20] + HELLO_RS + [0x3A, 0x34, 0x3A, 0x34, 0x0A])
  {
    var tail := [0x27, 0x2C, 0x20] + HELLO_RS + [0x3A, 0x34, 0x3A, 0x34, 0x0A];
    HelloTail(tail);
    Regroup5(PREFIX, OOPS, QUOTE, LocationText(Some(Location(HELLO_RS, 4, 4))), NEWLINE);
  }

  lemma HelloTail(tail: seq<u8>)
    requires tail == [0x27, 0x2C, 0x20] + HELLO_RS + [0x3A, 0x34, 0x3A, 0x34, 0x0A]
    ensures [QUOTE] + LocationText(Some(Location(HELLO_RS, 4, 4))) + [NEWLINE] == tail
  {
    assert Decimal(4) == [0x34];
  }

  /** The `#[panic_handler]`: writes the report through `Writer`, ignoring
      each (impossible) error, then halts. */
  method Panic(w: Writer, payload: Option<seq<u8>>, loc: Option<Location>)
    requires w.dcc.Valid() && !w.dcc.halted
    modifies w.dcc
    ensures w.dcc.Valid() && w.dcc.halted
    ensures w.dcc.Words() == old(w.dcc.Words()) + Transmitted(w.dcc.backend, PanicMessage(payload, loc))
    ensures Grows(w.dcc.backend, old(w.dcc.trace), w.dcc.trace)
  {
    var ok: Result<Never>;
    ghost var backend, start := w.dcc.backend, w.dcc.Words();
    ghost var first, seen := w.dcc.trace, w.dcc.trace;

    ok := w.WriteStr(PREFIX);
    GrowsTrans(backend, first, seen, w.dcc.trace);
    seen := w.dcc.trace;
    ghost var sent := PREFIX;
    assert w.dcc.Words() == start + Transmitted(backend, sent);
    match payload {
      case Some(s) =>
        ok := w.WriteStr(s);
        GrowsTrans(backend, first, seen, w.dcc.trace);
        seen := w.dcc.trace;
      case None =>
        ok := w.WriteStr(DYN_ANY);
        GrowsTrans(backend, first, seen, w.dcc.trace);
        seen := w.dcc.trace;
    }
    Extend(backend, start, sent, PayloadText(payload));
    sent := sent + PayloadText(payload);
    assert w.dcc.Words() == start + Transmitted(backend, sent);
    ok := w.WriteStr([QUOTE]);
    GrowsTrans(backend, first, seen, w.dcc.trace);
    seen := w.dcc.trace;
    Extend(backend, start, sent, [QUOTE]);
    sent := sent + [QUOTE];
    assert w.dcc.Words() == start + Transmitted(backend, sent);

    WriteLocation(w, loc);
    GrowsTrans(backend, first, seen, w.dcc.trace);
    seen := w.dcc.trace;
    Extend(backend, start, sent, LocationText(loc));
    sent := sent + LocationText(loc);
    assert w.dcc.Words() == start + Transmitted(backend, sent);

    ok := w.WriteStr([NEWLINE]);
    GrowsTrans(backend, first, seen, w.dcc.trace);
    seen := w.dcc.trace;
    Extend(backend, start, sent, [NEWLINE]);
    sent := sent + [NEWLINE];
    assert sent == PanicMessage(payload, loc);
    assert w.dcc.Words() == start + Transmitted(backend, PanicMessage(payload, loc));

    Halt(w.dcc);
  }

  /** The location segment `, file:line:column`, written only when the
      location is known. */
  method WriteLocation(w: Writer, loc: Option<Location>)
    requires w.dcc.Valid() && !w.dcc.halted
    modifies w.dcc
    ensures w.dcc.Valid() && !w.dcc.halted
    ensures w.dcc.Words() == old(w.dcc.Words()) + Transmitted(w.dcc.backend, LocationText(loc))
    ensures Grows(w.dcc.backend, old(w.dcc.trace), w.dcc.trace)
  {
    var ok: Result<Never>;
    ghost var backend := w.dcc.backend;
    ghost var first, seen := w.dcc.trace, w.dcc.trace;
    match loc {
      case None =>
      case Some(l) =>
        ghost var here := w.dcc.Words();
        ok := w.WriteStr(SEPARATOR);
        GrowsTrans(backend, first, seen, w.dcc.trace);
        seen := w.dcc.trace;
        ghost var segment := SEPARATOR;
        ok := w.WriteStr(l.file);
        GrowsTrans(backend, first, seen, w.dcc.trace);
        seen := w.dcc.trace;
        Extend(backend, here, segment, l.file);
        segment := segment + l.file;
        ok := w.WriteStr([COLON]);
        GrowsTrans(backend, first, seen, w.dcc.trace);
        seen := w.dcc.trace;
        Extend(backend, here, segment, [COLON]);
        segment := segment + [COLON];
        ok := w.WriteStr(Decimal(l.line as nat));
        GrowsTrans(backend, first, seen, w.dcc.trace);
        seen := w.dcc.trace;
        Extend(backend, here, segment, Decimal(l.line as nat));
        segment := segment + Decimal(l.line as nat);
        ok := w.WriteStr([COLON]);
        GrowsTrans(backend, first, seen, w.dcc.trace);
        seen := w.dcc.trace;
        Extend(backend, here, segment, [COLON]);
        segment := segment + [COLON];
        ok := w.WriteStr(Decimal(l.column as nat));
        GrowsTrans(backend, first, seen, w.dcc.trace);
        seen := w.dcc.trace;
        Extend(backend, here, segment, Decimal(l.column as nat));
        segment := segment + Decimal(l.column as nat);
        assert segment == LocationText(loc);
        assert w.dcc.Words() == here + Transmitted(backend, LocationText(loc));
    }
  }

  /** The handler's final `loop {}`: the channel is left as it is and no
      register is accessed afterwards. */
  method Halt(ch: Channel)
    requires ch.Valid()
    modifies ch
    ensures ch.Valid() && ch.halted
    ensures ch.Words() == old(ch.Words()) && ch.trace == old(ch.trace)
  {
    ch.halted := true;
  }

  /** Writing `s` after `sent` puts the same words on the wire as writing
      `sent + s` at once. */
  lemma Extend(backend: Backend, start: seq<u32>, sent: seq<u8>, s: seq<u8>)
    ensures start + Transmitted(backend, sent) + Transmitted(backend, s)
         == start + Transmitted(backend, sent + s)
  {
    TransmittedConcat(backend, sent, s);
  }
}
