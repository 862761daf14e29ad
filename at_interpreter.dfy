/**
 * The AT command interpreter of `at.c`: a 128-byte accumulator that the
 * main loop fills from the UART ring buffer, classifies, clears and then
 * answers.
 *
 * The hardware and console calls become an output trace of `Event`s; the
 * LED level that `HAL_GPIO_ReadPin` would return is an input.
 */
module AtInterpreter {

  import opened RingBuffers
  import opened AtCommands
  import opened AtParse
  import opened CTypes

  /** `AT_COMMAND_BUFFER_SIZE`. */
  const CommandBufferSize: nat := 128

  /** `GPIO_PinState`: the HAL gives `GPIO_PIN_RESET` the value 0 and `GPIO_PIN_SET` the value 1. */
  datatype PinState = PinReset | PinSet

  function PinValue(s: PinState): (n: nat)
    ensures n < 2 && (n == 1 <==> s == PinSet)
  {
    if s == PinSet then 1 else 0
  }

  /** One observable action: console output, a HAL delay, an LED write, a reset or a UART re-init. */
  datatype Event = Print(text: string) | Delay(ms: nat) | WritePin(level: PinState) | SystemReset | UartInit

  const OkLine: string := "[OK]\r\n"
  const HelpLedOnLine: string := "'AT+LED_ON=<0, 1>' - Command to Disable (0) \\ Enable (1) LED on your NUCLEO.\r\n"
  const HelpResetLine: string := "'AT+RESET' - Perform Reset of the device\r\n"

  /** `printf("%u", n)` for a single decimal digit. */
  function DigitChar(n: nat): (c: char)
    requires n < 10
    ensures IsDigit(c) && c as int - '0' as int == n
  {
    ('0' as int + n) as char
  }

  /** `printf("[ERROR:%u]\r\n", code)`: the code's number as the one digit between the brackets. */
  function ErrorLine(e: ErrorCode): (line: string)
    ensures |line| == 11 && line[..7] == "[ERROR:" && line[8..] == "]\r\n"
    ensures IsDigit(line[7]) && line[7] as int - '0' as int == ErrorValue(e)
  {
    "[ERROR:" + [DigitChar(ErrorValue(e))] + "]\r\n"
  }

  /** Different error codes print different lines. */
  lemma ErrorLinesDiffer(e: ErrorCode, f: ErrorCode)
    requires ErrorLine(e) == ErrorLine(f)
    ensures e == f
  {
    assert ErrorLine(e)[7] == ErrorLine(f)[7];
    ErrorValueRoundTrip(e, ErrorValue(f));
  }

  /**
   * What `at_command_execute(c, t, param)` emits. Every path ends with the
   * blank end-of-transmission line, except RESET, whose system reset does not
   * return.
   */
  function Response(c: Command, t: OperationType, param: Uint8, pin: PinState): (ev: seq<Event>)
    ensures ev != [] && UartInit !in ev
    ensures SystemReset in ev <==> c == Reset && t == Execute
    ensures SystemReset in ev ==> ev[|ev| - 1] == SystemReset
    ensures SystemReset !in ev ==> ev[|ev| - 1] == Print("\r\n")
    // the LED is written only by a SET of 0 or 1, and to that level
    ensures WritePin(PinSet) in ev <==> c == LedOn && t == Set && param == 1
    ensures WritePin(PinReset) in ev <==> c == LedOn && t == Set && param == 0
  {
    match c
    case LedOn =>
      (if t == Get then [Print([DigitChar(PinValue(pin))] + "\r\n" + OkLine)]
       else if t == Set then
         if param == 1 || param == 0 then [WritePin(if param == 1 then PinSet else PinReset), Print(OkLine)]
         else [Print(ErrorLine(WrongParameterToCommand))]
       else [])
      + [Print("\r\n")]
    case Reset =>
      if t == Execute then [Print(OkLine + "\r\n"), Delay(25), SystemReset] else [Print("\r\n")]
    case Help =>
      [Print(HelpLedOnLine), Delay(15), Print(HelpResetLine), Delay(15), Print(OkLine), Print("\r\n")]
    case CommandNone =>
      [Print("\r\n")]
  }

  /** What the unknown-command path of `at_command_process` emits. */
  const UnknownCommandTrace: seq<Event> := [Print(ErrorLine(UnknownCommand) + "\r\n"), Delay(15), UartInit]

  /**
   * What one `at_command_process` emits once `text` has been accumulated: the
   * UART is re-initialised exactly when no signature occurs, and then nothing
   * else happens.
   */
  function CycleTrace(text: string, pin: PinState): (ev: seq<Event>)
    ensures UartInit in ev <==>
      !Contains(text, LedOnSignature()) && !Contains(text, ResetSignature()) && !Contains(text, HelpSignature())
    ensures UartInit in ev ==> ev == [Print("[ERROR:1]\r\n\r\n"), Delay(15), UartInit]
  {
    var p := Classify(text);
    assert DigitChar(ErrorValue(UnknownCommand)) == '1';
    assert ErrorLine(UnknownCommand) + "\r\n" == "[ERROR:1]\r\n\r\n";
    if p.command == CommandNone then UnknownCommandTrace
    else Response(p.command, p.opType, p.param, pin)
  }

  /** The LED level once the events of `ev` have happened, starting from `pin`. */
  function PinAfter(pin: PinState, ev: seq<Event>): PinState
    decreases |ev|
  {
    if ev == [] then pin
    else PinAfter(if ev[0].WritePin? then ev[0].level else pin, ev[1..])
  }

  /** The bytes the drain loop copies: those before the first zero byte. */
  function Drained(u: seq<bv8>): (d: seq<bv8>)
    ensures |d| <= |u| && d == u[..|d|]
    ensures 0 !in d
    ensures |d| == |u| || u[|d|] == 0
  {
    if u == [] || u[0] == 0 then [] else [u[0]] + Drained(u[1..])
  }

  /** What the drain leaves unread: it also consumes the zero byte that stopped it. */
  function Leftover(u: seq<bv8>): seq<bv8> {
    if |Drained(u)| < |u| then u[|Drained(u)| + 1..] else []
  }

  /**
   * The rest of the drain loop once `ch` has been read and the ring is `r`:
   * the bytes still copied, then the ring left behind.
   */
  function DrainFrom(ch: bv8, r: Ring): (res: (seq<bv8>, Ring))
    requires Wf(r)
    ensures Wf(res.1) && |res.1.storage| == |r.storage|
    ensures 0 !in res.0
    decreases |Unread(r)|, if ch == 0 then 0 else 1
  {
    if ch == 0 then ([], r)
    else
      ReadTakesOldest(r);
      var (c, r1) := AfterRead(r);
      var (rest, last) := DrainFrom(c, r1);
      ([ch] + rest, last)
  }

  /** `at_copy_command_to_buffer` on the ring alone: what it copies and the ring it leaves. */
  function Drain(r: Ring): (res: (seq<bv8>, Ring))
    requires Wf(r)
    ensures Wf(res.1) && |res.1.storage| == |r.storage|
    ensures 0 !in res.0
  {
    DrainFrom(AfterRead(r).0, AfterRead(r).1)
  }

  /** A non-zero byte in front is copied and changes nothing else. */
  lemma DrainedCons(ch: bv8, u: seq<bv8>)
    requires ch != 0
    ensures Drained([ch] + u) == [ch] + Drained(u)
    ensures Leftover([ch] + u) == Leftover(u)
  {
    var v := [ch] + u;
    assert v[1..] == u;
    if |Drained(u)| < |u| {
      assert v[|Drained(v)| + 1..] == u[|Drained(u)| + 1..];
    }
  }

  /** The drain loop, continued after reading `ch`, copies up to the first zero of `[ch] + Unread(r)`. */
  lemma {:induction false} DrainFromCopiesToZero(ch: bv8, r: Ring)
    requires Wf(r)
    ensures DrainFrom(ch, r).0 == Drained([ch] + Unread(r))
    ensures Unread(DrainFrom(ch, r).1) == Leftover([ch] + Unread(r))
    decreases |Unread(r)|, if ch == 0 then 0 else 1
  {
    if ch == 0 {
      assert ([ch] + Unread(r))[1..] == Unread(r);
    } else {
      ReadTakesOldest(r);
      var (c, r1) := AfterRead(r);
      DrainFromCopiesToZero(c, r1);
      DrainedCons(ch, Unread(r));
      if Unread(r) != [] {
        assert [c] + Unread(r1) == Unread(r);
      }
    }
  }

  /** One more turn of the drain loop, after reading the non-zero `ch`. */
  lemma DrainStep(ch: bv8, r: Ring, d: seq<bv8>, k: nat, last: Ring)
    requires Wf(r) && ch != 0 && k <= |d|
    requires DrainFrom(ch, r) == (d[k..], last)
    ensures k < |d| && d[k] == ch
    ensures DrainFrom(AfterRead(r).0, AfterRead(r).1) == (d[k + 1..], last)
  {
    assert d[k..] == [ch] + DrainFrom(AfterRead(r).0, AfterRead(r).1).0;
    assert d[k + 1..] == d[k..][1..];
  }

  /**
   * The drain copies exactly the unread bytes before the first zero byte, and
   * consumes them together with that zero.
   */
  lemma DrainCopiesToZero(r: Ring)
    requires Wf(r)
    ensures Drain(r).0 == Drained(Unread(r))
    ensures Unread(Drain(r).1) == Leftover(Unread(r))
  {
    ReadTakesOldest(r);
    var (c, r1) := AfterRead(r);
    DrainFromCopiesToZero(c, r1);
    if Unread(r) != [] {
      assert [c] + Unread(r1) == Unread(r);
    }
  }

  /** A `uint8_t` stored into a `char` (unsigned on the target). */
  function ByteToChar(b: bv8): (c: char)
    ensures c == '\0' <==> b == 0
  {
    (b as int) as char
  }

  /** The bytes copied into the `char` accumulator, one character each. */
  function Chars(bs: seq<bv8>): (s: string)
    ensures |s| == |bs|
    ensures '\0' in s <==> 0 in bs
    decreases |bs|
  {
    if bs == [] then [] else [ByteToChar(bs[0])] + Chars(bs[1..])
  }

  /** Copying one more byte appends one more character. */
  lemma {:induction false} CharsSnoc(bs: seq<bv8>, b: bv8)
    ensures Chars(bs + [b]) == Chars(bs) + [ByteToChar(b)]
    decreases |bs|
  {
    if bs != [] {
      assert (bs + [b])[1..] == bs[1..] + [b];
      CharsSnoc(bs[1..], b);
    }
  }

  /**
   * The interpreter's state: the static accumulator `at_command_buffer` and
   * the ring buffer bound by `at_command_init`.
   */
  class CommandInterpreter {
    const buffer: array<char>
    var length: nat
    const uart: Ringbuffer

    /**
     * The accumulator holds `length` non-NUL characters and zeros after them,
     * so it is always the NUL-terminated string `Text()`.
     */
    ghost predicate Valid()
      reads this, buffer, uart, uart.buffer
    {
      && buffer.Length == CommandBufferSize
      && length < CommandBufferSize
      && '\0' !in buffer[..length]
      && (forall i :: length <= i < CommandBufferSize ==> buffer[i] == '\0')
      && uart.Valid()
      && buffer as object != uart.buffer
    }

    ghost function Text(): string
      reads this, buffer
      requires length <= buffer.Length
    {
      buffer[..length]
    }

    /** The zero-initialised static accumulator, bound to `uart` as `at_command_init` does. */
    constructor (uart: Ringbuffer)
      requires uart.Valid()
      ensures Valid() && this.uart == uart && fresh(buffer)
      ensures length == 0 && Text() == []
    {
      buffer := new char[CommandBufferSize](_ => '\0');
      length := 0;
      this.uart := uart;
    }

    /** `at_command_buffer[at_command_length++] = ch`. */
    method Append(c: char)
      requires buffer.Length == CommandBufferSize && length + 1 < CommandBufferSize
      modifies this`length, buffer
      ensures length == old(length) + 1
      ensures buffer[..length] == old(buffer[..length]) + [c]
      ensures forall i :: length <= i < CommandBufferSize ==> buffer[i] == old(buffer[i])
    {
      buffer[length] := c;
      length := length + 1;
    }

    /**
     * One turn of the copy loop: the nonzero byte `ch`, the `k`-th of the
     * `d` bytes the drain copies, is appended and the next byte is read.
     */
    method CopyStep(ch: bv8, ghost d: seq<bv8>, ghost k: nat, ghost last: Ring, ghost text0: string) returns (next: bv8)
      requires Valid() && ch != 0 && |text0| + |d| < CommandBufferSize
      requires k <= |d| && length == |text0| + k
      requires DrainFrom(ch, uart.State()) == (d[k..], last)
      requires buffer[..length] == text0 + Chars(d[..k])
      modifies this`length, buffer, uart`tail
      ensures Valid() && k < |d| && length == |text0| + k + 1
      ensures DrainFrom(next, uart.State()) == (d[k + 1..], last)
      ensures buffer[..length] == text0 + Chars(d[..k + 1])
    {
      DrainStep(ch, uart.State(), d, k, last);
      var c := ByteToChar(ch);
      CharsSnoc(d[..k], ch);
      assert d[..k + 1] == d[..k] + [ch];
      assert text0 + Chars(d[..k + 1]) == (text0 + Chars(d[..k])) + [c];
      Append(c);
      next := uart.Read();
    }

    /**
     * `at_copy_command_to_buffer`: reads until the ring buffer yields a zero,
     * appending every byte read before it. The source does not bound `length`;
     * the precondition keeps the copy inside the array with a NUL after it.
     */
    method CopyCommandToBuffer()
      requires Valid()
      requires length + |Drain(uart.State()).0| < CommandBufferSize
      modifies this`length, buffer, uart`tail
      ensures Valid()
      ensures Text() == old(Text()) + Chars(Drain(old(uart.State())).0)
      ensures uart.State() == Drain(old(uart.State())).1
    {
      ghost var (d, last) := Drain(uart.State());
      ghost var text0 := Text();
      ghost var k := 0;
      var ch := uart.Read();
      while ch != 0
        invariant Valid()
        invariant 0 <= k <= |d| && length == |text0| + k
        invariant DrainFrom(ch, uart.State()) == (d[k..], last)
        invariant buffer[..length] == text0 + Chars(d[..k])
        decreases |d| - k
      {
        ch := CopyStep(ch, d, k, last, text0);
        k := k + 1;
      }
      assert d[..k] == d;
    }

    /**
     * `at_command_process`: drain, classify, clear the accumulator, then
     * answer. The accumulator always ends all zeros with `length` 0, although
     * only its first `length` bytes are cleared.
     */
    method Process(pin: PinState) returns (events: seq<Event>)
      requires Valid()
      requires length + |Drain(uart.State()).0| < CommandBufferSize
      modifies this`length, buffer, uart`tail
      ensures Valid() && length == 0
      ensures forall i :: 0 <= i < buffer.Length ==> buffer[i] == '\0'
      ensures uart.State() == Drain(old(uart.State())).1
      ensures events == CycleTrace(old(Text()) + Chars(Drain(old(uart.State())).0), pin)
    {
      CopyCommandToBuffer();
      var p := Classify(buffer[..length]);
      ghost var text := Text();
      Clear();
      if p.command != CommandNone {
        events := ExecuteCommand(p.command, p.opType, p.param, pin);
      } else {
        events := UnknownCommandTrace;
      }
      assert events == CycleTrace(text, pin);
    }

    /** `memset(at_command_buffer, 0, at_command_length); at_command_length = 0`. */
    method Clear()
      requires buffer.Length == CommandBufferSize && length < CommandBufferSize
      requires forall i :: length <= i < CommandBufferSize ==> buffer[i] == '\0'
      modifies this`length, buffer
      ensures length == 0
      ensures forall i :: 0 <= i < CommandBufferSize ==> buffer[i] == '\0'
    {
      var i := 0;
      while i < length
        invariant 0 <= i <= length < CommandBufferSize
        invariant forall j :: 0 <= j < i ==> buffer[j] == '\0'
        invariant forall j :: length <= j < CommandBufferSize ==> buffer[j] == '\0'
      {
        buffer[i] := '\0';
        i := i + 1;
      }
      length := 0;
    }
  }

  /** The level a SET of `v` (0 or 1) writes. */
  function LevelOf(v: nat): (s: PinState)
    requires v < 2
    ensures PinValue(s) == v
  {
    if v == 1 then PinSet else PinReset
  }

  /** A single decimal digit is read back as its value. */
  lemma StrToUlOfDigit(v: nat)
    requires v < 10
    ensures StrToUl([DigitChar(v)]) == v
  {
    var d := [DigitChar(v)];
    assert d[..0] == [];
    assert DecimalValue(d) == v;
    assert d + [] == d;
    StrToUlOfDigits(d, []);
  }

  /** A SET of 0 or 1 answers with a write of that level and an acknowledgement. */
  lemma SetResponse(v: nat, pin: PinState)
    requires v < 2
    ensures Response(LedOn, Set, v, pin) == [WritePin(LevelOf(v)), Print(OkLine), Print("\r\n")]
  {
    assert Response(LedOn, Set, v, pin) == [WritePin(LevelOf(v)), Print(OkLine)] + [Print("\r\n")];
  }

  /** Only the write in an acknowledged SET moves the LED. */
  lemma PinAfterSet(pin: PinState, level: PinState)
    ensures PinAfter(pin, [WritePin(level), Print(OkLine), Print("\r\n")]) == level
  {
    var ev := [WritePin(level), Print(OkLine), Print("\r\n")];
    assert ev[1..][1..] == ev[2..] && ev[2..][1..] == [];
    calc {
      PinAfter(pin, ev);
      PinAfter(level, ev[1..]);
      PinAfter(level, ev[2..]);
      PinAfter(level, []);
    }
  }

  /** Text that starts with the LED signature is answered as a GET (`?` next) or as a SET of what `strtoul` reads. */
  lemma LedOnCycle(rest: string, pin: PinState)
    ensures CycleTrace(LedOnSignature() + rest, pin) ==
      if rest != [] && rest[0] == '?' then Response(LedOn, Get, 0, pin)
      else Response(LedOn, Set, ToUint8(StrToUl(rest)), pin)
  {
    ClassifyLedOnCommand(rest);
  }

  /** `AT+LED_ON=0` and `AT+LED_ON=1` write that level and acknowledge. */
  lemma SetWritesLevel(v: nat, pin: PinState)
    requires v < 2
    ensures CycleTrace(LedOnSignature() + [DigitChar(v)], pin) == [WritePin(LevelOf(v)), Print(OkLine), Print("\r\n")]
    ensures PinAfter(pin, CycleTrace(LedOnSignature() + [DigitChar(v)], pin)) == LevelOf(v)
  {
    var rest := [DigitChar(v)];
    LedOnCycle(rest, pin);
    StrToUlOfDigit(v);
    assert rest[0] != '?' && ToUint8(StrToUl(rest)) == v;
    var ev := CycleTrace(LedOnSignature() + rest, pin);
    assert ev == Response(LedOn, Set, v, pin);
    SetResponse(v, pin);
    PinAfterSet(pin, LevelOf(v));
  }

  /** `AT+LED_ON=?` reports the LED level as one digit and acknowledges. */
  lemma GetReportsLevel(pin: PinState)
    ensures CycleTrace(LedOnSignature() + "?", pin) == [Print([DigitChar(PinValue(pin))] + "\r\n" + OkLine), Print("\r\n")]
  {
    LedOnCycle("?", pin);
    assert CycleTrace(LedOnSignature() + "?", pin) == Response(LedOn, Get, 0, pin);
  }

  /** A SET of 0 or 1 followed by a GET reports the level just written. */
  lemma SetThenGet(v: nat, pin: PinState)
    requires v < 2
    ensures var pin' := PinAfter(pin, CycleTrace(LedOnSignature() + [DigitChar(v)], pin));
      CycleTrace(LedOnSignature() + "?", pin') == [Print([DigitChar(v)] + "\r\n" + OkLine), Print("\r\n")]
  {
    SetWritesLevel(v, pin);
    GetReportsLevel(LevelOf(v));
  }

  /** A SET of anything but 0 or 1 is rejected with error 2 and leaves the LED alone. */
  lemma SetRejects(param: Uint8, pin: PinState)
    requires param != 0 && param != 1
    ensures Response(LedOn, Set, param, pin) == [Print("[ERROR:2]\r\n"), Print("\r\n")]
  {
    assert DigitChar(ErrorValue(WrongParameterToCommand)) == '2';
    assert ErrorLine(WrongParameterToCommand) == "[ERROR:2]\r\n";
  }

  /** A digit other than 0 and 1 is rejected with error 2. */
  lemma SetOutOfRange(v: nat, pin: PinState)
    requires 2 <= v < 10
    ensures CycleTrace(LedOnSignature() + [DigitChar(v)], pin) == [Print("[ERROR:2]\r\n"), Print("\r\n")]
  {
    var rest := [DigitChar(v)];
    LedOnCycle(rest, pin);
    StrToUlOfDigit(v);
    assert rest[0] != '?' && ToUint8(StrToUl(rest)) == v;
    SetRejects(v, pin);
  }

  /** `AT+LED_ON=256` wraps to 0 and switches the LED off. */
  lemma WrappedParameterSwitchesOff(pin: PinState)
    ensures CycleTrace(LedOnSignature() + "256", pin) == [WritePin(PinReset), Print(OkLine), Print("\r\n")]
  {
    ParameterWrapsToZero();
    SetResponse(0, pin);
  }

  /** `AT+LED_ON=-1` is read as 255 and rejected with error 2. */
  lemma NegativeParameterRejected(pin: PinState)
    ensures CycleTrace(LedOnSignature() + "-1", pin) == [Print("[ERROR:2]\r\n"), Print("\r\n")]
  {
    NegativeParameterWraps();
    SetRejects(255, pin);
  }

  /**
   * A parameter that `strtoul` cannot read at all (nothing, or text that does
   * not start with a digit, a sign or white space) is taken as 0: the LED is
   * switched off and the command is acknowledged.
   */
  lemma NonNumericParameterSwitchesOff(rest: string, pin: PinState)
    requires rest == [] || (!IsDigit(rest[0]) && !IsSpace(rest[0]) && rest[0] != '+' && rest[0] != '-' && rest[0] != '?')
    ensures CycleTrace(LedOnSignature() + rest, pin) == [WritePin(PinReset), Print(OkLine), Print("\r\n")]
  {
    LedOnCycle(rest, pin);
    StrToUlOfNonNumeric(rest);
    assert CycleTrace(LedOnSignature() + rest, pin) == Response(LedOn, Set, 0, pin);
    SetResponse(0, pin);
  }

  /** `AT+RESET` acknowledges, waits 25 ms and resets the device. */
  lemma ResetCommand(pin: PinState)
    ensures CycleTrace(ResetSignature(), pin) == [Print("[OK]\r\n\r\n"), Delay(25), SystemReset]
  {
    var t := ResetSignature();
    assert OccursAt(t, t, 0);
    assert !Contains(t, LedOnSignature());
    assert Classify(t) == Parsed(Reset, Execute, 0);
    assert CycleTrace(t, pin) == Response(Reset, Execute, 0, pin);
    assert OkLine + "\r\n" == "[OK]\r\n\r\n";
  }

  /** `AT+HELP` prints the two help lines, 15 ms apart, and acknowledges. */
  lemma HelpCommand(pin: PinState)
    ensures CycleTrace(HelpSignature(), pin) ==
      [Print(HelpLedOnLine), Delay(15), Print(HelpResetLine), Delay(15), Print(OkLine), Print("\r\n")]
  {
    var t := HelpSignature();
    assert OccursAt(t, t, 0);
    assert !Contains(t, LedOnSignature());
    assert !Contains(t, ResetSignature());
    assert Classify(t) == Parsed(Help, Execute, 0);
    assert CycleTrace(t, pin) == Response(Help, Execute, 0, pin);
  }

  /** An empty accumulator is an unknown command: error 1, then the UART is re-initialised. */
  lemma EmptyIsUnknown(pin: PinState)
    ensures CycleTrace([], pin) == [Print("[ERROR:1]\r\n\r\n"), Delay(15), UartInit]
  {
    ClassifyEmpty();
  }

  /** `at_command_execute`, one output at a time; the system reset does not return. */
  method ExecuteCommand(c: Command, t: OperationType, param: Uint8, pin: PinState) returns (events: seq<Event>)
    ensures events == Response(c, t, param, pin)
  {
    events := [];
    match c {
      case LedOn =>
        if t == Get {
          events := events + [Print([DigitChar(PinValue(pin))] + "\r\n" + OkLine)];
        } else if t == Set {
          if param == 1 || param == 0 {
            events := events + [WritePin(if param == 1 then PinSet else PinReset)];
            events := events + [Print(OkLine)];
          } else {
            events := events + [Print(ErrorLine(WrongParameterToCommand))];
          }
        }
      case Reset =>
        if t == Execute {
          events := events + [Print(OkLine + "\r\n")];
          events := events + [Delay(25)];
          events := events + [SystemReset];
          return;
        }
      case Help =>
        events := events + [Print(HelpLedOnLine)];
        events := events + [Delay(15)];
        events := events + [Print(HelpResetLine)];
        events := events + [Delay(15)];
        events := events + [Print(OkLine)];
      case CommandNone =>
    }
    events := events + [Print("\r\n")];
  }
}
