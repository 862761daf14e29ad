/**
 * The classification step of `at_command_process` (`at.c`): an unanchored
 * substring search for each command signature in a fixed priority order,
 * then, for the LED command, either a query mark or a decimal parameter read
 * with `strtoul` and truncated to `uint8_t`.
 *
 * The accumulated text is the NUL-terminated string held by the command
 * buffer, given here as the characters before the terminator.
 */
module AtParse {

  import opened Wrappers
  import opened AtCommands
  import opened CTypes

  /** `pat` occurs in `text` starting at index `i`. */
  predicate OccursAt(text: string, pat: string, i: nat) {
    i + |pat| <= |text| && text[i..i + |pat|] == pat
  }

  /** `pat` occurs somewhere in `text`. */
  ghost predicate Contains(text: string, pat: string) {
    exists i: nat :: OccursAt(text, pat, i)
  }

  /** The first occurrence of `pat` in `text` at or after `from`. */
  function FindFrom(text: string, pat: string, from: nat): (r: Option<nat>)
    ensures r.Some? ==> from <= r.value && OccursAt(text, pat, r.value)
    ensures forall j: nat :: from <= j && (r.None? || j < r.value) ==> !OccursAt(text, pat, j)
    decreases |text| - from
  {
    if from + |pat| > |text| then None
    else if text[from..from + |pat|] == pat then Some(from)
    else FindFrom(text, pat, from + 1)
  }

  /** `strstr(text, pat)`, as the index of the match it points to. */
  function StrStr(text: string, pat: string): (r: Option<nat>)
    ensures r.Some? <==> Contains(text, pat)
    ensures r.Some? ==> OccursAt(text, pat, r.value)
    ensures r.Some? ==> forall j: nat :: j < r.value ==> !OccursAt(text, pat, j)
  {
    FindFrom(text, pat, 0)
  }

  /** `unsigned long` on the 32-bit target. */
  const UlongMax: nat := 0xFFFF_FFFF

  /** `isspace` in the C locale. */
  predicate IsSpace(c: char) {
    c == ' ' || c == '\t' || c == '\n' || c == '\r' || c == '\U{B}' || c == '\U{C}'
  }

  predicate IsDigit(c: char) {
    '0' <= c <= '9'
  }

  predicate AllDigits(s: string) {
    forall i :: 0 <= i < |s| ==> IsDigit(s[i])
  }

  /** `s` without its leading white space. */
  function SkipSpace(s: string): (t: string)
    ensures |t| <= |s| && t == s[|s| - |t|..]
    ensures forall i :: 0 <= i < |s| - |t| ==> IsSpace(s[i])
    ensures t == [] || !IsSpace(t[0])
  {
    if s != [] && IsSpace(s[0]) then SkipSpace(s[1..]) else s
  }

  /** The longest run of decimal digits at the start of `s`. */
  function DigitRun(s: string): (d: string)
    ensures |d| <= |s| && d == s[..|d|]
    ensures AllDigits(d)
    ensures |d| == |s| || !IsDigit(s[|d|])
  {
    if s != [] && IsDigit(s[0]) then [s[0]] + DigitRun(s[1..]) else []
  }

  /** 10 to the power `n`. */
  function Pow10(n: nat): (r: nat)
    ensures r >= 1
  {
    if n == 0 then 1 else 10 * Pow10(n - 1)
  }

  /** The number a run of decimal digits spells: `n` digits spell less than 10^n. */
  function DecimalValue(d: string): (v: nat)
    requires AllDigits(d)
    ensures v < Pow10(|d|)
    decreases |d|
  {
    if d == [] then 0 else DecimalValue(d[..|d| - 1]) * 10 + (d[|d| - 1] as int - '0' as int)
  }

  /**
   * `strtoul(s, NULL, 10)`: leading white space, an optional sign, then the
   * digits; no digits gives 0, a magnitude above `ULONG_MAX` gives `ULONG_MAX`,
   * and a minus sign negates modulo 2^32.
   */
  function StrToUl(s: string): (v: nat)
    ensures v <= UlongMax
  {
    Convert(SkipSpace(s))
  }

  /** The conversion once the white space is skipped: an optional sign, then the digits. */
  function Convert(t: string): (v: nat)
    ensures v <= UlongMax
  {
    var negative := t != [] && t[0] == '-';
    var u := if t != [] && (t[0] == '+' || t[0] == '-') then t[1..] else t;
    var d := DigitRun(u);
    if d == [] then 0
    else
      var m := DecimalValue(d);
      if m > UlongMax then UlongMax
      // -m modulo 2^32
      else if negative then (if m == 0 then 0 else UlongMax + 1 - m)
      else m
  }

  /** The digit run of `d + rest` is `d` when `rest` does not go on with a digit. */
  lemma {:induction false} DigitRunOfDigits(d: string, rest: string)
    requires AllDigits(d)
    requires rest == [] || !IsDigit(rest[0])
    ensures DigitRun(d + rest) == d
  {
    if d == [] {
      assert d + rest == rest;
    } else {
      assert (d + rest)[0] == d[0] && (d + rest)[1..] == d[1..] + rest;
      DigitRunOfDigits(d[1..], rest);
      assert [d[0]] + d[1..] == d;
    }
  }

  /** A plain run of digits is read as its value, saturated at `ULONG_MAX`. */
  lemma StrToUlOfDigits(d: string, rest: string)
    requires d != [] && AllDigits(d)
    requires rest == [] || !IsDigit(rest[0])
    ensures StrToUl(d + rest) == if DecimalValue(d) > UlongMax then UlongMax else DecimalValue(d)
  {
    var s := d + rest;
    assert s[0] == d[0] && IsDigit(s[0]);
    assert SkipSpace(s) == s;
    assert !(s[0] == '+' || s[0] == '-');
    DigitRunOfDigits(d, rest);
  }

  /** Leading white space is skipped. */
  lemma StrToUlSkipsSpace(c: char, s: string)
    requires IsSpace(c)
    ensures StrToUl([c] + s) == StrToUl(s)
  {
    assert ([c] + s)[1..] == s;
  }

  /**
   * After a sign come the digits: `+` reads them as they are, and `-` negates
   * the value modulo 2^32 (unless the magnitude already saturates).
   */
  lemma StrToUlOfSigned(sign: char, d: string, rest: string)
    requires sign == '+' || sign == '-'
    requires d != [] && AllDigits(d)
    requires rest == [] || !IsDigit(rest[0])
    ensures sign == '+' ==> StrToUl([sign] + (d + rest)) == StrToUl(d + rest)
    ensures sign == '-' && DecimalValue(d) > UlongMax ==> StrToUl([sign] + (d + rest)) == UlongMax
    ensures sign == '-' && DecimalValue(d) <= UlongMax ==>
      StrToUl([sign] + (d + rest)) == if DecimalValue(d) == 0 then 0 else UlongMax + 1 - DecimalValue(d)
  {
    var s := [sign] + (d + rest);
    var m := DecimalValue(d);
    assert s[0] == sign && !IsSpace(sign);
    assert SkipSpace(s) == s;
    assert s[1..] == d + rest;
    DigitRunOfDigits(d, rest);
    StrToUlOfDigits(d, rest);
  }

  /** A sign that no digit follows converts nothing: the value is 0. */
  lemma StrToUlOfSignWithoutDigits(sign: char, rest: string)
    requires sign == '+' || sign == '-'
    requires rest == [] || !IsDigit(rest[0])
    ensures StrToUl([sign] + rest) == 0
  {
    var s := [sign] + rest;
    assert s[0] == sign && !IsSpace(sign);
    assert SkipSpace(s) == s;
    assert s[1..] == rest;
  }

  /** Text that does not start with a digit, a sign or white space is read as 0. */
  lemma StrToUlOfNonNumeric(s: string)
    requires s == [] || (!IsDigit(s[0]) && !IsSpace(s[0]) && s[0] != '+' && s[0] != '-')
    ensures StrToUl(s) == 0
  {
    assert SkipSpace(s) == s;
  }

  /** The result of classifying the accumulated text. */
  datatype Parsed = Parsed(command: Command, opType: OperationType, param: Uint8)

  /** The defaults `at_command_process` starts from. */
  const NothingParsed := Parsed(CommandNone, TypeNotSet, 0)

  /**
   * The `strstr` cascade: the LED signature wins whenever it occurs, RESET
   * whenever it occurs and the LED signature does not, HELP only when neither
   * does, wherever in the text each occurrence is.
   */
  function Classify(text: string): (p: Parsed)
    ensures p.command == LedOn <==> Contains(text, LedOnSignature())
    ensures p.command == Reset <==> !Contains(text, LedOnSignature()) && Contains(text, ResetSignature())
    ensures p.command == Help <==>
      !Contains(text, LedOnSignature()) && !Contains(text, ResetSignature()) && Contains(text, HelpSignature())
    ensures p.command == CommandNone <==> p == NothingParsed
    ensures p.command == Reset || p.command == Help ==> p.opType == Execute && p.param == 0
    // after the first LED signature: '?' means GET, anything else (end of text included)
    // is SET with the strtoul value truncated to eight bits
    ensures StrStr(text, LedOnSignature()).Some? ==>
      var i := StrStr(text, LedOnSignature()).value + |LedOnSignature()|;
      && i <= |text|
      && (p.opType == Get <==> i < |text| && text[i] == '?')
      && (p.opType == Get ==> p.param == 0)
      && (p.opType != Get ==> p.opType == Set && p.param == ToUint8(StrToUl(text[i..])))
  {
    var led := StrStr(text, LedOnSignature());
    if led.Some? then
      var i := led.value + |LedOnSignature()|;
      if i < |text| && text[i] == '?' then Parsed(LedOn, Get, 0)
      else Parsed(LedOn, Set, ToUint8(StrToUl(text[i..])))
    else if StrStr(text, ResetSignature()).Some? then Parsed(Reset, Execute, 0)
    else if StrStr(text, HelpSignature()).Some? then Parsed(Help, Execute, 0)
    else NothingParsed
  }

  /** Text that starts with the LED signature is classified by what follows it. */
  lemma ClassifyLedOnCommand(rest: string)
    ensures Classify(LedOnSignature() + rest) ==
      if rest != [] && rest[0] == '?' then Parsed(LedOn, Get, 0)
      else Parsed(LedOn, Set, ToUint8(StrToUl(rest)))
  {
    var text := LedOnSignature() + rest;
    assert OccursAt(text, LedOnSignature(), 0);
    assert StrStr(text, LedOnSignature()) == Some(0);
    assert text[|LedOnSignature()|..] == rest;
  }

  /** An empty buffer holds no command. */
  lemma ClassifyEmpty()
    ensures Classify([]) == NothingParsed
  {
  }

  /** The digits "257" and "256" spell 257 and 256. */
  lemma DecimalValuesOf25x()
    ensures DecimalValue("257") == 257 && DecimalValue("256") == 256
  {
    assert "2"[..0] == [];
    assert "25"[..1] == "2";
    assert "257"[..2] == "25" && "256"[..2] == "25";
  }

  /**
   * A decimal parameter selects SET with its value, saturated at `ULONG_MAX`
   * and then truncated to eight bits.
   */
  lemma ClassifyLedOnDecimal(d: string, rest: string)
    requires d != [] && AllDigits(d)
    requires rest == [] || !IsDigit(rest[0])
    ensures Classify(LedOnSignature() + (d + rest)) ==
      Parsed(LedOn, Set, ToUint8(if DecimalValue(d) > UlongMax then UlongMax else DecimalValue(d)))
  {
    ClassifyLedOnCommand(d + rest);
    StrToUlOfDigits(d, rest);
  }

  /** "AT+LED_ON=256" wraps to 0. */
  lemma ParameterWrapsToZero()
    ensures Classify(LedOnSignature() + "256") == Parsed(LedOn, Set, 0)
  {
    DecimalValuesOf25x();
    assert "256" + [] == "256";
    ClassifyLedOnDecimal("256", []);
  }

  /** "AT+LED_ON=-1" is read as 2^32 - 1 and truncated to 255. */
  lemma NegativeParameterWraps()
    ensures Classify(LedOnSignature() + "-1") == Parsed(LedOn, Set, 255)
  {
    var rest := "-1";
    assert StrToUl(rest) == UlongMax by {
      assert "1"[..0] == [];
      assert DecimalValue("1") == 1;
      assert rest == ['-'] + ("1" + []);
      StrToUlOfSigned('-', "1", []);
    }
    assert ToUint8(UlongMax) == 255;
    ClassifyLedOnCommand(rest);
  }

  /** The parameter is taken modulo 256: "AT+LED_ON=257" sets 1. */
  lemma ParameterWraps()
    ensures Classify(LedOnSignature() + "257") == Parsed(LedOn, Set, 1)
  {
    DecimalValuesOf25x();
    assert "257" + [] == "257";
    ClassifyLedOnDecimal("257", []);
  }
}
