# KallevaEmbeddedNotes core, modelled in Dafny

This project models four pieces of C code from the KallevaEmbeddedNotes
repository, and proves what they do:

- **UART ring buffer** (`ringbuffer.h`, `ringbuffer.dfy`). A fixed byte array
  with a write cursor `head` and a read cursor `tail`, both wrapping at `len`.
  `Ring` is the value view: `AfterWrite` and `AfterRead` say what one
  `ringbuffer_write` or `ringbuffer_read` does. The class `Ringbuffer` is the
  in-place version, proved against them. The lemmas cover:
  - FIFO order;
  - a stored zero byte reading exactly like "empty";
  - the silent loss of all unread bytes after a full lap of writes.
- **AT command interpreter** (`at.h`, `at.c`).
  - `at_commands.dfy` holds the enumerations, error codes and command
    signatures.
  - `at_parse.dfy` holds the classification step of `at_command_process`: the
    `strstr` cascade, the `?` test and `strtoul`, truncated to `uint8_t`.
  - `at_interpreter.dfy` holds the 128-byte accumulator as a class. Its
    methods are the drain loop `at_copy_command_to_buffer`, the `memset`
    clear, and `at_command_process`. `at_command_execute` is a method that
    emits a trace of events.
  - The HAL and `printf` calls become `Event`s, and the LED level read back
    from the pin is an input.
- **IMEI scanner** (`pcap_imei_parser.c`, `pcap_imei.dfy`).
  - The `parser` loop is a method over the byte stream. It is proved against
    the pure state machine `Step` / `Steps`.
  - `unique_imei_insert` is a method of the class `ImeiArray`. It does a
    linear search over a fixed array, then appends.
  - The three prefix bytes are a parameter. With the program's own prefix
    (all `0xFF`) no IMEI can ever be recorded, and the model proves it.
- **Integers in device memory** (`integers_in_device_memory.c`,
  `device_memory.dfy`):
  - the `*(uint32_t *)` loads of a little-endian target;
  - the two byte-swap macros;
  - the shift-and-mask field extractions;
  - every `assert` in `main`.

  `REVERSE_BYTES_INT` is modelled as written. The model proves exactly when
  it agrees with a true byte reversal.

Supporting modules are `CTypes` (`uint8_t` and the `(uint8_t)` cast) and
`Wrappers` (`Option`).

`AT+LED_ON=abc` is accepted. `strtoul` reads no digits and returns 0, so
the LED is switched off and `[OK]` is printed
(`AtInterpreter.NonNumericParameterSwitchesOff`).

## Model

| member | source | states |
|---|---|---|
| RingBuffers.Unread | Note002_SettingUpUART/SettingUpUART_NUCLEO-L476RG/Core/Inc/ringbuffer.h:19-21 | the buffer is empty exactly when `head == tail`, and fewer than `len` bytes are ever pending |
| RingBuffers.AfterWrite | Note002_SettingUpUART/SettingUpUART_NUCLEO-L476RG/Core/Inc/ringbuffer.h:14-17 | a write stores `x` at `head`, advances `head` by one (to 0 past the end), and changes neither `tail` nor any other slot; both cursors stay below `len` |
| RingBuffers.WriteQueues | Note002_SettingUpUART/SettingUpUART_NUCLEO-L476RG/Core/Inc/ringbuffer.h:14-17 | a write queues `x` behind the unread bytes; if it fills the last free slot, the buffer reads as empty |
| RingBuffers.AfterRead | Note002_SettingUpUART/SettingUpUART_NUCLEO-L476RG/Core/Inc/ringbuffer.h:20-24 | a read of an empty buffer keeps `tail`; otherwise `tail` advances by one (to 0 past the end). Storage and `head` never change, and both cursors stay below `len` |
| RingBuffers.ReadTakesOldest | Note002_SettingUpUART/SettingUpUART_NUCLEO-L476RG/Core/Inc/ringbuffer.h:19-24 | reading an empty buffer returns 0 and changes nothing; otherwise it returns the oldest unread byte and leaves the rest. It returns 0 exactly when the buffer is empty or the oldest byte is 0, and `tail` moves exactly when the buffer was not empty |
| RingBuffers.AfterWrites | Note002_SettingUpUART/SettingUpUART_NUCLEO-L476RG/Core/Inc/ringbuffer.h:14-17 | any number of writes keep the cursors in bounds and never move `tail` |
| RingBuffers.WritesQueue | Note002_SettingUpUART/SettingUpUART_NUCLEO-L476RG/Core/Inc/ringbuffer.h:14-17 | bytes written while there is room are queued after the unread ones, in order |
| RingBuffers.AfterReads | Note002_SettingUpUART/SettingUpUART_NUCLEO-L476RG/Core/Inc/ringbuffer.h:20-24 | `n` reads return `n` values and change neither the storage nor `head` |
| RingBuffers.ReadsTakeOldest | Note002_SettingUpUART/SettingUpUART_NUCLEO-L476RG/Core/Inc/ringbuffer.h:19-24 | `n` reads return the unread bytes in order, then zeros |
| RingBuffers.ReadsLeaveRest | Note002_SettingUpUART/SettingUpUART_NUCLEO-L476RG/Core/Inc/ringbuffer.h:21-23 | `n` reads leave exactly the unread bytes after the first `n` |
| RingBuffers.EmptyReadsLeaveRing | Note002_SettingUpUART/SettingUpUART_NUCLEO-L476RG/Core/Inc/ringbuffer.h:21 | reads from an empty buffer leave it unchanged |
| RingBuffers.Run | Note002_SettingUpUART/SettingUpUART_NUCLEO-L476RG/Core/Inc/ringbuffer.h:14-24 | after any sequence of writes and reads, `head < len` and `tail < len` |
| RingBuffers.AfterWritesAppend | Note002_SettingUpUART/SettingUpUART_NUCLEO-L476RG/Core/Inc/ringbuffer.h:14-17 | writing `a` and then `b` is the same as writing `a + b` |
| RingBuffers.FifoRoundTrip | Note002_SettingUpUART/SettingUpUART_NUCLEO-L476RG/Core/Inc/ringbuffer.h:14-25 | from empty, up to `len - 1` written bytes are read back in the order written, and the next read yields 0 |
| RingBuffers.FullLapReadsEmpty | Note002_SettingUpUART/SettingUpUART_NUCLEO-L476RG/Core/Inc/ringbuffer.h:14-21 | from empty, `len` writes bring `head` back onto `tail`: every byte is lost and the reads return zeros |
| RingBuffers.EmptyReadsIdempotent | Note002_SettingUpUART/SettingUpUART_NUCLEO-L476RG/Core/Inc/ringbuffer.h:19-21 | any number of reads from an empty buffer return zeros and change nothing |
| RingBuffers.Ringbuffer.constructor | Note002_SettingUpUART/SettingUpUART_NUCLEO-L476RG/Core/Inc/ringbuffer.h:6-12 | a new buffer of length `len > 0` has both cursors at 0 and reads as empty |
| RingBuffers.Ringbuffer.Write | Note002_SettingUpUART/SettingUpUART_NUCLEO-L476RG/Core/Inc/ringbuffer.h:14-17 | the in-place write produces exactly the state `AfterWrite` describes |
| RingBuffers.Ringbuffer.Read | Note002_SettingUpUART/SettingUpUART_NUCLEO-L476RG/Core/Inc/ringbuffer.h:20-25 | the in-place read returns exactly the value, and leaves exactly the state, that `AfterRead` describes |
| AtCommands.ErrorValue | Note003_SettingUpATCommandsOverUART/SettingUpATCommandsOverUART_L476RG/Core/Inc/at.h:32-37 | every error code is 1, 2 or 3 |
| AtCommands.ErrorOfValue | Note003_SettingUpATCommandsOverUART/SettingUpATCommandsOverUART_L476RG/Core/Inc/at.h:32-37 | a printed number names an error code exactly when it is 1, 2 or 3 |
| AtCommands.ErrorValueRoundTrip | Note003_SettingUpATCommandsOverUART/SettingUpATCommandsOverUART_L476RG/Core/Inc/at.h:34-36 | unknown command = 1, wrong parameter = 2, unknown error = 3, and the code and its number determine each other |
| AtCommands.LedOnSignature | Note003_SettingUpATCommandsOverUART/SettingUpATCommandsOverUART_L476RG/Core/Inc/at.h:8-13 | `AT_PREFIX AT_LED_ON AT_EQUAL` is `"AT+LED_ON="` |
| AtCommands.ResetSignature | Note003_SettingUpATCommandsOverUART/SettingUpATCommandsOverUART_L476RG/Core/Inc/at.h:8-11 | `AT_PREFIX AT_RESET` is `"AT+RESET"` |
| AtCommands.HelpSignature | Note003_SettingUpATCommandsOverUART/SettingUpATCommandsOverUART_L476RG/Core/Inc/at.h:8-12 | `AT_PREFIX AT_HELP` is `"AT+HELP"` |
| CTypes.ToUint8 | Note003_SettingUpATCommandsOverUART/SettingUpATCommandsOverUART_L476RG/Core/Src/at.c:54 | the `(uint8_t)` cast keeps values below 256 and repeats with period 256 |
| AtParse.FindFrom | Note003_SettingUpATCommandsOverUART/SettingUpATCommandsOverUART_L476RG/Core/Src/at.c:43 | the result is an occurrence at or after `from`, and no occurrence comes between `from` and it |
| AtParse.StrStr | Note003_SettingUpATCommandsOverUART/SettingUpATCommandsOverUART_L476RG/Core/Src/at.c:43-62 | `strstr` finds a match exactly when the pattern occurs, and returns the first occurrence |
| AtParse.SkipSpace | Note003_SettingUpATCommandsOverUART/SettingUpATCommandsOverUART_L476RG/Core/Src/at.c:54 | `strtoul` skips exactly the leading white space |
| AtParse.DigitRun | Note003_SettingUpATCommandsOverUART/SettingUpATCommandsOverUART_L476RG/Core/Src/at.c:54 | the digits read are the longest run of decimal digits at the start |
| AtParse.DecimalValue | Note003_SettingUpATCommandsOverUART/SettingUpATCommandsOverUART_L476RG/Core/Src/at.c:54 | the value of `n` digits, accumulated most significant first, is below 10^n |
| AtParse.StrToUl | Note003_SettingUpATCommandsOverUART/SettingUpATCommandsOverUART_L476RG/Core/Src/at.c:54 | the value read never exceeds `ULONG_MAX` (2^32 - 1) |
| AtParse.DigitRunOfDigits | Note003_SettingUpATCommandsOverUART/SettingUpATCommandsOverUART_L476RG/Core/Src/at.c:54 | the digit run of `d + rest` is `d` when `rest` does not continue with a digit |
| AtParse.StrToUlOfDigits | Note003_SettingUpATCommandsOverUART/SettingUpATCommandsOverUART_L476RG/Core/Src/at.c:54 | a plain run of digits is read as its decimal value, saturated at `ULONG_MAX` |
| AtParse.StrToUlOfNonNumeric | Note003_SettingUpATCommandsOverUART/SettingUpATCommandsOverUART_L476RG/Core/Src/at.c:54 | text that does not start with a digit, a sign or white space is read as 0 |
| AtParse.StrToUlOfSignWithoutDigits | Note003_SettingUpATCommandsOverUART/SettingUpATCommandsOverUART_L476RG/Core/Src/at.c:54 | a sign not followed by a digit (a lone `-`, or `+x`) is read as 0 |
| AtParse.StrToUlSkipsSpace | Note003_SettingUpATCommandsOverUART/SettingUpATCommandsOverUART_L476RG/Core/Src/at.c:54 | a leading white-space character does not change the value read |
| AtParse.StrToUlOfSigned | Note003_SettingUpATCommandsOverUART/SettingUpATCommandsOverUART_L476RG/Core/Src/at.c:54 | `+` reads the digits unchanged; `-` gives 2^32 minus the value (0 for 0), unless the magnitude saturates at `ULONG_MAX` |
| AtParse.Classify | Note003_SettingUpATCommandsOverUART/SettingUpATCommandsOverUART_L476RG/Core/Src/at.c:36-66 | `LED_ON=` wins whenever it occurs anywhere, then `RESET`, then `HELP`; otherwise nothing is parsed and the defaults stay. RESET and HELP are Execute with parameter 0. For LED_ON, `?` right after the signature means GET, and anything else (end of text included) is SET with the `strtoul` value cast to `uint8_t` |
| AtParse.ClassifyLedOnCommand | Note003_SettingUpATCommandsOverUART/SettingUpATCommandsOverUART_L476RG/Core/Src/at.c:43-56 | text starting with `AT+LED_ON=` is GET if `?` follows, otherwise SET of the truncated `strtoul` value |
| AtParse.ClassifyEmpty | Note003_SettingUpATCommandsOverUART/SettingUpATCommandsOverUART_L476RG/Core/Src/at.c:36-40 | an empty accumulator gives `AT_Command_NONE`, `TypeNotSet` and parameter 0 |
| AtParse.ClassifyLedOnDecimal | Note003_SettingUpATCommandsOverUART/SettingUpATCommandsOverUART_L476RG/Core/Src/at.c:52-54 | a decimal parameter gives SET with its value, saturated at `ULONG_MAX` and then truncated to eight bits |
| AtParse.ParameterWraps | Note003_SettingUpATCommandsOverUART/SettingUpATCommandsOverUART_L476RG/Core/Src/at.c:54 | `AT+LED_ON=257` gives SET with parameter 1 |
| AtParse.ParameterWrapsToZero | Note003_SettingUpATCommandsOverUART/SettingUpATCommandsOverUART_L476RG/Core/Src/at.c:54 | `AT+LED_ON=256` gives SET with parameter 0 |
| AtParse.NegativeParameterWraps | Note003_SettingUpATCommandsOverUART/SettingUpATCommandsOverUART_L476RG/Core/Src/at.c:54 | `AT+LED_ON=-1` gives SET with parameter 255 |
| AtInterpreter.PinValue | Note003_SettingUpATCommandsOverUART/SettingUpATCommandsOverUART_L476RG/Core/Src/at.c:91-95 | `GPIO_PIN_SET` is 1 and `GPIO_PIN_RESET` is 0 |
| AtInterpreter.DigitChar | Note003_SettingUpATCommandsOverUART/SettingUpATCommandsOverUART_L476RG/Core/Src/at.c:91-102 | `%u` prints a one-digit value as the digit character of that value |
| AtInterpreter.ErrorLine | Note003_SettingUpATCommandsOverUART/SettingUpATCommandsOverUART_L476RG/Core/Src/at.c:102 | the error line is `[ERROR:`, one digit whose value is the code's number, and `]\r\n` |
| AtInterpreter.ErrorLinesDiffer | Note003_SettingUpATCommandsOverUART/SettingUpATCommandsOverUART_L476RG/Core/Src/at.c:102 | different error codes print different lines |
| AtInterpreter.Response | Note003_SettingUpATCommandsOverUART/SettingUpATCommandsOverUART_L476RG/Core/Src/at.c:82-134 | every answer is non-empty and never re-initialises the UART. It ends with a system reset exactly for RESET/Execute, and otherwise with the trailing `"\r\n"`. The LED is written to SET (resp. RESET) exactly for a SET with parameter 1 (resp. 0) |
| AtInterpreter.CycleTrace | Note003_SettingUpATCommandsOverUART/SettingUpATCommandsOverUART_L476RG/Core/Src/at.c:33-80 | the UART is re-initialised exactly when no signature occurs, and then the whole trace is `[ERROR:1]`, a 15 ms delay and the re-init |
| AtInterpreter.Drained | Note003_SettingUpATCommandsOverUART/SettingUpATCommandsOverUART_L476RG/Core/Src/at.c:139-142 | the copied bytes are the longest zero-free prefix of the pending bytes |
| AtInterpreter.DrainFrom | Note003_SettingUpATCommandsOverUART/SettingUpATCommandsOverUART_L476RG/Core/Src/at.c:139-142 | the rest of the drain loop never copies a zero byte and keeps the ring well formed |
| AtInterpreter.Drain | Note003_SettingUpATCommandsOverUART/SettingUpATCommandsOverUART_L476RG/Core/Src/at.c:136-142 | the drain never copies a zero byte and keeps the ring well formed |
| AtInterpreter.DrainedCons | Note003_SettingUpATCommandsOverUART/SettingUpATCommandsOverUART_L476RG/Core/Src/at.c:139-141 | a non-zero byte in front is copied and does not change what else is copied or left |
| AtInterpreter.DrainFromCopiesToZero | Note003_SettingUpATCommandsOverUART/SettingUpATCommandsOverUART_L476RG/Core/Src/at.c:139-142 | once `ch` is read, the loop copies `ch` and the unread bytes up to the first zero, and consumes that zero |
| AtInterpreter.DrainStep | Note003_SettingUpATCommandsOverUART/SettingUpATCommandsOverUART_L476RG/Core/Src/at.c:139-141 | one turn of the drain loop copies `ch` as the next byte, and the read that follows continues the same drain |
| AtInterpreter.DrainCopiesToZero | Note003_SettingUpATCommandsOverUART/SettingUpATCommandsOverUART_L476RG/Core/Src/at.c:136-142 | the drain copies exactly the pending bytes before the first zero, and leaves those after it |
| AtInterpreter.ByteToChar | Note003_SettingUpATCommandsOverUART/SettingUpATCommandsOverUART_L476RG/Core/Src/at.c:141 | a byte stored into the `char` array is NUL exactly when it is 0 |
| AtInterpreter.Chars | Note003_SettingUpATCommandsOverUART/SettingUpATCommandsOverUART_L476RG/Core/Src/at.c:141 | copying keeps the length, and gives a NUL exactly when a zero byte is copied |
| AtInterpreter.CharsSnoc | Note003_SettingUpATCommandsOverUART/SettingUpATCommandsOverUART_L476RG/Core/Src/at.c:141 | copying one more byte appends one more character |
| AtInterpreter.CommandInterpreter.constructor | Note003_SettingUpATCommandsOverUART/SettingUpATCommandsOverUART_L476RG/Core/Src/at.c:14-31 | the static accumulator starts all zeros with length 0, bound to the UART ring buffer |
| AtInterpreter.CommandInterpreter.Append | Note003_SettingUpATCommandsOverUART/SettingUpATCommandsOverUART_L476RG/Core/Src/at.c:141 | `buffer[length++] = ch` appends one character and leaves the bytes after it unchanged |
| AtInterpreter.CommandInterpreter.CopyStep | Note003_SettingUpATCommandsOverUART/SettingUpATCommandsOverUART_L476RG/Core/Src/at.c:139-141 | one turn of the drain loop appends the byte read and reads the next; the accumulator stays a NUL-terminated string |
| AtInterpreter.CommandInterpreter.CopyCommandToBuffer | Note003_SettingUpATCommandsOverUART/SettingUpATCommandsOverUART_L476RG/Core/Src/at.c:136-142 | the text grows by exactly the drained bytes, in order. The ring is left as the drain leaves it, and the accumulator stays a NUL-terminated string |
| AtInterpreter.CommandInterpreter.Process | Note003_SettingUpATCommandsOverUART/SettingUpATCommandsOverUART_L476RG/Core/Src/at.c:33-80 | one cycle emits `CycleTrace` of the accumulated text, drains the ring, and leaves the accumulator all zeros with length 0 |
| AtInterpreter.CommandInterpreter.Clear | Note003_SettingUpATCommandsOverUART/SettingUpATCommandsOverUART_L476RG/Core/Src/at.c:69-70 | clearing only the first `length` bytes leaves the whole array zero, because the bytes after `length` already are |
| AtInterpreter.LevelOf | Note003_SettingUpATCommandsOverUART/SettingUpATCommandsOverUART_L476RG/Core/Src/at.c:95-97 | parameter 0 or 1 is written as the pin state of that value |
| AtInterpreter.StrToUlOfDigit | Note003_SettingUpATCommandsOverUART/SettingUpATCommandsOverUART_L476RG/Core/Src/at.c:54 | a single digit is read as its value |
| AtInterpreter.SetResponse | Note003_SettingUpATCommandsOverUART/SettingUpATCommandsOverUART_L476RG/Core/Src/at.c:93-99 | SET of 0 or 1 writes that level, prints `[OK]` and ends the transmission |
| AtInterpreter.PinAfterSet | Note003_SettingUpATCommandsOverUART/SettingUpATCommandsOverUART_L476RG/Core/Src/at.c:97 | after an acknowledged SET, the LED is at the level written |
| AtInterpreter.LedOnCycle | Note003_SettingUpATCommandsOverUART/SettingUpATCommandsOverUART_L476RG/Core/Src/at.c:43-56 | text starting with `AT+LED_ON=` is answered as GET or as SET of the truncated `strtoul` value |
| AtInterpreter.SetWritesLevel | Note003_SettingUpATCommandsOverUART/SettingUpATCommandsOverUART_L476RG/Core/Src/at.c:93-99 | `AT+LED_ON=0` and `AT+LED_ON=1` write that level, acknowledge, and leave the LED at that level |
| AtInterpreter.GetReportsLevel | Note003_SettingUpATCommandsOverUART/SettingUpATCommandsOverUART_L476RG/Core/Src/at.c:88-91 | `AT+LED_ON=?` prints the LED level digit, then `[OK]`, then the blank line |
| AtInterpreter.SetThenGet | Note003_SettingUpATCommandsOverUART/SettingUpATCommandsOverUART_L476RG/Core/Src/at.c:88-99 | a GET after a SET of 0 or 1 reports the level just written |
| AtInterpreter.SetRejects | Note003_SettingUpATCommandsOverUART/SettingUpATCommandsOverUART_L476RG/Core/Src/at.c:93-104 | a SET of any `uint8_t` other than 0 and 1 prints `[ERROR:2]` and the blank line and writes no pin |
| AtInterpreter.SetOutOfRange | Note003_SettingUpATCommandsOverUART/SettingUpATCommandsOverUART_L476RG/Core/Src/at.c:100-103 | a SET digit from 2 to 9 prints `[ERROR:2]` and does not touch the LED |
| AtInterpreter.NonNumericParameterSwitchesOff | Note003_SettingUpATCommandsOverUART/SettingUpATCommandsOverUART_L476RG/Core/Src/at.c:52-54 | an empty or non-numeric parameter is read as 0: the LED is switched off and `[OK]` is printed |
| AtInterpreter.WrappedParameterSwitchesOff | Note003_SettingUpATCommandsOverUART/SettingUpATCommandsOverUART_L476RG/Core/Src/at.c:93-99 | `AT+LED_ON=256` wraps to 0: the LED is switched off and `[OK]` is printed |
| AtInterpreter.NegativeParameterRejected | Note003_SettingUpATCommandsOverUART/SettingUpATCommandsOverUART_L476RG/Core/Src/at.c:100-103 | `AT+LED_ON=-1` is read as 255 and rejected with `[ERROR:2]` |
| AtInterpreter.ResetCommand | Note003_SettingUpATCommandsOverUART/SettingUpATCommandsOverUART_L476RG/Core/Src/at.c:109-118 | `AT+RESET` prints `[OK]` and a blank line, waits 25 ms and resets, with no trailing line |
| AtInterpreter.HelpCommand | Note003_SettingUpATCommandsOverUART/SettingUpATCommandsOverUART_L476RG/Core/Src/at.c:120-126 | `AT+HELP` prints the two help lines with 15 ms delays, then `[OK]`, then the blank line |
| AtInterpreter.EmptyIsUnknown | Note003_SettingUpATCommandsOverUART/SettingUpATCommandsOverUART_L476RG/Core/Src/at.c:72-79 | an empty accumulator gives `[ERROR:1]`, a 15 ms delay and a UART re-init |
| AtInterpreter.ExecuteCommand | Note003_SettingUpATCommandsOverUART/SettingUpATCommandsOverUART_L476RG/Core/Src/at.c:82-134 | the step-by-step `at_command_execute` emits exactly the trace `Response` describes |
| PcapImei.AssembleLayout | Note00A_CaptureUDPPacketsFromNBIoTDevices/pcap_imei_parser.c:62-66 | the prefix fills bits 55-32 and the captured bytes bits 31-0, the first captured byte most significant; the top byte is 0 |
| PcapImei.Assemble | Note00A_CaptureUDPPacketsFromNBIoTDevices/pcap_imei_parser.c:62-66 | the value handed to `unique_imei_insert` fits in 56 bits |
| PcapImei.AssembleInjective | Note00A_CaptureUDPPacketsFromNBIoTDevices/pcap_imei_parser.c:62-66 | different prefixes or captures never give the same value |
| PcapImei.Step | Note00A_CaptureUDPPacketsFromNBIoTDevices/pcap_imei_parser.c:51-72 | after every byte, `0 <= cnt <= 6` and the counter has climbed by at most one; a value is recorded only as the counter drops from 6 to 0, and then exactly one |
| PcapImei.StepSpec | Note00A_CaptureUDPPacketsFromNBIoTDevices/pcap_imei_parser.c:51-72 | `FIRST_BYTE` always restarts at `cnt = 1`; the `cnt == 6` branch records exactly one value and resets to 0; no other byte records anything; any other non-matching byte resets to 0 |
| PcapImei.StepShift | Note00A_CaptureUDPPacketsFromNBIoTDevices/pcap_imei_parser.c:51-72 | a byte acts on the counter and the captured bytes only, and appends what it records |
| PcapImei.Steps | Note00A_CaptureUDPPacketsFromNBIoTDevices/pcap_imei_parser.c:50-73 | the loop keeps `cnt <= 6`; values once recorded stay, in order |
| PcapImei.StepsBudget | Note00A_CaptureUDPPacketsFromNBIoTDevices/pcap_imei_parser.c:50-73 | over `n` bytes, the counter plus seven per recorded value grows by at most `n` |
| PcapImei.Scanned | Note00A_CaptureUDPPacketsFromNBIoTDevices/pcap_imei_parser.c:50-73 | each value handed to `unique_imei_insert` takes at least seven bytes of the stream |
| PcapImei.SourcePrefixStaysIdle | Note00A_CaptureUDPPacketsFromNBIoTDevices/pcap_imei_parser.c:7-72 | with the all-`0xFF` prefix, `cnt` never leaves {0, 1} and nothing is recorded |
| PcapImei.SourcePrefixRecordsNothing | Note00A_CaptureUDPPacketsFromNBIoTDevices/pcap_imei_parser.c:7-73 | the program as written records no IMEI from any stream |
| PcapImei.SourcePrefixMissesMatch | Note00A_CaptureUDPPacketsFromNBIoTDevices/pcap_imei_parser.c:7-73 | the stream `FF FF FF 01 02 03 04` holds a full match, yet nothing is recorded |
| PcapImei.StepsAppend | Note00A_CaptureUDPPacketsFromNBIoTDevices/pcap_imei_parser.c:50-73 | scanning `a + b` is scanning `a`, then `b` |
| PcapImei.StepsCons | Note00A_CaptureUDPPacketsFromNBIoTDevices/pcap_imei_parser.c:50 | scanning `[b] + rest` is one step, then scanning `rest` |
| PcapImei.PrefixStartsCapture | Note00A_CaptureUDPPacketsFromNBIoTDevices/pcap_imei_parser.c:51-56 | for a matchable prefix, the three prefix bytes bring any state to `cnt == 3` without recording anything |
| PcapImei.CaptureCompletes | Note00A_CaptureUDPPacketsFromNBIoTDevices/pcap_imei_parser.c:57-68 | from `cnt == 3`, four bytes that are not `FIRST_BYTE` are captured, then the assembled value is recorded and `cnt` returns to 0 |
| PcapImei.MatchRecordsImei | Note00A_CaptureUDPPacketsFromNBIoTDevices/pcap_imei_parser.c:50-73 | for a matchable prefix, prefix plus four capture bytes record exactly the assembled value, from any state |
| PcapImei.ScannedSingleRecord | Note00A_CaptureUDPPacketsFromNBIoTDevices/pcap_imei_parser.c:39-73 | for a matchable prefix, a stream that is one IMEI record yields exactly that IMEI |
| PcapImei.InsertUnique | Note00A_CaptureUDPPacketsFromNBIoTDevices/pcap_imei_parser.c:76-83 | a present value leaves the array unchanged; an absent one is appended after the stored values. Either way the value is stored and there are no duplicates |
| PcapImei.InsertAll | Note00A_CaptureUDPPacketsFromNBIoTDevices/pcap_imei_parser.c:76-83 | repeated inserts never drop or reorder a stored value, and add at most one value per insert |
| PcapImei.InsertAllSpec | Note00A_CaptureUDPPacketsFromNBIoTDevices/pcap_imei_parser.c:76-83 | repeated inserts keep the stored values free of duplicates |
| PcapImei.InsertAllMembers | Note00A_CaptureUDPPacketsFromNBIoTDevices/pcap_imei_parser.c:76-83 | after the inserts, the stored values are exactly the old ones and the inserted ones |
| PcapImei.InsertAllAppend | Note00A_CaptureUDPPacketsFromNBIoTDevices/pcap_imei_parser.c:76-83 | inserting `a + b` is inserting `a`, then `b` |
| PcapImei.InsertAllPresent | Note00A_CaptureUDPPacketsFromNBIoTDevices/pcap_imei_parser.c:77-80 | inserting values that are all stored already changes nothing |
| PcapImei.InsertAllIdempotent | Note00A_CaptureUDPPacketsFromNBIoTDevices/pcap_imei_parser.c:76-83 | scanning the same values into the array a second time adds nothing |
| PcapImei.InsertAllSingle | Note00A_CaptureUDPPacketsFromNBIoTDevices/pcap_imei_parser.c:76-83 | inserting one value is one call of `unique_imei_insert` |
| PcapImei.ImeiArray.constructor | Note00A_CaptureUDPPacketsFromNBIoTDevices/pcap_imei_parser.c:17-24 | the global array starts empty, with room for 256 values |
| PcapImei.ImeiArray.Insert | Note00A_CaptureUDPPacketsFromNBIoTDevices/pcap_imei_parser.c:76-83 | the stored values become `InsertUnique` of the old ones. A present value changes no slot and not `length`; an absent one is written at `data[length]` and `length` grows by one, with no other slot changed; no duplicates, ever |
| PcapImei.Parser | Note00A_CaptureUDPPacketsFromNBIoTDevices/pcap_imei_parser.c:39-74 | a missing file changes nothing; otherwise the array ends as the old values with every value of `Scanned` inserted in order |
| PcapImei.ScanByte | Note00A_CaptureUDPPacketsFromNBIoTDevices/pcap_imei_parser.c:51-72 | one loop turn sets `cnt` and the capture buffer as `Step` does, and inserts what `Step` records |
| PcapImei.AdvanceScan | Note00A_CaptureUDPPacketsFromNBIoTDevices/pcap_imei_parser.c:50-73 | after one byte, scanning the rest still ends where the whole scan does, and a value about to be inserted fits in the array |
| PcapImei.CapacityFor | Note00A_CaptureUDPPacketsFromNBIoTDevices/pcap_imei_parser.c:76-83 | if the values that follow still fit, a value about to be inserted fits unless it is stored already |
| PcapImei.CapacityForNext | Note00A_CaptureUDPPacketsFromNBIoTDevices/pcap_imei_parser.c:76-83 | before a completed value is inserted, the array has room for it unless it is stored already |
| DeviceMemory.LoadLE32 | Note00C_IntegersInDeviceMemory/integers_in_device_memory.c:44 | the word loaded from `mem + off` has the four bytes there as its bytes, least significant first |
| DeviceMemory.LoadBE32 | Note00C_IntegersInDeviceMemory/integers_in_device_memory.c:18-23 | a big-endian word has the four bytes in reverse order as its bytes |
| DeviceMemory.LoadLE16 | Note00C_IntegersInDeviceMemory/integers_in_device_memory.c:25-29 | a little-endian 16-bit value has the two bytes there as its bytes, least significant first |
| DeviceMemory.LoadBE16 | Note00C_IntegersInDeviceMemory/integers_in_device_memory.c:31-35 | a big-endian 16-bit value has the two bytes in reverse order as its bytes |
| DeviceMemory.LoadStoreRoundTrip | Note00C_IntegersInDeviceMemory/integers_in_device_memory.c:44-47 | loading the bytes of a stored word gives the word back, and every 4-byte window stores back to itself |
| DeviceMemory.ByteAt | Note00C_IntegersInDeviceMemory/integers_in_device_memory.c:59-67 | `word >> 8k & 0xFF` is byte `k` of the word in memory |
| DeviceMemory.LowHalf | Note00C_IntegersInDeviceMemory/integers_in_device_memory.c:52 | `word & 0xFFFF` is made of bytes 0-1 |
| DeviceMemory.MiddleHalf | Note00C_IntegersInDeviceMemory/integers_in_device_memory.c:103 | `word >> 8 & 0xFFFF` is made of bytes 1-2 |
| DeviceMemory.HighHalf | Note00C_IntegersInDeviceMemory/integers_in_device_memory.c:54 | `word >> 16 & 0xFFFF` is made of bytes 2-3 |
| DeviceMemory.HalfAt | Note00C_IntegersInDeviceMemory/integers_in_device_memory.c:51-55 | the 16-bit field at byte `k` is made of bytes `k` and `k + 1` |
| DeviceMemory.ReverseBytesShort | Note00C_IntegersInDeviceMemory/integers_in_device_memory.c:9 | `REVERSE_BYTES_SHORT` exchanges the two bytes |
| DeviceMemory.ReverseBytesShortInvolution | Note00C_IntegersInDeviceMemory/integers_in_device_memory.c:9 | `REVERSE_BYTES_SHORT` is its own inverse |
| DeviceMemory.ReverseBytesShortDecodesBigEndian | Note00C_IntegersInDeviceMemory/integers_in_device_memory.c:80-84 | a 16-bit field loaded little-endian and swapped is the field read big-endian |
| DeviceMemory.ByteSwap32 | Note00C_IntegersInDeviceMemory/integers_in_device_memory.c:5-7 | the corrected 32-bit reversal turns the byte order of the word around |
| DeviceMemory.ByteSwap32DecodesBigEndian | Note00C_IntegersInDeviceMemory/integers_in_device_memory.c:71-76 | a word loaded little-endian and reversed is the word read big-endian |
| DeviceMemory.ReverseBytesInt | Note00C_IntegersInDeviceMemory/integers_in_device_memory.c:5-7 | `REVERSE_BYTES_INT` as written always gives 0 in the result's byte 2, and ORs the argument's byte 1 with byte 0 into the top byte |
| DeviceMemory.ReverseBytesIntCorrectIff | Note00C_IntegersInDeviceMemory/integers_in_device_memory.c:5-7 | `REVERSE_BYTES_INT` as written equals a true reversal exactly when bits 15-8 of its argument are zero |
| DeviceMemory.ReverseBytesIntMisreads65536 | Note00C_IntegersInDeviceMemory/integers_in_device_memory.c:5-7 | the big-endian word `00 01 00 00` holds 65536, but `REVERSE_BYTES_INT` decodes it as 0x0100_0000 |
| DeviceMemory.LittleEndianWords | Note00C_IntegersInDeviceMemory/integers_in_device_memory.c:44-47 | the first two little-endian words are 1 and 2 |
| DeviceMemory.LittleEndianHalves | Note00C_IntegersInDeviceMemory/integers_in_device_memory.c:51-55 | the halves of the third little-endian word are 3 and 4 |
| DeviceMemory.FourthWordBytes | Note00C_IntegersInDeviceMemory/integers_in_device_memory.c:59-67 | the fourth word's bytes are 5, 6, 7, 8 in both arrays |
| DeviceMemory.BigEndianWords | Note00C_IntegersInDeviceMemory/integers_in_device_memory.c:71-76 | the first two big-endian words decode to 1 and 2 through `REVERSE_BYTES_INT` as written |
| DeviceMemory.BigEndianHalves | Note00C_IntegersInDeviceMemory/integers_in_device_memory.c:80-84 | the halves of the third big-endian word are 3 and 4 after `REVERSE_BYTES_SHORT` |
| DeviceMemory.MixedFields | Note00C_IntegersInDeviceMemory/integers_in_device_memory.c:100-112 | in the mixed layouts the byte at 0 is 1, and the 16-bit field at bytes 1-2 is 2 (big-endian after the swap) |

## Left out

- HAL and console calls are not modelled as code. `HAL_GPIO_WritePin`, `HAL_Delay`, `NVIC_SystemReset`, `printf` and the `uart_init` callback become `Event`s in an output trace. The level `HAL_GPIO_ReadPin` returns is a parameter.
- The `volatile` cursors are shared between the UART interrupt (writer) and the main loop (reader). The model runs writes and reads one after the other, with no interleaving inside an operation.
- File I/O in the scanner's `main` (`fopen`, `fgetc`, `fprintf` of the stored values, `fclose`) is not modelled. The parser receives the byte stream as a sequence, and `None` stands for the `NULL` file.
- The `*(uint32_t *)` loads of the device-memory demo depend on the host's byte order and alignment. They are modelled as an explicit little-endian decode (`LoadLE32`), as on the Cortex-M target.
- The numeric values of `AT_Command` and `AT_OperationType` are never printed or compared, so the model uses plain datatypes for them. The `AT_END` macro of `at.h` is used nowhere in `at.c` and is not modelled.
- `at_command_init` is modelled only as the binding of the ring buffer in `CommandInterpreter.constructor`. The commented-out echo loop in `at_copy_command_to_buffer` has no behaviour.
- The `strtoul` model has limits:
  - `unsigned long` is taken as 32 bits wide, as on the Cortex-M target;
  - white space follows the C locale;
  - `errno` is not modelled.
- AtInterpreter.CommandInterpreter.CopyCommandToBuffer: requires that fewer than 128 bytes, counting those already accumulated, come before the next zero. The source has no bound and writes past the array.
- AtInterpreter.CommandInterpreter.Process: the same bound as `CopyCommandToBuffer`, for the same reason.
- PcapImei.ImeiArray.Insert: requires room in the array or the value already stored. The source's append has no capacity check and writes past the 256-entry buffer.
- PcapImei.Parser: requires the distinct values of the stream to fit in the 256 entries, for the same reason as `Insert`.
- RingBuffers.Ringbuffer.constructor: requires `len > 0`. With `len == 0`, the source's write indexes an empty buffer.
- `head`, `tail` and `len` are `uint32_t` in the source but unbounded naturals here. No wrap-around can occur, because the cursors stay below `len`.
- DeviceMemory.ReverseBytesShort: takes a 16-bit argument. Every call in the source passes a value already masked to 16 bits, so the integer promotion does not matter.
- The bytes copied into the `char` accumulator are taken as unsigned characters, as on the ARM target.

## Findings

| source | as written | input that shows it | evidently intended | confidence | as-written member | corrected member |
|---|---|---|---|---|---|---|
| Note00C_IntegersInDeviceMemory/integers_in_device_memory.c:5-7 | the third term of `REVERSE_BYTES_INT` shifts byte 1 left by 24, not 16: byte 1 is ORed into byte 0's place and byte 2 of the result is always 0 | the big-endian word `00 01 00 00` (65536) is decoded as 0x0100_0000 | shift by 16, a full byte reversal | not executed; the demo's own words have byte 1 zero, so its asserts still hold | DeviceMemory.ReverseBytesIntMisreads65536 | DeviceMemory.ByteSwap32DecodesBigEndian |
| Note00A_CaptureUDPPacketsFromNBIoTDevices/pcap_imei_parser.c:7-9 | all three prefix bytes are `0xFF`, so every `0xFF` takes the first branch, `cnt` never passes 1, and `unique_imei_insert` is never called | the stream `FF FF FF 01 02 03 04` records nothing | a prefix whose second and third bytes differ from the first, so that prefix plus four bytes records one IMEI | not executed; the `0xFF` values may stand in for the author's real IMEI bytes | PcapImei.SourcePrefixMissesMatch | PcapImei.ScannedSingleRecord |
