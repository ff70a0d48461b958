# PA1010 GPS receiver driver — Dafny model

This project models the core of the MicroPython driver for the PA1010D GPS
module (`gps/pa1010.py`, class `PA1010`). The module talks NMEA 0183 over
I2C. The driver has three parts, and the model has them too:

- **Command encoder** (`send_command` and the PMTK setters). A command is
  framed as `$`, the payload, `*`, the two upper-case hex digits of the XOR
  of the payload bytes, and CR LF. The frame is returned as the bytes that
  would be written to the bus. The setters clamp their arguments and format
  PMTK220 (update rate), PMTK225 (periodic / normal mode), PMTK285
  (pulse per second), PMTK103 (cold boot) and PMTK314 (output selection).
- **Sentence reader** (`read_sentence`). Bytes are pulled one per clock
  tick. Bytes before the first `$` are dropped. The deadline grows by 100
  ticks once the `$` arrives. The sentence ends at the first CR LF and is
  returned stripped and with every LF removed. Otherwise the result is a
  timeout or a bus error.
- **Decoder and fix record** (`_decode_sentence`, `_set_data_from_gga`,
  `_set_data_from_rmc`, `update`). The `GGA_DECODE` and `RMC_DECODE`
  regular expressions are modelled by a small field-pattern language. A
  greedy matcher for it is proved to match exactly the texts the pattern
  describes. The record is a `PA1010` class whose fields the setters
  assign in the source's order. `update` is proved to leave the record as
  a fold (`Drain`) of the decoder over the sentences the bus delivers.

Modules:

- `Text` (text.dfy): bytes and characters, digit strings, `strip`.
- `Command` (command.dfy): framing and the PMTK setters.
- `Reader` (reader.dfy): `read_sentence`.
- `Grammar` (grammar.dfy): the pattern language and its matcher.
- `Decoder` (decoder.dfy): the two patterns, the fix record as a value,
  and the decoder fold.
- `Receiver` (receiver.dfy): the `PA1010` class and `update`.
- `Scenarios` (scenarios.dfy): concrete sentences.

## Model

| member | source | states |
|---|---|---|
| Text.Encode | gps/pa1010.py:121-122 | `str.encode("ascii")` gives one byte per character, each with the character's code |
| Text.Decode | gps/pa1010.py:158 | `bytes.decode("ascii")` gives one character per byte, each with the byte's code |
| Text.Strip | gps/pa1010.py:158 | `strip()` never lengthens the text, leaves it neither starting nor ending with whitespace, and returns text without whitespace at either end unchanged |
| Text.Decimal | gps/pa1010.py:56 | `"{}".format(n)` of a non-negative integer is a non-empty digit string, ASCII, comma-free, with no leading zero unless n < 10 |
| Text.DecimalRoundTrip | gps/pa1010.py:56 | the formatted decimal reads back (as `int()` would) as the number it was made from |
| Text.DigitsValue | gps/pa1010.py:172 | `int()` of a k-digit capture is a natural number below 10^k |
| Text.TrimStartSpec | gps/pa1010.py:158 | the leading-whitespace half of `strip()` removes exactly the leading run of whitespace, leaving a suffix that is empty or starts with non-whitespace |
| Text.TrimEndSpec | gps/pa1010.py:158 | the trailing-whitespace half of `strip()` removes exactly the trailing run of whitespace, leaving a prefix that is empty or ends with non-whitespace |
| Text.RemoveLF | gps/pa1010.py:158 | `replace("\n", "")` leaves no LF, never lengthens the text, and changes nothing in a text without LF |
| Command.XorAll | gps/pa1010.py:128-132 | the checksum is the XOR of the payload bytes, first to last, starting from 0 |
| Command.XorAllAppend | gps/pa1010.py:128-132 | the XOR checksum of a concatenation is the XOR of the parts' checksums |
| Command.HexValue | gps/pa1010.py:134 | a byte is an upper-case hex digit exactly when it has a value, and formatting that value gives the byte back |
| Command.Hex2 | gps/pa1010.py:134 | `{:02X}` gives exactly two upper-case hex digits |
| Command.Hex2Inverse | gps/pa1010.py:134 | `{:02X}` of a byte parses back to the byte, and only that pair of digits parses to it |
| Command.Frame | gps/pa1010.py:124-135 | the frame is three bytes longer than the payload, six with the checksum |
| Command.FrameLayout | gps/pa1010.py:124-135 | the frame is `$`, the payload, then `*` and the two checksum digits when a checksum is asked for, then CR LF; without a checksum a `*` appears only where the payload has one |
| Command.FrameInverse | gps/pa1010.py:124-135 | a receiver that checks delimiters and checksum accepts every checksummed frame with its payload, and accepts a buffer only if it is exactly the frame of what it yields |
| Command.SendBytes | gps/pa1010.py:124-136 | the bytes written are the frame of the command bytes; the checksum loop keeps the XOR of the bytes seen so far |
| Command.SendCommand | gps/pa1010.py:117-123 | a text command is ASCII-encoded and then framed |
| Command.SplitJoin | gps/pa1010.py:56 | comma-free fields joined by commas split back into the same fields |
| Command.Clamp | gps/pa1010.py:53-54 | the clamp lies in [lo, hi] and is the point of [lo, hi] nearest the input |
| Command.Trunc | gps/pa1010.py:52 | `int()` truncates toward zero: the result is within one of the input, on the zero side |
| Command.UpdateRateMs | gps/pa1010.py:52-54 | the interval sent is between 1000 and 10000 ms, and is the truncated millisecond count whenever that is in range |
| Command.UpdateRateExamples | gps/pa1010.py:48-54 | 0.1 s and -3 s are sent as 1000 ms, 2.5 s as 2500 ms, 2.0005 s as 2000 ms, 60 s as 10000 ms |
| Command.RatePayload | gps/pa1010.py:56 | the PMTK220 payload is ASCII |
| Command.RateCommandReadsBack | gps/pa1010.py:56 | the framed PMTK220 command is accepted with its payload, the payload splits into PMTK220, the interval and four zeros, and the interval field reads back as the milliseconds |
| Command.SetUpdateRate | gps/pa1010.py:48-56 | the bytes written are the frame of the PMTK220 payload for the clamped interval |
| Command.PeriodSeconds | gps/pa1010.py:62-63 | a period below 15 s becomes 15 s, one above 300 s becomes 300 s, and one in [15, 300] s is kept |
| Command.PeriodicSleepMs | gps/pa1010.py:62-69 | the sleep time is in [8000, 293000] ms and is the clamped period in whole milliseconds less the 7000 ms acquisition |
| Command.PeriodicSleepExamples | gps/pa1010.py:62-69 | 5 s sleeps 8000 ms, 60 s sleeps 53000 ms, an hour sleeps 293000 ms |
| Command.PeriodicPayload | gps/pa1010.py:76 | the PMTK225 payload is ASCII |
| Command.PeriodicCommandFields | gps/pa1010.py:65-76 | the PMTK225 payload splits into six fields: mode 2, 7000 ms short acquisition, 30000 ms long acquisition, and two equal sleep fields that read back as PeriodicSleepMs of the requested period, in [8000, 293000] ms |
| Command.SetPeriodicMode | gps/pa1010.py:58-76 | two frames are written: the 1 s update rate (1000 ms), then the PMTK225 command for the clamped period |
| Command.SetPps | gps/pa1010.py:40-46 | the frame written reads back as PMTK285,2,100 when enabling and PMTK285,0,100 when disabling |
| Command.SetNormalMode | gps/pa1010.py:78-79 | the frame written reads back as PMTK225,0 |
| Command.ColdBoot | gps/pa1010.py:81-84 | the frame written reads back as PMTK103 |
| Command.OutputSelectionIsAscii | gps/pa1010.py:115 | the output-selection command is ASCII, so it can be sent |
| Command.StartupCommands | gps/pa1010.py:100-115 | the constructor's commands read back as normal mode, then the GGA-and-RMC output selection |
| Reader.FirstDollar | gps/pa1010.py:146-147 | the first `$` on the bus is found: no `$` comes before it |
| Reader.LineEnd | gps/pa1010.py:154-156 | the end of a sentence is the first LF after its `$` that directly follows a CR |
| Reader.ReadSpec | gps/pa1010.py:138-160 | a returned sentence consumed at least two bytes and no more than the bus holds |
| Reader.ReadSentence | gps/pa1010.py:138-160 | the byte-by-byte loop, with its deadline growing at the first `$`, gives exactly the outcome of ReadSpec |
| Reader.Clean | gps/pa1010.py:158 | the cleaned text has no LF and is no longer than the bytes it came from |
| Reader.CleanShape | gps/pa1010.py:158 | cleaning bytes that start with `$` gives text that starts with `$`, has no LF and no trailing whitespace |
| Reader.SentenceFraming | gps/pa1010.py:143-158 | a sentence starts at the first `$`, ends with the bytes CR LF, is the cleaned text of those bytes, starts with `$`, has no LF and no trailing whitespace |
| Reader.ReadDeadline | gps/pa1010.py:143-150 | a sentence needs its `$` before the first deadline and its end within the grace period; a timeout comes at the first deadline with no `$` seen, or at the extended deadline with the sentence still open |
| Reader.BareLineFeedKept | gps/pa1010.py:154-156 | before the final CR LF, no CR LF pair occurs in the bytes consumed, so a bare LF does not end a sentence |
| Reader.FrameReadBack | gps/pa1010.py:124-158 | a checksummed frame that arrives after `$`-free noise and within both deadlines is read back as its text up to the checksum |
| Grammar.Run | gps/pa1010.py:87-88 | a greedy repetition takes the longest run of the class from its start |
| Grammar.MatchField | gps/pa1010.py:87-88 | each field of a pattern matches a text of its own kind found at that position |
| Grammar.MatchFromSound | gps/pa1010.py:87-88 | what the matcher returns fits the pattern field by field and spells the input from the start position |
| Grammar.MatchFromComplete | gps/pa1010.py:87-88 | every field-by-field fit that the input starts with is what the matcher returns |
| Grammar.MatchIff | gps/pa1010.py:87-88 | for a pattern where every repetition is followed by a literal it cannot absorb, the matcher succeeds with captures c exactly when c fits the pattern and the input starts with their concatenation |
| Decoder.PatternsWellFormed | gps/pa1010.py:87-88 | in both patterns every repetition is followed by a literal that stops it, so greedy matching loses nothing |
| Decoder.GgaDigits | gps/pa1010.py:87 | the GGA satellite capture is a non-empty digit string |
| Decoder.RmcDigits | gps/pa1010.py:88 | the RMC time captures have 2, 2, 2 and 3 digits, the date captures 2 digits each, and the status is A or V |
| Decoder.MatchGga | gps/pa1010.py:87 | a GGA match is a well-formed GGA record whose text starts the sentence |
| Decoder.MatchRmc | gps/pa1010.py:88 | an RMC match is a well-formed RMC record whose text starts the sentence |
| Decoder.MatchGgaIff | gps/pa1010.py:87 | `GGA_DECODE.match` yields a record exactly when the record is well formed and the sentence starts with its text |
| Decoder.MatchRmcIff | gps/pa1010.py:88 | `RMC_DECODE.match` yields a record exactly when the record is well formed and the sentence starts with its text |
| Decoder.TimeLayout | gps/pa1010.py:87-88 | a matched sentence has six digits, a point and three digits after its tag |
| Decoder.GgaTagged | gps/pa1010.py:87 | a GGA match starts with `$GNGGA,` |
| Decoder.RmcTagged | gps/pa1010.py:88 | an RMC match starts with `$GNRMC,` |
| Decoder.GgaRmcExclusive | gps/pa1010.py:162-169 | no sentence matches both patterns |
| Decoder.ApplyGga | gps/pa1010.py:180-184 | a GGA sentence writes the satellite count, then the altitude if `float()` accepts it and raises otherwise; it never touches the RMC-owned fields |
| Decoder.FloatText | gps/pa1010.py:175-176 | which `[0-9.]+` texts `float()` accepts: those with a digit and at most one point |
| Decoder.ApplyRmc | gps/pa1010.py:171-178 | an RMC sentence sets valid exactly when the status is A (also for V), writes hour, minute, second and millisecond as `int()` of their digits, and writes both coordinates with their hemispheres; speed is written when `float()` accepts it, heading when both are accepted, otherwise it raises; only when nothing raised are day and month `int()` of their digits and year `int()` of its two digits plus 2000, else the old date stays; satellites and altitude are never touched |
| Decoder.RmcTimePosition | gps/pa1010.py:172-174 | validity, the four time fields as `int()` of their digits (below 100, 100, 100 and 1000) and the four position texts are written; speed, heading, the date and the GGA part stay |
| Decoder.RmcDate | gps/pa1010.py:177-178 | day and month are `int()` of their digits and year is `int()` of its digits plus 2000, so in 2000-2099; every other field stays |
| Decoder.RmcOverwrites | gps/pa1010.py:171-178 | what an RMC sentence writes depends on the sentence alone, not on the previous record |
| Decoder.GgaOverwrites | gps/pa1010.py:180-184 | what a GGA sentence writes depends on the sentence alone |
| Decoder.Decoded | gps/pa1010.py:162-169 | a GGA sentence changes only the GGA part, an RMC sentence only the RMC part, only those two can raise, and a sentence that matches neither pattern (in particular one with neither tag) leaves the record unchanged |
| Decoder.Drain | gps/pa1010.py:30-36 | a run of sentences none of which carries the GGA or RMC tag leaves the record unchanged |
| Decoder.DrainAppend | gps/pa1010.py:30-36 | decoding two batches in turn is decoding their concatenation; a ValueError in the first ends it |
| Decoder.DrainLastWins | gps/pa1010.py:30-36 | after a batch that raised nothing, the RMC-owned fields are those the last RMC sentence wrote (or unchanged if none), and the GGA-owned fields those the last GGA sentence wrote (or unchanged if none) |
| Decoder.DrainLastOnly | gps/pa1010.py:30-36 | after a run that raised nothing, the whole record is what decoding only the last RMC sentence and then the last GGA sentence would give |
| Decoder.DrainValid | gps/pa1010.py:30-38 | the flag `update` returns is the status of the last sentence that matches RMC_DECODE, or the previous flag if none; an RMC sentence that fails the pattern does not reset it |
| Receiver.Sentences | gps/pa1010.py:30-36 | the sentences `update` reads, in order, up to the first timeout or bus error; each takes at least two bytes of the bus |
| Receiver.SentencesShape | gps/pa1010.py:33-34 | every sentence `update` decodes starts with `$`, has no LF and no trailing whitespace |
| Receiver.SentencesStep | gps/pa1010.py:33-35 | each read either returns the next sentence, with the rest of the run after it, or ends the run |
| Receiver.PA1010.constructor | gps/pa1010.py:91-95 | a new receiver has no valid fix, no satellites and altitude 0 |
| Receiver.PA1010.SetDataFromGga | gps/pa1010.py:180-184 | the object's fields change exactly as ApplyGga says, including the partial write when `float()` raises |
| Receiver.PA1010.SetDataFromRmc | gps/pa1010.py:171-178 | the object's fields change exactly as ApplyRmc says, including the partial writes when `float()` raises |
| Receiver.PA1010.WriteTimePosition | gps/pa1010.py:172-174 | the time, validity and position assignments |
| Receiver.PA1010.WriteDate | gps/pa1010.py:177-178 | the date assignments, with 2000 added to the year |
| Receiver.PA1010.DecodeSentence | gps/pa1010.py:162-169 | the object's fields change exactly as Decoded says: GGA first, then RMC, anything else ignored |
| Receiver.PA1010.ReadAndDecode | gps/pa1010.py:33-35 | one loop pass reads the next sentence of the run and decodes it, or ends the loop with nothing changed |
| Receiver.PA1010.Update | gps/pa1010.py:13-38 | the fields end as the fold of the decoder over every sentence on the bus up to the first timeout or bus error; the result is the validity flag, or the ValueError that stopped the fold |
| Receiver.DrainRaisedStays | gps/pa1010.py:30-36 | once a ValueError has escaped, no later sentence changes the record |
| Scenarios.TwoDigitFractionIgnored | gps/pa1010.py:87-88 | an RMC or GGA sentence whose time has two fractional digits leaves the record unchanged |
| Decoder.RmcLatitudeLeads | gps/pa1010.py:88 | the latitude group needs a digit first, so every sentence RMC_DECODE matches has a digit at offset 20 |
| Scenarios.NoLatitudeNoMatch | gps/pa1010.py:87-88 | a sentence with the RMC tag letter and no digit where the latitude starts matches neither pattern |
| Scenarios.VoidRmcIgnored | gps/pa1010.py:88 | a void RMC sentence with empty position fields leaves the record, and so the flag `update` returns, unchanged |

## Behaviour of the code worth knowing

- Fractional seconds. Both regular expressions (gps/pa1010.py:87-88)
  demand exactly three digits after the point in the time field. An NMEA
  time with two fractional digits, such as `123519.00`, matches neither
  pattern, and the sentence is ignored. `Scenarios.TwoDigitFractionIgnored`
  proves this.
- Year. The two-digit year has 2000 added to it (gps/pa1010.py:178), so
  `yy` 94 is stored as 2094 and every year lies in 2000-2099
  (`Decoder.RmcDate`).
- Update-rate clamp. The docstring of `set_update_rate`
  (gps/pa1010.py:50-51) gives 0.1 s as the lower bound, but the code
  clamps to 1000 ms, so 0.1 s is sent as 1000 ms
  (`Command.UpdateRateExamples`).
- Void RMC sentences. The latitude group of `RMC_DECODE`
  (gps/pa1010.py:88) needs digits, so a receiver without a fix that sends
  status V with empty position fields, such as
  `$GNRMC,123519.000,V,,,,,0.00,0.00,230394,,,N*XX`, matches neither
  pattern. The sentence is ignored, `valid` keeps its old value, and once
  a fix has been seen `update` goes on returning True after the fix is
  lost (`Scenarios.VoidRmcIgnored`, `Decoder.DrainValid`).
- Partial writes. `_set_data_from_rmc` assigns the fields one statement at
  a time. `[0-9.]+` admits speed or heading texts that `float()` rejects,
  such as `1.2.3` (and `.` under CPython's rules; see `Decoder.FloatText`
  below). When that happens, time, validity and position are already
  written and the date is not. `update` does not catch ValueError, so it
  escapes with the record half-written. GGA is similar: the satellite
  count is written before `float()` of the altitude can fail.
  `Decoder.ApplyRmc`, `Decoder.ApplyGga` and `Receiver.PA1010.Update`
  state this behaviour.

## Left out

- I2C transport. `machine.I2C`, `writeto` and `readfrom_mem` are not
  modelled. Commands return the bytes they would write, and the bytes the
  module would deliver are a parameter. Reading past the end of those
  bytes is the bus error (`OSError`).
- Clock. `time.ticks_ms` is modelled as one tick per byte read, and
  `ticks_diff` wrap-around is not modelled.
- Command.SendCommand: requires an ASCII command. `command.encode("ascii")`
  raises UnicodeEncodeError on other text, and that error path is not
  modelled; every command the driver sends is ASCII.
- Text.Decode: maps each byte to the character with the same code, which
  is CPython's `bytes.decode("ascii")` on ASCII input. CPython raises
  UnicodeDecodeError on bytes above 0x7F; MicroPython ignores the encoding
  name and decodes UTF-8, raising only on invalid UTF-8. Neither error
  path, nor MicroPython's decoding of multi-byte sequences, is modelled;
  `Reader.ReadSentence` returns text decoded this way.
- Text.IsSpace: `strip()` removes space and tab through carriage return,
  MicroPython's whitespace set for ASCII text.
- Floating point. Speed, heading and altitude are kept as the texts
  `float()` was given, not as numbers. The initial altitude is the text
  `"0"` for the integer 0.
- Decoder.FloatText: says which `[0-9.]+` texts `float()` accepts by
  CPython's rule: at least one digit and at most one point. The driver
  runs on MicroPython, whose number parser may differ on texts without a
  digit; it may, for instance, read `.` as 0.0 instead of raising. That
  difference is not modelled.
- Command.UpdateRateMs and Command.PeriodicSleepMs: seconds are exact
  reals. The binary floating-point rounding of `seconds * 1000` is not
  modelled.
- Receiver.PA1010.constructor: the constructor's recovery loop (polling
  for `$PMTK010,00` or `$G` with `time.sleep`) waits on hardware and is not
  modelled. The commands the constructor sends are `Command.StartupCommands`.
  The time, date and position fields are not set until the first RMC
  sentence; the model leaves them arbitrary.
- Command.SetPeriodicMode: the loop that waits for the `$PMTK001,220`
  acknowledgement between the two commands waits on hardware and is not
  modelled.
- Receiver.PA1010.Update: the bytes still on the bus after `update` stops
  are not returned.
- `gps/gps.py` is not part of this model.
