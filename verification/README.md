# WTServo16 protocol layer in Dafny

This project models the wire-protocol core of `ServoMotorControl`, a Python
class that drives a WTServo16 16-channel servo controller board over a
serial line. The class builds every command as a hex text, turns the text
into bytes with `bytes.fromhex`, and writes the bytes to the port. Every
frame has five bytes: the header `FF`, a command code, and three payload
bytes.

The model covers:

- **the byte and hex helpers**: `int_to_hexStr`, `str_to_hex`,
  `get_low_high_byte` and `strHex_to_int`. They work on Python numeral text
  (`hex()`, `bin()`, `int(s, base)`, zero padding). The model keeps that
  text (modules `Digits`, `ByteHelpers`) and proves which numbers and bytes
  it stands for. One result is that splitting a 16-bit value and joining
  the halves gives the value back.
- **`MoveServo`** (module `Session`): the range checks in their fixed
  order, the angle clamp, the conversions to pulse width and speed steps
  (module `Convert`), and the two command texts. The model proves that the
  bytes on the wire are exactly `FF 01 id lo hi` (speed) and then
  `FF 02 id lo hi` (move), and that the call returns True only when both
  writes succeed.
- **the fixed frames**: emergency stop and recovery both send
  `FF 0B 00 01 00`, and the status query sends `FF 00 12 00 00` (module
  `Protocol`).
- **the liveness probe**: `ServoControlPanelStatus` with `serial_receive`
  (module `Serial`). It reads at most three lines and reports the board
  online only if some line's hex text contains `FFF0120000`, compared
  ignoring case.

The serial port is a parameter in every operation:

- a write is one boolean outcome;
- the lines `readline` would return are a given sequence of
  `ReadOutcome`s (a line of bytes, or an exception);
- a read past the end of that sequence times out and returns an empty line.

`bytes.fromhex` and `bytes.hex` are modelled in module `HexBytes`.

`MoveServo` computes the pulse width as `int(angle/0.09) + 500`, which
truncates. For integer angles in [7, 180] this equals
`angle * 100 / 9 + 500` in integer division, and the model uses that.
Rounding instead of truncating would give 578 for angle 0; the code
truncates and gives 577. The model follows the code, so
the pulse range is [577, 2500], not the [500, 2500] the doc comment
suggests.

## Model

| member | source | states |
|---|---|---|
| Digits.Render | ServoMotorControl.py:122-123 | the digits `bin(n)` / `hex(n)` print after the prefix are non-empty, all valid digits of the base, and have no leading zero |
| Digits.RenderParse | ServoMotorControl.py:101-104 | `int(s, base)` applied to the digits Python prints for n gives back n |
| Digits.PadLeftParse | ServoMotorControl.py:124-125 | left zero padding reaches the requested width (or leaves longer text alone) and never changes the numeral's value |
| Digits.ParseAppend | ServoMotorControl.py:267-268 | reading a concatenation of digit strings equals the first part's value shifted by the second part's length plus the second part's value |
| Digits.RenderLength | ServoMotorControl.py:124 | a number below base^k is printed with at most k digits, so a 16-bit value's binary text needs no more than 16 characters |
| HexBytes.FromHexAccepts | ServoMotorControl.py:49 | `bytes.fromhex` accepts every even-length run of hex digits and yields one byte per digit pair |
| HexBytes.FromHexRejects | ServoMotorControl.py:49 | `bytes.fromhex` fails on any character that is neither a hex digit nor whitespace |
| HexBytes.ToHexRoundTrip | ServoMotorControl.py:66 | the hex text `bytes.hex()` produces reads back through `bytes.fromhex` as the same bytes |
| HexBytes.ToHexSlice | ServoMotorControl.py:66 | the hex text of a run of bytes is the matching even-aligned run of the hex text |
| HexBytes.FromHexFive | ServoMotorControl.py:198-210 | a text made of five two-digit groups goes on the wire as exactly those five byte values, in order |
| ByteHelpers.IntToHexStr | ServoMotorControl.py:80-91 | `int_to_hexStr(n)` has at least two hex digits that read back as n; below 256 it is exactly the two lower-case digits of the byte, so ids 0-15 become `00`-`0f` |
| ByteHelpers.StrToHex | ServoMotorControl.py:93-109 | `str_to_hex(bits)` is hex text worth the same as the binary text; when that value is below 256 it is exactly the two upper-case digits of the byte |
| ByteHelpers.Binary16 | ServoMotorControl.py:121-125 | the padded binary text has at least 16 binary digits and reads back as the value |
| ByteHelpers.Split16 | ServoMotorControl.py:126-133 | for a 16-bit value the first 8 characters of the padded binary text are the high byte (v div 256) and characters 8-16 are the low byte (v mod 256) |
| ByteHelpers.GetLowHighByte | ServoMotorControl.py:112-133 | `get_low_high_byte` always yields two hex digits; for a 16-bit value, "high" gives the upper-case digits of v div 256 and any other selector gives those of v mod 256 |
| ByteHelpers.Group | ServoMotorControl.py:261-266 | each loop step of `strHex_to_int` yields at least 8 binary digits worth the hex numeral, and exactly 8 for a byte |
| ByteHelpers.JoinedValue | ServoMotorControl.py:258-268 | when every part is a byte, the joined 8-bit groups read as the big-endian combination of the parts |
| ByteHelpers.StrHexToInt | ServoMotorControl.py:251-270 | `strHex_to_int` of byte-sized hex numerals is their big-endian combination (`Combine`) |
| ByteHelpers.StrHexToIntPair | ServoMotorControl.py:251-270 | `strHex_to_int` of two two-digit hex numerals is high * 256 + low |
| ByteHelpers.SplitJoinRoundTrip | ServoMotorControl.py:112-133 | for every v in [0, 65535], joining `get_low_high_byte(v,'high')` and `get_low_high_byte(v,'low')` with `strHex_to_int` gives v |
| Protocol.Encode | ServoMotorControl.py:198-210 | every frame has 5 bytes starting with `FF`; speed and move frames carry their code, the id, and the 16-bit value low byte first |
| Protocol.ServoFieldCommandWire | ServoMotorControl.py:198-210 | the command text `MoveServo` assembles goes on the wire as header, code, id, value mod 256, value div 256 |
| Protocol.SpeedCommandWire | ServoMotorControl.py:198-203 | the speed command text is exactly the frame `FF 01 id lo hi` of the speed steps |
| Protocol.MoveCommandWire | ServoMotorControl.py:205-210 | the move command text is exactly the frame `FF 02 id lo hi` of the pulse width |
| Protocol.StopRecoveryCommand | ServoMotorControl.py:230-233 | the emergency stop / recovery text goes on the wire as `FF 0B 00 01 00` |
| Protocol.StatusCommand | ServoMotorControl.py:144 | the handshake text goes on the wire as `FF 00 12 00 00` |
| Protocol.OnlinePattern | ServoMotorControl.py:145 | the pattern searched for is, ignoring case, the hex text of the answer bytes `FF F0 12 00 00` |
| Convert.PulseWidth | ServoMotorControl.py:189-192 | for angles in [0, 180] the pulse is in [577, 2500], is 577 for every angle up to 7, and is 500 plus the whole number of 0.09-degree steps in the clamped angle |
| Convert.PulseWidthMonotone | ServoMotorControl.py:189-192 | a larger angle never gives a shorter pulse |
| Convert.SpeedUnits | ServoMotorControl.py:202-203 | for speeds in [9, 180] the steps are in [1, 20] and are the whole number of 9-degree/s steps in the speed |
| Convert.SpeedUnitsMonotone | ServoMotorControl.py:202-203 | a larger speed never gives fewer steps |
| Serial.SerialSend | ServoMotorControl.py:41-54 | the bytes handed to the write are `bytes.fromhex(cmd)` (so `"FF"` is written as byte 255 and odd-length text such as `"F"` converts to nothing); a send returns True iff the text converts and the write succeeds; well-formed hex text always converts, and a non-hex, non-space character makes it return False |
| Serial.SerialSendExamples | ServoMotorControl.py:41-54 | `serial_send("FF")` writes the single byte 255, and `serial_send("F")` returns False because `bytes.fromhex` raises on odd-length text |
| Serial.CollectedAreHex | ServoMotorControl.py:66-69 | the kept list holds only non-empty hex texts |
| Serial.SerialReceive | ServoMotorControl.py:56-77 | polls at most timeOut lines; stops at the first line whose hex text contains the pattern (found marker) or the first read error (False); empty lines use up a poll; otherwise returns the non-empty hex texts of all polled lines |
| Serial.ReceiveVerdict | ServoMotorControl.py:147-153 | the caller's test `result[0] == "InforToBeTested_FIND"` holds iff some line within the budget matched and no read before it failed; a collected hex line can never pass for the marker |
| Serial.AnswerInIffAlignedMatch | ServoMotorControl.py:70 | the intended byte test (answer bytes present) is exactly a case-insensitive match of the answer text at a byte boundary of the hex text |
| Serial.AnswerInIsMatched | ServoMotorControl.py:70 | every line that carries the answer bytes passes the source's text test |
| Serial.MisalignedLineMatches | ServoMotorControl.py:70 | the text test accepts line `1F FF 01 20 00 00`, which does not carry the answer bytes |
| Session.MoveServo | ServoMotorControl.py:156-221 | out-of-range id, angle or speed is rejected before any send, with the reason from the first failing check in the order id, angle, speed; a call is dispatched exactly when all three checks pass, and then the speed frame then the move frame are sent, both attempted, and the result is True iff both writes succeed |
| Session.MoveServoSmallAngle | ServoMotorControl.py:189-210 | for every angle up to 7 (angle 0 included) the move frame is `FF 02 id 41 02`: the clamp raises the angle to 7 and `int(7/0.09)+500 = 577` is sent low byte first |
| Session.MoveServoSpeedNinety | ServoMotorControl.py:198-203 | speed 90 is sent as the speed frame `FF 01 id 0A 00`: ten units of 9 degrees per second, low byte first |
| Session.EmergencyStopServo | ServoMotorControl.py:223-234 | the emergency stop sends `FF 0B 00 01 00` |
| Session.RecoveryServoAction | ServoMotorControl.py:237-248 | recovery sends `FF 0B 00 01 00` |
| Session.StopAndRecoverySendSameFrame | ServoMotorControl.py:230-247 | stop and recovery put the identical frame on the wire |
| Session.ServoControlPanelStatus | ServoMotorControl.py:136-153 | sends `FF 00 12 00 00` whatever its outcome, polls 1 to 3 lines, and reports online iff some line among the first three contains the answer text and no read before it failed; it stops at the first match, and reports offline after 3 polls or at a read error |
| Session.AnswerWithinIsOnline | ServoMotorControl.py:143-153 | whenever the answer bytes arrive within three reads, the probe reports online |
| Session.MisalignedLineReportedOnline | ServoMotorControl.py:143-153 | a board whose first line is `1F FF 01 20 00 00` is reported online although the answer bytes never arrived |

## Left out

- Opening the serial port (9600 baud, 2 s timeout) and the `sys.exit` when it cannot be opened: process lifecycle and I/O.
- `uart.write`, `uart.readline` and `time.sleep(0.01)`: foreign I/O and timing. A write is a boolean outcome parameter. The lines read are a given sequence, and a read past its end is an empty line.
- All `print` output, including the colored status messages and the stray `print` in `strHex_to_int`.
- The float division in `int(angle/0.09)` and `int(speed/9)`: replaced by the integer quotients, which agree for the integer inputs `MoveServo` accepts.
- The `int()` conversion of `MoveServo`'s arguments and the `__main__` command line: argument parsing. `MoveServo` takes integers.
- `CMD_START_ACTION_GROUP` (`09`): the class declares it but never builds a frame with it, so no encoding is modelled.
- Regular expressions: the pattern given to `serial_receive` is matched as a plain substring ignoring ASCII case. The only pattern used is made of hex digits, so no metacharacter or Unicode case folding comes into play.
- `int(s, base)` also accepts signs, underscores, surrounding whitespace and a `0x`/`0b` prefix. The model parses plain digit strings only, which is all the helpers ever pass.
- Negative inputs to `int_to_hexStr` and `get_low_high_byte` are not modelled (both take naturals). Python would drop the minus sign of `hex(-n)` / `bin(-n)`, but `MoveServo` only calls them after its range checks.
- ByteHelpers.StrHexToInt: the empty list, an empty numeral and a non-hex character make Python's `int(p, 16)` or `int("", 2)` raise `ValueError`; the model requires a non-empty list of non-empty hex numerals, because the uncaught exception is not modelled and no call site passes such input.
- ByteHelpers.StrToHex: an empty bit string or a non-binary character makes `int(bits, 2)` raise; the model requires a non-empty binary numeral, because the uncaught exception is not modelled and no call site passes one.
- ByteHelpers.Group: an empty or non-hex numeral makes `int(p, 16)` raise; the model requires a non-empty hex numeral, for the same reason.
- ByteHelpers.GetLowHighByte: for values of 65536 and above it states only that the result is two hex digits. For such values the slices are the top bits of a longer binary text rather than the low 16 bits, and no caller passes one.
- Serial.SerialSend: a write that reports success but writes fewer bytes is not distinguished from a full write.

## Findings

| source | as written | input that shows it | evidently intended | confidence | as-written member | corrected member |
|---|---|---|---|---|---|---|
| ServoMotorControl.py:70 | the answer pattern `FFF0120000` is searched in the hex text of a line at any character offset, including half a byte off | a line with bytes `1F FF 01 20 00 00`, whose hex text `1fff01200000` contains `fff0120000` at offset 1 although the bytes `FF F0 12 00 00` do not occur | the board is online when the answer bytes occur in the line, i.e. a match at an even offset of the hex text | low (the board is unlikely to send such a line); not executed | Serial.MisalignedLineMatches | Serial.AnswerInIffAlignedMatch |

The corrected test is `Serial.AnswerIn` (the answer bytes occur in the
line), and `Session.AnswerWithin` is the probe verdict built on it.
`Session.AnswerWithinIsOnline` proves that the code's probe reports online
whenever the corrected verdict does. `Session.MisalignedLineReportedOnline`
proves that the converse fails. `Session.ServoControlPanelStatus` itself
keeps the code's text test, since that is what the class does.
