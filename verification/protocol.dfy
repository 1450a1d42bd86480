/** The WTServo16 wire protocol: the command constants of the controller
    class, the frame layout they spell, and the command texts the class
    assembles from them. */
module Protocol {
  import opened Wrappers
  import opened Digits
  import opened HexBytes
  import opened ByteHelpers

  const FrameHeader := "FF"
  const CmdServoSpeed := "01"
  const CmdServoMove := "02"
  const CmdStopRecovery := "0B"
  /** The status query (handshake) after the header. */
  const StateDetection := "00120000"
  /** The board's answer to the status query after the header. */
  const StateAnswer := "F0120000"
  /** The board drives at most this many servos, numbered from 0. */
  const MaxServoNum := 16

  /** A command to the board. */
  datatype Command =
    | SetSpeed(servo: byte, units: nat)
    | MoveTo(servo: byte, pulse: nat)
    | StopOrRecover
    | StatusQuery

  /** The 16-bit fields fit in two bytes. */
  predicate Encodable(c: Command)
  {
    match c
    case SetSpeed(_, units) => units < 65536
    case MoveTo(_, pulse) => pulse < 65536
    case _ => true
  }

  /** The frame layout: header 0xFF, command code, servo id, then a 16-bit
      field low byte first. Stop and recovery share one fixed frame; the
      status query is a fixed frame of its own. */
  function Encode(c: Command): (frame: seq<byte>)
    requires Encodable(c)
    ensures |frame| == 5 && frame[0] == 0xFF
    ensures c.SetSpeed? ==> frame[1] == 0x01 && frame[2] == c.servo && frame[3] as int + 256 * frame[4] as int == c.units
    ensures c.MoveTo? ==> frame[1] == 0x02 && frame[2] == c.servo && frame[3] as int + 256 * frame[4] as int == c.pulse
  {
    match c
    case SetSpeed(id, units) => [0xFF, 0x01, id, units % 256, units / 256]
    case MoveTo(id, pulse) => [0xFF, 0x02, id, pulse % 256, pulse / 256]
    case StopOrRecover => [0xFF, 0x0B, 0x00, 0x01, 0x00]
    case StatusQuery => [0xFF, 0x00, 0x12, 0x00, 0x00]
  }

  /** The text `MoveServo` builds for one servo command: header, command
      code, `int_to_hexStr(id)`, then the low and the high byte of the value
      from `get_low_high_byte`. */
  function ServoFieldCommand(code: string, servoId: nat, value: nat): (text: string)
  {
    FrameHeader + code + IntToHexStr(servoId) + GetLowHighByte(value, "low") + GetLowHighByte(value, "high")
  }

  /** On the wire that text is the five bytes header, code, id, low, high. */
  lemma ServoFieldCommandWire(code: string, servoId: nat, value: nat)
    requires IsPair(code) && servoId < 256 && value < 65536
    ensures FromHex(ServoFieldCommand(code, servoId, value))
            == Some([0xFF, PairValue(code), servoId, value % 256, value / 256])
  {
    var id := IntToHexStr(servoId);
    var lo, hi := GetLowHighByte(value, "low"), GetLowHighByte(value, "high");
    HexPairValue(servoId);
    UpperHexPairValue(value % 256);
    UpperHexPairValue(value / 256);
    assert PairValue(FrameHeader) == 0xFF;
    FromHexFive(FrameHeader, code, id, lo, hi);
  }

  /** The speed command of `MoveServo` puts exactly the SetSpeed frame on the wire. */
  lemma SpeedCommandWire(servoId: nat, units: nat)
    requires servoId < 256 && units < 65536
    ensures FromHex(ServoFieldCommand(CmdServoSpeed, servoId, units)) == Some(Encode(SetSpeed(servoId, units)))
  {
    assert PairValue(CmdServoSpeed) == 0x01;
    ServoFieldCommandWire(CmdServoSpeed, servoId, units);
  }

  /** The move command of `MoveServo` puts exactly the MoveTo frame on the wire. */
  lemma MoveCommandWire(servoId: nat, pulse: nat)
    requires servoId < 256 && pulse < 65536
    ensures FromHex(ServoFieldCommand(CmdServoMove, servoId, pulse)) == Some(Encode(MoveTo(servoId, pulse)))
  {
    assert PairValue(CmdServoMove) == 0x02;
    ServoFieldCommandWire(CmdServoMove, servoId, pulse);
  }

  /** The text both `EmergencyStopServo` and `RecoveryServoAction` send. */
  function StopRecoveryCommand(): (cmd: string)
    ensures FromHex(cmd) == Some(Encode(StopOrRecover))
  {
    var cmd := FrameHeader + CmdStopRecovery + "000100";
    assert cmd == "FF" + "0B" + "00" + "01" + "00";
    FromHexFive("FF", "0B", "00", "01", "00");
    cmd
  }

  /** The handshake text `ServoControlPanelStatus` sends. */
  function StatusCommand(): (cmd: string)
    ensures FromHex(cmd) == Some(Encode(StatusQuery))
  {
    var cmd := FrameHeader + StateDetection;
    assert cmd == "FF" + "00" + "12" + "00" + "00";
    FromHexFive("FF", "00", "12", "00", "00");
    cmd
  }

  /** The board's answer to the status query: header, then F0 12 00 00. */
  const AnswerFrame: seq<byte> := [0xFF, 0xF0, 0x12, 0x00, 0x00]

  lemma AnswerText()
    ensures ToHex(AnswerFrame) == "fff0120000"
  {
    var s4: seq<byte> := [0x00];
    var s3: seq<byte> := [0x00] + s4;
    var s2: seq<byte> := [0x12] + s3;
    var s1: seq<byte> := [0xF0] + s2;
    var s0: seq<byte> := [0xFF] + s1;
    assert HexPair(0x00) == "00" && HexPair(0x12) == "12" && HexPair(0xF0) == "f0" && HexPair(0xFF) == "ff" by {
      assert DigitChar(0) == '0' && DigitChar(1) == '1' && DigitChar(2) == '2' && DigitChar(15) == 'f';
    }
    ToHexCons(0x00, []);
    assert ToHex(s4) == "00";
    ToHexCons(0x00, s4);
    assert ToHex(s3) == "0000";
    ToHexCons(0x12, s3);
    assert ToHex(s2) == "120000";
    ToHexCons(0xF0, s2);
    assert ToHex(s1) == "f0120000";
    ToHexCons(0xFF, s1);
    assert ToHex(s0) == "fff0120000";
    assert s0 == AnswerFrame;
  }

  /** The pattern `ServoControlPanelStatus` looks for in what comes back. */
  function OnlinePattern(): (p: string)
    ensures Lower(p) == ToHex(AnswerFrame)
  {
    var p := FrameHeader + StateAnswer;
    assert p == "FFF0120000";
    AnswerText();
    assert Lower(p) == "fff0120000" by {
      assert forall i :: 0 <= i < |p| ==> Lower(p)[i] == "fff0120000"[i];
    }
    p
  }
}
