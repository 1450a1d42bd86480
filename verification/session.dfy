/** The operations of the servo controller class: moving one servo, the
    emergency stop and recovery commands, and the status (liveness) probe. */
module Session {
  import opened Wrappers
  import opened Protocol
  import opened Convert
  import opened Serial

  /** The range check `MoveServo` failed, in the order it checks them. */
  datatype Violation = ServoIdOutOfRange | AngleOutOfRange | SpeedOutOfRange

  /** What a call of `MoveServo` did: rejected its arguments before any
      I/O, or sent its two commands (in order) and returned `result`. */
  datatype MoveOutcome =
    | Rejected(why: Violation)
    | Dispatched(sends: seq<Attempt>, result: bool)
  {
    /** The boolean `MoveServo` returns. */
    predicate Returned()
    {
      Dispatched? && result
    }
  }

  /** `MoveServo(servoID, move_angle, move_speed)` on already-parsed
      integers: range checks in the order id, angle, speed; the speed
      command then the move command, each sent whatever became of the
      other; True only when both sends succeeded. The two write outcomes
      stand for the serial port. */
  function MoveServo(servoId: int, angle: int, speed: int, speedWriteOk: bool, moveWriteOk: bool): (r: MoveOutcome)
    ensures !(0 <= servoId < MaxServoNum) ==> r == Rejected(ServoIdOutOfRange)
    ensures 0 <= servoId < MaxServoNum && !(0 <= angle <= 180) ==> r == Rejected(AngleOutOfRange)
    ensures 0 <= servoId < MaxServoNum && 0 <= angle <= 180 && !(9 <= speed <= 180) ==> r == Rejected(SpeedOutOfRange)
    ensures r.Dispatched? <==> 0 <= servoId < MaxServoNum && 0 <= angle <= 180 && 9 <= speed <= 180
    ensures r.Dispatched? ==>
              && 0 <= servoId < MaxServoNum && 0 <= angle <= 180 && 9 <= speed <= 180
              && |r.sends| == 2
              && r.sends[0].wire == Some(Encode(SetSpeed(servoId, SpeedUnits(speed))))
              && r.sends[1].wire == Some(Encode(MoveTo(servoId, PulseWidth(angle))))
              && r.sends[0].ok == speedWriteOk
              && r.sends[1].ok == moveWriteOk
    ensures r.Returned() <==> r.Dispatched? && speedWriteOk && moveWriteOk
  {
    if servoId < 0 || servoId > MaxServoNum - 1 then Rejected(ServoIdOutOfRange)
    else if angle < 0 || angle > 180 then Rejected(AngleOutOfRange)
    else if speed < 9 || speed > 180 then Rejected(SpeedOutOfRange)
    else
      var pulse := PulseWidth(angle);
      var units := SpeedUnits(speed);
      SpeedCommandWire(servoId, units);
      MoveCommandWire(servoId, pulse);
      var speedSend := SerialSend(ServoFieldCommand(CmdServoSpeed, servoId, units), speedWriteOk);
      var moveSend := SerialSend(ServoFieldCommand(CmdServoMove, servoId, pulse), moveWriteOk);
      var successFlag := (if speedSend.ok then 1 else 0) + (if moveSend.ok then 1 else 0);
      Dispatched([speedSend, moveSend], successFlag == 2)
  }

  /** Every angle up to `MinAngle` (angle 0 included) is driven like angle
      7: a 577 microsecond pulse, sent as 0x41 then 0x02. */
  lemma MoveServoSmallAngle(servoId: int, angle: int, speed: int, speedWriteOk: bool, moveWriteOk: bool)
    requires 0 <= servoId < MaxServoNum && 0 <= angle <= MinAngle && 9 <= speed <= 180
    ensures MoveServo(servoId, angle, speed, speedWriteOk, moveWriteOk).Dispatched?
    ensures MoveServo(servoId, angle, speed, speedWriteOk, moveWriteOk).sends[1].wire
            == Some([0xFF, 0x02, servoId, 0x41, 0x02])
  {
    assert PulseWidth(angle) == 577;
    var frame := Encode(MoveTo(servoId, 577));
    assert frame == [0xFF, 0x02, servoId, 0x41, 0x02];
  }

  /** Speed 90 becomes ten units, sent as 0x0A then 0x00. */
  lemma MoveServoSpeedNinety(servoId: int, angle: int, speedWriteOk: bool, moveWriteOk: bool)
    requires 0 <= servoId < MaxServoNum && 0 <= angle <= 180
    ensures MoveServo(servoId, angle, 90, speedWriteOk, moveWriteOk).Dispatched?
    ensures MoveServo(servoId, angle, 90, speedWriteOk, moveWriteOk).sends[0].wire
            == Some([0xFF, 0x01, servoId, 0x0A, 0x00])
  {
    assert SpeedUnits(90) == 10;
    var frame := Encode(SetSpeed(servoId, 10));
    assert frame == [0xFF, 0x01, servoId, 0x0A, 0x00];
  }

  /** `EmergencyStopServo`: sends the stop/recovery frame and ignores the
      outcome; the model returns the send so the frame can be seen. */
  function EmergencyStopServo(writeOk: bool): (a: Attempt)
    ensures a.wire == Some(Encode(StopOrRecover)) && a.ok == writeOk
  {
    SerialSend(StopRecoveryCommand(), writeOk)
  }

  /** `RecoveryServoAction`: sends the same frame as the emergency stop. */
  function RecoveryServoAction(writeOk: bool): (a: Attempt)
    ensures a.wire == Some(Encode(StopOrRecover)) && a.ok == writeOk
  {
    SerialSend(StopRecoveryCommand(), writeOk)
  }

  /** The two commands cannot be told apart on the wire. */
  lemma StopAndRecoverySendSameFrame(writeOk: bool)
    ensures EmergencyStopServo(writeOk).wire == RecoveryServoAction(writeOk).wire
    ensures EmergencyStopServo(writeOk).wire == Some([0xFF, 0x0B, 0x00, 0x01, 0x00])
  {
  }

  /** How many reads the status probe makes at most. */
  const StatusPolls := 3

  /** `ServoControlPanelStatus`: send the status query (its outcome is not
      looked at), poll three lines for the answer, and report online only
      when `serial_receive` returned the found marker. */
  method ServoControlPanelStatus(queryWriteOk: bool, lines: seq<ReadOutcome>)
    returns (online: bool, query: Attempt, polls: nat)
    ensures query.wire == Some(Encode(StatusQuery)) && query.ok == queryWriteOk
    ensures online <==> SeenWithin(OnlinePattern(), lines, StatusPolls)
    ensures 1 <= polls <= StatusPolls
    ensures forall j :: 0 <= j < polls - 1 ==> !Stops(OnlinePattern(), lines, j)
    ensures online ==> Hit(OnlinePattern(), lines, polls - 1)
    ensures !online ==> polls == StatusPolls || Fault(lines, polls - 1)
  {
    query := SerialSend(StatusCommand(), queryWriteOk);
    var received := SerialReceive(StatusPolls, OnlinePattern(), lines);
    ReceiveVerdict(OnlinePattern(), lines, StatusPolls, received);
    polls := received.polls;
    var result := received.result;
    online := result.Some? && |result.value| > 0 && result.value[0] == FoundMarker;
  }

  /** The intended verdict: within the first `budget` reads some line
      carries the answer bytes, and no read before it failed. */
  ghost predicate AnswerWithin(lines: seq<ReadOutcome>, budget: nat)
  {
    exists i :: 0 <= i < budget && ReadAt(lines, i).Line? && AnswerIn(ReadAt(lines, i).data)
      && forall j :: 0 <= j < i ==> !Fault(lines, j)
  }

  /** The source's probe reports online whenever the answer bytes arrive in
      time; it can also report online without them (Serial.MisalignedLine). */
  lemma AnswerWithinIsOnline(lines: seq<ReadOutcome>, budget: nat)
    requires AnswerWithin(lines, budget)
    ensures SeenWithin(OnlinePattern(), lines, budget)
  {
    var i :| 0 <= i < budget && ReadAt(lines, i).Line? && AnswerIn(ReadAt(lines, i).data)
      && forall j :: 0 <= j < i ==> !Fault(lines, j);
    var data := ReadAt(lines, i).data;
    AnswerText();
    AnswerInIsMatched(data, OnlinePattern());
    assert |data| >= 5;
    assert Hit(OnlinePattern(), lines, i);
  }

  /** A board whose first line is MisalignedLine is reported online
      although it never sent the answer bytes. */
  lemma MisalignedLineReportedOnline()
    ensures SeenWithin(OnlinePattern(), [Line(MisalignedLine)], StatusPolls)
    ensures !AnswerWithin([Line(MisalignedLine)], StatusPolls)
  {
    var lines := [Line(MisalignedLine)];
    AnswerText();
    MisalignedLineMatches(OnlinePattern());
    assert Hit(OnlinePattern(), lines, 0);
  }
}
