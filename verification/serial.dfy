/** The serial link as the controller class uses it: `serial_send` turns a
    command text into bytes and writes them, `serial_receive` polls a
    bounded number of lines and looks for a pattern in their hex text.
    The port itself is not modelled: each write's success is a parameter
    and the lines the port would return are a given sequence. */
module Serial {
  import opened Wrappers
  import opened Digits
  import opened HexBytes
  import opened Protocol

  /** One call of `serial_send`: the bytes handed to the write (None when
      `bytes.fromhex` raised, so nothing was written) and what it returned. */
  datatype Attempt = Attempt(wire: Option<seq<byte>>, ok: bool)

  /** `serial_send`: both the conversion and the write are inside the
      `try`, so a malformed text or a failed write returns False. */
  function SerialSend(cmd: string, writeOk: bool): (a: Attempt)
    ensures a.wire == FromHex(cmd)
    ensures a.ok <==> writeOk && a.wire.Some?
    ensures |cmd| % 2 == 0 && AllDigitsOf(cmd, 16) ==> a.wire.Some? && 2 * |a.wire.value| == |cmd|
    ensures (exists i :: 0 <= i < |cmd| && !IsHexChar(cmd[i]) && !IsSpace(cmd[i])) ==> !a.ok
  {
    FromHexAcceptsWhen(cmd);
    FromHexRejectsWhen(cmd);
    var wire := FromHex(cmd);
    Attempt(wire, wire.Some? && writeOk)
  }

  /** `"FF"` goes out as the byte 255; the odd-length `"F"` does not
      convert, so the send returns False whatever the port does. */
  lemma SerialSendExamples(writeOk: bool)
    ensures SerialSend("FF", writeOk).wire == Some([255])
    ensures !SerialSend("F", writeOk).ok
  {
    FromHexPair("FF");
    assert PairValue("FF") == 255;
    assert !IsSpace('F');
  }

  lemma FromHexAcceptsWhen(s: string)
    ensures |s| % 2 == 0 && AllDigitsOf(s, 16) ==> FromHex(s).Some? && 2 * |FromHex(s).value| == |s|
  {
    if |s| % 2 == 0 && AllDigitsOf(s, 16) {
      FromHexAccepts(s);
    }
  }

  lemma FromHexRejectsWhen(s: string)
    ensures (exists i :: 0 <= i < |s| && !IsHexChar(s[i]) && !IsSpace(s[i])) ==> FromHex(s) == None
  {
    if i :| 0 <= i < |s| && !IsHexChar(s[i]) && !IsSpace(s[i]) {
      FromHexRejects(s, i);
    }
  }

  /** What one `uart.readline()` gave: a line of bytes, empty when the read
      timed out, or an exception. */
  datatype ReadOutcome = Line(data: seq<byte>) | ReadFault

  /** The outcome of the i-th read; lines past the given ones time out. */
  function ReadAt(lines: seq<ReadOutcome>, i: nat): (o: ReadOutcome)
  {
    if i < |lines| then lines[i] else Line([])
  }

  /** The pattern occurs in the text at position i, ignoring ASCII case. */
  predicate MatchesAt(text: string, pattern: string, i: nat)
  {
    i + |pattern| <= |text| && Lower(text[i .. i + |pattern|]) == Lower(pattern)
  }

  /** `re.findall(pattern, text, re.I)` is non-empty, for a pattern made of
      plain characters (the only pattern used is hex digits). */
  predicate ContainsIgnoringCase(text: string, pattern: string)
  {
    exists i :: 0 <= i <= |text| && MatchesAt(text, pattern, i)
  }

  /** Read i returned a non-empty line whose hex text contains the pattern
      (`if serial_content:` and `InforToBeTested and re.findall(...)`). */
  predicate Hit(pattern: string, lines: seq<ReadOutcome>, i: nat)
  {
    ReadAt(lines, i).Line? && HitText(pattern, ToHex(ReadAt(lines, i).data))
  }

  /** A non-empty line text in which a non-empty pattern occurs. */
  predicate HitText(pattern: string, text: string)
  {
    |text| > 0 && pattern != "" && ContainsIgnoringCase(text, pattern)
  }

  predicate Fault(lines: seq<ReadOutcome>, i: nat)
  {
    ReadAt(lines, i).ReadFault?
  }

  /** Read i ends the polling early. */
  predicate Stops(pattern: string, lines: seq<ReadOutcome>, i: nat)
  {
    Fault(lines, i) || Hit(pattern, lines, i)
  }

  /** The hex texts of the non-empty lines among the first n lines, in order. */
  function Collected(lines: seq<ReadOutcome>, n: nat): (texts: seq<string>)
  {
    if n == 0 then []
    else
      var o := ReadAt(lines, n - 1);
      var text := if o.Line? then ToHex(o.data) else "";
      Collected(lines, n - 1) + (if |text| > 0 then [text] else [])
  }

  /** Every kept text is non-empty hex text. */
  lemma {:induction false} CollectedAreHex(lines: seq<ReadOutcome>, n: nat)
    ensures forall k :: 0 <= k < |Collected(lines, n)| ==>
              1 <= |Collected(lines, n)[k]| && AllDigitsOf(Collected(lines, n)[k], 16)
  {
    if n > 0 {
      CollectedAreHex(lines, n - 1);
      var o := ReadAt(lines, n - 1);
      if o.Line? {
        ToHexDigits(o.data);
      }
    }
  }

  /** What one pass of the `serial_receive` loop does with read i: the read
      raised, the line's hex text contains the pattern, or polling goes on
      keeping `kept` (the text when it is non-empty). */
  datatype Step = Failed | Found | Continue(kept: seq<string>)

  function Poll(pattern: string, lines: seq<ReadOutcome>, i: nat): (s: Step)
    ensures s.Failed? <==> Fault(lines, i)
    ensures s.Found? <==> Hit(pattern, lines, i)
    ensures s.Continue? ==> Collected(lines, i + 1) == Collected(lines, i) + s.kept
  {
    var line := ReadAt(lines, i);
    if line.ReadFault? then Failed
    else
      var content := ToHex(line.data);
      if HitText(pattern, content) then Found
      else Continue(if |content| > 0 then [content] else [])
  }

  lemma NoStopsExtend(pattern: string, lines: seq<ReadOutcome>, n: nat)
    requires forall j :: 0 <= j < n ==> !Stops(pattern, lines, j)
    requires !Stops(pattern, lines, n)
    ensures forall j :: 0 <= j < n + 1 ==> !Stops(pattern, lines, j)
  {
  }

  /** The list `serial_receive` returns when it finds the pattern. */
  const FoundMarker := "InforToBeTested_FIND"

  /** What `serial_receive` returned (None for its `False`) and how many
      lines it made. */
  datatype Received = Received(result: Option<seq<string>>, polls: nat)

  /** `serial_receive(timeOut, pattern)`: up to timeOut lines; each non-empty
      line is kept as hex text; the first line containing the pattern ends
      the polling with the found marker; an exception ends it with False;
      an empty line still uses up a poll. */
  method SerialReceive(timeOut: int, pattern: string, lines: seq<ReadOutcome>) returns (r: Received)
    ensures r.polls <= (if timeOut < 0 then 0 else timeOut)
    ensures forall j :: 0 <= j < r.polls - 1 ==> !Stops(pattern, lines, j)
    ensures r.polls > 0 && Fault(lines, r.polls - 1) ==> r.result == None
    ensures r.polls > 0 && Hit(pattern, lines, r.polls - 1) ==> r.result == Some([FoundMarker])
    ensures r.polls == 0 || !Stops(pattern, lines, r.polls - 1) ==>
              r.polls == (if timeOut < 0 then 0 else timeOut) && r.result == Some(Collected(lines, r.polls))
  {
    var count: nat := 0;
    var contents: seq<string> := [];
    while count < timeOut
      invariant count <= (if timeOut < 0 then 0 else timeOut)
      invariant forall j :: 0 <= j < count ==> !Stops(pattern, lines, j)
      invariant contents == Collected(lines, count)
    {
      var step := Poll(pattern, lines, count);
      if step.Failed? {
        return Received(None, count + 1);
      } else if step.Found? {
        return Received(Some([FoundMarker]), count + 1);
      }
      contents := contents + step.kept;
      NoStopsExtend(pattern, lines, count);
      count := count + 1;
    }
    assert count > 0 ==> !Stops(pattern, lines, count - 1);
    return Received(Some(contents), count);
  }

  /** The verdict stated directly: within the first `budget` reads some
      line contains the pattern, and no read before it failed. */
  ghost predicate SeenWithin(pattern: string, lines: seq<ReadOutcome>, budget: nat)
  {
    exists i :: 0 <= i < budget && Hit(pattern, lines, i) && forall j :: 0 <= j < i ==> !Fault(lines, j)
  }

  /** What the caller of `serial_receive` tests: the first element of the
      returned list is the found marker. */
  predicate ReportsFound(r: Received)
  {
    r.result.Some? && |r.result.value| > 0 && r.result.value[0] == FoundMarker
  }

  /** Any result `serial_receive` can give with a positive budget reports
      the marker exactly when the pattern was seen in time. */
  lemma {:induction false} ReceiveVerdict(pattern: string, lines: seq<ReadOutcome>, budget: nat, r: Received)
    requires 1 <= budget && r.polls <= budget
    requires forall j :: 0 <= j < r.polls - 1 ==> !Stops(pattern, lines, j)
    requires r.polls > 0 && Fault(lines, r.polls - 1) ==> r.result == None
    requires r.polls > 0 && Hit(pattern, lines, r.polls - 1) ==> r.result == Some([FoundMarker])
    requires r.polls == 0 || !Stops(pattern, lines, r.polls - 1) ==>
               r.polls == budget && r.result == Some(Collected(lines, r.polls))
    ensures 1 <= r.polls
    ensures ReportsFound(r) <==> SeenWithin(pattern, lines, budget)
    ensures ReportsFound(r) ==> Hit(pattern, lines, r.polls - 1)
    ensures !ReportsFound(r) ==> r.polls == budget || Fault(lines, r.polls - 1)
  {
    var last := r.polls - 1;
    if Fault(lines, last) {
      NotSeenPastFault(pattern, lines, budget, last);
    } else if Hit(pattern, lines, last) {
      SeenAtFirstHit(pattern, lines, budget, last);
    } else {
      CollectedIsNotFound(lines, r.polls);
      NotSeenWithoutStop(pattern, lines, budget);
    }
  }

  lemma SeenAtFirstHit(pattern: string, lines: seq<ReadOutcome>, budget: nat, last: nat)
    requires last < budget && Hit(pattern, lines, last)
    requires forall j :: 0 <= j < last ==> !Stops(pattern, lines, j)
    ensures SeenWithin(pattern, lines, budget)
  {
    forall j | 0 <= j < last ensures !Fault(lines, j) {
      assert !Stops(pattern, lines, j);
    }
  }

  /** A list of collected hex lines never starts with the found marker. */
  lemma CollectedIsNotFound(lines: seq<ReadOutcome>, n: nat)
    ensures !ReportsFound(Received(Some(Collected(lines, n)), n))
  {
    FoundMarkerIsNotHex();
    CollectedAreHex(lines, n);
  }

  lemma NotSeenPastFault(pattern: string, lines: seq<ReadOutcome>, budget: nat, last: nat)
    requires last < budget && Fault(lines, last)
    requires forall j :: 0 <= j < last ==> !Stops(pattern, lines, j)
    ensures !SeenWithin(pattern, lines, budget)
  {
    forall i | 0 <= i < budget
      ensures !Hit(pattern, lines, i) || exists j :: 0 <= j < i && Fault(lines, j)
    {
      if i > last {
        assert 0 <= last < i && Fault(lines, last);
      } else if i < last {
        assert !Stops(pattern, lines, i);
      }
    }
  }

  lemma NotSeenWithoutStop(pattern: string, lines: seq<ReadOutcome>, budget: nat)
    requires forall j :: 0 <= j < budget ==> !Stops(pattern, lines, j)
    ensures !SeenWithin(pattern, lines, budget)
  {
    forall i | 0 <= i < budget ensures !Hit(pattern, lines, i) {
      assert !Stops(pattern, lines, i);
    }
  }

  /** The found marker is not hex text, so it cannot be mistaken for a
      collected line. */
  lemma FoundMarkerIsNotHex()
    ensures !AllDigitsOf(FoundMarker, 16)
  {
    assert !IsHexChar(FoundMarker[0]);
  }

  /** The pattern occurs in the text at the even position 2k, i.e. on a
      byte boundary of the hex text. */
  predicate AlignedMatchAt(text: string, pattern: string, k: nat)
  {
    MatchesAt(text, pattern, 2 * k)
  }

  /** The answer bytes occur in the line at position k. */
  predicate AnswerAt(data: seq<byte>, k: nat)
  {
    k + 5 <= |data| && data[k .. k + 5] == AnswerFrame
  }

  /** The intended test: the answer bytes occur in the line. */
  predicate AnswerIn(data: seq<byte>)
  {
    exists k :: 0 <= k <= |data| && AnswerAt(data, k)
  }

  /** Lower-casing text without upper-case letters changes nothing. */
  lemma LowerNoUpper(s: string)
    requires forall i :: 0 <= i < |s| ==> !('A' <= s[i] <= 'Z')
    ensures Lower(s) == s
  {
  }

  /** At one byte position: the answer bytes are there exactly when the
      answer text matches there. */
  lemma AnswerAtIffAlignedMatch(data: seq<byte>, pattern: string, k: nat)
    requires Lower(pattern) == ToHex(AnswerFrame)
    ensures AnswerAt(data, k) <==> AlignedMatchAt(ToHex(data), pattern, k)
  {
    var text := ToHex(data);
    assert |pattern| == 10;
    if k + 5 <= |data| {
      var run := data[k .. k + 5];
      ToHexSlice(data, k, 5);
      assert text[2 * k .. 2 * k + |pattern|] == ToHex(run);
      LowerToHex(run);
      if ToHex(run) == ToHex(AnswerFrame) {
        ToHexInjective(run, AnswerFrame);
      }
    }
  }

  /** The byte test is exactly a case-insensitive match of the answer's
      hex text at a byte boundary. */
  lemma AnswerInIffAlignedMatch(data: seq<byte>, pattern: string)
    requires Lower(pattern) == ToHex(AnswerFrame)
    ensures AnswerIn(data) <==> exists k :: 0 <= k <= |data| && AlignedMatchAt(ToHex(data), pattern, k)
  {
    if AnswerIn(data) {
      var k :| 0 <= k <= |data| && AnswerAt(data, k);
      AnswerAtIffAlignedMatch(data, pattern, k);
    }
    if exists k :: 0 <= k <= |data| && AlignedMatchAt(ToHex(data), pattern, k) {
      var k :| 0 <= k <= |data| && AlignedMatchAt(ToHex(data), pattern, k);
      AnswerAtIffAlignedMatch(data, pattern, k);
    }
  }

  /** Whenever the answer bytes are in a line, the source's text test
      accepts the line too. */
  lemma AnswerInIsMatched(data: seq<byte>, pattern: string)
    requires Lower(pattern) == ToHex(AnswerFrame)
    requires AnswerIn(data)
    ensures ContainsIgnoringCase(ToHex(data), pattern)
  {
    AnswerInIffAlignedMatch(data, pattern);
    var k :| 0 <= k <= |data| && AlignedMatchAt(ToHex(data), pattern, k);
    assert MatchesAt(ToHex(data), pattern, 2 * k);
  }

  /** A line that does not carry the answer bytes but whose hex text
      contains the answer text half a byte off. */
  const MisalignedLine: seq<byte> := [0x1F, 0xFF, 0x01, 0x20, 0x00, 0x00]

  lemma PairText()
    ensures HexPair(0x00) == "00" && HexPair(0x1F) == "1f" && HexPair(0xFF) == "ff"
    ensures HexPair(0x01) == "01" && HexPair(0x20) == "20"
  {
    assert DigitChar(0) == '0' && DigitChar(1) == '1' && DigitChar(2) == '2' && DigitChar(15) == 'f';
  }

  lemma MisalignedText()
    ensures ToHex(MisalignedLine) == "1fff01200000"
  {
    var s5: seq<byte> := [0x00];
    var s4: seq<byte> := [0x00] + s5;
    var s3: seq<byte> := [0x20] + s4;
    var s2: seq<byte> := [0x01] + s3;
    var s1: seq<byte> := [0xFF] + s2;
    var s0: seq<byte> := [0x1F] + s1;
    PairText();
    ToHexCons(0x00, []);
    assert ToHex(s5) == "00";
    ToHexCons(0x00, s5);
    assert ToHex(s4) == "0000";
    ToHexCons(0x20, s4);
    assert ToHex(s3) == "200000";
    ToHexCons(0x01, s3);
    assert ToHex(s2) == "01200000";
    ToHexCons(0xFF, s2);
    assert ToHex(s1) == "ff01200000";
    ToHexCons(0x1F, s1);
    assert ToHex(s0) == "1fff01200000";
    assert s0 == MisalignedLine;
  }

  /** The source's text test accepts MisalignedLine although the answer
      bytes are not in it. */
  lemma MisalignedLineMatches(pattern: string)
    requires Lower(pattern) == ToHex(AnswerFrame)
    ensures ContainsIgnoringCase(ToHex(MisalignedLine), pattern)
    ensures !AnswerIn(MisalignedLine)
  {
    MisalignedTextMatches(pattern);
    MisalignedLineHasNoAnswer();
  }

  lemma MisalignedTextMatches(pattern: string)
    requires Lower(pattern) == ToHex(AnswerFrame)
    ensures MatchesAt(ToHex(MisalignedLine), pattern, 1)
  {
    var text := ToHex(MisalignedLine);
    MisalignedText();
    AnswerText();
    var window := text[1 .. 11];
    assert window == "fff0120000";
    LowerNoUpper(window);
  }

  lemma MisalignedLineHasNoAnswer()
    ensures !AnswerIn(MisalignedLine)
  {
    forall k | 0 <= k <= |MisalignedLine|
      ensures !AnswerAt(MisalignedLine, k)
    {
      if k == 0 {
        assert MisalignedLine[k .. k + 5][0] == 0x1F;
      } else if k == 1 {
        assert MisalignedLine[k .. k + 5][1] == 0x01;
      }
    }
  }
}
