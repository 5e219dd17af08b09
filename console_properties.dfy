/** What the console promises, proved about the functions of ConsoleModel
    (and so about the Console class, whose methods follow them). Line numbers
    in the comments below refer to CliThread.c. */
module ConsoleProperties {
  import opened CStrings
  import opened ConsoleModel

  /** The events that type the bytes of w, one by one. */
  function Typed(w: seq<byte>): (events: seq<Event>)
    ensures |events| == |w|
    ensures forall i :: 0 <= i < |w| ==> events[i].ch == w[i]
  {
    seq(|w|, i requires 0 <= i < |w| => Event(w[i], []))
  }

  predicate AllErase(events: seq<Event>)
  {
    forall i :: 0 <= i < |events| ==> IsErase(events[i].ch)
  }

  /** Running two streams one after the other is running their concatenation. */
  lemma {:induction false} RunAppend(s: ConsoleState, a: seq<Event>, b: seq<Event>)
    requires s.Valid() && AllWellFormed(a) && AllWellFormed(b)
    ensures AllWellFormed(a + b)
    ensures Run(s, a + b) == Run(Run(s, a), b)
    decreases |a|
  {
    assert AllWellFormed(a + b) by {
      forall i | 0 <= i < |a + b|
        ensures WellFormed((a + b)[i])
      {
        if i >= |a| {
          assert (a + b)[i] == b[i - |a|];
        }
      }
    }
    if a == [] {
      assert a + b == b;
    } else {
      assert (a + b)[0] == a[0] && (a + b)[1..] == a[1..] + b;
      RunAppend(Next(s, a[0].ch, a[0].response), a[1..], b);
    }
  }

  /** Lines 226-234: outside an escape sequence a plain byte is added to the
      line while the cursor is below MaxInputLength and dropped otherwise; it
      is echoed in both cases, and nothing else changes. */
  lemma PlainByteStoredOrDropped(s: ConsoleState, ch: byte, response: seq<Chunk>)
    requires s.Valid() && !s.escaping && IsPlain(ch)
    ensures var r := Next(s, ch, response);
      && (s.index < MaxInputLength ==> r.index == s.index + 1 && r.Line() == s.Line() + [ch])
      && (s.index == MaxInputLength ==> r.index == s.index && r.input == s.input)
      && r.log == s.log + [if ch == 0 then [] else [ch]]
      && r.lastCommand == s.lastCommand && !r.escaping && r.calls == s.calls
  {
    var r := Next(s, ch, response);
    assert CStr([ch, 0]) == if ch == 0 then [] else [ch] by {
      CStrIs([ch, 0], if ch == 0 then 0 else 1);
    }
    if s.index < MaxInputLength {
      assert r.Line() == s.Line() + [ch];
    }
  }

  /** Lines 203-214: backspace and delete always write the erase sequence; they
      drop the last typed byte when there is one and leave an empty line alone. */
  lemma EraseNeverUnderflows(s: ConsoleState, ch: byte, response: seq<Chunk>)
    requires s.Valid() && !s.escaping && IsErase(ch)
    ensures var r := Next(s, ch, response);
      && r.log == s.log + [EraseSequence]
      && (s.index > 0 ==> r.index == s.index - 1 && r.Line() == s.Line()[..s.index - 1])
      && (s.index == 0 ==> r.index == 0 && r.input == s.input)
      && r.lastCommand == s.lastCommand && !r.escaping && r.calls == s.calls
  {
  }

  /** Typing plain bytes is a well-formed stream: none of them ends a line. */
  lemma TypedWellFormed(w: seq<byte>)
    requires forall i :: 0 <= i < |w| ==> IsPlain(w[i])
    ensures AllWellFormed(Typed(w))
  {
    forall i | 0 <= i < |w| ensures WellFormed(Typed(w)[i]) {
      assert IsPlain(w[i]);
    }
  }

  /** Typing plain bytes into a line with room for them adds them to it. */
  lemma {:induction false} TypingAppends(s: ConsoleState, w: seq<byte>)
    requires s.Valid() && !s.escaping && s.index + |w| <= MaxInputLength
    requires forall i :: 0 <= i < |w| ==> IsPlain(w[i])
    ensures AllWellFormed(Typed(w))
    ensures var r := Run(s, Typed(w));
      && r.index == s.index + |w| && r.Line() == s.Line() + w && !r.escaping
      && r.lastCommand == s.lastCommand && r.calls == s.calls
    decreases |w|
  {
    TypedWellFormed(w);
    if w == [] {
      assert s.Line() + w == s.Line();
    } else {
      var s1 := Next(s, w[0], []);
      PlainByteStoredOrDropped(s, w[0], []);
      var rest := w[1..];
      assert forall i :: 0 <= i < |rest| ==> IsPlain(rest[i]) by {
        forall i | 0 <= i < |rest| ensures IsPlain(rest[i]) {
          assert rest[i] == w[i + 1];
        }
      }
      assert Typed(w)[1..] == Typed(rest);
      assert Run(s, Typed(w)) == Run(s1, Typed(rest));
      TypingAppends(s1, rest);
      assert s1.Line() == s.Line() + [w[0]];
      assert s.Line() + w == s1.Line() + rest;
    }
  }

  /** Each backspace or delete, on a line at least that long, drops one byte
      from its end. */
  lemma {:induction false} ErasingDrops(s: ConsoleState, erased: seq<Event>)
    requires s.Valid() && !s.escaping && AllErase(erased) && |erased| <= s.index
    ensures AllWellFormed(erased)
    ensures var r := Run(s, erased);
      && r.index == s.index - |erased| && r.Line() == s.Line()[..r.index] && !r.escaping
      && r.lastCommand == s.lastCommand && r.calls == s.calls
    decreases |erased|
  {
    assert AllWellFormed(erased) by {
      forall i | 0 <= i < |erased| ensures WellFormed(erased[i]) {
        assert IsErase(erased[i].ch);
      }
    }
    if erased != [] {
      var s1 := Next(s, erased[0].ch, erased[0].response);
      EraseNeverUnderflows(s, erased[0].ch, erased[0].response);
      ErasingDrops(s1, erased[1..]);
    }
  }

  /** The cursor and the typed line determine the whole line buffer. */
  lemma LineDeterminesInput(a: ConsoleState, b: ConsoleState)
    requires a.LineValid() && b.LineValid() && a.index == b.index && a.Line() == b.Line()
    ensures a.input == b.input
  {
    forall k | 0 <= k < MaxInputLength
      ensures a.input[k] == b.input[k]
    {
      if k < a.index {
        assert a.input[k] == a.Line()[k];
      }
    }
  }

  /** Typing k plain bytes and then k backspaces or deletes leaves the line
      buffer and the cursor exactly as they were. */
  lemma TypeThenEraseRestores(s: ConsoleState, w: seq<byte>, erased: seq<Event>)
    requires s.Valid() && !s.escaping && AllErase(erased)
    requires forall i :: 0 <= i < |w| ==> IsPlain(w[i])
    requires |erased| == |w| && s.index + |w| <= MaxInputLength
    ensures AllWellFormed(Typed(w) + erased)
    ensures var r := Run(s, Typed(w) + erased);
      r.input == s.input && r.index == s.index && !r.escaping && r.lastCommand == s.lastCommand
  {
    TypingAppends(s, w);
    var s1 := Run(s, Typed(w));
    ErasingDrops(s1, erased);
    RunAppend(s, Typed(w), erased);
    var r := Run(s1, erased);
    assert r.Line() == (s.Line() + w)[..s.index] == s.Line();
    LineDeterminesInput(r, s);
  }

  /** The interpreter's output as the console writes it: shorter than the
      output buffer, and the interpreter's own C string (cut to fit) when the
      text it wrote carries a NUL. */
  lemma InterpretWritesItsText(s: ConsoleState, chunk: Chunk)
    requires |s.output| == MaxOutputLength
    ensures var r := Interpret(s, chunk);
      && r.log == s.log + [r.log[|s.log|]] && r.calls == s.calls + [s.input]
      && |r.log[|s.log|]| < MaxOutputLength
      && (|CStr(chunk.text)| < |chunk.text| ==> r.log[|s.log|] == Capped(CStr(chunk.text)))
  {
    var text := chunk.text;
    var filled := Written(s.output, text)[MaxOutputLength - 1 := 0];
    var t := CStr(text);
    assert filled[MaxOutputLength - 1] == 0;
    if |t| < |text| {
      if |t| < MaxOutputLength - 1 {
        assert filled[..|t|] == t;
        CStrIs(filled, |t|);
      } else {
        assert filled[..MaxOutputLength - 1] == t[..MaxOutputLength - 1];
        CStrIs(filled, MaxOutputLength - 1);
      }
    }
  }

  /** The dispatch loop only appends to the console and to the calls: one
      write and one call on the unchanged input buffer per interpreter call. */
  lemma {:induction false} DispatchAppends(s: ConsoleState, response: seq<Chunk>)
    requires |s.output| == MaxOutputLength && HasFinal(response)
    ensures var r := Dispatch(s, response);
      && |r.log| == |s.log| + CallCount(response) && r.log[..|s.log|] == s.log
      && r.calls == s.calls + seq(CallCount(response), _ => s.input)
    decreases |response|
  {
    var next := Interpret(s, response[0]);
    InterpretWritesItsText(s, response[0]);
    if response[0].more {
      DispatchAppends(next, response[1..]);
      var r := Dispatch(next, response[1..]);
      assert r.log[..|s.log|] == r.log[..|next.log|][..|s.log|];
      assert r.calls == s.calls + seq(CallCount(response), _ => s.input);
    } else {
      assert next.calls == s.calls + seq(1, _ => s.input);
    }
  }

  /** What the j-th write of the dispatch loop holds: fewer bytes than the
      output buffer, and the j-th answer's own C string (cut to fit) when that
      answer carries a NUL. */
  lemma {:induction false} DispatchWrite(s: ConsoleState, response: seq<Chunk>, j: nat)
    requires |s.output| == MaxOutputLength && HasFinal(response) && j < CallCount(response)
    ensures var r := Dispatch(s, response);
      && |s.log| + j < |r.log|
      && |r.log[|s.log| + j]| < MaxOutputLength
      && (|CStr(response[j].text)| < |response[j].text| ==>
            r.log[|s.log| + j] == Capped(CStr(response[j].text)))
    decreases |response|
  {
    var next := Interpret(s, response[0]);
    InterpretWritesItsText(s, response[0]);
    if j == 0 {
      if response[0].more {
        DispatchAppends(next, response[1..]);
        var r := Dispatch(next, response[1..]);
        assert r.log[|s.log|] == r.log[..|next.log|][|s.log|];
      }
    } else {
      assert response[0].more;
      DispatchWrite(next, response[1..], j - 1);
      assert response[j] == response[1..][j - 1];
    }
  }

  /** Lines 135-153: the interpreter is called until it reports no more
      output, each time on the same input buffer, and each call is followed by
      exactly one console write, in call order, each shorter than the output
      buffer and carrying the interpreter's own text when it ended it. */
  lemma DispatchWritesOncePerCall(s: ConsoleState, response: seq<Chunk>)
    requires |s.output| == MaxOutputLength && HasFinal(response)
    ensures var r := Dispatch(s, response);
      && |r.log| == |s.log| + CallCount(response) && r.log[..|s.log|] == s.log
      && r.calls == s.calls + seq(CallCount(response), _ => s.input)
      && forall j :: 0 <= j < CallCount(response) ==>
           && |r.log[|s.log| + j]| < MaxOutputLength
           && (|CStr(response[j].text)| < |response[j].text| ==>
                 r.log[|s.log| + j] == Capped(CStr(response[j].text)))
  {
    DispatchAppends(s, response);
    forall j | 0 <= j < CallCount(response)
      ensures var r := Dispatch(s, response);
        && |r.log[|s.log| + j]| < MaxOutputLength
        && (|CStr(response[j].text)| < |response[j].text| ==>
              r.log[|s.log| + j] == Capped(CStr(response[j].text)))
    {
      DispatchWrite(s, response, j);
    }
  }

  /** Lines 121-159: a CR or LF ends the line whatever the escape state: the
      escape collector is reset, the last command becomes the line cut to
      MaxInputLength - 1 bytes and NUL-terminated, the line break and then one
      write per interpreter call are sent, and the line is cleared. */
  lemma TerminatorSubmitsLine(s: ConsoleState, ch: byte, response: seq<Chunk>)
    requires s.Valid() && IsTerminator(ch) && HasFinal(response)
    ensures var r := Next(s, ch, response);
      && !r.escaping && r.escapePos == 0
      && CStr(r.lastCommand) == CStr(s.input[..MaxInputLength - 1])
      && r.lastCommand[MaxInputLength - 1] == 0
      && r.index == 0 && r.input == Zeros(MaxInputLength)
      && |r.log| == |s.log| + 1 + CallCount(response)
      && r.log[..|s.log| + 1] == s.log + [LineBreak]
      && r.calls == s.calls + seq(CallCount(response), _ => s.input)
  {
    var snapshot := StrNCpy(s.lastCommand, s.input, MaxInputLength - 1)[MaxInputLength - 1 := 0];
    PaddedCopy(snapshot, s.input, MaxInputLength - 1);
    var before := s.(log := s.log + [LineBreak], escaping := false, escapePos := 0,
                     lastCommand := snapshot);
    DispatchWritesOncePerCall(before, response);
  }

  /** Lines 215-219: ESC outside a sequence starts collecting at position 0;
      the line, the console and the last command are untouched. */
  lemma EscStartsSequence(s: ConsoleState, response: seq<Chunk>)
    requires s.Valid() && !s.escaping
    ensures var r := Next(s, Esc, response);
      && r.escaping && r.escapePos == 0
      && r.input == s.input && r.index == s.index && r.log == s.log
      && r.lastCommand == s.lastCommand && r.calls == s.calls
  {
  }

  /** Lines 167-175: inside a sequence, a byte that does not complete it is only
      stored in the collector. */
  lemma EscapeByteCollected(s: ConsoleState, ch: byte, response: seq<Chunk>)
    requires s.Valid() && s.escaping && !IsTerminator(ch)
    requires s.escapePos + 1 < MinEscapeCodeSize
    ensures var r := Next(s, ch, response);
      && r.escaping && r.escapePos == s.escapePos + 1
      && r.escapeCodes == s.escapeCodes[s.escapePos := ch]
      && r.input == s.input && r.index == s.index && r.log == s.log
      && r.lastCommand == s.lastCommand && r.calls == s.calls
  {
  }

  /** Lines 176-193: the byte that brings the collector to the minimum length
      ends the sequence at position 0 whether or not it recalls. When the test
      of line 179 fires, the prompt is written, the line becomes the last
      command (so the cursor is at most MaxInputLength - 1) and is echoed;
      otherwise the line and the console are untouched. The byte never reaches
      the line buffer. */
  lemma EscapeSequenceEnds(s: ConsoleState, ch: byte, response: seq<Chunk>)
    requires s.Valid() && s.escaping && !IsTerminator(ch)
    requires s.escapePos + 1 >= MinEscapeCodeSize
    ensures var r := Next(s, ch, response);
      var codes := s.escapeCodes[s.escapePos := ch];
      && !r.escaping && r.escapePos == 0 && r.escapeCodes == codes
      && r.lastCommand == s.lastCommand && r.calls == s.calls && r.output == s.output
      && (RecallRequested(codes) ==>
            && r.input == s.lastCommand && r.Line() == CStr(s.lastCommand)
            && r.index <= MaxInputLength - 1
            && r.log == s.log + [ClearLinePrompt, CStr(s.lastCommand)])
      && (!RecallRequested(codes) ==>
            r.input == s.input && r.index == s.index && r.log == s.log)
  {
    var codes := s.escapeCodes[s.escapePos := ch];
    if RecallRequested(codes) {
      var r := Next(s, ch, response);
      assert r.Line() == s.lastCommand[..|CStr(s.lastCommand)|];
    }
  }

  /** The test of line 179 on the collector, spelled out: it recalls unless
      the two collected bytes are 'o' and 'a', in either case. */
  lemma RecallTestAsWritten(codes: seq<byte>)
    requires |codes| == EscapeCodeSlots
    requires forall k :: MinEscapeCodeSize <= k < EscapeCodeSlots ==> codes[k] == 0
    ensures RecallRequested(codes) <==> !(ToLower(codes[0]) == 111 && ToLower(codes[1]) == 97)
  {
    if codes[0] == 0 {
      CStrIs(codes, 0);
    } else if codes[1] == 0 {
      CStrIs(codes, 1);
    } else {
      CStrIs(codes, 2);
    }
  }

  /** So the up arrow (ESC [ A) recalls, and so do the down arrow (ESC [ B)
      and every other two-byte sequence, except ESC O A. */
  lemma RecallTestExamples()
    ensures RecallRequested([91, 65, 0, 0])
    ensures RecallRequested([91, 66, 0, 0])
    ensures !RecallRequested([79, 65, 0, 0]) && !RecallRequested([111, 97, 0, 0])
  {
    RecallTestAsWritten([91, 65, 0, 0]);
    RecallTestAsWritten([91, 66, 0, 0]);
    RecallTestAsWritten([79, 65, 0, 0]);
    RecallTestAsWritten([111, 97, 0, 0]);
  }

  /** The up arrow typed outside an escape sequence puts the last command on
      the line. */
  lemma UpArrowRecalls(s: ConsoleState)
    requires s.Valid() && !s.escaping
    ensures AllWellFormed([Event(Esc, []), Event(91, []), Event(65, [])])
    ensures Run(s, [Event(Esc, []), Event(91, []), Event(65, [])]).Line() == CStr(s.lastCommand)
  {
    var events := [Event(Esc, []), Event(91, []), Event(65, [])];
    assert AllWellFormed(events) by {
      forall i | 0 <= i < 3 ensures WellFormed(events[i]) {
      }
    }
    var s1 := Next(s, Esc, []);
    EscStartsSequence(s, []);
    var s2 := Next(s1, 91, []);
    EscapeByteCollected(s1, 91, []);
    var codes := s2.escapeCodes[1 := 65];
    RecallTestAsWritten(codes);
    EscapeSequenceEnds(s2, 65, []);
    var s3 := Next(s2, 65, []);
    assert Run(s, events) == Run(s1, events[1..]) == Run(s2, events[2..]) == s3;
  }

  /** Submitting a line of non-NUL bytes shorter than the buffer keeps exactly
      that line as the last command. */
  lemma SubmitKeepsLine(s: ConsoleState, response: seq<Chunk>)
    requires s.Valid() && HasFinal(response) && s.index <= MaxInputLength - 1 && 0 !in s.Line()
    ensures CStr(Next(s, CR, response).lastCommand) == s.Line()
    ensures !Next(s, CR, response).escaping
  {
    TerminatorSubmitsLine(s, CR, response);
    var head := s.input[..MaxInputLength - 1];
    assert head[..s.index] == s.Line();
    CStrIs(head, s.index);
  }

  /** From a typed line of non-NUL bytes shorter than the buffer, CR and then
      the up arrow bring back exactly that line. */
  lemma SubmitThenRecall(s: ConsoleState, response: seq<Chunk>)
    requires s.Valid() && HasFinal(response) && s.index <= MaxInputLength - 1 && 0 !in s.Line()
    ensures AllWellFormed([Event(CR, response), Event(Esc, []), Event(91, []), Event(65, [])])
    ensures Run(s, [Event(CR, response), Event(Esc, []), Event(91, []), Event(65, [])]).Line() == s.Line()
  {
    var arrow := [Event(Esc, []), Event(91, []), Event(65, [])];
    var tail := [Event(CR, response), Event(Esc, []), Event(91, []), Event(65, [])];
    assert AllWellFormed(tail) by {
      forall i | 0 <= i < |tail| ensures WellFormed(tail[i]) {
      }
    }
    SubmitKeepsLine(s, response);
    var s1 := Next(s, CR, response);
    UpArrowRecalls(s1);
    assert tail[1..] == arrow;
    assert Run(s, tail) == Run(s1, arrow);
  }

  /** Submitting a line and then pressing the up arrow brings back exactly that
      line: no byte of what was typed before it survives. */
  lemma SubmittedLineIsRecalled(s: ConsoleState, w: seq<byte>, response: seq<Chunk>)
    requires s.Valid() && !s.escaping && s.index == 0 && HasFinal(response)
    requires |w| <= MaxInputLength - 1
    requires forall i :: 0 <= i < |w| ==> IsPlain(w[i]) && w[i] != 0
    ensures AllWellFormed(Typed(w) + [Event(CR, response), Event(Esc, []), Event(91, []), Event(65, [])])
    ensures Run(s, Typed(w) + [Event(CR, response), Event(Esc, []), Event(91, []), Event(65, [])]).Line() == w
  {
    var tail := [Event(CR, response), Event(Esc, []), Event(91, []), Event(65, [])];
    TypingAppends(s, w);
    var s1 := Run(s, Typed(w));
    assert s1.Line() == w;
    SubmitThenRecall(s1, response);
    RunAppend(s, Typed(w), tail);
  }

  /** Without a CR or LF, no command is dispatched and the last command is
      kept, whatever the bytes. */
  lemma {:induction false} NoDispatchWithoutTerminator(s: ConsoleState, events: seq<Event>)
    requires s.Valid() && forall i :: 0 <= i < |events| ==> !IsTerminator(events[i].ch)
    ensures AllWellFormed(events)
    ensures var r := Run(s, events); r.calls == s.calls && r.lastCommand == s.lastCommand
    decreases |events|
  {
    if events != [] {
      var e := events[0];
      var s1 := Next(s, e.ch, e.response);
      assert s1.calls == s.calls && s1.lastCommand == s.lastCommand;
      NoDispatchWithoutTerminator(s1, events[1..]);
    }
  }

  /** Line 226 lets the cursor reach MaxInputLength: a full line of non-NUL
      bytes leaves no NUL anywhere in the input buffer that is handed to the
      interpreter. */
  lemma FullLineIsUnterminated(s: ConsoleState, w: seq<byte>)
    requires s.Valid() && !s.escaping && s.index == 0 && |w| == MaxInputLength
    requires forall i :: 0 <= i < |w| ==> IsPlain(w[i]) && w[i] != 0
    ensures AllWellFormed(Typed(w))
    ensures var r := Run(s, Typed(w)); r.index == MaxInputLength && 0 !in r.input
  {
    TypingAppends(s, w);
    var r := Run(s, Typed(w));
    assert r.input == r.Line() == w;
  }

  /** The clear-screen command's single answer, passed through the dispatch
      loop, writes exactly ESC "[2J" and calls the interpreter once. */
  lemma ClearScreenIsWritten(s: ConsoleState, msgLength: nat)
    requires |s.output| == MaxOutputLength && msgLength >= 6
    ensures var r := Dispatch(s, [ClearTerminalScreen(msgLength, MaxOutputLength)]);
      r.log == s.log + [ClearScreenCode] && r.calls == s.calls + [s.input]
  {
    var chunk := ClearTerminalScreen(msgLength, MaxOutputLength);
    InterpretWritesItsText(s, chunk);
    assert |CStr(chunk.text)| < |chunk.text| by {
      assert 0 in chunk.text;
    }
  }
}
