/** CompileProgressTracker: an incremental line splitter that turns compiler output into progress events. */
module LspProgress {
  datatype Option<+T> = None | Some(value: T)

  /** What parse_compile_progress_line finds in a line. */
  datatype Progress = Progress(percentage: int, filePath: string)

  type Parser = string -> Option<Progress>

  datatype Kind = Create | Begin | Report | End

  datatype Event = Event(token: string, kind: Kind, percentage: int, message: string)

  /** The fields of a tracker, and the events that it has emitted. */
  datatype View = View(buffer: string, last: int, lastFile: string, started: bool, trace: seq<Event>)

  predicate IsTerminator(c: char) {
    c == '\n' || c == '\r'
  }

  predicate OneLine(s: string) {
    forall i :: 0 <= i < |s| ==> !IsTerminator(s[i])
  }

  // The tracker as a function, one character at a time

  function AfterLine(v: View, token: string, parse: Parser, line: string): View {
    var found := parse(line);
    if found.None? || found.value.percentage == v.last then v
    else v.(last := found.value.percentage, lastFile := found.value.filePath,
            trace := v.trace + [Event(token, Report, found.value.percentage, found.value.filePath)])
  }

  function AfterChar(v: View, token: string, parse: Parser, c: char): View {
    if IsTerminator(c) then AfterLine(v, token, parse, v.buffer).(buffer := "") else v.(buffer := v.buffer + [c])
  }

  function AfterText(v: View, token: string, parse: Parser, text: string): View
    decreases |text|
  {
    if text == "" then v else AfterText(AfterChar(v, token, parse, text[0]), token, parse, text[1..])
  }

  function AfterStart(v: View, token: string, message: string): View {
    v.(started := true, last := 0,
       trace := v.trace + [Event(token, Create, -1, message), Event(token, Begin, 0, message)])
  }

  function AfterFinish(v: View, token: string, parse: Parser, message: string): View {
    var flushed := if v.buffer == "" then v else AfterLine(v, token, parse, v.buffer).(buffer := "");
    flushed.(started := false, trace := flushed.trace + [Event(token, End, -1, message)])
  }

  /** Text without a terminator only extends the buffer. */
  lemma {:induction false} AfterPiece(v: View, token: string, parse: Parser, piece: string, rest: string)
    requires OneLine(piece)
    ensures AfterText(v, token, parse, piece + rest) == AfterText(v.(buffer := v.buffer + piece), token, parse, rest)
    decreases |piece|
  {
    hide AfterLine;
    if piece == "" {
      assert piece + rest == rest && v.buffer + piece == v.buffer;
    } else {
      assert (piece + rest)[1..] == piece[1..] + rest;
      AfterPiece(AfterChar(v, token, parse, piece[0]), token, parse, piece[1..], rest);
      assert (v.buffer + [piece[0]]) + piece[1..] == v.buffer + piece;
    }
  }

  /** A whole line and its terminator, from an empty buffer. */
  lemma AfterWholeLine(v: View, token: string, parse: Parser, line: string, c: char, rest: string)
    requires v.buffer == "" && OneLine(line) && IsTerminator(c)
    ensures AfterText(v, token, parse, line + [c] + rest) ==
      AfterText(AfterLine(v, token, parse, line), token, parse, rest)
  {
    AfterPiece(v, token, parse, line, [c] + rest);
    assert line + [c] + rest == line + ([c] + rest) && v.buffer + line == line;
    var w := v.(buffer := line);
    assert ([c] + rest)[1..] == rest;
    assert AfterText(w, token, parse, [c] + rest) == AfterText(AfterChar(w, token, parse, c), token, parse, rest);
  }

  // The tracker

  /** std::string::find: the first place of c from pos on, or -1 for npos. */
  function Find(s: string, c: char, pos: nat): (at: int)
    requires pos <= |s|
    ensures at == -1 || pos <= at < |s|
    ensures at >= 0 ==> s[at] == c && c !in s[pos..at]
    ensures at == -1 ==> c !in s[pos..]
    decreases |s| - pos
  {
    if pos == |s| then -1
    else if s[pos] == c then pos
    else
      var at := Find(s, c, pos + 1);
      assert s[pos..] == [s[pos]] + s[pos + 1..];
      assert at >= 0 ==> s[pos..at] == [s[pos]] + s[pos + 1..at];
      at
  }

  /** A line never looks at the buffer. */
  lemma AfterLineBuffer(v: View, token: string, parse: Parser, line: string, buffer: string)
    ensures AfterLine(v, token, parse, line).(buffer := buffer) == AfterLine(v.(buffer := buffer), token, parse, line)
    ensures AfterLine(v, token, parse, line).buffer == v.buffer && AfterLine(v, token, parse, line).started == v.started
  {
  }

  /** Rescanning the buffer from its start is reading the new text only. */
  lemma BufferFirst(v: View, token: string, parse: Parser, chunk: string)
    requires OneLine(v.buffer)
    ensures AfterText(v.(buffer := ""), token, parse, v.buffer + chunk) == AfterText(v, token, parse, chunk)
  {
    AfterPiece(v.(buffer := ""), token, parse, v.buffer, chunk);
    assert "" + v.buffer == v.buffer;
  }

  lemma RestStays(v: View, token: string, parse: Parser, rest: string)
    requires v.buffer == "" && OneLine(rest)
    ensures AfterText(v, token, parse, rest) == v.(buffer := rest)
  {
    AfterPiece(v, token, parse, rest, "");
    assert rest + "" == rest && v.buffer + rest == rest;
  }

  lemma NoTerminator(rest: string)
    requires '\n' !in rest && '\r' !in rest
    ensures OneLine(rest)
  {
  }

  lemma LineFound(whole: string, pos: nat, nl: int, cr: int, found: int)
    requires pos <= |whole| && nl == Find(whole, '\n', pos) && cr == Find(whole, '\r', pos)
    requires found == if nl != -1 && cr != -1 then (if nl < cr then nl else cr) else if nl != -1 then nl else cr
    requires found != -1
    ensures pos <= found < |whole| && IsTerminator(whole[found]) && OneLine(whole[pos..found])
    ensures whole[pos..] == whole[pos..found] + [whole[found]] + whole[found + 1..]
  {
    hide Find;
    var line := whole[pos..found];
    forall i | 0 <= i < |line| ensures !IsTerminator(line[i]) {
      assert line[i] == whole[pos + i];
      assert nl == -1 ==> whole[pos + i] == whole[pos..][i];
      assert cr == -1 ==> whole[pos + i] == whole[pos..][i];
      assert nl != -1 ==> whole[pos + i] == whole[pos..nl][i];
      assert cr != -1 ==> whole[pos + i] == whole[pos..cr][i];
    }
  }

  class CompileProgressTracker {
    const token: string
    const parse: Parser
    const useProgress: bool
    var lineBuffer: string
    var lastPercentage: int
    var lastFile: string
    var started: bool
    /** What the callback has received. */
    var trace: seq<Event>

    function Now(): View
      reads this
    {
      View(lineBuffer, lastPercentage, lastFile, started, trace)
    }

    /** Between calls the buffer never holds a terminator, and it is empty outside start and finish. */
    predicate Valid()
      reads this
    {
      OneLine(lineBuffer) && (started ==> useProgress) && (!started ==> lineBuffer == "")
    }

    constructor (token: string, parse: Parser, useProgress: bool)
      ensures Valid() && Now() == View("", -1, "", false, [])
      ensures this.token == token && this.parse == parse && this.useProgress == useProgress
    {
      this.token, this.parse, this.useProgress := token, parse, useProgress;
      lineBuffer, lastPercentage, lastFile, started, trace := "", -1, "", false, [];
    }

    method Start(message: string)
      requires Valid()
      modifies this
      ensures Valid()
      ensures Now() == if useProgress then AfterStart(old(Now()), token, message) else old(Now())
    {
      if !useProgress {
        return;
      }
      started := true;
      lastPercentage := 0;
      trace := trace + [Event(token, Create, -1, message)];
      trace := trace + [Event(token, Begin, 0, message)];
    }

    method ProcessLine(line: string)
      modifies this
      ensures Now() == AfterLine(old(Now()), token, parse, line)
    {
      var event := parse(line);
      if event.Some? {
        if event.value.percentage != lastPercentage {
          trace := trace + [Event(token, Report, event.value.percentage, event.value.filePath)];
          lastPercentage := event.value.percentage;
          lastFile := event.value.filePath;
        }
      }
    }

    method HandleChunk(chunk: string)
      requires Valid()
      modifies this
      ensures Valid()
      ensures Now() == if useProgress && old(started) then AfterText(old(Now()), token, parse, chunk) else old(Now())
    {
      hide AfterText, AfterLine, OneLine;
      if !useProgress || !started {
        return;
      }
      ghost var v := Now();
      lineBuffer := lineBuffer + chunk;
      var pos: nat := 0;
      BufferFirst(v, token, parse, chunk);
      ghost var whole := lineBuffer;
      while true
        invariant pos <= |lineBuffer| && lineBuffer == whole && started
        invariant AfterText(Now().(buffer := ""), token, parse, whole[pos..]) == AfterText(v, token, parse, chunk)
        decreases |whole| - pos
      {
        var nextNl := Find(lineBuffer, '\n', pos);
        var nextCr := Find(lineBuffer, '\r', pos);
        var found := -1;
        if nextNl != -1 && nextCr != -1 {
          found := if nextNl < nextCr then nextNl else nextCr;
        } else if nextNl != -1 {
          found := nextNl;
        } else if nextCr != -1 {
          found := nextCr;
        }
        if found == -1 {
          NoTerminator(whole[pos..]);
          break;
        }
        var line := lineBuffer[pos..found];
        LineFound(whole, pos, nextNl, nextCr, found);
        AfterWholeLine(Now().(buffer := ""), token, parse, line, whole[found], whole[found + 1..]);
        AfterLineBuffer(Now(), token, parse, line, "");
        ProcessLine(line);
        pos := found + 1;
      }
      RestStays(Now().(buffer := ""), token, parse, whole[pos..]);
      if pos > 0 {
        lineBuffer := lineBuffer[pos..];
      }
    }

    method Finish(message: string)
      requires Valid()
      modifies this
      ensures Valid()
      ensures Now() == if useProgress && old(started) then AfterFinish(old(Now()), token, parse, message) else old(Now())
    {
      if !useProgress || !started {
        return;
      }
      if lineBuffer != "" {
        ProcessLine(lineBuffer);
        lineBuffer := "";
      }
      trace := trace + [Event(token, End, -1, message)];
      started := false;
    }
  }

  // Chunks

  function Concat(chunks: seq<string>): string {
    if chunks == [] then "" else chunks[0] + Concat(chunks[1..])
  }

  function AfterChunks(v: View, token: string, parse: Parser, chunks: seq<string>): View
    decreases |chunks|
  {
    if chunks == [] then v else AfterChunks(AfterText(v, token, parse, chunks[0]), token, parse, chunks[1..])
  }

  lemma {:induction false} AfterAppend(v: View, token: string, parse: Parser, a: string, b: string)
    ensures AfterText(v, token, parse, a + b) == AfterText(AfterText(v, token, parse, a), token, parse, b)
    decreases |a|
  {
    hide AfterChar;
    if a == "" {
      assert a + b == b;
    } else {
      assert (a + b)[1..] == a[1..] + b;
      AfterAppend(AfterChar(v, token, parse, a[0]), token, parse, a[1..], b);
    }
  }

  /** However a text is cut, the tracker ends in the same state with the same events. */
  lemma {:induction false} ChunksDoNotMatter(v: View, token: string, parse: Parser, chunks: seq<string>)
    ensures AfterChunks(v, token, parse, chunks) == AfterText(v, token, parse, Concat(chunks))
    decreases |chunks|
  {
    hide AfterText;
    if chunks == [] {
      NothingRead(v, token, parse);
    } else {
      AfterAppend(v, token, parse, chunks[0], Concat(chunks[1..]));
      ChunksDoNotMatter(AfterText(v, token, parse, chunks[0]), token, parse, chunks[1..]);
    }
  }

  lemma NothingRead(v: View, token: string, parse: Parser)
    ensures AfterText(v, token, parse, "") == v
  {
  }

  // Whole-input splitting

  /** The place of the first terminator, or the length. */
  function LineEnd(text: string): (end: nat)
    ensures end <= |text| && OneLine(text[..end]) && (end < |text| ==> IsTerminator(text[end]))
  {
    if text == "" || IsTerminator(text[0]) then 0
    else
      var end := LineEnd(text[1..]);
      assert text[..end + 1] == [text[0]] + text[1..][..end];
      end + 1
  }

  /** The lines of a text; text after the last terminator is a line too. */
  function Lines(text: string): seq<string>
    decreases |text|
  {
    if text == "" then []
    else
      var end := LineEnd(text);
      [text[..end]] + if end == |text| then [] else Lines(text[end + 1..])
  }

  /** The text is these lines with a newline or a carriage return after each but the last; one after the last
      line starts no new one. */
  predicate CutInto(text: string, lines: seq<string>)
    decreases |text|
  {
    if text == "" then lines == []
    else
      && lines != [] && |lines[0]| <= |text| && text[..|lines[0]|] == lines[0] && '\n' !in lines[0] && '\r' !in lines[0]
      && if |lines[0]| == |text| then |lines| == 1
         else text[|lines[0]|] in "\n\r" && CutInto(text[|lines[0]| + 1..], lines[1..])
  }

  lemma {:induction false} LinesIff(text: string, lines: seq<string>)
    ensures CutInto(text, lines) <==> lines == Lines(text)
    decreases |text|
  {
    if text != "" {
      var end := LineEnd(text);
      if CutInto(text, lines) {
        FirstCut(text, lines);
      }
      assert text[..|text|] == text;
      if end < |text| {
        assert text[end] in "\n\r";
        if lines != [] {
          LinesIff(text[end + 1..], lines[1..]);
          assert lines == [lines[0]] + lines[1..];
        }
      } else if |lines| == 1 {
        assert lines == [lines[0]];
      }
    }
  }

  lemma {:induction false} FirstTerminator(text: string, n: nat)
    requires n <= |text| && (n < |text| ==> IsTerminator(text[n])) && forall k :: 0 <= k < n ==> !IsTerminator(text[k])
    ensures n == LineEnd(text)
  {
    if n > 0 {
      FirstTerminator(text[1..], n - 1);
    }
  }

  lemma FirstCut(text: string, lines: seq<string>)
    requires text != "" && CutInto(text, lines)
    ensures |lines[0]| == LineEnd(text)
  {
    forall k | 0 <= k < |lines[0]| ensures !IsTerminator(text[k]) {
      assert text[k] == lines[0][k];
    }
    FirstTerminator(text, |lines[0]|);
  }

  /** The reports for a list of lines: one for each percentage that differs from the one before it. */
  function Reports(token: string, parse: Parser, last: int, lines: seq<string>): seq<Event>
    decreases |lines|
  {
    if lines == [] then []
    else
      var found := parse(lines[0]);
      var next := if found.None? then last else found.value.percentage;
      (if next == last then [] else [Event(token, Report, next, found.value.filePath)]) +
      Reports(token, parse, next, lines[1..])
  }

  /** The percentages of consecutive reports differ, starting from last. */
  predicate Differing(last: int, reports: seq<Event>)
    decreases |reports|
  {
    reports == [] || (reports[0].kind == Report && reports[0].percentage != last && Differing(reports[0].percentage, reports[1..]))
  }

  lemma {:induction false} ReportsDiffer(token: string, parse: Parser, last: int, lines: seq<string>)
    ensures Differing(last, Reports(token, parse, last, lines))
    decreases |lines|
  {
    if lines != [] {
      var found := parse(lines[0]);
      var next := if found.None? then last else found.value.percentage;
      ReportsDiffer(token, parse, next, lines[1..]);
      var later := Reports(token, parse, next, lines[1..]);
      if next == last {
        assert Reports(token, parse, last, lines) == [] + later == later;
      } else {
        var report := Event(token, Report, next, found.value.filePath);
        assert Reports(token, parse, last, lines) == [report] + later;
        assert ([report] + later)[1..] == later;
      }
    }
  }

  /** Reading a text and flushing the last line is splitting it as a whole. */
  lemma {:induction false} ReadsLines(v: View, token: string, parse: Parser, text: string, message: string)
    requires v.buffer == ""
    ensures AfterFinish(AfterText(v, token, parse, text), token, parse, message).trace ==
      v.trace + Reports(token, parse, v.last, Lines(text)) + [Event(token, End, -1, message)]
    decreases |text|
  {
    hide AfterText, OneLine, IsTerminator;
    var end := [Event(token, End, -1, message)];
    if text == "" {
      NothingRead(v, token, parse);
      assert v.trace + [] + end == v.trace + end;
    } else {
      var e := LineEnd(text);
      var line := text[..e];
      var w := AfterLine(v, token, parse, line);
      if e == |text| {
        assert line == text && Lines(text) == [text];
        RestStays(v, token, parse, text);
        AfterLineBuffer(v, token, parse, text, text);
        OneReport(v, token, parse, text, []);
        assert v.trace + Reports(token, parse, v.last, [text]) == w.trace + [] == w.trace;
      } else {
        var rest := text[e + 1..];
        assert text == line + [text[e]] + rest;
        AfterWholeLine(v, token, parse, line, text[e], rest);
        ReadsLines(w, token, parse, rest, message);
        assert Lines(text) == [line] + Lines(rest);
        OneReport(v, token, parse, line, Lines(rest));
      }
    }
  }

  lemma OneReport(v: View, token: string, parse: Parser, line: string, rest: seq<string>)
    ensures v.trace + Reports(token, parse, v.last, [line] + rest) ==
      AfterLine(v, token, parse, line).trace + Reports(token, parse, AfterLine(v, token, parse, line).last, rest)
    ensures Reports(token, parse, v.last, []) == []
  {
    var found := parse(line);
    assert ([line] + rest)[1..] == rest;
    if found.Some? && found.value.percentage != v.last {
      var report := Event(token, Report, found.value.percentage, found.value.filePath);
      var reports := Reports(token, parse, found.value.percentage, rest);
      assert v.trace + ([report] + reports) == (v.trace + [report]) + reports;
    }
  }

  /** The events of one session: create, begin, the reports of the whole text's lines with differing
      percentages from 0 on, then end. */
  lemma SessionTrace(v: View, token: string, parse: Parser, start: string, chunks: seq<string>, finish: string)
    requires v.buffer == ""
    ensures
      var reports := Reports(token, parse, 0, Lines(Concat(chunks)));
      && AfterFinish(AfterChunks(AfterStart(v, token, start), token, parse, chunks), token, parse, finish).trace ==
          v.trace + [Event(token, Create, -1, start), Event(token, Begin, 0, start)] + reports + [Event(token, End, -1, finish)]
      && Differing(0, reports)
  {
    hide AfterText, AfterChunks, Reports, Lines;
    ChunksDoNotMatter(AfterStart(v, token, start), token, parse, chunks);
    ReadsLines(AfterStart(v, token, start), token, parse, Concat(chunks), finish);
    ReportsDiffer(token, parse, 0, Lines(Concat(chunks)));
  }

  /** One compilation as the workspace runs it: start, a chunk at a time, finish. */
  method RunSession(tracker: CompileProgressTracker, start: string, chunks: seq<string>, finish: string)
    requires tracker.Valid() && !tracker.started
    modifies tracker
    ensures tracker.Valid() && !tracker.started
    ensures tracker.useProgress ==>
      var reports := Reports(tracker.token, tracker.parse, 0, Lines(Concat(chunks)));
      tracker.trace == old(tracker.trace) +
        [Event(tracker.token, Create, -1, start), Event(tracker.token, Begin, 0, start)] + reports +
        [Event(tracker.token, End, -1, finish)]
    ensures !tracker.useProgress ==> tracker.trace == old(tracker.trace)
  {
    hide AfterText, Reports, Lines;
    ghost var v := tracker.Now();
    ghost var token, parse := tracker.token, tracker.parse;
    tracker.Start(start);
    ghost var begun := AfterStart(v, token, start);
    for i := 0 to |chunks|
      invariant tracker.Valid() && tracker.started == tracker.useProgress
      invariant !tracker.useProgress ==> tracker.Now() == v
      invariant tracker.useProgress ==>
        AfterChunks(tracker.Now(), token, parse, chunks[i..]) == AfterChunks(begun, token, parse, chunks)
    {
      ghost var before := tracker.Now();
      assert chunks[i..][1..] == chunks[i + 1..];
      tracker.HandleChunk(chunks[i]);
      ReadingStarts(before, token, parse, chunks[i]);
    }
    SessionTrace(v, token, parse, start, chunks, finish);
    tracker.Finish(finish);
  }

  lemma {:induction false} ReadingStarts(v: View, token: string, parse: Parser, text: string)
    ensures AfterText(v, token, parse, text).started == v.started
    decreases |text|
  {
    if text != "" {
      ReadingStarts(AfterChar(v, token, parse, text[0]), token, parse, text[1..]);
    }
  }
}
