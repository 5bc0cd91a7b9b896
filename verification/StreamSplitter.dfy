/**
The client's incremental line splitter for event streams. Chunks of decoded text are
appended to a buffer; whatever is complete up to a newline is processed line by line, the
rest waits. `parse` stands for the JSON parser: `None` is a malformed payload.
*/
module StreamSplitter {
  import opened Wrappers
  import opened Whitespace

  const PREFIX := "data: "
  const DONE := "data: [DONE]"

  /** The position of the first newline, or the length if there is none. */
  function FirstNewline(text: string): (k: nat)
    ensures k <= |text| && (k < |text| ==> text[k] == '\n')
    ensures forall j :: 0 <= j < k ==> text[j] != '\n'
  {
    if text == "" || text[0] == '\n' then 0 else 1 + FirstNewline(text[1..])
  }

  /** The newline-terminated lines of a text, and what follows the last newline. */
  function Lines(text: string): seq<string>
    decreases |text|
  {
    var k := FirstNewline(text);
    if k == |text| then [] else [text[..k]] + Lines(text[k + 1..])
  }

  function Rest(text: string): string
    decreases |text|
  {
    var k := FirstNewline(text);
    if k == |text| then text else Rest(text[k + 1..])
  }

  /** `text.split("\n")`: always at least one piece, the last one unterminated. */
  function Split(text: string): seq<string> { Lines(text) + [Rest(text)] }

  /** What one line contributes to the output. */
  function Emit<T>(line: string, parse: string -> Option<T>): seq<T> {
    var trimmed := Trim(line);
    if trimmed == "" || trimmed == DONE || !(PREFIX <= trimmed) then []
    else
      var chunk := parse(trimmed[|PREFIX|..]);
      if chunk.Some? then [chunk.value] else []
  }

  function EmitAll<T>(lines: seq<string>, parse: string -> Option<T>): seq<T> {
    if lines == [] then [] else EmitAll(lines[..|lines| - 1], parse) + Emit(lines[|lines| - 1], parse)
  }

  function Concat(chunks: seq<string>): string {
    if chunks == [] then "" else Concat(chunks[..|chunks| - 1]) + chunks[|chunks| - 1]
  }

  // ----- The reference: the newline-terminated lines of a whole text -----

  /** `lines`, each ended by a newline, followed by `rest` make up `text`, and no newline
      is left inside a line or in the rest. */
  ghost predicate LinesOf(text: string, lines: seq<string>, rest: string) {
    && text == Joined(lines) + rest
    && '\n' !in rest
    && (forall i :: 0 <= i < |lines| ==> '\n' !in lines[i])
  }

  function Joined(lines: seq<string>): string {
    if lines == [] then "" else Joined(lines[..|lines| - 1]) + lines[|lines| - 1] + "\n"
  }

  lemma {:induction false} JoinedFront(line: string, lines: seq<string>)
    ensures Joined([line] + lines) == line + "\n" + Joined(lines)
  {
    var all := [line] + lines;
    if lines == [] {
      assert all[..0] == [];
    } else {
      var n := |lines| - 1;
      assert all[..|all| - 1] == [line] + lines[..n];
      JoinedFront(line, lines[..n]);
    }
  }

  lemma LinesOfFront(line: string, text: string, lines: seq<string>, rest: string)
    requires '\n' !in line && LinesOf(text, lines, rest)
    ensures LinesOf(line + "\n" + text, [line] + lines, rest)
  {
    JoinedFront(line, lines);
    assert line + "\n" + (Joined(lines) + rest) == line + "\n" + Joined(lines) + rest;
  }

  /** Joining the pieces gives the text back, and no newline is left in a piece. */
  lemma {:induction false} SplitIsLinesOf(text: string)
    ensures LinesOf(text, Lines(text), Rest(text))
    decreases |text|
  {
    var k := FirstNewline(text);
    if k < |text| {
      SplitIsLinesOf(text[k + 1..]);
      LinesOfFront(text[..k], text[k + 1..], Lines(text[k + 1..]), Rest(text[k + 1..]));
      assert text == text[..k] + "\n" + text[k + 1..];
    } else {
      assert Joined([]) + text == text;
    }
  }

  lemma FirstNewlineAfter(line: string, rest: string)
    requires '\n' !in line
    ensures FirstNewline(line + "\n" + rest) == |line|
  {
    var text := line + "\n" + rest;
    assert text[|line|] == '\n';
    assert forall j :: 0 <= j < |line| ==> text[j] == line[j];
  }

  /** And splitting what was joined gives the pieces back. */
  lemma {:induction false} SplitJoined(lines: seq<string>, rest: string)
    requires LinesOf(Joined(lines) + rest, lines, rest)
    ensures Lines(Joined(lines) + rest) == lines && Rest(Joined(lines) + rest) == rest
    decreases |lines|
  {
    if lines == [] {
      assert Joined(lines) + rest == rest;
      assert FirstNewline(rest) == |rest|;
    } else {
      var tail := Joined(lines[1..]) + rest;
      assert lines == [lines[0]] + lines[1..];
      JoinedFront(lines[0], lines[1..]);
      var text := lines[0] + "\n" + tail;
      assert Joined(lines) + rest == text;
      FirstNewlineAfter(lines[0], tail);
      assert text[..|lines[0]|] == lines[0] && text[|lines[0]| + 1..] == tail;
      SplitJoined(lines[1..], rest);
    }
  }

  lemma {:induction false} JoinedAppend(a: seq<string>, b: seq<string>)
    ensures Joined(a + b) == Joined(a) + Joined(b)
  {
    if b == [] {
      assert a + b == a;
    } else {
      var n := |b| - 1;
      assert (a + b)[..|a + b| - 1] == a + b[..n];
      JoinedAppend(a, b[..n]);
    }
  }

  lemma {:induction false} EmitAppend<T>(a: seq<string>, b: seq<string>, parse: string -> Option<T>)
    ensures EmitAll(a + b, parse) == EmitAll(a, parse) + EmitAll(b, parse)
  {
    if b == [] {
      assert a + b == a;
    } else {
      var n := |b| - 1;
      assert (a + b)[..|a + b| - 1] == a + b[..n];
      EmitAppend(a, b[..n], parse);
    }
  }

  lemma LinesOfAppend(text: string, lines: seq<string>, buffer: string, chunk: string, more: seq<string>, rest: string)
    requires LinesOf(text, lines, buffer) && LinesOf(buffer + chunk, more, rest)
    ensures LinesOf(text + chunk, lines + more, rest)
  {
    JoinedAppend(lines, more);
    assert text + chunk == Joined(lines) + (buffer + chunk);
    assert Joined(lines) + (Joined(more) + rest) == Joined(lines + more) + rest;
  }

  /** Feeding one more chunk: the pieces of buffer and chunk continue the lines so far. */
  lemma ChunkContinues(text: string, lines: seq<string>, buffer: string, chunk: string)
    requires LinesOf(text, lines, buffer)
    ensures LinesOf(text + chunk, lines + Lines(buffer + chunk), Rest(buffer + chunk))
  {
    SplitIsLinesOf(buffer + chunk);
    LinesOfAppend(text, lines, buffer, chunk, Lines(buffer + chunk), Rest(buffer + chunk));
  }

  // ----- The loop -----

  /** What a stream yields, as a function of the whole text. */
  function Yielded<T>(text: string, parse: string -> Option<T>): seq<T> {
    EmitAll(Lines(text), parse)
  }

  /** The reference: the newline-terminated lines contribute in order, nothing else does. */
  lemma YieldedIsEmitted<T>(text: string, lines: seq<string>, rest: string, parse: string -> Option<T>)
    requires LinesOf(text, lines, rest)
    ensures Yielded(text, parse) == EmitAll(lines, parse)
  {
    SplitJoined(lines, rest);
  }

  /** The streaming loop. The output depends on the text only, not on how it was cut. */
  method Stream<T>(chunks: seq<string>, parse: string -> Option<T>) returns (out: seq<T>)
    ensures out == Yielded(Concat(chunks), parse)
  {
    out := [];
    var buffer := "";
    ghost var seen: seq<string> := [];
    for n := 0 to |chunks|
      invariant LinesOf(Concat(chunks[..n]), seen, buffer)
      invariant out == EmitAll(seen, parse)
    {
      assert chunks[..n + 1][..n] == chunks[..n];
      ChunkContinues(Concat(chunks[..n]), seen, buffer, chunks[n]);
      var pieces := Split(buffer + chunks[n]);
      var lines := pieces[..|pieces| - 1];
      EmitAppend(seen, lines, parse);
      seen := seen + lines;
      buffer := pieces[|pieces| - 1];
      var emitted := Process(lines, parse);
      out := out + emitted;
    }
    assert chunks[..|chunks|] == chunks;
    YieldedIsEmitted(Concat(chunks), seen, buffer, parse);
  }

  /** The inner loop over the complete lines of one read. */
  method Process<T>(lines: seq<string>, parse: string -> Option<T>) returns (out: seq<T>)
    ensures out == EmitAll(lines, parse)
  {
    out := [];
    for i := 0 to |lines|
      invariant out == EmitAll(lines[..i], parse)
    {
      assert lines[..i + 1][..i] == lines[..i];
      var trimmed := Trim(lines[i]);
      if trimmed == "" || trimmed == DONE { continue; }
      if PREFIX <= trimmed {
        var chunk := parse(trimmed[|PREFIX|..]);
        if chunk.Some? {
          out := out + [chunk.value];
        }
      }
    }
    assert lines[..|lines|] == lines;
  }

  /** An unterminated last line is never yielded: text after the last newline is ignored. */
  lemma UnterminatedLineIsDropped<T>(lines: seq<string>, rest: string, parse: string -> Option<T>)
    requires '\n' !in rest && forall i :: 0 <= i < |lines| ==> '\n' !in lines[i]
    ensures Yielded(Joined(lines) + rest, parse) == Yielded(Joined(lines), parse) == EmitAll(lines, parse)
  {
    YieldedIsEmitted(Joined(lines) + rest, lines, rest, parse);
    assert Joined(lines) + "" == Joined(lines);
    YieldedIsEmitted(Joined(lines), lines, "", parse);
  }

  /** `[DONE]` does not end the stream: the lines before and after it are yielded just as
      if it were not there. */
  lemma LinesAfterDoneAreProcessed<T>(before: seq<string>, after: seq<string>, rest: string, parse: string -> Option<T>)
    requires '\n' !in rest
    requires forall i :: 0 <= i < |before| ==> '\n' !in before[i]
    requires forall i :: 0 <= i < |after| ==> '\n' !in after[i]
    ensures Yielded(Joined(before) + DONE + "\n" + Joined(after) + rest, parse)
         == EmitAll(before, parse) + EmitAll(after, parse)
  {
    var lines := before + [DONE] + after;
    JoinedAppend(before + [DONE], after);
    assert (before + [DONE])[..|before|] == before;
    var text := Joined(before) + DONE + "\n" + Joined(after) + rest;
    assert text == Joined(lines) + rest;
    YieldedIsEmitted(text, lines, rest, parse);
    EmitAppend(before + [DONE], after, parse);
    DoneIsSilent(parse);
  }

  lemma DoneIsSilent<T>(parse: string -> Option<T>)
    ensures Emit(DONE, parse) == []
  {
    assert !Blank(DONE[0]) && !Blank(DONE[|DONE| - 1]);
    assert "" + DONE + "" == DONE;
    TrimDropsTheEnds("", DONE, "");
  }

  // ----- What a line yields -----

  lemma OneLine<T>(line: string, parse: string -> Option<T>)
    requires '\n' !in line
    ensures Yielded(line + "\n", parse) == Emit(line, parse)
  {
    assert [line][..0] == [];
    assert Joined([line]) == line + "\n";
    YieldedIsEmitted(line + "\n", [line], "", parse);
    assert [] + Emit(line, parse) == Emit(line, parse);
  }

  lemma OnlyDoneIsDone(payload: string)
    requires payload != "[DONE]"
    ensures "data: " + payload != DONE
  {
    assert ("data: " + payload)[6..] == payload && DONE[6..] == "[DONE]";
  }

  /** A line yields what its payload parses to: everything after `data: ` up to the white
      space at the end, and nothing if the parser rejects it. White space around the line
      makes no difference. */
  lemma DataLineYieldsItsPayload<T>(x: string, payload: string, y: string, parse: string -> Option<T>)
    requires AllBlank(x) && AllBlank(y) && '\n' !in x + payload + y
    requires payload != "" && !Blank(payload[|payload| - 1]) && payload != "[DONE]"
    ensures Yielded(x + ("data: " + payload) + y + "\n", parse)
         == match parse(payload) case Some(v) => [v] case None => []
  {
    var t := "data: " + payload;
    TrimDropsTheEnds(x, t, y);
    assert t[6..] == payload;
    OnlyDoneIsDone(payload);
    assert '\n' !in x && '\n' !in payload && '\n' !in y;
    OneLine(x + t + y, parse);
  }

  /** A line whose text does not start with `data: ` yields nothing, and neither does
      `[DONE]`. */
  lemma OtherLinesYieldNothing<T>(x: string, t: string, y: string, parse: string -> Option<T>)
    requires AllBlank(x) && Tight(t) && AllBlank(y) && '\n' !in x + t + y
    requires !("data: " <= t) || t == "data: [DONE]"
    ensures Yielded(x + t + y + "\n", parse) == []
  {
    TrimDropsTheEnds(x, t, y);
    OneLine(x + t + y, parse);
  }
}
