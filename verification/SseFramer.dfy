/**
 The LM Studio stream reader: chunks arrive in arbitrary pieces, an accumulating buffer
 is cut at blank lines, and each frame becomes at most one provider event.

 `ReadStream` is the reader loop. It is proved to emit exactly what splitting the whole
 text at once would give, so the way the transport cuts the text cannot be observed.
 */
module SseFramer {

  import opened Common

  /** The values a JSON decoder can hand back. The decoder itself is a parameter. */
  datatype Json =
    | Null
    | Bool(b: bool)
    | Number(text: string)
    | Str(s: string)
    | Arr(items: seq<Json>)
    | Obj(fields: map<string, Json>)
  {
    function Get(key: string): Option<Json> {
      if Obj? && key in fields then Some(fields[key]) else None
    }

    function At(i: nat): Option<Json> {
      if Arr? && i < |items| then Some(items[i]) else None
    }
  }

  type Decoder = string -> Option<Json>

  datatype Event =
    | ResponseStarted
    | ReasoningDelta(text: string)
    | ContentDelta(text: string)
    | Completed
    | ReadError(message: string)
  {
    predicate Terminal() {
      Completed? || ReadError?
    }
  }

  /** What the byte stream yields: some text, or a transport failure. */
  datatype Chunk = Text(text: string) | Failed(message: string)

  // --------------------------------------------------------------- one frame, one event

  function Utf8Length(s: string): nat {
    if s == "" then 0
    else
      var n := s[0] as int;
      (if n < 0x80 then 1 else if n < 0x800 then 2 else if n < 0x1_0000 then 3 else 4)
      + Utf8Length(s[1..])
  }

  /** How many code points k bytes of UTF-8 can tell apart: 7 bits in one byte, 5k + 1 bits in k > 1. */
  function Capacity(k: nat): nat {
    if k == 0 then 0 else if k == 1 then 128 else if k == 2 then 2048 else 32 * Capacity(k - 1)
  }

  ghost predicate Encodes(c: char, k: nat) {
    k > 0 && Capacity(k - 1) <= c as int < Capacity(k)
  }

  /** A character takes the fewest bytes that can hold it, and lengths add up. */
  lemma {:induction false} Utf8LengthIs(c: char, rest: string)
    ensures Utf8Length([c] + rest) > Utf8Length(rest)
    ensures Encodes(c, Utf8Length([c] + rest) - Utf8Length(rest))
  {
    assert ([c] + rest)[1..] == rest;
    assert Capacity(4) == 32 * (32 * 2048);
  }

  const MAX_CONTENT_BYTES := 1_048_576

  function Bounded(s: string): string {
    if Utf8Length(s) <= MAX_CONTENT_BYTES then s else "(error)"
  }

  const DATA_PREFIX := "data: "
  const DONE := "[DONE]"

  /** A field of the delta counts only when it is a non-empty string. */
  function NonEmptyText(field: Option<Json>): Option<string> {
    if field.Some? && field.value.Str? && field.value.s != "" then Some(field.value.s) else None
  }

  function DeltaOf(json: Json): Option<Json> {
    var choices := json.Get("choices");
    if choices.None? then None else
    var first := choices.value.At(0);
    if first.None? then None else first.value.Get("delta")
  }

  function EventOfDelta(delta: Json): Option<Event> {
    var field := delta.Get("reasoning_content");
    var reasoning := NonEmptyText(if field.Some? then field else delta.Get("reasoning"));
    if reasoning.Some? then Some(ReasoningDelta(Bounded(reasoning.value))) else
    var content := NonEmptyText(delta.Get("content"));
    if content.Some? then Some(ContentDelta(Bounded(content.value))) else None
  }

  /** The event of one line, if the line is a data line that carries one. */
  function EventOfLine(line: string, decode: Decoder): Option<Event> {
    if !(DATA_PREFIX <= line) then None else
    var data := Trim(line[|DATA_PREFIX|..]);
    if data == DONE then Some(Completed) else
    var json := decode(data);
    if json.None? then None else
    var delta := DeltaOf(json.value);
    if delta.None? then None else EventOfDelta(delta.value)
  }

  function FirstEvent(lines: seq<string>, decode: Decoder): Option<Event> {
    if lines == [] then None else
    var event := EventOfLine(lines[0], decode);
    if event.Some? then event else FirstEvent(lines[1..], decode)
  }

  function EventOfFrame(frame: string, decode: Decoder): Option<Event> {
    FirstEvent(Lines(frame), decode)
  }

  method ParseSseChunk(chunk: string, decode: Decoder) returns (event: Option<Event>)
    ensures event == EventOfFrame(chunk, decode)
    ensures forall e :: event == Some(e) <==> FrameSays(Lines(chunk), decode, e)
  {
    forall e
      ensures EventOfFrame(chunk, decode) == Some(e) <==> FrameSays(Lines(chunk), decode, e)
    {
      FrameIff(chunk, decode, e);
    }
    var lines := Lines(chunk);
    for i := 0 to |lines|
      invariant FirstEvent(lines, decode) == FirstEvent(lines[i..], decode)
    {
      event := EventOfLine(lines[i], decode);
      if event.Some? {
        return;
      }
    }
    event := None;
  }

  ghost predicate DecidingLine(lines: seq<string>, i: int, decode: Decoder, e: Event) {
    && 0 <= i < |lines|
    && EventOfLine(lines[i], decode) == Some(e)
    && forall j :: 0 <= j < i ==> EventOfLine(lines[j], decode) == None
  }

  /** The first line that carries an event decides the frame; every later line is dropped. */
  lemma {:induction false} FirstEventIff(lines: seq<string>, decode: Decoder, e: Event)
    ensures FirstEvent(lines, decode) == Some(e) <==>
      exists i :: DecidingLine(lines, i, decode, e)
  {
    if lines != [] {
      var rest := lines[1..];
      FirstEventIff(rest, decode, e);
      if EventOfLine(lines[0], decode) == None {
        if exists i :: DecidingLine(rest, i, decode, e) {
          var i :| DecidingLine(rest, i, decode, e);
          assert forall j :: 0 < j <= i + 1 ==> lines[j] == rest[j - 1];
          assert DecidingLine(lines, i + 1, decode, e);
        }
        if exists i :: DecidingLine(lines, i, decode, e) {
          var i :| DecidingLine(lines, i, decode, e);
          assert forall j :: 0 <= j <= i - 1 ==> rest[j] == lines[j + 1];
          assert DecidingLine(rest, i - 1, decode, e);
        }
      } else {
        assert DecidingLine(lines, 0, decode, e) <==> EventOfLine(lines[0], decode) == Some(e);
      }
    }
  }

  // --------------------------------------------------- what a frame says, field by field

  /** The delta's reasoning text: `reasoning_content`, or `reasoning` in its absence. */
  ghost predicate Reasons(delta: Json, s: string) {
    delta.Obj? && s != ""
    && if "reasoning_content" in delta.fields then delta.fields["reasoning_content"] == Str(s)
       else "reasoning" in delta.fields && delta.fields["reasoning"] == Str(s)
  }

  /** The delta's answer text, which counts only without reasoning text. */
  ghost predicate Responds(delta: Json, s: string) {
    delta.Obj? && s != "" && (forall r :: !Reasons(delta, r))
    && "content" in delta.fields && delta.fields["content"] == Str(s)
  }

  /** The `delta` of the first of the `choices`. */
  ghost predicate HasDelta(json: Json, delta: Json) {
    && json.Obj? && "choices" in json.fields && json.fields["choices"].Arr?
    && var choices := json.fields["choices"].items;
    choices != [] && choices[0].Obj? && "delta" in choices[0].fields && choices[0].fields["delta"] == delta
  }

  /** Text longer than 1 MiB in UTF-8 is replaced. */
  predicate Fits(s: string, text: string) {
    text == if Utf8Length(s) <= 1_048_576 then s else "(error)"
  }

  ghost predicate DeltaSays(delta: Json, e: Event) {
    || (e.ReasoningDelta? && exists s :: Reasons(delta, s) && Fits(s, e.text))
    || (e.ContentDelta? && exists s :: Responds(delta, s) && Fits(s, e.text))
  }

  ghost predicate JsonSays(json: Option<Json>, e: Event) {
    json.Some? && exists delta :: HasDelta(json.value, delta) && DeltaSays(delta, e)
  }

  /** What one line says, in terms of the protocol and of the decoded fields only. */
  ghost predicate LineSays(line: string, decode: Decoder, e: Event) {
    && "data: " <= line
    && var data := Trim(line[6..]);
    if data == "[DONE]" then e == Completed else JsonSays(decode(data), e)
  }

  /** The first line that says anything says it. */
  ghost predicate FrameSays(lines: seq<string>, decode: Decoder, e: Event) {
    exists i :: SpeakingLine(lines, i, decode, e)
  }

  lemma DeltaIff(delta: Json, e: Event)
    ensures EventOfDelta(delta) == Some(e) <==> DeltaSays(delta, e)
  {
    if delta.Obj? {
      var field := if "reasoning_content" in delta.fields then delta.Get("reasoning_content") else delta.Get("reasoning");
      if NonEmptyText(field).Some? {
        assert Reasons(delta, field.value.s);
      } else {
        assert forall r :: !Reasons(delta, r);
        if NonEmptyText(delta.Get("content")).Some? {
          assert Responds(delta, delta.fields["content"].s);
        }
      }
    }
  }

  lemma DeltaOfIff(json: Json, delta: Json)
    ensures DeltaOf(json) == Some(delta) <==> HasDelta(json, delta)
  {
  }

  lemma LineIff(line: string, decode: Decoder, e: Event)
    ensures EventOfLine(line, decode) == Some(e) <==> LineSays(line, decode, e)
  {
    if "data: " <= line {
      var json := decode(Trim(line[6..]));
      if json.Some? && DeltaOf(json.value).Some? {
        DeltaOfIff(json.value, DeltaOf(json.value).value);
        DeltaIff(DeltaOf(json.value).value, e);
      }
      if json.Some? && exists delta :: HasDelta(json.value, delta) {
        var delta :| HasDelta(json.value, delta);
        DeltaOfIff(json.value, delta);
      }
    }
  }

  lemma SilentIff(line: string, decode: Decoder)
    ensures EventOfLine(line, decode) == None <==> forall d :: !LineSays(line, decode, d)
  {
    forall d
      ensures EventOfLine(line, decode) == Some(d) <==> LineSays(line, decode, d)
    {
      LineIff(line, decode, d);
    }
    if EventOfLine(line, decode).Some? {
      assert LineSays(line, decode, EventOfLine(line, decode).value);
    }
  }

  ghost predicate SpeakingLine(lines: seq<string>, i: int, decode: Decoder, e: Event) {
    && 0 <= i < |lines| && LineSays(lines[i], decode, e)
    && forall j, d :: 0 <= j < i ==> !LineSays(lines[j], decode, d)
  }

  lemma SpeakingIff(lines: seq<string>, i: int, decode: Decoder, e: Event)
    ensures DecidingLine(lines, i, decode, e) <==> SpeakingLine(lines, i, decode, e)
  {
    if 0 <= i < |lines| {
      LineIff(lines[i], decode, e);
      forall j | 0 <= j < i
        ensures EventOfLine(lines[j], decode) == None <==> forall d :: !LineSays(lines[j], decode, d)
      {
        SilentIff(lines[j], decode);
      }
    }
  }

  /** Main result: for every frame, what is sent is what its first speaking line says. */
  lemma FrameIff(frame: string, decode: Decoder, e: Event)
    ensures EventOfFrame(frame, decode) == Some(e) <==> FrameSays(Lines(frame), decode, e)
  {
    var lines := Lines(frame);
    FirstEventIff(lines, decode, e);
    forall i
      ensures DecidingLine(lines, i, decode, e) <==> SpeakingLine(lines, i, decode, e)
    {
      SpeakingIff(lines, i, decode, e);
    }
    assert EventOfFrame(frame, decode) == Some(e) <==> exists i :: DecidingLine(lines, i, decode, e);
  }

  /** A frame of one data line sends exactly what that line says. */
  lemma OneLineFrame(text: string, decode: Decoder, e: Event)
    requires '\n' !in text
    ensures EventOfFrame("data: " + text, decode) == Some(e) <==> LineSays("data: " + text, decode, e)
  {
    var frame := "data: " + text;
    FrameIff(frame, decode, e);
    LinesRead([], frame);
    assert Terminated([]) + frame == frame;
    if LineSays(frame, decode, e) {
      assert SpeakingLine(Lines(frame), 0, decode, e);
    }
  }

  // ------------------------------------------------------------------------- framing

  const BREAK := "\n\n"

  predicate BreakAt(s: string, i: int) {
    0 <= i < |s| - 1 && s[i] == '\n' && s[i + 1] == '\n'
  }

  function FindBreakFrom(s: string, from: nat): (p: int)
    requires from <= |s|
    ensures p == -1 || (from <= p && BreakAt(s, p))
    ensures forall i :: from <= i && BreakAt(s, i) ==> 0 <= p <= i
    decreases |s| - from
  {
    if from == |s| then -1 else if BreakAt(s, from) then from else FindBreakFrom(s, from + 1)
  }

  /** Position of the leftmost blank-line break, or -1. */
  function FindBreak(s: string): (p: int)
    ensures p == -1 || BreakAt(s, p)
    ensures forall i :: BreakAt(s, i) ==> 0 <= p <= i
  {
    FindBreakFrom(s, 0)
  }

  predicate HasBreak(s: string) {
    FindBreak(s) >= 0
  }

  /** The complete frames of a text, and what is left after the last of them. */
  datatype Framing = Framing(frames: seq<string>, tail: string)

  function Prepend(frame: string, f: Framing): Framing {
    Framing([frame] + f.frames, f.tail)
  }

  function Extend(f: Framing, g: Framing): Framing {
    Framing(f.frames + g.frames, g.tail)
  }

  function Split(text: string): Framing
    decreases |text|
  {
    var p := FindBreak(text);
    if p < 0 then Framing([], text) else Prepend(text[..p], Split(text[p + 2..]))
  }

  function Glue(frames: seq<string>, tail: string): string {
    if frames == [] then tail else frames[0] + (BREAK + Glue(frames[1..], tail))
  }

  /**
   Reference definition: glued together the frames give the text back, and no frame, even
   with the first newline of its break, contains an earlier break.
   */
  ghost predicate LeftmostFraming(text: string, frames: seq<string>, tail: string) {
    && Glue(frames, tail) == text
    && !HasBreak(tail)
    && forall i :: 0 <= i < |frames| ==> !HasBreak(frames[i] + "\n")
  }

  lemma BreakAtEnd(frame: string, rest: string)
    ensures FindBreak(frame + (BREAK + rest)) == |frame| <==> !HasBreak(frame + "\n")
  {
    var s, t := frame + (BREAK + rest), frame + "\n";
    assert BreakAt(s, |frame|);
    assert forall i :: i < |frame| ==> (BreakAt(s, i) <==> BreakAt(t, i));
  }

  lemma LeftmostUnfold(text: string, frames: seq<string>, tail: string)
    requires frames != []
    ensures LeftmostFraming(text, frames, tail) <==>
      && FindBreak(text) == |frames[0]|
      && frames[0] == text[..FindBreak(text)]
      && LeftmostFraming(text[FindBreak(text) + 2..], frames[1..], tail)
  {
    var rest := Glue(frames[1..], tail);
    BreakAtEnd(frames[0], rest);
    assert frames == [frames[0]] + frames[1..];
    var p := FindBreak(text);
    if p >= 0 {
      assert text == text[..p] + (BREAK + text[p + 2..]);
    }
    if Glue(frames, tail) == text && p == |frames[0]| {
      assert text[p + 2..] == rest && text[..p] == frames[0];
    }
  }

  /** `Split` is the only leftmost framing of a text. */
  lemma {:induction false} SplitIsLeftmost(text: string, frames: seq<string>, tail: string)
    ensures LeftmostFraming(text, frames, tail) <==> Framing(frames, tail) == Split(text)
    decreases |text|
  {
    var p := FindBreak(text);
    if frames != [] {
      LeftmostUnfold(text, frames, tail);
      if p >= 0 {
        SplitIsLeftmost(text[p + 2..], frames[1..], tail);
        assert frames == [frames[0]] + frames[1..];
      }
    }
  }

  /** Text that arrives later extends the framing: the frames already cut stay cut. */
  lemma {:induction false} SplitAppend(a: string, b: string)
    ensures Split(a + b) == Extend(Split(a), Split(Split(a).tail + b))
    decreases |a|
  {
    if HasBreak(a) {
      var p := FindBreak(a);
      var frame, after := a[..p], a[p + 2..];
      FindBreakAppend(a, b);
      SplitAppend(after, b);
      PrependExtend(frame, Split(after), Split(Split(after).tail + b));
    } else {
      assert [] + Split(a + b).frames == Split(a + b).frames;
    }
  }

  lemma PrependExtend(frame: string, f: Framing, g: Framing)
    ensures Prepend(frame, Extend(f, g)) == Extend(Prepend(frame, f), g)
  {
    assert [frame] + (f.frames + g.frames) == [frame] + f.frames + g.frames;
  }

  lemma FindBreakAppend(a: string, b: string)
    requires HasBreak(a)
    ensures FindBreak(a + b) == FindBreak(a)
    ensures var p := FindBreak(a);
      (a + b)[..p] == a[..p] && (a + b)[p + 2..] == a[p + 2..] + b
  {
    assert forall i :: i <= FindBreak(a) ==> (BreakAt(a + b, i) <==> BreakAt(a, i));
  }

  // -------------------------------------------------------------- the batch reference

  /** Events of the frames in order, stopping after the first completion. */
  function FrameEvents(frames: seq<string>, decode: Decoder): seq<Event> {
    if frames == [] then [] else
    var event := EventOfFrame(frames[0], decode);
    if event.None? then FrameEvents(frames[1..], decode)
    else if event.value.Completed? then [Completed]
    else [event.value] + FrameEvents(frames[1..], decode)
  }

  predicate Finished(frames: seq<string>, decode: Decoder) {
    exists i :: 0 <= i < |frames| && EventOfFrame(frames[i], decode) == Some(Completed)
  }

  /** The text that arrives before the first failure. */
  function Received(stream: seq<Chunk>): string {
    if stream == [] || stream[0].Failed? then "" else stream[0].text + Received(stream[1..])
  }

  function Failure(stream: seq<Chunk>): Option<string> {
    if stream == [] then None
    else if stream[0].Failed? then Some(stream[0].message)
    else Failure(stream[1..])
  }

  function Emitted(frames: seq<string>, failure: Option<string>, decode: Decoder): seq<Event> {
    [ResponseStarted] + FrameEvents(frames, decode)
    + (if Finished(frames, decode) then []
       else if failure.Some? then [ReadError("stream read: " + failure.value)]
       else [Completed])
  }

  /** What a reader that saw the whole text at once would emit. */
  function Batch(text: string, failure: Option<string>, decode: Decoder): seq<Event> {
    Emitted(Split(text).frames, failure, decode)
  }

  lemma {:induction false} FrameEventsAppend(a: seq<string>, b: seq<string>, decode: Decoder)
    ensures Finished(a + b, decode) <==> Finished(a, decode) || Finished(b, decode)
    ensures FrameEvents(a + b, decode) ==
      FrameEvents(a, decode) + (if Finished(a, decode) then [] else FrameEvents(b, decode))
  {
    FinishedAppend(a, b, decode);
    if a == [] {
      assert a + b == b;
    } else {
      assert (a + b)[1..] == a[1..] + b;
      assert a == [a[0]] + a[1..];
      FinishedAppend([a[0]], a[1..], decode);
      FrameEventsAppend(a[1..], b, decode);
    }
  }

  lemma FinishedAppend(a: seq<string>, b: seq<string>, decode: Decoder)
    ensures Finished(a + b, decode) <==> Finished(a, decode) || Finished(b, decode)
  {
    if i :| 0 <= i < |a| && EventOfFrame(a[i], decode) == Some(Completed) {
      assert (a + b)[i] == a[i];
    }
    if i :| 0 <= i < |b| && EventOfFrame(b[i], decode) == Some(Completed) {
      assert (a + b)[|a| + i] == b[i];
    }
  }

  // ------------------------------------------------------------------ the reader loop

  /** The inner loop: cut every complete frame out of the buffer, stopping at a completion. */
  method DrainFrames(buffer: string, decode: Decoder) returns (left: string, sent: seq<Event>, done: bool)
    ensures sent == FrameEvents(Split(buffer).frames, decode)
    ensures done == Finished(Split(buffer).frames, decode)
    ensures !done ==> left == Split(buffer).tail
  {
    left, sent, done := buffer, [], false;
    ghost var cut: seq<string> := [];
    var pos := FindBreak(left);
    while pos >= 0
      invariant pos == FindBreak(left)
      invariant Split(buffer) == Extend(Framing(cut, ""), Split(left))
      invariant !Finished(cut, decode)
      invariant sent == FrameEvents(cut, decode)
      decreases |left|
    {
      var frame, rest := left[..pos], left[pos + 2..];
      CutOne(cut, frame, Split(rest), decode);
      var event := ParseSseChunk(frame, decode);
      left, cut := rest, cut + [frame];
      if event.Some? {
        sent := sent + [event.value];
        if event.value.Completed? {
          done := true;
          return;
        }
      }
      pos := FindBreak(left);
    }
    assert cut + [] == cut;
  }

  lemma CutOne(cut: seq<string>, frame: string, rest: Framing, decode: Decoder)
    requires !Finished(cut, decode)
    ensures Extend(Framing(cut, ""), Prepend(frame, rest)) == Extend(Framing(cut + [frame], ""), rest)
    ensures var event := EventOfFrame(frame, decode);
      && Finished(cut + [frame], decode) == (event == Some(Completed))
      && FrameEvents(cut + [frame], decode)
         == FrameEvents(cut, decode) + (if event.None? then [] else [event.value])
      && (event == Some(Completed) ==>
            && Finished(cut + [frame] + rest.frames, decode)
            && FrameEvents(cut + [frame] + rest.frames, decode) == FrameEvents(cut + [frame], decode))
  {
    assert cut + ([frame] + rest.frames) == cut + [frame] + rest.frames;
    OneFrame(frame, decode);
    FrameEventsAppend(cut, [frame], decode);
    FrameEventsAppend(cut + [frame], rest.frames, decode);
  }

  lemma OneFrame(frame: string, decode: Decoder)
    ensures Finished([frame], decode) <==> EventOfFrame(frame, decode) == Some(Completed)
    ensures FrameEvents([frame], decode) ==
      (if EventOfFrame(frame, decode).None? then [] else [EventOfFrame(frame, decode).value])
  {
    assert [frame][1..] == [];
    if EventOfFrame(frame, decode) == Some(Completed) {
      assert EventOfFrame([frame][0], decode) == Some(Completed);
    }
  }

  /** The spawned reader task. The channel is the sequence of events sent so far. */
  method ReadStream(stream: seq<Chunk>, decode: Decoder) returns (sent: seq<Event>)
    ensures sent == Batch(Received(stream), Failure(stream), decode)
  {
    sent := [ResponseStarted];
    var buffer := "";
    ghost var seen := "";
    for i := 0 to |stream|
      invariant Received(stream) == seen + Received(stream[i..])
      invariant Failure(stream) == Failure(stream[i..])
      invariant Reading(seen, buffer, sent, decode)
    {
      assert stream[i..][1..] == stream[i + 1..];
      match stream[i] {
        case Failed(message) =>
          assert seen + "" == seen;
          sent := sent + [ReadError("stream read: " + message)];
          return;
        case Text(text) =>
          ghost var later := Received(stream[i + 1..]);
          Regroup(seen, text, later);
          var events, done;
          ghost var before := buffer;
          buffer, events, done := DrainFrames(buffer + text, decode);
          ReadMore(seen, before, sent, text, decode);
          sent := sent + events;
          if done {
            CompletionHides(seen + text, later, Failure(stream), decode);
            return;
          }
          seen := seen + text;
      }
    }
    assert seen + "" == seen;
    sent := sent + [Completed];
  }

  lemma Regroup(a: string, b: string, c: string)
    ensures a + (b + c) == a + b + c
  {
  }

  /** State of the reader between chunks, after the text seen so far. */
  ghost predicate Reading(seen: string, buffer: string, sent: seq<Event>, decode: Decoder) {
    && buffer == Split(seen).tail
    && !Finished(Split(seen).frames, decode)
    && sent == [ResponseStarted] + FrameEvents(Split(seen).frames, decode)
  }

  lemma ReadMore(seen: string, buffer: string, sent: seq<Event>, text: string, decode: Decoder)
    requires Reading(seen, buffer, sent, decode)
    ensures Split(seen + text).tail == Split(buffer + text).tail
    ensures Finished(Split(seen + text).frames, decode) == Finished(Split(buffer + text).frames, decode)
    ensures sent + FrameEvents(Split(buffer + text).frames, decode)
      == [ResponseStarted] + FrameEvents(Split(seen + text).frames, decode)
    ensures !Finished(Split(buffer + text).frames, decode) ==>
              Reading(seen + text, Split(buffer + text).tail, sent + FrameEvents(Split(buffer + text).frames, decode), decode)
  {
    SplitAppend(seen, text);
    SendMore(Split(seen).frames, Split(buffer + text).frames, sent, decode);
  }

  lemma SendMore(a: seq<string>, b: seq<string>, sent: seq<Event>, decode: Decoder)
    requires sent == [ResponseStarted] + FrameEvents(a, decode) && !Finished(a, decode)
    ensures sent + FrameEvents(b, decode) == [ResponseStarted] + FrameEvents(a + b, decode)
    ensures Finished(a + b, decode) == Finished(b, decode)
  {
    FrameEventsAppend(a, b, decode);
    RegroupEvents([ResponseStarted], FrameEvents(a, decode), FrameEvents(b, decode));
  }

  lemma RegroupEvents(a: seq<Event>, b: seq<Event>, c: seq<Event>)
    ensures a + b + c == a + (b + c)
  {
  }

  lemma CompletionHides(seen: string, later: string, failure: Option<string>, decode: Decoder)
    requires Finished(Split(seen).frames, decode)
    ensures Batch(seen + later, failure, decode) == [ResponseStarted] + FrameEvents(Split(seen).frames, decode)
  {
    SplitAppend(seen, later);
    FrameEventsAppend(Split(seen).frames, Split(Split(seen).tail + later).frames, decode);
  }

  // ------------------------------------------------------------------- consequences

  /** A response starts once, ends once, and is silent afterwards. */
  ghost predicate WellFormedResponse(events: seq<Event>) {
    && |events| >= 2
    && events[0] == ResponseStarted
    && events[|events| - 1].Terminal()
    && forall i :: 0 < i < |events| - 1 ==> events[i].ReasoningDelta? || events[i].ContentDelta?
  }

  lemma {:induction false} FrameEventsShape(frames: seq<string>, decode: Decoder)
    ensures EventsShape(FrameEvents(frames, decode), Finished(frames, decode))
  {
    if frames != [] {
      FrameEventsShape(frames[1..], decode);
      assert frames == [frames[0]] + frames[1..];
      FinishedAppend([frames[0]], frames[1..], decode);
      OneFrame(frames[0], decode);
      FrameEventKind(frames[0], decode);
    }
  }

  ghost predicate EventsShape(events: seq<Event>, finished: bool) {
    && (finished ==> events != [] && events[|events| - 1] == Completed)
    && forall i :: 0 <= i < |events| - (if finished then 1 else 0) ==> events[i].ReasoningDelta? || events[i].ContentDelta?
  }

  lemma FrameEventKind(frame: string, decode: Decoder)
    ensures var event := EventOfFrame(frame, decode);
      event.None? || event.value.ReasoningDelta? || event.value.ContentDelta? || event.value.Completed?
  {
    FirstEventKind(Lines(frame), decode);
  }

  lemma {:induction false} FirstEventKind(lines: seq<string>, decode: Decoder)
    ensures var event := FirstEvent(lines, decode);
      event.None? || event.value.ReasoningDelta? || event.value.ContentDelta? || event.value.Completed?
  {
    if lines != [] {
      FirstEventKind(lines[1..], decode);
    }
  }

  /** Every response is a start, then deltas, then exactly one terminal event. */
  lemma ResponseShape(text: string, failure: Option<string>, decode: Decoder)
    ensures WellFormedResponse(Batch(text, failure, decode))
  {
    var frames := Split(text).frames;
    FrameEventsShape(frames, decode);
  }

  /** Text after the last blank line never reaches the user, not even at end of stream. */
  lemma UnterminatedFrameDropped(text: string, more: string, failure: Option<string>, decode: Decoder)
    requires !HasBreak(Split(text).tail + more)
    ensures Batch(text + more, failure, decode) == Batch(text, failure, decode)
  {
    SplitAppend(text, more);
    assert Split(text).frames + [] == Split(text).frames;
  }

  /** A frame ends the response exactly when its first line that carries an event is the done marker. */
  lemma FrameCompletesIff(frame: string, decode: Decoder)
    ensures EventOfFrame(frame, decode) == Some(Completed) <==>
      exists i :: DecidingLine(Lines(frame), i, decode, Completed)
        && Trim(Lines(frame)[i][|DATA_PREFIX|..]) == DONE
  {
    FirstEventIff(Lines(frame), decode, Completed);
    assert EventOfFrame(frame, decode) == Some(Completed) <==>
        exists i :: DecidingLine(Lines(frame), i, decode, Completed);
    forall i | DecidingLine(Lines(frame), i, decode, Completed)
      ensures DATA_PREFIX <= Lines(frame)[i] && Trim(Lines(frame)[i][|DATA_PREFIX|..]) == DONE
    {
    }
  }

  /**
   The marker does not always cut the stream: behind a line that carries a delta in the
   same frame it is ignored, so the response goes on.
   */
  lemma DoneMarkerMasked(line: string, decode: Decoder, e: Event)
    requires '\n' !in line && DropCarriageReturn(line) == line
    requires EventOfLine(line, decode) == Some(e)
    ensures EventOfFrame(line + "\n" + DATA_PREFIX + DONE, decode) == Some(e)
  {
    assert line + "\n" + DATA_PREFIX + DONE == line + "\n" + (DATA_PREFIX + DONE);
    assert line + "\n" + (DATA_PREFIX + DONE) == line + ("\n" + (DATA_PREFIX + DONE));
    FirstLine(line, DATA_PREFIX + DONE);
  }

  // ------------------------------------------------------- reading up to the done marker

  predicate IsDoneLine(line: string) {
    DATA_PREFIX <= line && Trim(line[|DATA_PREFIX|..]) == DONE
  }

  predicate HoldsDone(frame: string) {
    exists line | line in Lines(frame) :: IsDoneLine(line)
  }

  /** A done marker that is not obeyed, because another line of its frame came first. */
  predicate Masked(frame: string, decode: Decoder) {
    HoldsDone(frame) && EventOfFrame(frame, decode) != Some(Completed)
  }

  function EndOf(failure: Option<string>): Event {
    if failure.Some? then ReadError("stream read: " + failure.value) else Completed
  }

  function OneOrNone(event: Option<Event>): seq<Event> {
    if event.None? then [] else [event.value]
  }

  /** The naive reading: the response completes at the first frame that holds a done marker. */
  function Naive(frames: seq<string>, failure: Option<string>, decode: Decoder): seq<Event> {
    if frames == [] then [EndOf(failure)]
    else if HoldsDone(frames[0]) then [Completed]
    else OneOrNone(EventOfFrame(frames[0], decode)) + Naive(frames[1..], failure, decode)
  }

  /** The events of some frames and the end of the response, frame by frame. */
  function Actual(frames: seq<string>, failure: Option<string>, decode: Decoder): seq<Event> {
    if frames == [] then [EndOf(failure)]
    else if EventOfFrame(frames[0], decode) == Some(Completed) then [Completed]
    else OneOrNone(EventOfFrame(frames[0], decode)) + Actual(frames[1..], failure, decode)
  }

  lemma {:induction false} ActualIs(frames: seq<string>, failure: Option<string>, decode: Decoder)
    ensures Actual(frames, failure, decode)
      == FrameEvents(frames, decode) + (if Finished(frames, decode) then [] else [EndOf(failure)])
  {
    if frames != [] {
      ActualIs(frames[1..], failure, decode);
      assert frames == [frames[0]] + frames[1..];
      FinishedAppend([frames[0]], frames[1..], decode);
      OneFrame(frames[0], decode);
      RegroupEvents(OneOrNone(EventOfFrame(frames[0], decode)), FrameEvents(frames[1..], decode),
        if Finished(frames[1..], decode) then [] else [EndOf(failure)]);
    }
  }

  lemma EmittedIsActual(frames: seq<string>, failure: Option<string>, decode: Decoder)
    ensures Emitted(frames, failure, decode) == [ResponseStarted] + Actual(frames, failure, decode)
  {
    ActualIs(frames, failure, decode);
    RegroupEvents([ResponseStarted], FrameEvents(frames, decode),
      if Finished(frames, decode) then [] else [EndOf(failure)]);
  }

  lemma {:induction false} DoneLineSpeaks(lines: seq<string>, decode: Decoder)
    requires exists line :: line in lines && IsDoneLine(line)
    ensures FirstEvent(lines, decode).Some?
  {
    if !IsDoneLine(lines[0]) {
      assert exists line :: line in lines[1..] && IsDoneLine(line);
      DoneLineSpeaks(lines[1..], decode);
    }
  }

  lemma FrameCompletionHoldsDone(frame: string, decode: Decoder)
    requires EventOfFrame(frame, decode) == Some(Completed)
    ensures HoldsDone(frame)
  {
    FirstEventIff(Lines(frame), decode, Completed);
    var i :| DecidingLine(Lines(frame), i, decode, Completed);
    assert Lines(frame)[i] in Lines(frame);
  }

  /** No marker is masked before the response has completed. */
  ghost predicate NoneMasked(frames: seq<string>, decode: Decoder) {
    forall n :: 0 <= n < |frames| && Masked(frames[n], decode) ==> Finished(frames[..n], decode)
  }

  lemma NoneMaskedStep(frames: seq<string>, decode: Decoder)
    requires frames != []
    ensures NoneMasked(frames, decode) <==>
              || EventOfFrame(frames[0], decode) == Some(Completed)
              || (!HoldsDone(frames[0]) && NoneMasked(frames[1..], decode))
  {
    var rest := frames[1..];
    forall n | 0 <= n < |rest|
      ensures Finished(frames[..n + 1], decode) <==> EventOfFrame(frames[0], decode) == Some(Completed) || Finished(rest[..n], decode)
    {
      assert frames[..n + 1] == [frames[0]] + rest[..n];
      FinishedAppend([frames[0]], rest[..n], decode);
      OneFrame(frames[0], decode);
    }
    assert !Finished(frames[..0], decode);
    if NoneMasked(frames, decode) {
      forall n | 0 <= n < |rest| && Masked(rest[n], decode) && EventOfFrame(frames[0], decode) != Some(Completed)
        ensures Finished(rest[..n], decode)
      {
        assert frames[n + 1] == rest[n];
      }
    }
    forall n | 0 < n < |frames|
      ensures frames[n] == rest[n - 1]
    {
    }
  }

  lemma {:induction false} NaiveIff(frames: seq<string>, failure: Option<string>, decode: Decoder)
    ensures Actual(frames, failure, decode) == Naive(frames, failure, decode) <==> NoneMasked(frames, decode)
  {
    if frames != [] {
      var frame, rest := frames[0], frames[1..];
      NoneMaskedStep(frames, decode);
      if EventOfFrame(frame, decode) == Some(Completed) {
        FrameCompletionHoldsDone(frame, decode);
      } else if HoldsDone(frame) {
        DoneLineSpeaks(Lines(frame), decode);
        assert Actual(frames, failure, decode)[0] == EventOfFrame(frame, decode).value;
      } else {
        NaiveIff(rest, failure, decode);
        SamePrefix(OneOrNone(EventOfFrame(frame, decode)), Actual(rest, failure, decode), Naive(rest, failure, decode));
      }
    }
  }

  lemma SamePrefix(a: seq<Event>, b: seq<Event>, c: seq<Event>)
    ensures a + b == a + c <==> b == c
  {
    if a + b == a + c {
      assert b == (a + b)[|a|..] == (a + c)[|a|..] == c;
    }
  }

  /**
   Main result: for every text, the response is the text read up to the first frame with a done
   marker if and only if no marker is masked before the response has completed.
   */
  lemma CutAtDoneIff(text: string, failure: Option<string>, decode: Decoder)
    ensures Batch(text, failure, decode) == [ResponseStarted] + Naive(Split(text).frames, failure, decode)
            <==> NoneMasked(Split(text).frames, decode)
  {
    var frames := Split(text).frames;
    EmittedIsActual(frames, failure, decode);
    NaiveIff(frames, failure, decode);
    SamePrefix([ResponseStarted], Actual(frames, failure, decode), Naive(frames, failure, decode));
  }
}
