/** The first event of a server-sent-event stream, taken from a buffer that grows by chunks. */
module Sse {
  import opened Bytes
  import opened Text
  import Utf8

  datatype ConnectBody = ConnectBody(addresses: seq<string>, nonce: string, obfs: string)

  datatype RendezvousEvent = Punch(body: ConnectBody) | HeartbeatAck

  datatype Error = BadPunchData(data: string) | UnknownEvent(name: string) | StreamClosed

  datatype Outcome = NoEvent | Got(ev: RendezvousEvent) | Fail(error: Error)

  /** The JSON library: a parser of punch bodies. */
  type Json = string -> Option<ConnectBody>

  // ----- Frames

  /** Where the first blank line starts. */
  function FindBlank(s: string): (r: Option<nat>)
    ensures r.Some? ==> r.value + 2 <= |s|
  {
    if |s| < 2 then None
    else if s[0] == '\n' && s[1] == '\n' then Some(0)
    else
      match FindBlank(s[1..])
      case None => None
      case Some(i) => Some(i + 1)
  }

  /** `str::lines`: the pieces between line feeds, without an empty last one. */
  function Lines(s: string): seq<string> {
    var parts := Reverse(RSplit(s, '\n'));
    if parts[|parts| - 1] == [] then parts[..|parts| - 1] else parts
  }

  predicate IsSpace(c: char) {
    || '\t' <= c <= '\r' || c == ' ' || c == '\U{85}' || c == '\U{A0}' || c == '\U{1680}'
    || '\U{2000}' <= c <= '\U{200A}' || c == '\U{2028}' || c == '\U{2029}' || c == '\U{202F}'
    || c == '\U{205F}' || c == '\U{3000}'
  }

  function TrimStart(s: string): string {
    if s != [] && IsSpace(s[0]) then TrimStart(s[1..]) else s
  }

  function TrimSpaceEnd(s: string): string {
    if s != [] && IsSpace(s[|s| - 1]) then TrimSpaceEnd(s[..|s| - 1]) else s
  }

  function Trim(s: string): string {
    TrimSpaceEnd(TrimStart(s))
  }

  datatype Fields = Fields(name: string, data: string)

  function StripSpace(s: string): string {
    if s != [] && s[0] == ' ' then s[1..] else s
  }

  function AddLine(f: Fields, raw: string): Fields {
    var line := TrimEnd(raw, '\r');
    if "event:" <= line then f.(name := Trim(line[6..]))
    else if "data:" <= line then
      f.(data := (if f.data == [] then [] else f.data + "\n") + StripSpace(line[5..]))
    else f
  }

  function AddLines(f: Fields, lines: seq<string>): Fields {
    if lines == [] then f else AddLine(AddLines(f, lines[..|lines| - 1]), lines[|lines| - 1])
  }

  function ParseFrame(frame: string): Fields {
    AddLines(Fields([], []), Lines(frame))
  }

  /** What a complete frame means; frames without an event name are skipped. */
  function Meaning(json: Json, f: Fields): Outcome {
    if f.name == [] then NoEvent
    else if f.name == "punch" then
      match json(f.data)
      case None => Fail(BadPunchData(f.data))
      case Some(body) => Got(Punch(body))
    else if f.name == "heartbeat_ack" then Got(HeartbeatAck)
    else Fail(UnknownEvent(f.name))
  }

  /** The first event in `buf` and what is left of the buffer. */
  function Take(json: Json, buf: string): (r: (Outcome, string))
    decreases |buf|
  {
    match FindBlank(buf)
    case None => (NoEvent, buf)
    case Some(idx) =>
      var meaning := Meaning(json, ParseFrame(buf[..idx]));
      if meaning.NoEvent? then Take(json, buf[idx + 2..]) else (meaning, buf[idx + 2..])
  }

  // ----- Chunks

  function Concat(chunks: seq<string>): string {
    if chunks == [] then [] else chunks[0] + Concat(chunks[1..])
  }

  datatype Polled = Polled(outcome: Outcome, buf: string, unread: seq<string>)

  /** The chunk loop of `poll_event`. */
  function Poll(json: Json, buf: string, chunks: seq<string>): Polled
    decreases |chunks|
  {
    if chunks == [] then Polled(Fail(StreamClosed), buf, [])
    else
      var (outcome, rest) := Take(json, buf + chunks[0]);
      if outcome.NoEvent? then Poll(json, rest, chunks[1..]) else Polled(outcome, rest, chunks[1..])
  }

  lemma {:induction false} FindBlankPrefix(a: string, b: string)
    requires FindBlank(a).Some?
    ensures FindBlank(a + b) == FindBlank(a)
  {
    if !(a[0] == '\n' && a[1] == '\n') {
      FindBlankPrefix(a[1..], b);
      assert (a + b)[1..] == a[1..] + b;
    }
  }

  /** `FindBlank` finds the first blank line. */
  lemma {:induction false} FindBlankFirst(s: string, k: nat)
    requires k + 2 <= |s| && s[k] == '\n' && s[k + 1] == '\n'
    ensures FindBlank(s).Some? && FindBlank(s).value <= k
    ensures var i := FindBlank(s).value; s[i] == '\n' && s[i + 1] == '\n'
  {
    if !(s[0] == '\n' && s[1] == '\n') {
      FindBlankFirst(s[1..], k - 1);
    }
  }

  /** Text that arrives later never changes what was already decided. */
  lemma {:induction false} TakeThenMore(json: Json, a: string, b: string)
    ensures var (outcome, rest) := Take(json, a);
            Take(json, a + b) == if outcome.NoEvent? then Take(json, rest + b) else (outcome, rest + b)
    decreases |a|
  {
    hide Meaning, ParseFrame;
    if FindBlank(a).Some? {
      var idx := FindBlank(a).value;
      FindBlankPrefix(a, b);
      assert (a + b)[..idx] == a[..idx];
      assert (a + b)[idx + 2..] == a[idx + 2..] + b;
      TakeThenMore(json, a[idx + 2..], b);
    }
  }

  lemma {:induction false} TakeSettles(json: Json, a: string)
    requires Take(json, a).0.NoEvent?
    ensures Take(json, Take(json, a).1) == Take(json, a)
    decreases |a|
  {
    hide Meaning, ParseFrame;
    if FindBlank(a).Some? {
      TakeSettles(json, a[FindBlank(a).value + 2..]);
    }
  }

  /** Reading chunk by chunk gives the first event, the error or the lack of an event of the
      joined text; and buffer plus unread chunks are what the joined text leaves. */
  lemma {:induction false} PollIsTakeOfJoined(json: Json, buf: string, chunks: seq<string>)
    requires Take(json, buf) == (NoEvent, buf)
    ensures var p := Poll(json, buf, chunks);
            var (outcome, rest) := Take(json, buf + Concat(chunks));
            && p.outcome == (if outcome.NoEvent? then Fail(StreamClosed) else outcome)
            && p.buf + Concat(p.unread) == rest
    decreases |chunks|
  {
    hide Take;
    if chunks == [] {
      assert buf + Concat(chunks) == buf && buf + Concat([]) == buf;
    } else {
      var head, tail := buf + chunks[0], Concat(chunks[1..]);
      assert buf + Concat(chunks) == head + tail;
      TakeThenMore(json, head, tail);
      if Take(json, head).0.NoEvent? {
        TakeSettles(json, head);
        PollIsTakeOfJoined(json, Take(json, head).1, chunks[1..]);
      }
    }
  }

  lemma EmptyBufferSettled(json: Json)
    ensures Take(json, "") == (NoEvent, "")
  {
  }

  /** Two ways to cut the same text into chunks cannot be told apart. */
  lemma {:induction false} ChunkingIsInvisible(json: Json, chunks: seq<string>, chunks': seq<string>)
    requires Concat(chunks) == Concat(chunks')
    ensures Poll(json, "", chunks).outcome == Poll(json, "", chunks').outcome
    ensures var p, q := Poll(json, "", chunks), Poll(json, "", chunks');
            p.buf + Concat(p.unread) == q.buf + Concat(q.unread)
  {
    hide Poll, Take;
    EmptyBufferSettled(json);
    PollIsTakeOfJoined(json, "", chunks);
    PollIsTakeOfJoined(json, "", chunks');
  }

  // ----- Chunks of bytes

  function Joined(chunks: seq<seq<byte>>): seq<byte> {
    if chunks == [] then [] else chunks[0] + Joined(chunks[1..])
  }

  /** Each chunk is decoded on its own. */
  function Decoded(chunks: seq<seq<byte>>): seq<string> {
    if chunks == [] then [] else [Utf8.Lossy(chunks[0])] + Decoded(chunks[1..])
  }

  lemma {:induction false} DecodedConcat(chunks: seq<seq<byte>>)
    requires forall i :: 0 <= i < |chunks| ==> Utf8.Complete(chunks[i])
    ensures Concat(Decoded(chunks)) == Utf8.Lossy(Joined(chunks))
  {
    hide Utf8.Lossy, Utf8.Complete;
    if chunks == [] {
      assert Utf8.Lossy([]) == [] by {
        EmptyDecodes();
      }
    } else {
      DecodedConcat(chunks[1..]);
      Utf8.LossyConcat(chunks[0], Joined(chunks[1..]));
      assert Decoded(chunks)[1..] == Decoded(chunks[1..]);
    }
  }

  lemma EmptyDecodes()
    ensures Utf8.Lossy([]) == []
  {
  }

  /** Cuts between characters are invisible on the byte stream too. */
  lemma {:induction false} CharacterCutsAreInvisible(json: Json, chunks: seq<seq<byte>>)
    requires forall i :: 0 <= i < |chunks| ==> Utf8.Complete(chunks[i])
    ensures var (outcome, _) := Take(json, Utf8.Lossy(Joined(chunks)));
            Poll(json, "", Decoded(chunks)).outcome == if outcome.NoEvent? then Fail(StreamClosed) else outcome
  {
    hide Poll, Take, Utf8.Lossy, Utf8.Complete;
    EmptyBufferSettled(json);
    PollIsTakeOfJoined(json, "", Decoded(chunks));
    DecodedConcat(chunks);
    assert "" + Concat(Decoded(chunks)) == Concat(Decoded(chunks));
  }

  // ----- Frames as servers write them

  function DataLines(lines: seq<string>): seq<string> {
    seq(|lines|, i requires 0 <= i < |lines| => "data: " + lines[i])
  }

  /** A frame for one event: its name, then its data line by line. */
  function FrameLines(name: string, lines: seq<string>): (all: seq<string>)
    ensures |all| == |lines| + 1
  {
    ["event: " + name] + DataLines(lines)
  }

  predicate PlainLine(s: string) {
    '\n' !in s && (s == [] || s[|s| - 1] != '\r')
  }

  predicate PlainName(s: string) {
    s != [] && '\n' !in s && !IsSpace(s[0]) && !IsSpace(s[|s| - 1])
  }

  lemma TrimEndKeeps(s: string, c: char)
    requires s == [] || s[|s| - 1] != c
    ensures TrimEnd(s, c) == s
  {
  }

  lemma EventLine(f: Fields, name: string)
    requires PlainName(name)
    ensures AddLine(f, "event: " + name) == f.(name := name)
  {
    var line := "event: " + name;
    assert line[|line| - 1] == name[|name| - 1];
    TrimEndKeeps(line, '\r');
    assert line[..6] == "event:";
    assert line[6..] == " " + name;
    assert (" " + name)[1..] == name;
    assert TrimStart(name) == name && TrimSpaceEnd(name) == name;
    assert TrimStart(" " + name) == name;
  }

  lemma DataLine(f: Fields, text: string)
    requires PlainLine(text)
    ensures AddLine(f, "data: " + text) == f.(data := (if f.data == [] then [] else f.data + "\n") + text)
  {
    var line := "data: " + text;
    assert line[|line| - 1] == if text == [] then ' ' else text[|text| - 1];
    TrimEndKeeps(line, '\r');
    assert line[..5] == "data:";
    assert line[0] == 'd';
    assert line[5..] == " " + text;
    assert (" " + text)[1..] == text;
  }

  ghost predicate Spaces(s: string) {
    forall i :: 0 <= i < |s| ==> IsSpace(s[i])
  }

  lemma {:induction false} TrimStartSpaces(ws: string, s: string)
    requires Spaces(ws) && s != [] && !IsSpace(s[0])
    ensures TrimStart(ws + s) == s
  {
    hide IsSpace;
    if ws == [] {
      assert ws + s == s;
    } else {
      TrimStartSpaces(ws[1..], s);
      assert (ws + s)[1..] == ws[1..] + s;
    }
  }

  lemma {:induction false} TrimEndSpaces(s: string, ws: string)
    requires Spaces(ws) && s != [] && !IsSpace(s[|s| - 1])
    ensures TrimSpaceEnd(s + ws) == s
  {
    hide IsSpace;
    if ws == [] {
      assert s + ws == s;
    } else {
      TrimEndSpaces(s, ws[..|ws| - 1]);
      assert (s + ws)[..|s + ws| - 1] == s + ws[..|ws| - 1];
    }
  }

  lemma {:induction false} TrimEndWithin(s: string, ws: string, c: char) returns (left: string)
    requires s != [] && s[|s| - 1] != c
    ensures left <= ws && TrimEnd(s + ws, c) == s + left
  {
    if ws == [] || ws[|ws| - 1] != c {
      left := ws;
      assert ws == [] ==> s + ws == s;
    } else {
      left := TrimEndWithin(s, ws[..|ws| - 1], c);
      assert (s + ws)[..|s + ws| - 1] == s + ws[..|ws| - 1];
    }
  }

  /** White space around an event name, carriage returns at the end of the line included, does not
      count. */
  lemma SpacedEventLine(f: Fields, before: string, name: string, after: string)
    requires Spaces(before) && Spaces(after) && PlainName(name)
    ensures AddLine(f, "event:" + before + name + after) == f.(name := name)
  {
    hide TrimStart, TrimSpaceEnd, TrimEnd, IsSpace;
    var head := "event:" + before + name;
    assert !IsSpace(name[|name| - 1]) && IsSpace('\r') by {
      ReturnIsSpace();
    }
    assert head[|head| - 1] == name[|name| - 1];
    var left := TrimEndWithin(head, after, '\r');
    var line := head + left;
    assert line[..6] == "event:" && line[6..] == before + (name + left);
    TrimStartSpaces(before, name + left);
    TrimEndSpaces(name, left);
  }

  lemma ReturnIsSpace()
    ensures IsSpace('\r')
  {
  }

  /** One space after `data:` may be missing, and carriage returns at the end do not count. */
  lemma TightDataLine(f: Fields, text: string, after: string)
    requires PlainLine(text) && (text == [] || text[0] != ' ') && forall i :: 0 <= i < |after| ==> after[i] == '\r'
    ensures AddLine(f, "data:" + text + after) == f.(data := (if f.data == [] then [] else f.data + "\n") + text)
  {
    hide Trim;
    var head := "data:" + text;
    assert head[|head| - 1] == if text == [] then ':' else text[|text| - 1];
    ReturnsTrimmed(head, after);
    assert head[0] == 'd' && head[..5] == "data:" && head[5..] == text;
  }

  lemma {:induction false} ReturnsTrimmed(s: string, after: string)
    requires s != [] && s[|s| - 1] != '\r' && forall i :: 0 <= i < |after| ==> after[i] == '\r'
    ensures TrimEnd(s + after, '\r') == s
  {
    if after == [] {
      assert s + after == s;
    } else {
      ReturnsTrimmed(s, after[..|after| - 1]);
      assert (s + after)[..|s + after| - 1] == s + after[..|after| - 1];
    }
  }

  /** The data of a written frame: its lines joined, less any empty lines in front, which the
      reader drops. */
  function Payload(lines: seq<string>): string {
    if lines == [] then [] else if lines[0] == [] then Payload(lines[1..]) else Join(lines, '\n')
  }

  lemma {:induction false} PayloadSnoc(init: seq<string>, last: string)
    ensures Payload(init + [last]) == if Payload(init) == [] then last else Payload(init) + "\n" + last
  {
    hide Join;
    if init == [] {
      assert init + [last] == [last] && [last][1..] == [];
      JoinOne(last);
    } else {
      assert (init + [last])[1..] == init[1..] + [last];
      if init[0] == [] {
        PayloadSnoc(init[1..], last);
      } else {
        JoinSnoc(init, last);
        JoinStarts(init);
      }
    }
  }

  lemma JoinOne(s: string)
    ensures Join([s], '\n') == s
  {
  }

  lemma JoinStarts(lines: seq<string>)
    requires lines != [] && lines[0] != []
    ensures Join(lines, '\n') != []
  {
  }

  lemma {:induction false} FrameFields(name: string, lines: seq<string>)
    requires PlainName(name) && forall i :: 0 <= i < |lines| ==> PlainLine(lines[i])
    ensures AddLines(Fields([], []), FrameLines(name, lines)) == Fields(name, Payload(lines))
  {
    hide AddLine, PlainName, PlainLine, Payload;
    var all := FrameLines(name, lines);
    if lines == [] {
      EventLine(Fields([], []), name);
      assert all == ["event: " + name] && all[..0] == [];
      assert Payload([]) == [] by {
        NoPayload();
      }
    } else {
      var init, last := lines[..|lines| - 1], lines[|lines| - 1];
      assert lines == init + [last];
      assert all[..|all| - 1] == FrameLines(name, init);
      assert all[|all| - 1] == "data: " + last;
      FrameFields(name, init);
      DataLine(Fields(name, Payload(init)), last);
      PayloadSnoc(init, last);
    }
  }

  lemma NoPayload()
    ensures Payload([]) == []
  {
  }

  lemma {:induction false} JoinSnoc(init: seq<string>, last: string)
    requires |init| >= 1
    ensures Join(init + [last], '\n') == Join(init, '\n') + "\n" + last
  {
    if |init| == 1 {
      assert (init + [last])[1..] == [last];
    } else {
      JoinSnoc(init[1..], last);
      assert (init + [last])[1..] == init[1..] + [last];
    }
  }

  /** A frame written in the usual way is read back as its name and its data, line feeds
      included. */
  lemma {:induction false} FrameRoundTrip(name: string, lines: seq<string>)
    requires PlainName(name) && forall i :: 0 <= i < |lines| ==> PlainLine(lines[i])
    ensures ParseFrame(Join(FrameLines(name, lines), '\n')) == Fields(name, Payload(lines))
  {
    hide AddLines, Join, Lines, PlainName, PlainLine, Payload;
    var all := FrameLines(name, lines);
    forall i | 0 <= i < |all|
      ensures '\n' !in all[i] && all[i] != []
    {
      FrameLineIsPlain(name, lines, i);
    }
    LinesOfJoined(all);
    FrameFields(name, lines);
  }

  lemma FrameLineIsPlain(name: string, lines: seq<string>, i: nat)
    requires PlainName(name) && forall k :: 0 <= k < |lines| ==> PlainLine(lines[k])
    requires i < |FrameLines(name, lines)|
    ensures '\n' !in FrameLines(name, lines)[i] && FrameLines(name, lines)[i] != []
  {
  }

  lemma {:induction false} LinesOfJoined(all: seq<string>)
    requires |all| >= 1 && all[|all| - 1] != []
    requires forall i :: 0 <= i < |all| ==> '\n' !in all[i]
    ensures Lines(Join(all, '\n')) == all
  {
    hide Join, RJoin, RSplit;
    JoinIsRJoin(all, '\n');
    RSplitRJoin(Reverse(all), '\n');
    assert Reverse(Reverse(all)) == all;
  }

  // ----- Whole frames in a stream

  /** Lines without line feeds, none of them empty. */
  ghost predicate SolidLines(all: seq<string>) {
    |all| >= 1 && forall i :: 0 <= i < |all| ==> '\n' !in all[i] && all[i] != []
  }

  lemma {:induction false} BlankAfterText(line: string, rest: string)
    requires '\n' !in line
    ensures line != [] ==>
              FindBlank(line + "\n" + rest)
              == if rest != [] && rest[0] == '\n' then Some(|line|)
                 else if FindBlank(rest).None? then None else Some(|line| + 1 + FindBlank(rest).value)
  {
    if line != [] {
      var s := line + "\n" + rest;
      assert s[0] != '\n';
      if |line| == 1 {
        assert s[1..] == "\n" + rest && ("\n" + rest)[1..] == rest;
      } else {
        BlankAfterText(line[1..], rest);
        assert s[1..] == line[1..] + "\n" + rest;
      }
    }
  }

  /** The first blank line after such lines is the one that ends them. */
  lemma {:induction false} BlankAfterLines(all: seq<string>, rest: string)
    requires SolidLines(all)
    ensures FindBlank(Join(all, '\n') + "\n\n" + rest) == Some(|Join(all, '\n')|)
    decreases |all|
  {
    hide FindBlank;
    if |all| == 1 {
      BlankAfterText(all[0], "\n" + rest);
      assert all[0] + "\n\n" + rest == all[0] + "\n" + ("\n" + rest);
    } else {
      var tail := Join(all[1..], '\n') + "\n\n" + rest;
      BlankAfterLines(all[1..], rest);
      JoinStarts(all[1..]);
      JoinHead(all[1..]);
      BlankAfterText(all[0], tail);
      assert Join(all, '\n') + "\n\n" + rest == all[0] + "\n" + tail;
    }
  }

  lemma JoinHead(all: seq<string>)
    requires SolidLines(all)
    ensures Join(all, '\n') != [] && Join(all, '\n')[0] != '\n'
  {
    assert all[0][0] in all[0];
  }

  lemma FrameIsSolid(name: string, lines: seq<string>)
    requires PlainName(name) && forall i :: 0 <= i < |lines| ==> PlainLine(lines[i])
    ensures SolidLines(FrameLines(name, lines))
  {
    hide PlainName, PlainLine;
    forall i | 0 <= i < |FrameLines(name, lines)|
      ensures '\n' !in FrameLines(name, lines)[i] && FrameLines(name, lines)[i] != []
    {
      FrameLineIsPlain(name, lines, i);
    }
  }

  /** What a written frame is read as. */
  ghost predicate ReadAs(json: Json, name: string, data: string, outcome: Outcome) {
    && (name == "punch" && json(data).Some? ==> outcome == Got(Punch(json(data).value)))
    && (name == "punch" && json(data).None? ==> outcome == Fail(BadPunchData(data)))
    && (name == "heartbeat_ack" ==> outcome == Got(HeartbeatAck))
    && (name != "punch" && name != "heartbeat_ack" ==> outcome == Fail(UnknownEvent(name)))
  }

  /** A frame as servers write it, in front of any text: the reader answers with its event and
      keeps that text. */
  lemma WrittenFrameIsRead(json: Json, name: string, lines: seq<string>, rest: string)
    requires PlainName(name) && forall i :: 0 <= i < |lines| ==> PlainLine(lines[i])
    ensures var (outcome, left) := Take(json, Join(FrameLines(name, lines), '\n') + "\n\n" + rest);
            ReadAs(json, name, Payload(lines), outcome) && left == rest
  {
    hide Join, FindBlank, ParseFrame, PlainLine, Payload, FrameLines;
    var frame := Join(FrameLines(name, lines), '\n');
    var text := frame + "\n\n" + rest;
    FrameIsSolid(name, lines);
    BlankAfterLines(FrameLines(name, lines), rest);
    FrameRoundTrip(name, lines);
    assert text[..|frame|] == frame && text[|frame| + 2..] == rest;
  }

  /** The lines of a frame without an event line, such as a comment. */
  ghost predicate Nameless(all: seq<string>) {
    SolidLines(all) && forall i :: 0 <= i < |all| ==> !("event:" <= all[i])
  }

  /** Such a frame is skipped. */
  lemma NamelessFrameIsSkipped(json: Json, all: seq<string>, rest: string)
    requires Nameless(all)
    ensures Take(json, Join(all, '\n') + "\n\n" + rest) == Take(json, rest)
  {
    hide Join, FindBlank, AddLines, Lines;
    var frame := Join(all, '\n');
    var text := frame + "\n\n" + rest;
    BlankAfterLines(all, rest);
    LinesOfJoined(all);
    NamelessFields(all);
    assert text[..|frame|] == frame && text[|frame| + 2..] == rest;
  }

  lemma {:induction false} NamelessFields(all: seq<string>)
    requires forall i :: 0 <= i < |all| ==> !("event:" <= all[i])
    ensures AddLines(Fields([], []), all).name == []
  {
    hide TrimEnd, Trim;
    if all != [] {
      NamelessFields(all[..|all| - 1]);
      var raw := all[|all| - 1];
      assert TrimEnd(raw, '\r') <= raw;
    }
  }

  /** A written frame behind any number of nameless ones, cut into chunks in any way: the poll
      answers with its event, and what it leaves behind is the text that follows. */
  lemma {:induction false} WrittenFramePolls(json: Json, skipped: seq<seq<string>>, name: string, lines: seq<string>,
                                             rest: string, chunks: seq<string>)
    requires forall k :: 0 <= k < |skipped| ==> Nameless(skipped[k])
    requires PlainName(name) && forall i :: 0 <= i < |lines| ==> PlainLine(lines[i])
    requires Concat(chunks) == Frames(skipped) + (Join(FrameLines(name, lines), '\n') + "\n\n" + rest)
    ensures var p := Poll(json, "", chunks);
            ReadAs(json, name, Payload(lines), p.outcome) && p.buf + Concat(p.unread) == rest
  {
    hide Take, Poll, Join, Concat, PlainName, PlainLine, Payload, FrameLines, Frames;
    var text := Join(FrameLines(name, lines), '\n') + "\n\n" + rest;
    FramesAreSkipped(json, skipped, text);
    WrittenFrameIsRead(json, name, lines, rest);
    EmptyBufferSettled(json);
    PollIsTakeOfJoined(json, "", chunks);
    assert "" + Concat(chunks) == Concat(chunks);
  }

  ghost function Frames(frames: seq<seq<string>>): string
    requires forall k :: 0 <= k < |frames| ==> Nameless(frames[k])
  {
    if frames == [] then []
    else
      assert Nameless(frames[0]);
      Join(frames[0], '\n') + "\n\n" + Frames(frames[1..])
  }

  lemma {:induction false} FramesAreSkipped(json: Json, frames: seq<seq<string>>, rest: string)
    requires forall k :: 0 <= k < |frames| ==> Nameless(frames[k])
    ensures Take(json, Frames(frames) + rest) == Take(json, rest)
  {
    hide Take, Join;
    if frames == [] {
      assert [] + rest == rest;
    } else {
      var tail := Frames(frames[1..]) + rest;
      assert Frames(frames) + rest == Join(frames[0], '\n') + "\n\n" + tail;
      NamelessFrameIsSkipped(json, frames[0], tail);
      FramesAreSkipped(json, frames[1..], rest);
    }
  }

  // ----- The loops

  method ParseFrameLoop(frame: string) returns (name: string, data: string)
    ensures Fields(name, data) == ParseFrame(frame)
  {
    var lines := Lines(frame);
    name, data := [], [];
    for i := 0 to |lines|
      invariant Fields(name, data) == AddLines(Fields([], []), lines[..i])
    {
      assert lines[..i + 1][..i] == lines[..i];
      var line := TrimEnd(lines[i], '\r');
      if "event:" <= line {
        name := Trim(line[6..]);
      } else if "data:" <= line {
        if data != [] {
          data := data + "\n";
        }
        data := data + StripSpace(line[5..]);
      }
    }
    assert lines[..|lines|] == lines;
  }

  class SseBuffer {
    var buf: string

    constructor ()
      ensures buf == ""
    {
      buf := "";
    }

    method TakeFirstSseEvent(json: Json) returns (r: Outcome)
      modifies this
      ensures (r, buf) == Take(json, old(buf))
    {
      while FindBlank(buf).Some?
        invariant Take(json, buf) == Take(json, old(buf))
        decreases |buf|
      {
        var idx := FindBlank(buf).value;
        var frame := buf[..idx];
        buf := buf[idx + 2..];
        var name, data := ParseFrameLoop(frame);
        if name == [] {
          continue;
        }
        if name == "punch" {
          match json(data) {
            case None => return Fail(BadPunchData(data));
            case Some(body) => return Got(Punch(body));
          }
        } else if name == "heartbeat_ack" {
          return Got(HeartbeatAck);
        } else {
          return Fail(UnknownEvent(name));
        }
      }
      return NoEvent;
    }

    method PollEvent(json: Json, chunks: seq<seq<byte>>) returns (r: Outcome)
      requires buf == ""
      modifies this
      ensures var (outcome, rest) := Take(json, Concat(Decoded(chunks)));
              r == if outcome.NoEvent? then Fail(StreamClosed) else outcome
    {
      var texts := Decoded(chunks);
      EmptyBufferSettled(json);
      PollIsTakeOfJoined(json, "", texts);
      assert "" + Concat(texts) == Concat(texts);
      assert texts[0..] == texts;
      for i := 0 to |texts|
        invariant Poll(json, "", texts) == Poll(json, buf, texts[i..])
      {
        assert texts[i..][1..] == texts[i + 1..];
        buf := buf + texts[i];
        var ev := TakeFirstSseEvent(json);
        if !ev.NoEvent? {
          return ev;
        }
      }
      return Fail(StreamClosed);
    }
  }
}
