/** What a chunk boundary inside a character does to the event that the reader returns. */
module SseCuts {
  import opened Bytes
  import opened Text
  import opened Sse
  import Utf8

  /** A JSON parser that accepts nothing. Whether a frame is skipped does not depend on the parser. */
  function Refuse(data: string): Option<ConnectBody> {
    None
  }

  /** Some frame of `text` has an event name. */
  predicate Decided(text: string) {
    !Take(Refuse, text).0.NoEvent?
  }

  /** What the reader keeps of `text`. */
  function Left(text: string): string {
    Take(Refuse, text).1
  }

  /** The line that the end of `text` leaves open. */
  function OpenLine(text: string): string {
    RSplit(text, '\n')[0]
  }

  predicate Relevant(line: string) {
    "event:" <= line || "data:" <= line
  }

  /** Nonempty text without ASCII characters. */
  predicate Foreign(w: string) {
    w != [] && forall i :: 0 <= i < |w| ==> w[i] >= '\U{80}'
  }

  // ----- Undecided text

  lemma {:induction false} UndecidedForAll(json: Json, text: string)
    ensures Take(json, text).0.NoEvent? <==> !Decided(text)
    ensures !Decided(text) ==> Take(json, text).1 == Left(text) && FindBlank(Left(text)).None?
    decreases |text|
  {
    hide ParseFrame;
    if FindBlank(text).Some? {
      UndecidedForAll(json, text[FindBlank(text).value + 2..]);
    }
  }

  /** More text after undecided text is read as if only the remainder had been there. */
  lemma TakeAfterLeft(json: Json, text: string, more: string)
    requires !Decided(text)
    ensures Take(json, text + more) == Take(json, Left(text) + more)
  {
    hide Take;
    UndecidedForAll(json, text);
    TakeThenMore(json, text, more);
  }

  lemma {:induction false} NoBlankInForeign(w: string, y: string)
    requires forall i :: 0 <= i < |w| ==> w[i] >= '\U{80}'
    ensures FindBlank(w + y) == if FindBlank(y).None? then None else Some(|w| + FindBlank(y).value)
  {
    if w == [] {
      assert w + y == y;
    } else {
      NoBlankInForeign(w[1..], y);
      assert (w + y)[1..] == w[1..] + y;
    }
  }

  lemma {:induction false} BlankAfterForeign(p: string, w: string, y: string)
    requires FindBlank(p).None? && Foreign(w)
    ensures FindBlank(p + w + y) == if FindBlank(y).None? then None else Some(|p + w| + FindBlank(y).value)
  {
    if p == [] {
      assert p + w == w;
      NoBlankInForeign(w, y);
    } else {
      BlankAfterForeign(p[1..], w, y);
      assert (p + w + y)[1..] == p[1..] + w + y;
    }
  }

  // ----- Frames as a fold over the reversed lines

  function Fold(f: Fields, parts: seq<string>): Fields {
    if parts == [] then f else AddLine(Fold(f, parts[1..]), parts[0])
  }

  lemma {:induction false} AddLinesIsFold(f: Fields, parts: seq<string>)
    ensures AddLines(f, Reverse(parts)) == Fold(f, parts)
  {
    hide AddLine;
    if parts != [] {
      AddLinesIsFold(f, parts[1..]);
      assert Reverse(parts)[..|parts| - 1] == Reverse(parts[1..]);
    }
  }

  lemma {:induction false} FoldConcat(f: Fields, a: seq<string>, b: seq<string>)
    ensures Fold(f, a + b) == Fold(Fold(f, b), a)
  {
    hide AddLine;
    if a == [] {
      assert a + b == b;
    } else {
      FoldConcat(f, a[1..], b);
      assert (a + b)[1..] == a[1..] + b;
    }
  }

  /** The empty last line that `lines` drops would have added nothing. */
  lemma ParseFrameIsFold(frame: string)
    ensures ParseFrame(frame) == Fold(Fields([], []), RSplit(frame, '\n'))
  {
    hide RSplit;
    var parts := RSplit(frame, '\n');
    AddLinesIsFold(Fields([], []), parts);
    if parts[0] == [] {
      AddLinesIsFold(Fields([], []), parts[1..]);
      assert Reverse(parts)[..|parts| - 1] == Reverse(parts[1..]);
      assert Reverse(parts)[|parts| - 1] == [];
    }
  }

  // ----- A boundary in a line that the reader ignores

  lemma PrefixBeforeForeign(prefix: string, line: string, w: string, more: string)
    requires Foreign(w) && prefix <= line + w + more
    requires forall i :: 0 <= i < |prefix| ==> prefix[i] < '\U{80}'
    ensures prefix <= line
  {
    assert (line + w + more)[|line|] == w[0];
    assert (line + w + more)[..|line|] == line;
  }

  lemma IgnoredLine(f: Fields, line: string, w: string, more: string)
    requires !Relevant(line) && Foreign(w)
    ensures AddLine(f, line + w + more) == f
  {
    var raw := line + w + more;
    var trimmed := TrimEnd(raw, '\r');
    if "event:" <= trimmed {
      PrefixBeforeForeign("event:", line, w, more);
    } else if "data:" <= trimmed {
      PrefixBeforeForeign("data:", line, w, more);
    }
  }

  lemma ForeignSplitsWhole(p: string, w: string)
    requires Foreign(w)
    ensures RSplit(p + w, '\n') == [OpenLine(p) + w] + RSplit(p, '\n')[1..]
  {
    RSplitPlain(w, '\n');
    RSplitAppend(p, w, '\n');
  }

  /** What a frame means does not depend on a foreign piece in an ignored line. */
  lemma FrameWithoutForeign(p: string, w: string, y: string)
    requires Foreign(w) && !Relevant(OpenLine(p))
    ensures var parts := RSplit(y, '\n');
            ParseFrame(p + w + y) == Fold(Fold(Fields([], []), RSplit(p, '\n')[1..]), parts[..|parts| - 1])
  {
    hide RSplit, AddLine, ParseFrame;
    var none := Fields([], []);
    var parts, before := RSplit(y, '\n'), RSplit(p, '\n')[1..];
    var first, seam := parts[..|parts| - 1], OpenLine(p) + w + parts[|parts| - 1];
    ForeignSplitsWhole(p, w);
    RSplitAppend(p + w, y, '\n');
    ParseFrameIsFold(p + w + y);
    assert RSplit(p + w + y, '\n') == first + ([seam] + before);
    FoldConcat(none, first, [seam] + before);
    assert ([seam] + before)[1..] == before;
    IgnoredLine(Fold(none, before), OpenLine(p), w, parts[|parts| - 1]);
  }

  lemma IgnoredCutIsInvisible(json: Json, p: string, w: string, w': string, y: string)
    requires FindBlank(p).None? && !Relevant(OpenLine(p)) && Foreign(w) && Foreign(w')
    ensures Take(json, p + w + y).0 == Take(json, p + w' + y).0
  {
    hide ParseFrame, Meaning, FindBlank, RSplit, Relevant, Foreign, Fold;
    BlankAfterForeign(p, w, y);
    BlankAfterForeign(p, w', y);
    if FindBlank(y).Some? {
      var i := FindBlank(y).value;
      assert (p + w + y)[..|p + w| + i] == p + w + y[..i];
      assert (p + w' + y)[..|p + w'| + i] == p + w' + y[..i];
      assert (p + w + y)[|p + w| + i + 2..] == y[i + 2..] == (p + w' + y)[|p + w'| + i + 2..];
      FrameWithoutForeign(p, w, y[..i]);
      FrameWithoutForeign(p, w', y[..i]);
    }
  }

  // ----- A boundary in a line that the reader uses

  lemma {:induction false} TrimStartKeeps(s: string, w: string)
    requires w != [] && !IsSpace(w[0])
    ensures TrimStart(s + w) == TrimStart(s) + w
  {
    if s == [] {
      assert s + w == w;
    } else if IsSpace(s[0]) {
      TrimStartKeeps(s[1..], w);
      assert (s + w)[1..] == s[1..] + w;
    }
  }

  /** Foreign text that `trim` leaves alone. */
  predicate Solid(w: string) {
    Foreign(w) && !IsSpace(w[0]) && !IsSpace(w[|w| - 1])
  }

  lemma OpenEvent(json: Json, p: string, w: string)
    requires FindBlank(p).None? && Solid(w) && "event:" <= OpenLine(p)
    ensures Take(json, p + w + "\n\n").0 == Fail(UnknownEvent(TrimStart(OpenLine(p)[6..]) + w))
  {
    hide RSplit, ParseFrame;
    var blank := "\n\n";
    assert FindBlank(blank) == Some(0);
    BlankAfterForeign(p, w, blank);
    assert (p + w + blank)[..|p + w|] == p + w;
    ParseFrameIsFold(p + w);
    ForeignSplitsWhole(p, w);
    var before := RSplit(p, '\n')[1..];
    assert ([OpenLine(p) + w] + before)[1..] == before;
    EventLineOpen(Fold(Fields([], []), before), OpenLine(p), w);
    var name := TrimStart(OpenLine(p)[6..]) + w;
    assert name[|name| - 1] == w[|w| - 1];
  }

  lemma EventLineOpen(f: Fields, line: string, w: string)
    requires Solid(w) && "event:" <= line
    ensures AddLine(f, line + w) == f.(name := TrimStart(line[6..]) + w)
  {
    var raw := line + w;
    assert raw[|raw| - 1] == w[|w| - 1];
    TrimEndKeeps(raw, '\r');
    assert raw[..6] == line[..6] && raw[6..] == line[6..] + w;
    TrimStartKeeps(line[6..], w);
    var name := TrimStart(line[6..]) + w;
    assert name[|name| - 1] == w[|w| - 1];
  }

  /** The data of the frame up to the open line. */
  function DataSoFar(p: string): string
    requires "data:" <= OpenLine(p)
  {
    var data := Fold(Fields([], []), RSplit(p, '\n')[1..]).data;
    (if data == [] then [] else data + "\n") + StripSpace(OpenLine(p)[5..])
  }

  lemma DataLineOpen(f: Fields, line: string, w: string)
    requires Foreign(w) && "data:" <= line
    ensures AddLine(f, line + w)
         == f.(data := (if f.data == [] then [] else f.data + "\n") + StripSpace(line[5..]) + w)
  {
    hide Trim, TrimEnd, StripSpace;
    var raw := line + w;
    assert raw[|raw| - 1] == w[|w| - 1];
    TrimEndKeeps(raw, '\r');
    assert raw[0] == line[0] == 'd';
    assert raw[..5] == line[..5] && raw[5..] == line[5..] + w;
    StripSpaceKeeps(line[5..], w);
    assert (if f.data == [] then [] else f.data + "\n") + (StripSpace(line[5..]) + w)
        == (if f.data == [] then [] else f.data + "\n") + StripSpace(line[5..]) + w;
  }

  lemma StripSpaceKeeps(s: string, w: string)
    requires w != [] && w[0] != ' '
    ensures StripSpace(s + w) == StripSpace(s) + w
  {
    if s == [] {
      assert s + w == w;
    } else {
      assert (s + w)[1..] == s[1..] + w;
    }
  }

  const PUNCH_LINE := "event: punch"

  lemma OpenData(p: string, w: string)
    requires FindBlank(p).None? && Foreign(w) && "data:" <= OpenLine(p)
    ensures Take(Refuse, p + w + ("\n" + PUNCH_LINE + "\n\n")).0 == Fail(BadPunchData(DataSoFar(p) + w))
  {
    hide RSplit, ParseFrame;
    var more := "\n" + PUNCH_LINE;
    PunchFrameEnds();
    BlankAfterForeign(p, w, more + "\n\n");
    assert p + w + (more + "\n\n") == p + w + more + "\n\n";
    assert (p + w + more + "\n\n")[..|p + w| + |more|] == p + w + more;
    PunchFrame(p, w);
  }

  lemma {:induction false} BlankAfterLine(line: string)
    requires line != [] && '\n' !in line
    ensures FindBlank(line + "\n\n") == Some(|line|)
  {
    if |line| > 1 {
      BlankAfterLine(line[1..]);
    }
    assert (line + "\n\n")[1..] == line[1..] + "\n\n";
    assert FindBlank("\n\n") == Some(0);
    assert [] + "\n\n" == "\n\n";
  }

  lemma PunchFrameEnds()
    ensures FindBlank("\n" + PUNCH_LINE + "\n\n") == Some(|PUNCH_LINE| + 1)
  {
    BlankAfterLine(PUNCH_LINE);
    assert ("\n" + PUNCH_LINE + "\n\n")[1..] == PUNCH_LINE + "\n\n";
  }

  lemma PunchFrame(p: string, w: string)
    requires Foreign(w) && "data:" <= OpenLine(p)
    ensures ParseFrame(p + w + ("\n" + PUNCH_LINE)) == Fields("punch", DataSoFar(p) + w)
  {
    hide RSplit, ParseFrame, AddLine;
    var before := RSplit(p, '\n')[1..];
    var none := Fields([], []);
    assert p + w + ("\n" + PUNCH_LINE) == p + w + ['\n'] + PUNCH_LINE;
    RSplitConcat(p + w, PUNCH_LINE, '\n');
    RSplitPlain(PUNCH_LINE, '\n');
    ForeignSplitsWhole(p, w);
    ParseFrameIsFold(p + w + ("\n" + PUNCH_LINE));
    var parts := [PUNCH_LINE] + ([OpenLine(p) + w] + before);
    assert parts[1..] == [OpenLine(p) + w] + before;
    assert ([OpenLine(p) + w] + before)[1..] == before;
    DataLineOpen(Fold(none, before), OpenLine(p), w);
    EventLine(Fold(none, parts[1..]), "punch");
    assert PUNCH_LINE == "event: " + "punch";
  }

  // ----- Chunks of bytes

  /** The text of a chunked stream, each chunk decoded on its own. */
  function StreamText(chunks: seq<seq<byte>>): string {
    Concat(Decoded(chunks))
  }

  /** What `poll_event` answers to a stream. */
  function Answer(json: Json, chunks: seq<seq<byte>>): Outcome {
    Poll(json, "", Decoded(chunks)).outcome
  }

  lemma AnswerIsFirstEvent(json: Json, chunks: seq<seq<byte>>)
    ensures var outcome := Take(json, StreamText(chunks)).0;
            Answer(json, chunks) == if outcome.NoEvent? then Fail(StreamClosed) else outcome
  {
    hide Take, Poll, Concat;
    EmptyBufferSettled(json);
    PollIsTakeOfJoined(json, "", Decoded(chunks));
    assert "" + Concat(Decoded(chunks)) == Concat(Decoded(chunks));
  }

  lemma {:induction false} StreamTextConcat(a: seq<seq<byte>>, b: seq<seq<byte>>)
    ensures StreamText(a + b) == StreamText(a) + StreamText(b)
  {
    hide Utf8.Lossy;
    if a == [] {
      assert a + b == b;
    } else {
      StreamTextConcat(a[1..], b);
      assert (a + b)[1..] == a[1..] + b;
      assert Decoded(a + b)[1..] == Decoded((a + b)[1..]) && Decoded(a)[1..] == Decoded(a[1..]);
    }
  }

  lemma OneChunkText(a: seq<byte>)
    ensures StreamText([a]) == Utf8.Lossy(a)
  {
    hide Utf8.Lossy;
    assert Decoded([a]) == [Utf8.Lossy(a)];
    assert [Utf8.Lossy(a)][1..] == [];
    assert Utf8.Lossy(a) + Concat([]) == Utf8.Lossy(a);
  }

  lemma ChunkText(before: seq<seq<byte>>, a: seq<byte>, after: seq<seq<byte>>)
    ensures StreamText(before + [a] + after) == StreamText(before) + Utf8.Lossy(a) + StreamText(after)
  {
    hide StreamText, Utf8.Lossy;
    StreamTextConcat(before + [a], after);
    StreamTextConcat(before, [a]);
    OneChunkText(a);
  }

  lemma TwoChunkText(before: seq<seq<byte>>, a: seq<byte>, b: seq<byte>, after: seq<seq<byte>>)
    ensures StreamText(before + [a, b] + after)
         == StreamText(before) + Utf8.Lossy(a) + Utf8.Lossy(b) + StreamText(after)
  {
    hide StreamText, Utf8.Lossy;
    assert before + [a, b] == before + [a] + [b];
    ChunkText(before + [a], b, after);
    StreamTextConcat(before, [a]);
    OneChunkText(a);
  }

  // ----- The theorem

  /** It makes no difference whether `a` and `b` arrive as two chunks or as one. */
  ghost predicate SameAnswer(json: Json, before: seq<seq<byte>>, a: seq<byte>, b: seq<byte>, after: seq<seq<byte>>) {
    Answer(json, before + [a, b] + after) == Answer(json, before + [a + b] + after)
  }

  /** No continuation and no parser can tell that the stream was cut after `a`. */
  ghost predicate HarmlessCut(before: seq<seq<byte>>, a: seq<byte>) {
    forall json, b, after :: SameAnswer(json, before, a, b, after)
  }

  /** The stream so far decides an event, or it leaves open a line that is neither an event
      name nor data. */
  predicate Idle(text: string) {
    Decided(text) || !Relevant(OpenLine(Left(text)))
  }

  /** A replacement character at the end neither decides nor opens anything. */
  lemma ReplacementAtEnd(text: string)
    ensures Decided(text + [Utf8.REPLACEMENT]) == Decided(text)
    ensures !Decided(text) ==> FindBlank(Left(text)).None?
    ensures Idle(text + [Utf8.REPLACEMENT]) == Idle(text)
  {
    hide Take, RSplit;
    var r := [Utf8.REPLACEMENT];
    TakeThenMore(Refuse, text, r);
    UndecidedForAll(Refuse, text);
    if !Decided(text) {
      var p := Left(text);
      BlankAfterForeign(p, r, []);
      assert p + r + [] == p + r;
      assert Take(Refuse, p + r) == (NoEvent, p + r) by {
        TakeOfOpen(Refuse, p + r);
      }
      ForeignSplitsWhole(p, r);
      RelevantBeforeForeign(OpenLine(p), r);
    }
  }

  lemma TakeOfOpen(json: Json, text: string)
    requires FindBlank(text).None?
    ensures Take(json, text) == (NoEvent, text)
  {
  }

  lemma RelevantBeforeForeign(line: string, w: string)
    requires Foreign(w)
    ensures Relevant(line + w) == Relevant(line)
  {
    assert line + w + [] == line + w;
    if "event:" <= line + w {
      PrefixBeforeForeign("event:", line, w, []);
    }
    if "data:" <= line + w {
      PrefixBeforeForeign("data:", line, w, []);
    }
  }

  /** Both ways to read a stream that is cut inside a character, as text around the cut. */
  lemma TextsAroundCut(before: seq<seq<byte>>, a: seq<byte>, b: seq<byte>, after: seq<seq<byte>>)
    returns (apart: string, together: string, y: string)
    requires !Utf8.Complete(a)
    ensures Foreign(apart) && Foreign(together)
    ensures var x := StreamText(before) + Utf8.CutHead(a);
            && StreamText(before + [a]) == x + [Utf8.REPLACEMENT]
            && StreamText(before + [a, b] + after) == x + (apart + y)
            && StreamText(before + [a + b] + after) == x + (together + y)
  {
    hide StreamText, Utf8.Lossy, Utf8.CutHead, Utf8.CutTail, Utf8.UnitChar, Utf8.Complete, Utf8.FirstUnit;
    var tail, r := Utf8.CutTail(a), [Utf8.REPLACEMENT];
    var pre, post := StreamText(before), StreamText(after);
    Utf8.CutSplits(a, []);
    Utf8.CutSplits(a, b);
    assert a + [] == a && tail + [] == tail;
    Utf8.CutDecodesToReplacement(tail);
    var n := Utf8.CutDecodes(tail, b);
    apart := r + Utf8.Replacements(n);
    together := [Utf8.UnitChar(tail + b)];
    y := Utf8.Lossy(b[n..]) + post;
    StreamTextConcat(before, [a]);
    OneChunkText(a);
    TwoChunkText(before, a, b, after);
    ChunkText(before, a + b, after);
    SeamsAgree(pre, Utf8.CutHead(a), r, Utf8.Replacements(n), Utf8.Lossy(b[n..]), post);
    SeamsAgree(pre, Utf8.CutHead(a), together, [], Utf8.Lossy(b[n..]), post);
  }

  lemma SeamsAgree(pre: string, head: string, v: string, w: string, z: string, post: string)
    ensures pre + (head + v) + (w + z) + post == pre + head + (v + w + (z + post))
    ensures w == [] ==> pre + (head + (v + z)) + post == pre + head + (v + (z + post))
    ensures pre + (head + v) == pre + head + v
  {
  }

  lemma IdleCutIsHarmless(json: Json, before: seq<seq<byte>>, a: seq<byte>, b: seq<byte>, after: seq<seq<byte>>)
    requires Utf8.Complete(a) || Idle(StreamText(before + [a]))
    ensures SameAnswer(json, before, a, b, after)
  {
    hide StreamText, Answer, Take, Utf8.Lossy, Utf8.Complete, Utf8.CutHead, Decided, Left, Relevant, OpenLine, Foreign;
    AnswerIsFirstEvent(json, before + [a, b] + after);
    AnswerIsFirstEvent(json, before + [a + b] + after);
    if Utf8.Complete(a) {
      TwoChunkText(before, a, b, after);
      ChunkText(before, a + b, after);
      Utf8.LossyConcat(a, b);
      var pre := StreamText(before);
      assert pre + Utf8.Lossy(a) + Utf8.Lossy(b) == pre + (Utf8.Lossy(a) + Utf8.Lossy(b));
    } else {
      var apart, together, y := TextsAroundCut(before, a, b, after);
      var x := StreamText(before) + Utf8.CutHead(a);
      ReplacementAtEnd(x);
      if Decided(x) {
        UndecidedForAll(json, x);
        TakeThenMore(json, x, apart + y);
        TakeThenMore(json, x, together + y);
      } else {
        var p := Left(x);
        TakeAfterLeft(json, x, apart + y);
        TakeAfterLeft(json, x, together + y);
        assert p + (apart + y) == p + apart + y && p + (together + y) == p + together + y;
        IgnoredCutIsInvisible(json, p, apart, together, y);
      }
    }
  }

  lemma SolidPieces(n: nat, c: char)
    requires c >= '\U{80}' && c as int % 64 == 63
    ensures Solid([Utf8.REPLACEMENT] + Utf8.Replacements(n)) && Solid([c])
  {
  }

  /** A cut in a line that counts, completed and followed by `more`: as text on both sides. */
  lemma CompletedCut(before: seq<seq<byte>>, a: seq<byte>, more: string)
    returns (b: seq<byte>, apart: string, together: string)
    requires !Utf8.Complete(a)
    ensures Solid(apart) && Solid(together) && |apart| > |together|
    ensures var x := StreamText(before) + Utf8.CutHead(a);
            && StreamText(before + [a]) == x + [Utf8.REPLACEMENT]
            && StreamText(before + [a, b] + []) == x + (apart + more)
            && StreamText(before + [a + b] + []) == x + (together + more)
  {
    hide StreamText, Utf8.Lossy, Utf8.CutHead, Utf8.CutTail, Utf8.UnitChar, Utf8.Complete, Utf8.FirstUnit, Solid;
    var tail, r := Utf8.CutTail(a), [Utf8.REPLACEMENT];
    var pre := StreamText(before);
    var t := Utf8.CutCompletion(tail);
    b := t + Utf8.EncodeText(more);
    Utf8.TextRoundTrip(more);
    apart := r + Utf8.Replacements(|t|);
    together := [Utf8.UnitChar(tail + t)];
    SolidPieces(|t|, Utf8.UnitChar(tail + t));
    Utf8.CutSplits(a, []);
    Utf8.CutSplits(a, b);
    assert a + [] == a && tail + [] == tail;
    Utf8.CutDecodesToReplacement(tail);
    StreamTextConcat(before, [a]);
    OneChunkText(a);
    TwoChunkText(before, a, b, []);
    ChunkText(before, a + b, []);
    assert StreamText([]) == [] by {
      NoChunksText();
    }
    assert more + [] == more;
    SeamsAgree(pre, Utf8.CutHead(a), r, Utf8.Replacements(|t|), more, []);
    SeamsAgree(pre, Utf8.CutHead(a), together, [], more, []);
  }

  lemma NoChunksText()
    ensures StreamText([]) == []
  {
  }

  /** A cut in the name of an event changes the reported name. */
  lemma EventCutShows(json: Json, before: seq<seq<byte>>, a: seq<byte>) returns (b: seq<byte>)
    requires !Utf8.Complete(a) && !Decided(StreamText(before + [a]))
    requires "event:" <= OpenLine(Left(StreamText(before) + Utf8.CutHead(a)))
    ensures !SameAnswer(json, before, a, b, [])
  {
    hide StreamText, Answer, Take, Utf8.Complete, Utf8.CutHead, Decided, Left, OpenLine, Solid, TrimStart;
    var apart, together;
    b, apart, together := CompletedCut(before, a, "\n\n");
    var x := StreamText(before) + Utf8.CutHead(a);
    ReplacementAtEnd(x);
    var p := Left(x);
    TakeAfterLeft(json, x, apart + "\n\n");
    TakeAfterLeft(json, x, together + "\n\n");
    assert p + (apart + "\n\n") == p + apart + "\n\n" && p + (together + "\n\n") == p + together + "\n\n";
    OpenEvent(json, p, apart);
    OpenEvent(json, p, together);
    AnswerIsFirstEvent(json, before + [a, b] + []);
    AnswerIsFirstEvent(json, before + [a + b] + []);
    var name := TrimStart(OpenLine(p)[6..]);
    assert |name + apart| != |name + together|;
  }

  /** A cut in the data changes the data. */
  lemma DataCutShows(before: seq<seq<byte>>, a: seq<byte>) returns (b: seq<byte>)
    requires !Utf8.Complete(a) && !Decided(StreamText(before + [a]))
    requires "data:" <= OpenLine(Left(StreamText(before) + Utf8.CutHead(a)))
    ensures !SameAnswer(Refuse, before, a, b, [])
  {
    hide StreamText, Answer, Take, Utf8.Complete, Utf8.CutHead, Decided, Left, OpenLine, DataSoFar;
    var apart, together;
    var more := "\n" + PUNCH_LINE + "\n\n";
    b, apart, together := CompletedCut(before, a, more);
    var x := StreamText(before) + Utf8.CutHead(a);
    ReplacementAtEnd(x);
    var p := Left(x);
    TakeAfterLeft(Refuse, x, apart + more);
    TakeAfterLeft(Refuse, x, together + more);
    assert p + (apart + more) == p + apart + more && p + (together + more) == p + together + more;
    OpenData(p, apart);
    OpenData(p, together);
    AnswerIsFirstEvent(Refuse, before + [a, b] + []);
    AnswerIsFirstEvent(Refuse, before + [a + b] + []);
    assert |DataSoFar(p) + apart| != |DataSoFar(p) + together|;
  }

  /** A chunk boundary is invisible to every continuation and every parser exactly when it lies
      between characters, or comes after an event, or lies in a line that the reader ignores. */
  lemma HarmlessCutIff(before: seq<seq<byte>>, a: seq<byte>)
    ensures HarmlessCut(before, a) <==> Utf8.Complete(a) || Idle(StreamText(before + [a]))
  {
    hide StreamText, Answer, Utf8.Complete, Utf8.CutHead, Decided, Left, OpenLine, SameAnswer, Take, Foreign;
    if Utf8.Complete(a) || Idle(StreamText(before + [a])) {
      forall json, b, after
        ensures SameAnswer(json, before, a, b, after)
      {
        IdleCutIsHarmless(json, before, a, b, after);
      }
    } else {
      var x := StreamText(before) + Utf8.CutHead(a);
      var _, _, _ := TextsAroundCut(before, a, [], []);
      ReplacementAtEnd(x);
      if "event:" <= OpenLine(Left(x)) {
        var b := EventCutShows(Refuse, before, a);
      } else {
        var b := DataCutShows(before, a);
      }
    }
  }

  // ----- Encoded text

  function EncodedChunks(texts: seq<string>): seq<seq<byte>> {
    if texts == [] then [] else [Utf8.EncodeText(texts[0])] + EncodedChunks(texts[1..])
  }

  lemma {:induction false} EncodedChunksDecode(texts: seq<string>)
    ensures Decoded(EncodedChunks(texts)) == texts
  {
    hide Utf8.Lossy, Utf8.EncodeText;
    if texts != [] {
      EncodedChunksDecode(texts[1..]);
      Utf8.TextRoundTrip(texts[0]);
      var chunks := EncodedChunks(texts);
      assert chunks[1..] == EncodedChunks(texts[1..]);
      assert texts == [texts[0]] + texts[1..];
    }
  }

  /** Text that is encoded chunk by chunk is answered as the whole text. */
  lemma EncodedTextPolls(json: Json, texts: seq<string>)
    ensures var outcome := Take(json, Concat(texts)).0;
            Answer(json, EncodedChunks(texts)) == if outcome.NoEvent? then Fail(StreamClosed) else outcome
  {
    hide Take, Answer, Concat;
    EncodedChunksDecode(texts);
    AnswerIsFirstEvent(json, EncodedChunks(texts));
  }

  /** A frame as servers write it, behind comments, encoded and cut between characters in any way,
      is answered with its event. */
  lemma WrittenFrameFromBytes(json: Json, skipped: seq<seq<string>>, name: string, lines: seq<string>,
                              rest: string, texts: seq<string>)
    requires forall k :: 0 <= k < |skipped| ==> Nameless(skipped[k])
    requires PlainName(name) && forall i :: 0 <= i < |lines| ==> PlainLine(lines[i])
    requires Concat(texts) == Frames(skipped) + (Join(FrameLines(name, lines), '\n') + "\n\n" + rest)
    ensures ReadAs(json, name, Payload(lines), Answer(json, EncodedChunks(texts)))
  {
    hide Poll, Join, Concat, PlainName, PlainLine, Payload, FrameLines, Frames, ReadAs, Nameless;
    EncodedChunksDecode(texts);
    WrittenFramePolls(json, skipped, name, lines, rest, texts);
  }

  // ----- One cut

  const BEFORE_CUT := "event: punch\ndata: "

  lemma {:induction false} NoBlankInLine(s: string)
    requires '\n' !in s
    ensures FindBlank(s).None?
  {
    if s != [] {
      NoBlankInLine(s[1..]);
    }
  }

  lemma {:induction false} NoBlankInTwoLines(s: string, t: string)
    requires s != [] && '\n' !in s && '\n' !in t
    ensures FindBlank(s + "\n" + t).None?
  {
    var all := s + "\n" + t;
    if |s| == 1 {
      NoBlankInLine(t);
      assert all[1..][1..] == t;
    } else {
      NoBlankInTwoLines(s[1..], t);
      assert all[1..] == s[1..] + "\n" + t;
    }
  }

  lemma PunchDataFrame(w: string)
    requires Foreign(w)
    ensures ParseFrame(BEFORE_CUT + w) == Fields("punch", w)
  {
    hide ParseFrame, IsSpace;
    var data := "data: " + w;
    assert !IsSpace('p') && !IsSpace('h') by {
      SpaceExamples();
    }
    assert Join([w], '\n') == w;
    FrameRoundTrip("punch", [w]);
    assert DataLines([w]) == [data];
    assert [PUNCH_LINE, data][1..] == [data];
    assert "event: " + "punch" == PUNCH_LINE;
    assert FrameLines("punch", [w]) == [PUNCH_LINE, data];
    assert BEFORE_CUT + w == PUNCH_LINE + ['\n'] + data;
  }

  lemma SpaceExamples()
    ensures !IsSpace('p') && !IsSpace('h')
  {
  }

  lemma BeforeCutIsOpen()
    ensures FindBlank(BEFORE_CUT).None?
  {
    assert BEFORE_CUT == PUNCH_LINE + "\n" + "data: ";
    NoBlankInTwoLines(PUNCH_LINE, "data: ");
  }

  lemma TakeFrame(json: Json, p: string, w: string)
    requires FindBlank(p).None? && Foreign(w) && !Meaning(json, ParseFrame(p + w)).NoEvent?
    ensures Take(json, p + w + "\n\n").0 == Meaning(json, ParseFrame(p + w))
  {
    hide ParseFrame, Meaning;
    assert FindBlank("\n\n") == Some(0);
    BlankAfterForeign(p, w, "\n\n");
    assert (p + w + "\n\n")[..|p + w|] == p + w;
  }

  lemma PunchWithData(w: string)
    requires Foreign(w)
    ensures Take(Refuse, BEFORE_CUT + w + "\n\n").0 == Fail(BadPunchData(w))
  {
    hide ParseFrame, Take, FindBlank;
    PunchDataFrame(w);
    BeforeCutIsOpen();
    TakeFrame(Refuse, BEFORE_CUT, w);
  }

  lemma CutCharacter(end: seq<byte>)
    ensures Utf8.Lossy([0xC3]) == "\U{FFFD}"
    ensures Utf8.Lossy([0xA9] + end) == "\U{FFFD}" + Utf8.Lossy(end)
    ensures Utf8.Lossy([0xC3, 0xA9] + end) == "\U{E9}" + Utf8.Lossy(end)
  {
    var whole := [0xC3, 0xA9] + end;
    assert Utf8.Fitting(whole, 1);
    assert Utf8.FirstUnit(whole) == Utf8.Whole(2);
    assert whole[2..] == end && ([0xA9] + end)[1..] == end;
    Utf8.CutDecodesToReplacement([0xC3]);
  }

  lemma CutCharacterTexts(head: string, end: string)
    ensures var a, b := Utf8.EncodeText(head) + [0xC3], [0xA9] + Utf8.EncodeText(end);
            && StreamText([a + b]) == head + "\U{E9}" + end
            && StreamText([a, b]) == head + "\U{FFFD}\U{FFFD}" + end
  {
    hide StreamText, Utf8.EncodeText, Utf8.Lossy, Utf8.Complete, Utf8.Valid;
    var front, back := Utf8.EncodeText(head), Utf8.EncodeText(end);
    var a, b := front + [0xC3], [0xA9] + back;
    Utf8.TextRoundTrip(head);
    Utf8.TextRoundTrip(end);
    CutCharacter(back);
    Utf8.LossyConcat(front, [0xC3]);
    Utf8.LossyConcat(front, [0xC3, 0xA9] + back);
    assert a + b == front + ([0xC3, 0xA9] + back);
    OneChunkText(a + b);
    StreamTextConcat([a], [b]);
    OneChunkText(a);
    OneChunkText(b);
    assert [a] + [b] == [a, b];
    assert head + ("\U{E9}" + end) == head + "\U{E9}" + end;
    assert head + "\U{FFFD}" + ("\U{FFFD}" + end) == head + "\U{FFFD}\U{FFFD}" + end;
  }

  /** A punch whose data is the character U+00E9: sent as one chunk it is read as sent, cut
      between the two bytes of the character it is read as two replacement characters. */
  lemma CutInsideDataShows()
    ensures var a, b := Utf8.EncodeText(BEFORE_CUT) + [0xC3], [0xA9] + Utf8.EncodeText("\n\n");
            && Answer(Refuse, [a + b]) == Fail(BadPunchData("\U{E9}"))
            && Answer(Refuse, [a, b]) == Fail(BadPunchData("\U{FFFD}\U{FFFD}"))
  {
    hide Answer, Take, StreamText, Utf8.EncodeText;
    var a, b := Utf8.EncodeText(BEFORE_CUT) + [0xC3], [0xA9] + Utf8.EncodeText("\n\n");
    CutCharacterTexts(BEFORE_CUT, "\n\n");
    AnswerIsFirstEvent(Refuse, [a + b]);
    AnswerIsFirstEvent(Refuse, [a, b]);
    PunchWithData("\U{E9}");
    PunchWithData("\U{FFFD}\U{FFFD}");
  }
}
