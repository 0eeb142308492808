/** The server-sent-events writer of bridge/sse.go and what a client reads from it. */
module Sse {
  import opened Wrappers
  import opened Text
  import opened EventStream

  /** One call of a writer method; id and name may be empty. */
  datatype Frame =
    | EventFrame(id: string, name: string, data: string)
    | CommentFrame(text: string)
    | RetryFrame(ms: int)

  // ---- printing ----

  function Digit(d: nat): char
    requires d < 10
  {
    '0' + d as char
  }

  /** %d for a non-negative number. */
  function Digits(n: nat): (s: string)
    ensures s != ""
  {
    if n < 10 then [Digit(n)] else Digits(n / 10) + [Digit(n % 10)]
  }

  function Decimal(n: int): string {
    if n < 0 then "-" + Digits(-n) else Digits(n)
  }

  /** strings.ReplaceAll(s, "\r\n", "\n"). */
  function CrlfToLf(s: string): string {
    if s == [] then []
    else if |s| >= 2 && s[0] == '\r' && s[1] == '\n' then ['\n'] + CrlfToLf(s[2..])
    else [s[0]] + CrlfToLf(s[1..])
  }

  /** strings.TrimSuffix(s, "\n"). */
  function DropFinalLf(s: string): string {
    if s != [] && s[|s| - 1] == '\n' then s[..|s| - 1] else s
  }

  /** What a reader of the event gets as data. */
  function Delivered(data: string): string {
    DropFinalLf(CrlfToLf(data))
  }

  function SplitLines(s: string): seq<string> {
    var t := Delivered(s);
    if t == "" then [""] else Split(t, '\n')
  }

  function DataLines(lines: seq<string>): string {
    if lines == [] then "" else "data: " + lines[0] + "\n" + DataLines(lines[1..])
  }

  function Line(field: string, value: string): string {
    if value == "" then "" else field + ": " + value + "\n"
  }

  function FrameText(f: Frame): string {
    match f
    case EventFrame(id, name, data) => Line("id", id) + Line("event", name) + DataLines(SplitLines(data)) + "\n"
    case CommentFrame(text) => ": " + text + "\n\n"
    case RetryFrame(ms) => "retry: " + Decimal(ms) + "\n\n"
  }

  /** The loop over the lines of an event. */
  method AppendData(head: string, lines: seq<string>) returns (b: string)
    ensures b == head + DataLines(lines)
  {
    b := head;
    for i := 0 to |lines|
      invariant b + DataLines(lines[i..]) == head + DataLines(lines)
    {
      assert lines[i..][1..] == lines[i + 1..];
      var line := "data: " + lines[i] + "\n";
      assert (b + line) + DataLines(lines[i + 1..]) == b + (line + DataLines(lines[i + 1..]));
      b := b + line;
    }
  }

  class SseWriter {
    /** Everything written to the response so far. */
    var out: string

    constructor ()
      ensures out == ""
    {
      out := "";
    }

    method EventWithID(id: string, name: string, data: string)
      modifies this
      ensures out == old(out) + FrameText(EventFrame(id, name, data))
    {
      var b := "";
      if id != "" {
        b := b + ("id: " + id + "\n");
      }
      if name != "" {
        b := b + ("event: " + name + "\n");
      }
      assert b == Line("id", id) + Line("event", name);
      var lines := SplitLines(data);
      b := AppendData(b, lines);
      out := out + (b + "\n");
    }

    method Event(name: string, data: string)
      modifies this
      ensures out == old(out) + FrameText(EventFrame("", name, data))
    {
      EventWithID("", name, data);
    }

    method Comment(line: string)
      modifies this
      ensures out == old(out) + FrameText(CommentFrame(line))
    {
      out := out + (": " + line + "\n\n");
    }

    method Retry(ms: int)
      modifies this
      ensures out == old(out) + FrameText(RetryFrame(ms))
    {
      out := out + ("retry: " + Decimal(ms) + "\n\n");
    }
  }

  // ---- what a client makes of a frame ----

  /** Between events: nothing buffered. */
  predicate AtRest(c: Client) {
    c.data == "" && c.eventType == "" && c.lastEventId == c.idBuffer
  }

  function Deliver(c: Client, f: Frame): Client {
    match f
    case EventFrame(id, name, data) =>
      var lastId := if id == "" then c.idBuffer else id;
      c.(idBuffer := lastId, lastEventId := lastId,
         events := c.events + [Event(if name == "" then "message" else name, Delivered(data), lastId)])
    case CommentFrame(_) => c
    case RetryFrame(ms) => if ms < 0 then c else c.(retry := Some(ms))
  }

  function DeliverAll(c: Client, frames: seq<Frame>): Client
    decreases frames
  {
    if frames == [] then c else DeliverAll(Deliver(c, frames[0]), frames[1..])
  }

  /** Every CR is the first half of a CR LF. */
  predicate NoLoneCr(s: string) {
    forall i :: 0 <= i < |s| && s[i] == '\r' ==> i + 1 < |s| && s[i + 1] == '\n'
  }

  /** Arguments that cannot break out of their line. */
  predicate Writable(f: Frame) {
    match f
    case EventFrame(id, name, data) => OneLine(id) && '\0' !in id && OneLine(name) && NoLoneCr(data)
    case CommentFrame(text) => OneLine(text)
    case RetryFrame(_) => true
  }

  lemma {:induction false} CrlfToLfHasNoCr(s: string)
    requires NoLoneCr(s)
    ensures '\r' !in CrlfToLf(s)
  {
    if s != [] {
      if |s| >= 2 && s[0] == '\r' && s[1] == '\n' {
        TailNoLoneCr(s, 2);
        CrlfToLfHasNoCr(s[2..]);
      } else {
        TailNoLoneCr(s, 1);
        CrlfToLfHasNoCr(s[1..]);
      }
    }
  }

  lemma TailNoLoneCr(s: string, n: nat)
    requires n <= |s| && NoLoneCr(s)
    ensures NoLoneCr(s[n..])
  {
    var t := s[n..];
    forall i | 0 <= i < |t| && t[i] == '\r'
      ensures i + 1 < |t| && t[i + 1] == '\n'
    {
      assert s[n + i] == '\r';
    }
  }

  lemma SplitLinesAreLines(data: string)
    requires NoLoneCr(data)
    ensures forall i :: 0 <= i < |SplitLines(data)| ==> OneLine(SplitLines(data)[i])
    ensures Join(SplitLines(data), "\n") == Delivered(data)
  {
    CrlfToLfHasNoCr(data);
    var t := Delivered(data);
    if t != "" {
      JoinSplit(t, '\n');
      SplitKeepsOut(t, '\n', '\r');
    }
  }

  lemma {:induction false} SplitKeepsOut(s: string, sep: char, c: char)
    requires c !in s
    ensures forall i :: 0 <= i < |Split(s, sep)| ==> c !in Split(s, sep)[i]
  {
    if s != [] {
      SplitKeepsOut(s[1..], sep, c);
      assert s[0] != c;
    }
  }

  lemma FeedField(c: Client, field: string, value: string, rest: string)
    requires field in {"id", "event", "data", "retry"} && OneLine(value)
    ensures Feed(c, field + ": " + value + "\n" + rest) == Feed(ProcessField(c, field, value), rest)
  {
    FeedLine(c, field + ": " + value, rest);
    FieldLine(c, field, value);
  }

  lemma FirstDataLine(lines: seq<string>, rest: string)
    requires |lines| > 0
    ensures DataLines(lines) + rest == "data" + ": " + lines[0] + "\n" + (DataLines(lines[1..]) + rest)
  {
    assert "data" + ": " == "data: ";
    var line := "data: " + lines[0] + "\n";
    Assoc(line, DataLines(lines[1..]), rest);
  }

  lemma BufferedLines(data: string, lines: seq<string>)
    requires |lines| > 1
    ensures (data + lines[0] + "\n") + Join(lines[1..], "\n") + "\n" == data + Join(lines, "\n") + "\n"
  {
  }

  lemma RetryText(ms: int, rest: string)
    ensures FrameText(RetryFrame(ms)) + rest == "retry" + ": " + Decimal(ms) + "\n" + ("\n" + rest)
  {
    assert "retry" + ": " == "retry: ";
    assert "\n\n" + rest == "\n" + ("\n" + rest);
    var line := "retry: " + Decimal(ms);
    assert (line + "\n\n") + rest == line + ("\n\n" + rest);
  }

  /** Data lines accumulate, each with its LF, in the client's buffer. */
  lemma {:induction false} FeedDataLines(c: Client, lines: seq<string>, rest: string)
    requires forall i :: 0 <= i < |lines| ==> OneLine(lines[i])
    requires |lines| > 0
    ensures Feed(c, DataLines(lines) + rest) == Feed(c.(data := c.data + Join(lines, "\n") + "\n"), rest)
    decreases lines
  {
    var more := DataLines(lines[1..]) + rest;
    FirstDataLine(lines, rest);
    FeedField(c, "data", lines[0], more);
    var c' := c.(data := c.data + lines[0] + "\n");
    if |lines| == 1 {
      assert more == rest;
      assert Join(lines, "\n") == lines[0];
    } else {
      FeedDataLines(c', lines[1..], rest);
      BufferedLines(c.data, lines);
    }
  }

  lemma FeedOptionalLine(c: Client, field: string, value: string, rest: string)
    requires field in {"id", "event"} && OneLine(value)
    ensures Feed(c, Line(field, value) + rest) == Feed(if value == "" then c else ProcessField(c, field, value), rest)
  {
    if value == "" {
      assert "" + rest == rest;
    } else {
      FeedField(c, field, value, rest);
    }
  }

  lemma FeedBlankLine(c: Client, rest: string)
    ensures Feed(c, "\n" + rest) == Feed(Dispatch(c), rest)
  {
    FeedLine(c, "", rest);
    assert "" + "\n" + rest == "\n" + rest;
  }

  lemma FeedBlankAtRest(c: Client, rest: string)
    requires AtRest(c)
    ensures Feed(c, "\n" + rest) == Feed(c, rest)
  {
    FeedBlankLine(c, rest);
    assert Dispatch(c) == c;
  }

  lemma EventText(a: string, b: string, c: string, rest: string)
    ensures (a + b + c + "\n") + rest == a + (b + (c + ("\n" + rest)))
  {
    Assoc(a + b + c, "\n", rest);
    Assoc(a + b, c, "\n" + rest);
    Assoc(a, b, c + ("\n" + rest));
  }

  lemma EventFrameParses(c: Client, id: string, name: string, data: string, rest: string)
    requires AtRest(c) && Writable(EventFrame(id, name, data))
    ensures Feed(c, FrameText(EventFrame(id, name, data)) + rest) == Feed(Deliver(c, EventFrame(id, name, data)), rest)
  {
    var lines := SplitLines(data);
    SplitLinesAreLines(data);
    var tail3 := "\n" + rest;
    var tail2 := DataLines(lines) + tail3;
    var tail1 := Line("event", name) + tail2;
    EventText(Line("id", id), Line("event", name), DataLines(lines), rest);
    FeedOptionalLine(c, "id", id, tail1);
    var c1 := if id == "" then c else c.(idBuffer := id);
    FeedOptionalLine(c1, "event", name, tail2);
    var c2 := if name == "" then c1 else c1.(eventType := name);
    FeedDataLines(c2, lines, tail3);
    var c3 := c2.(data := Delivered(data) + "\n");
    assert c2.data + Join(lines, "\n") + "\n" == Delivered(data) + "\n";
    FeedBlankLine(c3, rest);
    DispatchDelivers(c, id, name, data);
  }

  lemma DispatchDelivers(c: Client, id: string, name: string, data: string)
    requires AtRest(c)
    ensures var c1 := if id == "" then c else c.(idBuffer := id);
            var c2 := if name == "" then c1 else c1.(eventType := name);
            Dispatch(c2.(data := Delivered(data) + "\n")) == Deliver(c, EventFrame(id, name, data))
  {
    assert (Delivered(data) + "\n")[..|Delivered(data)|] == Delivered(data);
  }

  // ---- numbers ----

  lemma DigitsStep(s: string, d: nat)
    requires AllDigits(s) && d < 10
    ensures AllDigits(s + [Digit(d)]) && ParseDigits(s + [Digit(d)]) == 10 * ParseDigits(s) + d
  {
    var t := s + [Digit(d)];
    assert t[..|t| - 1] == s;
  }

  lemma {:induction false} DigitsParse(n: nat)
    ensures AllDigits(Digits(n)) && ParseDigits(Digits(n)) == n
  {
    if n < 10 {
      DigitsStep("", n);
      assert "" + [Digit(n)] == [Digit(n)];
    } else {
      DigitsParse(n / 10);
      DigitsStep(Digits(n / 10), n % 10);
    }
  }

  lemma DecimalParses(n: int)
    ensures OneLine(Decimal(n)) && Decimal(n) != ""
    ensures n >= 0 ==> AllDigits(Decimal(n)) && ParseDigits(Decimal(n)) == n
    ensures n < 0 ==> !AllDigits(Decimal(n))
  {
    var m := if n < 0 then -n else n;
    DigitsParse(m);
    var s := Digits(m);
    assert forall i :: 0 <= i < |s| ==> IsDigit(s[i]);
    if n < 0 { assert Decimal(n)[0] == '-'; }
  }

  lemma RetryField(c: Client, ms: int)
    ensures ProcessField(c, "retry", Decimal(ms)) == Deliver(c, RetryFrame(ms))
  {
    DecimalParses(ms);
  }

  lemma RetryFrameParses(c: Client, ms: int, rest: string)
    requires AtRest(c)
    ensures Feed(c, FrameText(RetryFrame(ms)) + rest) == Feed(Deliver(c, RetryFrame(ms)), rest)
  {
    DecimalParses(ms);
    RetryText(ms, rest);
    FeedField(c, "retry", Decimal(ms), "\n" + rest);
    RetryField(c, ms);
    FeedBlankAtRest(Deliver(c, RetryFrame(ms)), rest);
  }

  lemma CommentFrameParses(c: Client, text: string, rest: string)
    requires AtRest(c) && OneLine(text)
    ensures Feed(c, FrameText(CommentFrame(text)) + rest) == Feed(c, rest)
  {
    var line := ": " + text;
    assert FrameText(CommentFrame(text)) + rest == line + "\n" + ("\n" + rest);
    FeedLine(c, line, "\n" + rest);
    assert ProcessLine(c, line) == c;
    FeedBlankAtRest(c, rest);
  }

  // ---- whole streams ----

  lemma FrameParses(c: Client, f: Frame, rest: string)
    requires AtRest(c) && Writable(f)
    ensures Feed(c, FrameText(f) + rest) == Feed(Deliver(c, f), rest)
    ensures AtRest(Deliver(c, f))
  {
    match f
    case EventFrame(id, name, data) => EventFrameParses(c, id, name, data, rest);
    case CommentFrame(text) => CommentFrameParses(c, text, rest);
    case RetryFrame(ms) => RetryFrameParses(c, ms, rest);
  }

  function StreamText(frames: seq<Frame>): string {
    if frames == [] then "" else FrameText(frames[0]) + StreamText(frames[1..])
  }

  lemma {:induction false} FramesParse(c: Client, frames: seq<Frame>, rest: string)
    requires AtRest(c) && forall f :: f in frames ==> Writable(f)
    ensures Feed(c, StreamText(frames) + rest) == Feed(DeliverAll(c, frames), rest)
    ensures AtRest(DeliverAll(c, frames))
    decreases frames
  {
    if frames == [] {
      assert "" + rest == rest;
    } else {
      assert frames[0] in frames;
      Assoc(FrameText(frames[0]), StreamText(frames[1..]), rest);
      FrameParses(c, frames[0], StreamText(frames[1..]) + rest);
      FramesParse(Deliver(c, frames[0]), frames[1..], rest);
    }
  }

  /** Whole frames, in any number and order, read back as exactly the events written. */
  lemma StreamRoundTrip(frames: seq<Frame>)
    requires forall f :: f in frames ==> Writable(f)
    ensures Parse(StreamText(frames)) == DeliverAll(NEW_CLIENT, frames)
  {
    var s := StreamText(frames);
    if frames != [] {
      FrameStart(frames[0]);
      assert s[0] == FrameText(frames[0])[0];
    }
    FramesParse(NEW_CLIENT, frames, "");
    assert s + "" == s;
  }

  /** No frame starts with a byte order mark. */
  lemma FrameStart(f: Frame)
    ensures FrameText(f) != "" && FrameText(f)[0] != '\U{FEFF}'
  {
    if f.EventFrame? {
      var lines := SplitLines(f.data);
      assert DataLines(lines)[0] == 'd';
    }
  }

  function NonComments(frames: seq<Frame>): seq<Frame> {
    if frames == [] then []
    else (if frames[0].CommentFrame? then [] else [frames[0]]) + NonComments(frames[1..])
  }

  /** Heartbeat comments leave no trace, wherever they fall. */
  lemma {:induction false} CommentsAreInvisible(c: Client, frames: seq<Frame>)
    ensures DeliverAll(c, frames) == DeliverAll(c, NonComments(frames))
    decreases frames
  {
    if frames != [] {
      CommentsAreInvisible(Deliver(c, frames[0]), frames[1..]);
      var rest := NonComments(frames[1..]);
      if frames[0].CommentFrame? {
        assert [] + rest == rest;
      } else {
        assert ([frames[0]] + rest)[1..] == rest;
      }
    }
  }

  // ---- a stream that breaks off ----

  /** Has no blank line, and does not begin with one. */
  predicate NoBlankLine(s: string) {
    && '\r' !in s && (s != "" ==> s[0] != '\n')
    && forall i :: 0 <= i < |s| - 1 ==> !(s[i] == '\n' && s[i + 1] == '\n')
  }

  lemma NoBlankLineAppend(a: string, b: string)
    requires NoBlankLine(a) && NoBlankLine(b)
    ensures NoBlankLine(a + b)
  {
  }

  lemma NoBlankLinePrefix(s: string, n: nat)
    requires n <= |s| && NoBlankLine(s)
    ensures NoBlankLine(s[..n])
  {
  }

  /** Events are dispatched by blank lines only. */
  lemma {:induction false} NoBlankLineNoEvent(c: Client, s: string)
    requires NoBlankLine(s)
    ensures Feed(c, s).events == c.events
    decreases |s|
  {
    match LineEnd(s)
    case None =>
    case Some(n) =>
      LineEndIsTerminator(s);
      var rest := s[n + 1..];
      assert forall i :: 0 <= i < |rest| ==> rest[i] == s[n + 1 + i];
      LineKeepsEvents(c, s[..n]);
      NoBlankLineNoEvent(ProcessLine(c, s[..n]), rest);
  }

  lemma LineKeepsEvents(c: Client, line: string)
    requires line != ""
    ensures ProcessLine(c, line).events == c.events
  {
  }

  lemma LinesAreNotBlank(text: string)
    requires OneLine(text) && text != ""
    ensures NoBlankLine(text + "\n")
  {
  }

  lemma {:induction false} DataLinesAreNotBlank(lines: seq<string>)
    requires forall i :: 0 <= i < |lines| ==> OneLine(lines[i])
    ensures NoBlankLine(DataLines(lines))
  {
    if lines != [] {
      LinesAreNotBlank("data: " + lines[0]);
      DataLinesAreNotBlank(lines[1..]);
      NoBlankLineAppend("data: " + lines[0] + "\n", DataLines(lines[1..]));
    }
  }

  /** A frame without its last byte has no blank line. */
  lemma FrameBodyHasNoBlankLine(f: Frame)
    requires Writable(f)
    ensures NoBlankLine(FrameText(f)[..|FrameText(f)| - 1])
  {
    match f
    case EventFrame(id, name, data) =>
      SplitLinesAreLines(data);
      DataLinesAreNotBlank(SplitLines(data));
      OptionalLineIsNotBlank("id", id);
      OptionalLineIsNotBlank("event", name);
      NoBlankLineAppend(Line("id", id), Line("event", name));
      NoBlankLineAppend(Line("id", id) + Line("event", name), DataLines(SplitLines(data)));
      WithoutLast(Line("id", id) + Line("event", name) + DataLines(SplitLines(data)));
    case CommentFrame(text) =>
      LinesAreNotBlank(": " + text);
      assert FrameText(f) == (": " + text + "\n") + "\n";
      WithoutLast(": " + text + "\n");
    case RetryFrame(ms) =>
      DecimalParses(ms);
      LinesAreNotBlank("retry: " + Decimal(ms));
      assert FrameText(f) == ("retry: " + Decimal(ms) + "\n") + "\n";
      WithoutLast("retry: " + Decimal(ms) + "\n");
  }

  lemma OptionalLineIsNotBlank(field: string, value: string)
    requires field in {"id", "event"} && OneLine(value)
    ensures NoBlankLine(Line(field, value))
  {
    if value != "" { LinesAreNotBlank(field + ": " + value); }
  }

  lemma WithoutLast(body: string)
    ensures (body + "\n")[..|body + "\n"| - 1] == body
  {
  }

  /** What a client has of a frame when the connection breaks after n of its bytes. */
  lemma BrokenFrame(c: Client, f: Frame, n: nat)
    requires AtRest(c) && Writable(f) && n <= |FrameText(f)|
    ensures Feed(c, FrameText(f)[..n]).events == if n == |FrameText(f)| then Deliver(c, f).events else c.events
  {
    var text := FrameText(f);
    if n == |text| {
      FrameParses(c, f, "");
      assert text[..n] == text && text + "" == text;
    } else {
      FrameBodyHasNoBlankLine(f);
      NoBlankLinePrefix(text[..|text| - 1], n);
      assert text[..|text| - 1][..n] == text[..n];
      NoBlankLineNoEvent(c, text[..n]);
    }
  }

  /** Whole frames followed by n bytes of one more read back as the whole ones, or as all. */
  lemma BrokenStream(frames: seq<Frame>, f: Frame, n: nat)
    requires Writable(f) && n <= |FrameText(f)| && forall g :: g in frames ==> Writable(g)
    ensures Parse(StreamText(frames) + FrameText(f)[..n]).events
         == DeliverAll(NEW_CLIENT, if n == |FrameText(f)| then frames + [f] else frames).events
  {
    var s := StreamText(frames) + FrameText(f)[..n];
    if frames != [] {
      FrameStart(frames[0]);
      assert s[0] == FrameText(frames[0])[0];
    } else if n > 0 {
      FrameStart(f);
      assert s[0] == FrameText(f)[0];
    }
    FramesParse(NEW_CLIENT, frames, FrameText(f)[..n]);
    BrokenFrame(DeliverAll(NEW_CLIENT, frames), f, n);
    DeliverSnoc(NEW_CLIENT, frames, f);
  }

  lemma {:induction false} DeliverSnoc(c: Client, frames: seq<Frame>, f: Frame)
    ensures DeliverAll(c, frames + [f]) == Deliver(DeliverAll(c, frames), f)
    decreases frames
  {
    if frames == [] {
      assert ([] + [f])[1..] == [];
    } else {
      DeliverSnoc(Deliver(c, frames[0]), frames[1..], f);
      assert (frames + [f])[1..] == frames[1..] + [f];
    }
  }

  // ---- what can be sent at all ----

  /** An id a client can hold. */
  predicate IdText(s: string) {
    OneLine(s) && '\0' !in s
  }

  /** Nothing a client holds contains a terminator, but for the LFs between lines of data. */
  predicate FromLines(c: Client) {
    && '\r' !in c.data && OneLine(c.eventType) && IdText(c.idBuffer) && IdText(c.lastEventId)
    && forall e :: e in c.events ==> '\r' !in e.data && OneLine(e.name) && IdText(e.lastEventId)
  }

  lemma {:induction false} LineEndIsTerminator(s: string)
    requires LineEnd(s).Some?
    ensures OneLine(s[..LineEnd(s).value])
    ensures s[LineEnd(s).value] in {'\n', '\r'}
  {
    if s[0] != '\n' && s[0] != '\r' {
      LineEndIsTerminator(s[1..]);
      assert s[..LineEnd(s).value] == [s[0]] + s[1..][..LineEnd(s[1..]).value];
    }
  }

  lemma ProcessFieldFromLine(c: Client, name: string, value: string)
    requires FromLines(c) && OneLine(value)
    ensures FromLines(ProcessField(c, name, value))
  {
  }

  lemma DispatchFromLines(c: Client)
    requires FromLines(c)
    ensures FromLines(Dispatch(c))
  {
    assert OneLine("message");
  }

  lemma ProcessLineFromLine(c: Client, line: string)
    requires FromLines(c) && OneLine(line)
    ensures FromLines(ProcessLine(c, line))
  {
    if line == "" {
      DispatchFromLines(c);
    } else {
      match FirstColon(line)
      case None => ProcessFieldFromLine(c, line, "");
      case Some(i) =>
        if i > 0 {
          var rest := line[i + 1..];
          ProcessFieldFromLine(c, line[..i], if rest != "" && rest[0] == ' ' then rest[1..] else rest);
        }
    }
  }

  lemma {:induction false} FeedFromLines(c: Client, s: string)
    requires FromLines(c)
    ensures FromLines(Feed(c, s))
    decreases |s|
  {
    match LineEnd(s)
    case None =>
    case Some(n) =>
      LineEndIsTerminator(s);
      ProcessLineFromLine(c, s[..n]);
      FeedFromLines(ProcessLine(c, s[..n]), s[n + TerminatorLength(s, n)..]);
  }

  lemma {:induction false} LoneCrStays(s: string)
    requires !NoLoneCr(s)
    ensures '\r' in CrlfToLf(s)
  {
    var i :| 0 <= i < |s| && s[i] == '\r' && !(i + 1 < |s| && s[i + 1] == '\n');
    if |s| >= 2 && s[0] == '\r' && s[1] == '\n' {
      assert s[2..][i - 2] == '\r';
      LoneCrStays(s[2..]);
    } else if i > 0 {
      assert s[1..][i - 1] == '\r';
      LoneCrStays(s[1..]);
    }
  }

  /** The event a new client should get from an event frame. */
  function EventOf(id: string, name: string, data: string): Event {
    Event(if name == "" then "message" else name, Delivered(data), id)
  }

  /** An event that some stream carries was writable. */
  lemma OnlyWritableArrives(id: string, name: string, data: string, stream: string)
    requires EventOf(id, name, data) in Parse(stream).events
    ensures Writable(EventFrame(id, name, data))
  {
    FeedFromLines(NEW_CLIENT, if stream != "" && stream[0] == '\U{FEFF}' then stream[1..] else stream);
    if !NoLoneCr(data) { LoneCrIsDelivered(data); }
  }

  lemma LoneCrIsDelivered(data: string)
    requires !NoLoneCr(data)
    ensures '\r' in Delivered(data)
  {
    LoneCrStays(data);
    var t := CrlfToLf(data);
    assert t == Delivered(data) || t == Delivered(data) + ['\n'];
  }

  /** An event frame reads back as written to a new client if and only if its arguments are writable. */
  lemma ReadsBackExactlyIfWritable(id: string, name: string, data: string)
    ensures Parse(FrameText(EventFrame(id, name, data))).events == [EventOf(id, name, data)]
            <==> Writable(EventFrame(id, name, data))
  {
    var f := EventFrame(id, name, data);
    if Writable(f) {
      StreamRoundTrip([f]);
      assert [f][1..] == [];
      assert StreamText([f]) == FrameText(f) + "" == FrameText(f);
    }
    if Parse(FrameText(f)).events == [EventOf(id, name, data)] {
      assert EventOf(id, name, data) in [EventOf(id, name, data)];
      OnlyWritableArrives(id, name, data, FrameText(f));
    }
  }
}
