/**
 The event-stream parser of the WHATWG HTML Standard: parsing an event stream
 (section 9.2.5) and interpreting it (section 9.2.6).
 */
module EventStream {
  import opened Wrappers

  datatype Event = Event(name: string, data: string, lastEventId: string)

  /** The buffers of section 9.2.6, the reconnection time, and the events dispatched so far. */
  datatype Client = Client(data: string, eventType: string, idBuffer: string, lastEventId: string,
                           retry: Option<nat>, events: seq<Event>)

  const NEW_CLIENT := Client("", "", "", "", None, [])

  /** Length of the line up to its terminator; None when no terminator is left. */
  function LineEnd(s: string): (n: Option<nat>)
    ensures n.Some? ==> n.value < |s|
  {
    if s == [] then None
    else if s[0] == '\n' || s[0] == '\r' then Some(0)
    else match LineEnd(s[1..])
      case None => None
      case Some(n) => Some(n + 1)
  }

  /** Lines end in CR LF, LF, or CR. */
  function TerminatorLength(s: string, end: nat): (n: nat)
    requires end < |s|
    ensures 1 <= n && end + n <= |s|
  {
    if s[end] == '\r' && end + 1 < |s| && s[end + 1] == '\n' then 2 else 1
  }

  predicate IsDigit(c: char) {
    '0' <= c <= '9'
  }

  predicate AllDigits(s: string) {
    forall i :: 0 <= i < |s| ==> IsDigit(s[i])
  }

  function DigitValue(c: char): nat
    requires IsDigit(c)
  {
    c as int - '0' as int
  }

  /** The value of a string of digits, in base ten. */
  function ParseDigits(s: string): nat
    requires AllDigits(s)
  {
    if s == [] then 0 else 10 * ParseDigits(s[..|s| - 1]) + DigitValue(s[|s| - 1])
  }

  function ProcessField(c: Client, name: string, value: string): Client {
    if name == "event" then c.(eventType := value)
    else if name == "data" then c.(data := c.data + value + "\n")
    else if name == "id" then if '\0' in value then c else c.(idBuffer := value)
    else if name == "retry" then if value != "" && AllDigits(value) then c.(retry := Some(ParseDigits(value))) else c
    else c
  }

  function Dispatch(c: Client): Client {
    var c' := c.(lastEventId := c.idBuffer);
    if c'.data == "" then c'.(eventType := "")
    else
      var data := if c'.data[|c'.data| - 1] == '\n' then c'.data[..|c'.data| - 1] else c'.data;
      var name := if c'.eventType == "" then "message" else c'.eventType;
      c'.(data := "", eventType := "", events := c'.events + [Event(name, data, c'.lastEventId)])
  }

  /** Position of the first colon, if any. */
  function FirstColon(s: string): (i: Option<nat>)
    ensures i.Some? ==> i.value < |s| && s[i.value] == ':' && ':' !in s[..i.value]
    ensures i.None? ==> ':' !in s
  {
    if s == [] then None
    else if s[0] == ':' then Some(0)
    else match FirstColon(s[1..])
      case None => None
      case Some(i) => Some(i + 1)
  }

  function ProcessLine(c: Client, line: string): Client {
    if line == "" then Dispatch(c)
    else match FirstColon(line)
      case None => ProcessField(c, line, "")
      case Some(0) => c
      case Some(i) =>
        var rest := line[i + 1..];
        var value := if rest != "" && rest[0] == ' ' then rest[1..] else rest;
        ProcessField(c, line[..i], value)
  }

  /** Feeds complete lines; an unterminated last line dispatches nothing and is dropped. */
  function Feed(c: Client, s: string): Client
    decreases |s|
  {
    match LineEnd(s)
    case None => c
    case Some(n) => Feed(ProcessLine(c, s[..n]), s[n + TerminatorLength(s, n)..])
  }

  /** A stream from its start: one leading byte order mark is ignored. */
  function Parse(s: string): Client {
    Feed(NEW_CLIENT, if s != "" && s[0] == '\U{FEFF}' then s[1..] else s)
  }

  // ---- feeding one line at a time ----

  predicate OneLine(s: string) {
    '\n' !in s && '\r' !in s
  }

  lemma {:induction false} LineEndOfLine(line: string, rest: string)
    requires OneLine(line)
    ensures LineEnd(line + "\n" + rest) == Some(|line|)
  {
    if line == [] {
      assert line + "\n" + rest == "\n" + rest;
    } else {
      LineEndOfLine(line[1..], rest);
      assert (line + "\n" + rest)[1..] == line[1..] + "\n" + rest;
    }
  }

  lemma FeedLine(c: Client, line: string, rest: string)
    requires OneLine(line)
    ensures Feed(c, line + "\n" + rest) == Feed(ProcessLine(c, line), rest)
  {
    var s := line + "\n" + rest;
    LineEndOfLine(line, rest);
    assert s[|line|] == '\n';
    assert s[..|line|] == line && s[|line| + 1..] == rest;
  }

  lemma {:induction false} FirstColonAt(name: string, rest: string)
    requires ':' !in name
    ensures FirstColon(name + ":" + rest) == Some(|name|)
  {
    if name == [] {
      assert name + ":" + rest == ":" + rest;
    } else {
      FirstColonAt(name[1..], rest);
      assert (name + ":" + rest)[1..] == name[1..] + ":" + rest;
    }
  }

  /** A line "name: value" sets the field, whatever the value starts with. */
  lemma FieldLine(c: Client, name: string, value: string)
    requires name != "" && ':' !in name
    ensures ProcessLine(c, name + ": " + value) == ProcessField(c, name, value)
  {
    var line := name + ": " + value;
    FirstColonAt(name, " " + value);
    assert line == name + ":" + (" " + value);
    assert line[..|name|] == name && line[|name| + 1..] == " " + value;
    assert (" " + value)[1..] == value;
  }
}
