/** What an SSE event delivers, line by line (bridge/sse.go). */
module SseMeaning {
  import opened Text
  import opened EventStream
  import opened Sse

  /** A line with the terminator it is written with: LF, CR LF or, for the last one, none. */
  datatype Terminated = Terminated(line: string, end: string)

  function Written(lines: seq<Terminated>): string {
    if lines == [] then "" else lines[0].line + lines[0].end + Written(lines[1..])
  }

  function LinesOf(lines: seq<Terminated>): seq<string> {
    if lines == [] then [] else [lines[0].line] + LinesOf(lines[1..])
  }

  /** A line that ends in CR can only be told from one that ends in CR LF if CR LF follows it, or nothing. */
  predicate GoodLine(t: Terminated) {
    && '\n' !in t.line
    && (t.end == "\r\n" || (t.end == "\n" && (t.line != "" ==> t.line[|t.line| - 1] != '\r')))
  }

  /** Terminated lines, of which the last may lack its terminator unless it is empty. */
  predicate GoodText(lines: seq<Terminated>) {
    && lines != []
    && (forall i :: 0 <= i < |lines| - 1 ==> GoodLine(lines[i]))
    && var last := lines[|lines| - 1];
       GoodLine(last) || ('\n' !in last.line && last.end == "" && (last.line != "" || |lines| == 1))
  }

  /** A line without LF goes through as it is, up to its terminator. */
  lemma {:induction false} LineGoesThrough(line: string, end: string, rest: string)
    requires GoodLine(Terminated(line, end))
    ensures CrlfToLf(line + end + rest) == line + "\n" + CrlfToLf(rest)
  {
    var s := line + end + rest;
    if line == "" {
      assert s == end + rest;
      if end == "\r\n" { assert s[2..] == rest; } else { assert s[1..] == rest; }
    } else {
      var tail := line[1..];
      assert s[1..] == tail + end + rest;
      LineGoesThrough(tail, end, rest);
      assert s[0] == line[0];
      NotSplitInLine(line, end, rest);
      assert [line[0]] + (tail + "\n" + CrlfToLf(rest)) == line + "\n" + CrlfToLf(rest);
    }
  }

  /** No CR LF starts inside a line. */
  lemma NotSplitInLine(line: string, end: string, rest: string)
    requires GoodLine(Terminated(line, end)) && line != ""
    ensures !((line + end + rest)[0] == '\r' && (line + end + rest)[1] == '\n')
  {
    if |line| > 1 {
      assert (line + end + rest)[1] == line[1];
    } else {
      assert (line + end + rest)[1] == end[0];
    }
  }

  lemma {:induction false} LastGoesThrough(line: string)
    requires '\n' !in line
    ensures CrlfToLf(line) == line
  {
    if line != "" {
      LastGoesThrough(line[1..]);
    }
  }

  /** With all terminators in place, the text with each of them an LF. */
  lemma {:induction false} TerminatedGoThrough(lines: seq<Terminated>, rest: string)
    requires lines != [] && forall i :: 0 <= i < |lines| ==> GoodLine(lines[i])
    ensures CrlfToLf(Written(lines) + rest) == Join(LinesOf(lines), "\n") + "\n" + CrlfToLf(rest)
    decreases |lines|
  {
    var t, more := lines[0], Written(lines[1..]) + rest;
    assert Written(lines) + rest == t.line + t.end + more;
    LineGoesThrough(t.line, t.end, more);
    if |lines| == 1 {
      assert Written(lines[1..]) == "" && more == rest;
      assert LinesOf(lines[1..]) == [] && LinesOf(lines) == [t.line];
    } else {
      TerminatedGoThrough(lines[1..], rest);
      JoinFirst(t.line, LinesOf(lines[1..]), CrlfToLf(rest));
    }
  }

  lemma JoinFirst(line: string, more: seq<string>, rest: string)
    requires more != []
    ensures line + "\n" + (Join(more, "\n") + "\n" + rest) == Join([line] + more, "\n") + "\n" + rest
  {
    assert ([line] + more)[1..] == more;
  }

  lemma JoinLast(lines: seq<string>, last: string)
    requires lines != []
    ensures Join(lines + [last], "\n") == Join(lines, "\n") + "\n" + last
    decreases |lines|
  {
    if |lines| == 1 {
      assert lines + [last] == [lines[0], last];
      assert [lines[0], last][1..] == [last];
    } else {
      JoinLast(lines[1..], last);
      assert (lines + [last])[1..] == lines[1..] + [last];
    }
  }

  lemma {:induction false} WrittenLast(init: seq<Terminated>, last: Terminated)
    ensures Written(init + [last]) == Written(init) + (last.line + last.end)
    ensures LinesOf(init + [last]) == LinesOf(init) + [last.line]
  {
    var all := init + [last];
    if init == [] {
      assert all[1..] == [];
      assert all == [last];
      assert last.line + last.end + "" == last.line + last.end;
    } else {
      WrittenLast(init[1..], last);
      assert all[1..] == init[1..] + [last] && all[0] == init[0];
      Assoc(init[0].line + init[0].end, Written(init[1..]), last.line + last.end);
    }
  }

  /** Data is delivered as its lines, joined by LF: whatever their terminators were, and with or without a final one. */
  lemma LinesAreDelivered(lines: seq<Terminated>)
    requires GoodText(lines)
    ensures Delivered(Written(lines)) == Join(LinesOf(lines), "\n")
  {
    var n := |lines| - 1;
    var init, last := lines[..n], lines[n];
    assert lines == init + [last];
    if GoodLine(last) {
      TerminatedGoThrough(lines, "");
      assert Written(lines) + "" == Written(lines);
      DropsOne(Join(LinesOf(lines), "\n"));
    } else {
      WrittenLast(init, last);
      LastGoesThrough(last.line);
      assert last.line + last.end == last.line;
      if n == 0 {
        assert Written(init) == "" && "" + last.line == last.line;
        assert LinesOf(lines) == [last.line];
        DropsNone("", last.line);
      } else {
        TerminatedGoThrough(init, last.line);
        assert LinesOf(init) != [];
        JoinLast(LinesOf(init), last.line);
        DropsNone(Join(LinesOf(init), "\n") + "\n", last.line);
      }
    }
  }

  lemma DropsOne(s: string)
    ensures DropFinalLf(s + "\n" + "") == s
  {
    var t := s + "\n" + "";
    assert t[|t| - 1] == '\n' && t[..|t| - 1] == s;
  }

  lemma DropsNone(s: string, last: string)
    requires '\n' !in last && (last != "" || s == "")
    ensures DropFinalLf(s + last) == s + last
  {
    if last != "" { assert (s + last)[|s + last| - 1] == last[|last| - 1]; }
  }

  /** Every text is such lines, so that settles what is delivered of any data. */
  lemma {:induction false} EveryTextIsLines(data: string) returns (lines: seq<Terminated>)
    ensures GoodText(lines) && Written(lines) == data
    decreases |data|
  {
    if '\n' in data {
      assert data[0..] == data;
      var k := FirstLf(data, 0);
      var t, rest := CutLine(data[..k]), data[k + 1..];
      assert data == t.line + t.end + rest;
      if rest == "" {
        lines := [t];
        assert lines[1..] == [];
      } else {
        var more := EveryTextIsLines(rest);
        lines := [t] + more;
        assert lines[1..] == more && lines[|lines| - 1] == more[|more| - 1];
        forall i | 0 <= i < |lines| - 1 ensures GoodLine(lines[i]) {
          if i > 0 { assert lines[i] == more[i - 1]; }
        }
        NonEmptyText(more);
      }
    } else {
      lines := [Terminated(data, "")];
      assert lines[1..] == [];
    }
  }

  lemma NonEmptyText(lines: seq<Terminated>)
    requires lines != [] && Written(lines) != ""
    ensures |lines| == 1 && lines[0].end == "" ==> lines[0].line != ""
  {
    if |lines| == 1 { assert lines[1..] == []; }
  }

  lemma FirstLf(s: string, from: nat) returns (k: nat)
    requires from <= |s| && '\n' !in s[..from] && '\n' in s[from..]
    ensures k < |s| && s[k] == '\n' && '\n' !in s[..k]
    decreases |s| - from
  {
    if s[from] == '\n' {
      k := from;
    } else {
      TakeNext(s, from);
      assert s[from..] == [s[from]] + s[from + 1..];
      k := FirstLf(s, from + 1);
    }
  }

  /** The line before an LF, with the CR that belongs to its terminator. */
  function CutLine(head: string): (t: Terminated)
    requires '\n' !in head
    ensures GoodLine(t) && t.line + t.end == head + "\n"
  {
    if head != "" && head[|head| - 1] == '\r' then
      assert head[..|head| - 1] + "\r\n" == head + "\n";
      Terminated(head[..|head| - 1], "\r\n")
    else Terminated(head, "\n")
  }

  // ---- what is written, and what arrives ----

  lemma {:induction false} LinesOfPlain(lines: seq<Terminated>)
    requires forall t :: t in lines ==> '\n' !in t.line
    ensures |LinesOf(lines)| == |lines|
    ensures forall i :: 0 <= i < |lines| ==> LinesOf(lines)[i] == lines[i].line
    ensures forall i :: 0 <= i < |lines| ==> '\n' !in LinesOf(lines)[i]
  {
    if lines != [] {
      LinesOfPlain(lines[1..]);
    }
  }

  lemma GoodTextIsPlain(lines: seq<Terminated>)
    requires GoodText(lines)
    ensures forall t :: t in lines ==> '\n' !in t.line
  {
    forall t | t in lines ensures '\n' !in t.line {
      var i :| 0 <= i < |lines| && lines[i] == t;
      if i < |lines| - 1 { assert GoodLine(lines[i]); }
    }
  }

  lemma JoinLength(parts: seq<string>)
    requires parts != []
    ensures |Join(parts, "\n")| >= |parts| - 1 + |parts[0]|
  {
    if |parts| > 1 { JoinLength(parts[1..]); }
  }

  /** An event is written with one data line for each line of its data. */
  lemma LinesAreWritten(id: string, name: string, lines: seq<Terminated>)
    requires GoodText(lines)
    ensures SplitLines(Written(lines)) == LinesOf(lines)
    ensures FrameText(EventFrame(id, name, Written(lines)))
         == Line("id", id) + Line("event", name) + DataLines(LinesOf(lines)) + "\n"
  {
    LinesAreDelivered(lines);
    GoodTextIsPlain(lines);
    LinesOfPlain(lines);
    var plain := LinesOf(lines);
    JoinLength(plain);
    if Join(plain, "\n") == "" {
      assert plain == [plain[0]];
    } else {
      SplitJoin(plain, '\n');
    }
  }

  lemma {:induction false} NoLoneCrInLines(lines: seq<Terminated>)
    requires forall t :: t in lines ==> '\r' !in t.line && t.end in {"\n", "\r\n", ""}
    ensures NoLoneCr(Written(lines))
  {
    if lines != [] {
      var t, rest := lines[0], Written(lines[1..]);
      NoLoneCrInLines(lines[1..]);
      var s := t.line + t.end + rest;
      assert forall k :: 0 <= k < |t.line| ==> s[k] == t.line[k];
      forall i | 0 <= i < |s| && s[i] == '\r'
        ensures i + 1 < |s| && s[i + 1] == '\n'
      {
        var n := |t.line + t.end|;
        if i >= n {
          assert s[i] == rest[i - n] && (i + 1 < |s| ==> s[i + 1] == rest[i - n + 1]);
        } else {
          assert s[i] == t.end[i - |t.line|];
        }
      }
    }
  }

  /** A new client gets exactly one event, with the lines of the data joined by LF. */
  lemma LinesArrive(id: string, name: string, lines: seq<Terminated>)
    requires OneLine(id) && '\0' !in id && OneLine(name) && GoodText(lines)
    requires forall t :: t in lines ==> '\r' !in t.line
    ensures Parse(FrameText(EventFrame(id, name, Written(lines)))).events
         == [Event(if name == "" then "message" else name, Join(LinesOf(lines), "\n"), id)]
  {
    LinesAreDelivered(lines);
    forall t | t in lines ensures t.end in {"\n", "\r\n", ""} {
      var i :| 0 <= i < |lines| && lines[i] == t;
      if i < |lines| - 1 { assert GoodLine(lines[i]); }
    }
    NoLoneCrInLines(lines);
    ReadsBackExactlyIfWritable(id, name, Written(lines));
  }

  lemma {:induction false} CrFreeGoesThrough(s: string)
    requires '\r' !in s
    ensures CrlfToLf(s) == s
  {
    if s != "" {
      assert s[0] != '\r';
      CrFreeGoesThrough(s[1..]);
    }
  }

  /** Data without CR is delivered as it is, but for one final LF. */
  lemma CrFreeIsDelivered(data: string)
    requires '\r' !in data
    ensures data == "" || data[|data| - 1] != '\n' ==> Delivered(data) == data
    ensures Delivered(data + "\n") == data
  {
    CrFreeGoesThrough(data);
    CrFreeGoesThrough(data + "\n");
    DropsOne(data);
  }
}
