/**
 Several goroutines sharing one SseWriter (bridge/sse.go, SSEHandler): each takes the mutex,
 writes the bytes of one frame in any number of pieces, and releases it.
 */
module SseConcurrency {
  import opened Wrappers
  import opened Text
  import opened EventStream
  import opened Sse

  type Tid = nat

  /** todo: what each goroutine still writes; log: completed frames, oldest first. */
  datatype State = State(out: string, holder: Option<Tid>, pos: nat, todo: seq<seq<Frame>>, log: seq<(Tid, Frame)>)

  datatype Action = Acquire(t: Tid) | Write(n: nat) | Release

  predicate Holding(s: State) {
    s.holder.Some? && s.holder.value < |s.todo| && s.todo[s.holder.value] != []
  }

  /** The bytes of the frame being written. */
  function Current(s: State): string
    requires Holding(s)
  {
    FrameText(s.todo[s.holder.value][0])
  }

  function Apply(s: State, a: Action): Option<State> {
    match a
    case Acquire(t) =>
      if s.holder == None && t < |s.todo| && s.todo[t] != [] then Some(s.(holder := Some(t), pos := 0)) else None
    case Write(n) =>
      if Holding(s) && s.pos + n <= |Current(s)|
      then Some(s.(out := s.out + Current(s)[s.pos..s.pos + n], pos := s.pos + n)) else None
    case Release =>
      if Holding(s) && s.pos == |Current(s)|
      then
        var t := s.holder.value;
        Some(s.(holder := None, log := s.log + [(t, s.todo[t][0])], todo := s.todo[t := s.todo[t][1..]]))
      else None
  }

  ghost predicate Init(s: State, programs: seq<seq<Frame>>) {
    s == State("", None, 0, programs, [])
  }

  ghost predicate IsRun(programs: seq<seq<Frame>>, run: seq<State>) {
    && |run| > 0 && Init(run[0], programs)
    && forall i :: 0 <= i < |run| - 1 ==> exists a :: Apply(run[i], a) == Some(run[i + 1])
  }

  function Frames(log: seq<(Tid, Frame)>): seq<Frame> {
    if log == [] then [] else Frames(log[..|log| - 1]) + [log[|log| - 1].1]
  }

  /** The completed frames of goroutine t, in order. */
  function FramesOf(log: seq<(Tid, Frame)>, t: Tid): seq<Frame> {
    if log == [] then []
    else
      var before, last := FramesOf(log[..|log| - 1], t), log[|log| - 1];
      if last.0 == t then before + [last.1] else before
  }

  /** Output: the completed frames, then the written part of the frame in progress. */
  ghost predicate Inv(programs: seq<seq<Frame>>, s: State) {
    && |s.todo| == |programs|
    && (s.holder.Some? ==> Holding(s) && s.pos <= |Current(s)|)
    && s.out == StreamText(Frames(s.log)) + (if s.holder.Some? then Current(s)[..s.pos] else "")
    && (forall t :: 0 <= t < |programs| ==> FramesOf(s.log, t) + s.todo[t] == programs[t])
    && (forall e :: e in s.log ==> e.0 < |programs|)
  }

  lemma {:induction false} StreamTextSnoc(frames: seq<Frame>, f: Frame)
    ensures StreamText(frames + [f]) == StreamText(frames) + FrameText(f)
  {
    if frames == [] {
      assert [] + [f] == [f];
      assert StreamText([f]) == FrameText(f) + StreamText([]);
    } else {
      StreamTextSnoc(frames[1..], f);
      assert (frames + [f])[1..] == frames[1..] + [f];
      Assoc(FrameText(frames[0]), StreamText(frames[1..]), FrameText(f));
    }
  }

  lemma WriteKeepsInv(programs: seq<seq<Frame>>, s: State, n: nat)
    requires Inv(programs, s) && Apply(s, Write(n)).Some?
    ensures Inv(programs, Apply(s, Write(n)).value)
  {
    WriteMore(StreamText(Frames(s.log)), Current(s), s.pos, n);
  }

  lemma WriteMore(done: string, text: string, pos: nat, n: nat)
    requires pos + n <= |text|
    ensures (done + text[..pos]) + text[pos..pos + n] == done + text[..pos + n]
  {
  }

  lemma ReleaseKeepsInv(programs: seq<seq<Frame>>, s: State)
    requires Inv(programs, s) && Apply(s, Release).Some?
    ensures Inv(programs, Apply(s, Release).value)
  {
    var s' := Apply(s, Release).value;
    var h := s.holder.value;
    var f := s.todo[h][0];
    LogSnoc(s.log, h, f);
    StreamTextSnoc(Frames(s.log), f);
    assert Current(s)[..s.pos] == Current(s);
    forall t | 0 <= t < |programs|
      ensures FramesOf(s'.log, t) + s'.todo[t] == programs[t]
    {
      if t == h { MoveHead(FramesOf(s.log, h), s.todo[h]); }
    }
  }

  lemma LogSnoc(log: seq<(Tid, Frame)>, h: Tid, f: Frame)
    ensures Frames(log + [(h, f)]) == Frames(log) + [f]
    ensures forall t :: FramesOf(log + [(h, f)], t) == if t == h then FramesOf(log, t) + [f] else FramesOf(log, t)
  {
    assert (log + [(h, f)])[..|log|] == log;
  }

  lemma MoveHead<T>(done: seq<T>, todo: seq<T>)
    requires todo != []
    ensures (done + [todo[0]]) + todo[1..] == done + todo
  {
  }

  lemma NextKeepsInv(programs: seq<seq<Frame>>, s: State, a: Action)
    requires Inv(programs, s) && Apply(s, a).Some?
    ensures Inv(programs, Apply(s, a).value)
  {
    match a
    case Acquire(t) => assert Current(Apply(s, a).value)[..0] == "";
    case Write(n) => WriteKeepsInv(programs, s, n);
    case Release => ReleaseKeepsInv(programs, s);
  }

  lemma {:induction false} RunKeepsInv(programs: seq<seq<Frame>>, run: seq<State>, i: nat)
    requires IsRun(programs, run) && i < |run|
    ensures Inv(programs, run[i])
  {
    if i > 0 {
      RunKeepsInv(programs, run, i - 1);
      var a :| Apply(run[i - 1], a) == Some(run[i - 1 + 1]);
      NextKeepsInv(programs, run[i - 1], a);
    }
  }

  /** The frames a client has all bytes of: the completed ones, and the current one if only its release is missing. */
  function Written(s: State): seq<Frame>
    requires s.holder.Some? ==> Holding(s)
  {
    Frames(s.log) + if s.holder.Some? && s.pos == |Current(s)| then [s.todo[s.holder.value][0]] else []
  }

  /**
   In every state of every interleaving, even with a frame half written, the response reads back as
   exactly the events of the frames written so far, and each goroutine's frames appear in its own order.
   */
  lemma InterleavingsParse(programs: seq<seq<Frame>>, run: seq<State>, i: nat)
    requires IsRun(programs, run) && i < |run|
    requires forall t, f :: 0 <= t < |programs| && f in programs[t] ==> Writable(f)
    ensures run[i].holder.Some? ==> Holding(run[i])
    ensures Parse(run[i].out).events == DeliverAll(NEW_CLIENT, Written(run[i])).events
    ensures forall t :: 0 <= t < |programs| ==> FramesOf(run[i].log, t) <= programs[t]
  {
    RunKeepsInv(programs, run, i);
    var s := run[i];
    forall f | f in Frames(s.log)
      ensures Writable(f)
    {
      var t := FrameOwner(s.log, f);
      assert f in FramesOf(s.log, t) + s.todo[t];
    }
    if s.holder == None {
      assert StreamText(Frames(s.log)) + "" == StreamText(Frames(s.log));
      assert Written(s) == Frames(s.log);
      StreamRoundTrip(Frames(s.log));
    } else {
      var h := s.holder.value;
      assert s.todo[h][0] in FramesOf(s.log, h) + s.todo[h];
      BrokenStream(Frames(s.log), s.todo[h][0], s.pos);
      if s.pos < |Current(s)| { assert Written(s) == Frames(s.log); }
    }
  }

  lemma {:induction false} FrameOwner(log: seq<(Tid, Frame)>, f: Frame) returns (t: Tid)
    requires f in Frames(log)
    ensures f in FramesOf(log, t) && exists e :: e in log && e.0 == t
  {
    var n := |log| - 1;
    if f == log[n].1 {
      t := log[n].0;
      assert log[n] in log;
    } else {
      t := FrameOwner(log[..n], f);
    }
  }

  /** What the handler, goroutine 0, has written. */
  function HandlerWritten(s: State): seq<Frame>
    requires s.holder.Some? ==> Holding(s)
  {
    FramesOf(s.log, 0) + if s.holder == Some(0) && s.pos == |Current(s)| then [s.todo[0][0]] else []
  }

  /**
   With one handler and heartbeats that only write comments, a client sees at any moment exactly
   what the handler has written.
   */
  lemma HeartbeatsAreInvisible(programs: seq<seq<Frame>>, run: seq<State>, i: nat)
    requires IsRun(programs, run) && i < |run|
    requires forall t, f :: 0 <= t < |programs| && f in programs[t] ==> Writable(f)
    requires forall t, f :: 0 < t < |programs| && f in programs[t] ==> f.CommentFrame?
    ensures run[i].holder.Some? ==> Holding(run[i])
    ensures Parse(run[i].out).events == DeliverAll(NEW_CLIENT, HandlerWritten(run[i])).events
  {
    InterleavingsParse(programs, run, i);
    RunKeepsInv(programs, run, i);
    OthersComment(programs, run[i]);
    NonCommentsOfLog(run[i].log);
    SameNonComments(run[i]);
    CommentsAreInvisible(NEW_CLIENT, Written(run[i]));
    CommentsAreInvisible(NEW_CLIENT, HandlerWritten(run[i]));
  }

  lemma OthersComment(programs: seq<seq<Frame>>, s: State)
    requires Inv(programs, s)
    requires forall t, f :: 0 < t < |programs| && f in programs[t] ==> f.CommentFrame?
    ensures forall e :: e in s.log && e.0 != 0 ==> e.1.CommentFrame?
    ensures s.holder.Some? && s.holder != Some(0) ==> Holding(s) && s.todo[s.holder.value][0].CommentFrame?
  {
    forall e | e in s.log && e.0 != 0
      ensures e.1.CommentFrame?
    {
      EntryInFramesOf(s.log, e);
      assert e.1 in FramesOf(s.log, e.0) + s.todo[e.0];
    }
    if s.holder.Some? {
      var h := s.holder.value;
      assert s.todo[h][0] in FramesOf(s.log, h) + s.todo[h];
    }
  }

  lemma SameNonComments(s: State)
    requires s.holder.Some? ==> Holding(s)
    requires NonComments(Frames(s.log)) == NonComments(FramesOf(s.log, 0))
    requires s.holder.Some? && s.holder != Some(0) ==> s.todo[s.holder.value][0].CommentFrame?
    ensures NonComments(Written(s)) == NonComments(HandlerWritten(s))
  {
    var all, own := Frames(s.log), FramesOf(s.log, 0);
    assert all + [] == all && own + [] == own;
    if s.holder.Some? && s.pos == |Current(s)| {
      var f := s.todo[s.holder.value][0];
      NonCommentsAppend(all, [f]);
      NonCommentsAppend(own, [f]);
      NonCommentsOfOne(f);
      assert NonComments(all) + [] == NonComments(all);
    }
  }

  lemma NonCommentsOfOne(f: Frame)
    ensures NonComments([f]) == if f.CommentFrame? then [] else [f]
  {
    assert [f][1..] == [];
  }

  lemma {:induction false} EntryInFramesOf(log: seq<(Tid, Frame)>, e: (Tid, Frame))
    requires e in log
    ensures e.1 in FramesOf(log, e.0)
  {
    var n := |log| - 1;
    if e != log[n] { EntryInFramesOf(log[..n], e); }
  }

  lemma {:induction false} NonCommentsAppend(a: seq<Frame>, b: seq<Frame>)
    ensures NonComments(a + b) == NonComments(a) + NonComments(b)
  {
    if a == [] {
      assert a + b == b;
    } else {
      NonCommentsAppend(a[1..], b);
      assert (a + b)[1..] == a[1..] + b && (a + b)[0] == a[0];
      var head := if a[0].CommentFrame? then [] else [a[0]];
      assert NonComments(a + b) == head + (NonComments(a[1..]) + NonComments(b));
      Assoc(head, NonComments(a[1..]), NonComments(b));
    }
  }

  lemma {:induction false} NonCommentsOfLog(log: seq<(Tid, Frame)>)
    requires forall e :: e in log && e.0 != 0 ==> e.1.CommentFrame?
    ensures NonComments(Frames(log)) == NonComments(FramesOf(log, 0))
  {
    if log != [] {
      var n := |log| - 1;
      assert log[n] in log;
      NonCommentsOfLog(log[..n]);
      NonCommentsAppend(Frames(log[..n]), [log[n].1]);
      NonCommentsAppend(FramesOf(log[..n], 0), [log[n].1]);
    }
  }
}
