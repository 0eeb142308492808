/** The read, send and finalize loop of bridge/upload.go. */
module Upload {
  import opened Wrappers
  import opened Text

  type byte = bv8

  datatype ReadError = Eof | UnexpectedEof | BodyTooLarge | OtherError

  /**
   A request body as its reader hands it out: fragments in order, then `end` on every further
   read. With atLast, the read that takes the last byte already reports `end`.
   */
  class Reader {
    var fragments: seq<seq<byte>>
    const end: ReadError
    const atLast: bool

    constructor (fragments: seq<seq<byte>>, end: ReadError, atLast: bool)
      ensures this.fragments == fragments && this.end == end && this.atLast == atLast
    {
      this.fragments := fragments;
      this.end := end;
      this.atLast := atLast;
    }

    /** What has not been read yet. */
    ghost function Rest(): seq<byte>
      reads this
    {
      Concat(fragments)
    }

    /** io.Reader.Read into buf[from..]: at most one fragment, at most the free space. */
    method Read(buf: array<byte>, from: nat) returns (n: nat, err: Option<ReadError>)
      requires from < buf.Length
      modifies this, buf
      ensures from + n <= buf.Length && buf[..from] == old(buf[..from])
      ensures old(Rest()) == buf[from..from + n] + Rest()
      ensures err.Some? ==> err.value == end && Rest() == [] && fragments == []
      ensures |fragments| <= |old(fragments)|
      ensures err.None? ==> n > 0 || |fragments| < |old(fragments)|
    {
      if |fragments| == 0 {
        return 0, Some(end);
      }
      var f := fragments[0];
      n := if |f| <= buf.Length - from then |f| else buf.Length - from;
      forall i | 0 <= i < n {
        buf[from + i] := f[i];
      }
      assert buf[from..from + n] == f[..n];
      var rest := fragments[1..];
      if n < |f| {
        fragments := [f[n..]] + rest;
        assert fragments[1..] == rest;
        assert f == f[..n] + f[n..];
        err := None;
      } else {
        fragments := rest;
        err := if atLast && |rest| == 0 then Some(end) else None;
      }
    }
  }

  /** io.ReadFull: fills buf unless the reader stops first; a partial read turns EOF into ErrUnexpectedEOF. */
  method ReadFull(r: Reader, buf: array<byte>) returns (n: nat, err: Option<ReadError>)
    requires buf.Length > 0
    modifies r, buf
    ensures n <= buf.Length && old(r.Rest()) == buf[..n] + r.Rest()
    ensures err.None? <==> n == buf.Length
    ensures err.Some? ==> r.Rest() == []
    ensures err.Some? ==> err.value == if n > 0 && r.end == Eof then UnexpectedEof else r.end
  {
    n := 0;
    err := None;
    ghost var all := r.Rest();
    assert buf[..0] + r.Rest() == r.Rest();
    while n < buf.Length && err.None?
      invariant n <= buf.Length && all == buf[..n] + r.Rest()
      invariant err.Some? ==> err.value == r.end && r.Rest() == []
      decreases err.None?, buf.Length - n, |r.fragments|
    {
      ghost var head := buf[..n];
      ghost var before := r.Rest();
      var got: nat;
      got, err := r.Read(buf, n);
      assert buf[..n + got] == head + buf[n..n + got];
      assert head + (buf[n..n + got] + r.Rest()) == (head + buf[n..n + got]) + r.Rest();
      n := n + got;
    }
    if n >= buf.Length {
      err := None;
    } else if n > 0 && err == Some(Eof) {
      err := Some(UnexpectedEof);
    }
  }

  /** The client-streaming call: Send succeeds sendsLeft more times, and Finalize if finalizeOk. */
  class UploadStream {
    ghost var frames: seq<seq<byte>>
    ghost var finalized: nat
    var sendsLeft: Option<nat>
    const finalizeOk: bool

    constructor (sendsLeft: Option<nat>, finalizeOk: bool)
      ensures frames == [] && finalized == 0 && this.sendsLeft == sendsLeft && this.finalizeOk == finalizeOk
    {
      this.finalizeOk := finalizeOk;
      frames := [];
      finalized := 0;
      this.sendsLeft := sendsLeft;
    }

    /** The bytes of buf at the time of the call are sent; buf is reused afterwards. */
    method Send(buf: array<byte>, n: nat) returns (ok: bool)
      requires n <= buf.Length
      modifies this
      ensures ok == (old(sendsLeft) != Some(0))
      ensures frames == if ok then old(frames) + [buf[..n]] else old(frames)
      ensures finalized == old(finalized)
      ensures sendsLeft == if ok && old(sendsLeft).Some? then Some(old(sendsLeft).value - 1) else old(sendsLeft)
    {
      if sendsLeft == Some(0) {
        return false;
      }
      if sendsLeft.Some? {
        sendsLeft := Some(sendsLeft.value - 1);
      }
      frames := frames + [buf[..n]];
      return true;
    }

    method Finalize() returns (ok: bool)
      modifies this
      ensures ok == finalizeOk && finalized == old(finalized) + 1 && frames == old(frames)
    {
      finalized := finalized + 1;
      return finalizeOk;
    }
  }

  /** Answered: the response of a successful Finalize goes out. */
  datatype Outcome = Answered | FinalizeFailed | SendFailed | TooLarge | ReadFailed

  const DEFAULT_CHUNK := 0x10_0000

  function ChunkSize(configured: int): nat {
    if configured <= 0 then DEFAULT_CHUNK else configured
  }

  /** All frames full, except that the last may be shorter but not empty. */
  ghost predicate ChunkedBy(size: nat, frames: seq<seq<byte>>) {
    forall i :: 0 <= i < |frames| ==>
      if i < |frames| - 1 then |frames[i]| == size else 0 < |frames[i]| <= size
  }

  /** The body as a stream of frames of the given size. */
  function Chunks(size: nat, body: seq<byte>): seq<seq<byte>>
    requires size > 0
  {
    if |body| == 0 then []
    else if |body| <= size then [body]
    else [body[..size]] + Chunks(size, body[size..])
  }

  datatype Run = Run(frames: seq<seq<byte>>, finalized: nat, outcome: Outcome)

  /** What a run leaves behind, for a body, the way its reader ends, the sends that succeed, and how Finalize ends. */
  function Expected(size: nat, body: seq<byte>, end: ReadError, sends: Option<nat>, finalizeOk: bool): Run
    requires size > 0
  {
    var all := Chunks(size, body);
    if sends.Some? && sends.value < |all| then Run(all[..sends.value], 0, SendFailed)
    else match end
      case Eof => Run(all, 1, if finalizeOk then Answered else FinalizeFailed)
      case UnexpectedEof => Run(all, 1, if finalizeOk then Answered else FinalizeFailed)
      case BodyTooLarge => Run(all, 0, TooLarge)
      case OtherError => Run(all, 0, ReadFailed)
  }

  /** The frames sent so far and the chunks of the rest make up the body's chunks. */
  ghost predicate Progress(size: nat, body: seq<byte>, sends: Option<nat>,
                           frames: seq<seq<byte>>, left: Option<nat>, rest: seq<byte>)
    requires size > 0
  {
    && Chunks(size, body) == frames + Chunks(size, rest)
    && (match sends
        case None => left == None
        case Some(k) => |frames| <= k && left == Some(k - |frames|))
  }

  lemma SendKeepsProgress(size: nat, body: seq<byte>, sends: Option<nat>, frames: seq<seq<byte>>, left: Option<nat>,
                          rest: seq<byte>, read: seq<byte>, rest': seq<byte>)
    requires size > 0 && Progress(size, body, sends, frames, left, rest)
    requires rest == read + rest' && |read| <= size && (|read| < size ==> rest' == [])
    ensures read == [] ==> Progress(size, body, sends, frames, left, rest')
    ensures read != [] && left != Some(0) ==>
              Progress(size, body, sends, frames + [read], if left.Some? then Some(left.value - 1) else None, rest')
    ensures read != [] && left == Some(0) ==> forall end, ok :: Expected(size, body, end, sends, ok) == Run(frames, 0, SendFailed)
  {
    ReadIsChunk(size, rest, read, rest');
    var tail := Chunks(size, rest');
    assert frames + ([read] + tail) == (frames + [read]) + tail;
    assert [] + tail == tail;
    assert (frames + ([read] + tail))[..|frames|] == frames;
  }

  method Upload(configured: int, r: Reader, stream: UploadStream) returns (outcome: Outcome)
    requires stream.frames == [] && stream.finalized == 0
    modifies r, stream
    ensures Run(stream.frames, stream.finalized, outcome)
         == Expected(ChunkSize(configured), old(r.Rest()), r.end, old(stream.sendsLeft), stream.finalizeOk)
  {
    var size := ChunkSize(configured);
    var buf := new byte[size];
    ghost var body, sends := r.Rest(), stream.sendsLeft;
    assert [] + Chunks(size, body) == Chunks(size, body);
    while true
      invariant fresh(buf) && buf.Length == size
      invariant stream.finalized == 0
      invariant Progress(size, body, sends, stream.frames, stream.sendsLeft, r.Rest())
      decreases |r.Rest()|
    {
      ghost var rest := r.Rest();
      var n, err := ReadFull(r, buf);
      SendKeepsProgress(size, body, sends, stream.frames, stream.sendsLeft, rest, buf[..n], r.Rest());
      if n > 0 {
        var ok := stream.Send(buf, n);
        if !ok {
          return SendFailed;
        }
      }
      if err.None? {
        continue;
      }
      AllSent(size, body, r.end, sends, stream.frames, stream.sendsLeft, stream.finalizeOk);
      if err == Some(Eof) || err == Some(UnexpectedEof) {
        break;
      }
      if err == Some(BodyTooLarge) {
        return TooLarge;
      }
      return ReadFailed;
    }
    var ok := stream.Finalize();
    return if ok then Answered else FinalizeFailed;
  }

  lemma AllSent(size: nat, body: seq<byte>, end: ReadError, sends: Option<nat>, frames: seq<seq<byte>>, left: Option<nat>,
                finalizeOk: bool)
    requires size > 0 && Progress(size, body, sends, frames, left, [])
    ensures frames == Chunks(size, body)
    ensures Expected(size, body, end, sends, finalizeOk).outcome != SendFailed
  {
    assert frames + [] == frames;
  }

  /** What one ReadFull takes off the body is the next chunk. */
  lemma ReadIsChunk(size: nat, body: seq<byte>, read: seq<byte>, rest: seq<byte>)
    requires size > 0 && body == read + rest && |read| <= size && (|read| < size ==> rest == [])
    ensures Chunks(size, body) == (if read == [] then [] else [read]) + Chunks(size, rest)
  {
    if |body| > size {
      assert body[..size] == read && body[size..] == rest;
    } else if |read| == size {
      assert rest == [] && body == read;
    } else {
      assert body == read;
    }
  }

  // ---- what the chunks are ----

  lemma {:induction false} ChunksConserve(size: nat, body: seq<byte>)
    requires size > 0
    ensures Concat(Chunks(size, body)) == body
    ensures ChunkedBy(size, Chunks(size, body))
    decreases |body|
  {
    if |body| > size {
      var rest := body[size..];
      ChunksConserve(size, rest);
      var cs := Chunks(size, body);
      assert cs[1..] == Chunks(size, rest);
      assert body == body[..size] + rest;
      assert rest != [] && Chunks(size, rest) != [];
      forall i | 0 <= i < |cs|
        ensures if i < |cs| - 1 then |cs[i]| == size else 0 < |cs[i]| <= size
      {
        if i > 0 { assert cs[i] == Chunks(size, rest)[i - 1]; }
      }
    }
  }

  /** What Upload sends: frames of the configured number of bytes, or of one mebibyte; only the last may be shorter. */
  lemma FramesAreChunked(configured: int, body: seq<byte>, end: ReadError, sends: Option<nat>, finalizeOk: bool)
    ensures ChunkedBy(if configured > 0 then configured else 1024 * 1024,
                      Expected(ChunkSize(configured), body, end, sends, finalizeOk).frames)
  {
    ChunksConserve(ChunkSize(configured), body);
  }

  lemma {:induction false} ConcatPrefix(a: seq<seq<byte>>, b: seq<seq<byte>>)
    requires a <= b
    ensures Concat(a) <= Concat(b)
  {
    ConcatAppend(a, b[|a|..]);
    assert b == a + b[|a|..];
  }

  /**
   Conservation. A finalized upload sent the whole body, in full frames but for a shorter
   non-empty last one, and finalized once; any other ending sent a prefix and never finalized.
   Unless a send fails, that is exactly when the reader ends in EOF or in ErrUnexpectedEOF. A
   response goes out only after a successful Finalize. The frames do not depend on how the reader
   cuts the body up, as Expected does not see it.
   */
  lemma UploadConserves(size: nat, body: seq<byte>, end: ReadError, sends: Option<nat>, finalizeOk: bool)
    requires size > 0
    ensures var run := Expected(size, body, end, sends, finalizeOk);
            && Concat(run.frames) <= body
            && run.finalized == (if run.outcome == Answered || run.outcome == FinalizeFailed then 1 else 0)
            && (run.finalized == 1 ==> Concat(run.frames) == body && ChunkedBy(size, run.frames))
            && (run.outcome == Answered <==> run.finalized == 1 && finalizeOk)
            && (run.outcome != SendFailed ==> Concat(run.frames) == body)
            && (run.outcome == SendFailed <==> sends.Some? && sends.value < |Chunks(size, body)|)
            && (run.outcome == TooLarge <==> run.outcome != SendFailed && end == BodyTooLarge)
            && (run.outcome == ReadFailed <==> run.outcome != SendFailed && end == OtherError)
            && (run.finalized == 1 <==>
                  (end == Eof || end == UnexpectedEof) && (sends.Some? ==> |Chunks(size, body)| <= sends.value))
  {
    ChunksConserve(size, body);
    ConcatPrefix(Expected(size, body, end, sends, finalizeOk).frames, Chunks(size, body));
  }

  /** A body that breaks off after three bytes, reported as ErrUnexpectedEOF, is finalized like a whole one. */
  lemma TruncatedBodyIsFinalized()
    ensures Expected(2, [1, 2, 3], UnexpectedEof, None, true) == Run([[1, 2], [3]], 1, Answered)
  {
    var body: seq<byte> := [1, 2, 3];
    assert body[..2] == [1, 2] && body[2..] == [3];
    assert Chunks(2, [3]) == [[3]];
  }
}
