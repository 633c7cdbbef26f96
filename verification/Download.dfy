/**
 A resumable download of one remote object: the local file, the request and the streamed reply, with crashes
 at any point. Replies follow sections 14.2 and 15.3.7 of RFC 9110.
 */
module Download {
  import opened Wrappers
  import opened Numbers

  type Byte = x: int | 0 <= x < 256
  type Bytes = seq<Byte>

  datatype Reply =
    | Unreachable
    | Response(status: nat, chunks: seq<Bytes>, broken: bool) // the stream ends early with an error, or completes

  datatype DownloadError = NetworkError | HttpStatus(status: nat)

  predicate IsSuccess(status: nat) { 200 <= status < 300 }

  function Concat(chunks: seq<Bytes>): Bytes {
    if chunks == [] then [] else Concat(chunks[..|chunks| - 1]) + chunks[|chunks| - 1]
  }

  ghost predicate IsPrefix(a: Bytes, b: Bytes) { |a| <= |b| && b[..|a|] == a }

  /** The chunks make up the body, or a part of it when the stream breaks. */
  ghost predicate Delivers(chunks: seq<Bytes>, broken: bool, body: Bytes) {
    IsPrefix(Concat(chunks), body) && (!broken ==> Concat(chunks) == body)
  }

  /**
   What a server may answer to a request for the bytes from `start` on (no range is sent for 0): 206 with that
   suffix if there is one, 200 with the whole object, or any status that is not a success.
   */
  ghost predicate Conforming(reply: Reply, start: nat, remote: Bytes) {
    reply.Unreachable?
    || !IsSuccess(reply.status)
    || (reply.status == 206 && 0 < start < |remote| && Delivers(reply.chunks, reply.broken, remote[start..]))
    || (reply.status == 200 && Delivers(reply.chunks, reply.broken, remote))
  }

  // ----- One call, step by step -----

  datatype Call =
    | Idle
    | Asking(expected: nat, start: nat)
    | Streaming(expected: nat, rest: seq<Bytes>, broken: bool, buffered: Bytes, downloaded: nat)
    | Returned(expected: nat, ok: bool)

  /** What is on disk, and what the current or last call is doing. */
  datatype State = State(file: Option<Bytes>, call: Call)

  datatype Event =
    | Begin(resume: bool, expected: nat)
    | Answer(reply: Reply)
    | Chunk                  // the next chunk is handed to the buffered writer
    | WriteBack(n: nat)      // `n` buffered bytes reach the disk
    | Finish                 // the stream is at its end: flush and return
    | Fail(n: nat)           // a stream or write error; `n` buffered bytes still reach the disk
    | Crash(n: nat)          // the process dies; `n` buffered bytes still reach the disk

  predicate Enabled(st: State, e: Event) {
    match e
    case Begin(_, _) => st.call.Idle? || st.call.Returned?
    case Answer(_) => st.call.Asking?
    case Chunk => st.call.Streaming? && st.call.rest != []
    case WriteBack(n) => st.call.Streaming? && st.file.Some? && n <= |st.call.buffered|
    case Finish => st.call.Streaming? && st.file.Some? && st.call.rest == [] && !st.call.broken
    case Fail(n) => st.call.Streaming? && st.file.Some? && n <= |st.call.buffered|
    case Crash(n) => st.call.Streaming? ==> st.file.Some? && n <= |st.call.buffered|
  }

  /** The length of the file to resume. */
  function StartByte(file: Option<Bytes>, resume: bool): nat {
    if resume && file.Some? then |file.value| else 0
  }

  /** A file as long as expected is taken for complete. */
  predicate TakenForComplete(file: Option<Bytes>, resume: bool, expected: nat) {
    resume && file.Some? && 0 < expected <= |file.value|
  }

  /** The reply is appended to the file; otherwise the file is written anew. */
  predicate Appends(reply: Reply, start: nat) {
    reply.Response? && start > 0 && reply.status == 206
  }

  function Opened(file: Option<Bytes>, reply: Reply, start: nat): Option<Bytes> {
    if Appends(reply, start) then file else Some([])
  }

  function Settled(st: State, n: nat): Option<Bytes>
    requires st.call.Streaming? && st.file.Some? && n <= |st.call.buffered|
  {
    Some(st.file.value + st.call.buffered[..n])
  }

  function Apply(st: State, e: Event): State
    requires Enabled(st, e)
  {
    match e
    case Begin(resume, expected) =>
      if TakenForComplete(st.file, resume, expected) then State(st.file, Returned(expected, true))
      else State(st.file, Asking(expected, StartByte(st.file, resume)))
    case Answer(reply) =>
      var start := st.call.start;
      if reply.Unreachable? || !IsSuccess(reply.status) then State(st.file, Returned(st.call.expected, false))
      else
        State(Opened(st.file, reply, start),
              Streaming(st.call.expected, reply.chunks, reply.broken, [], if Appends(reply, start) then start else 0))
    case Chunk =>
      var c := st.call.rest[0];
      st.(call := st.call.(rest := st.call.rest[1..], buffered := st.call.buffered + c,
                           downloaded := st.call.downloaded + |c|))
    case WriteBack(n) =>
      State(Settled(st, n), st.call.(buffered := st.call.buffered[n..]))
    case Finish =>
      State(Settled(st, |st.call.buffered|), Returned(st.call.expected, true))
    case Fail(n) =>
      State(Settled(st, n), Returned(st.call.expected, false))
    case Crash(n) =>
      State(if st.call.Streaming? then Settled(st, n) else st.file, Idle)
  }

  /** The steps of a run that begins in `st`, against servers that conform. */
  ghost predicate ValidRun(remote: Bytes, st: State, events: seq<Event>)
    decreases |events|, 0
  {
    events == []
    || (ValidRun(remote, st, events[..|events| - 1])
        && Enabled(After(remote, st, events[..|events| - 1]), events[|events| - 1])
        && (events[|events| - 1].Answer? ==>
              Conforming(events[|events| - 1].reply, After(remote, st, events[..|events| - 1]).call.start, remote)))
  }

  ghost function After(remote: Bytes, st: State, events: seq<Event>): State
    requires ValidRun(remote, st, events)
    decreases |events|, 1
  {
    if events == [] then st
    else Apply(After(remote, st, events[..|events| - 1]), events[|events| - 1])
  }

  // ----- What every step keeps -----

  ghost predicate HoldsPrefix(file: Option<Bytes>, remote: Bytes) {
    file.Some? ==> IsPrefix(file.value, remote)
  }

  ghost predicate Consistent(st: State, remote: Bytes) {
    && HoldsPrefix(st.file, remote)
    && (st.call.Asking? && st.call.start > 0 ==> st.file.Some? && |st.file.value| == st.call.start)
    && (st.call.Streaming? ==>
          && st.file.Some?
          && st.call.downloaded == |st.file.value| + |st.call.buffered|
          && Delivers([st.file.value + st.call.buffered + Concat(st.call.rest)], st.call.broken, remote))
    && (st.call.Returned? && st.call.ok ==>
          st.file == Some(remote) || (st.file.Some? && 0 < st.call.expected <= |st.file.value|))
  }

  lemma PrefixOf(a: Bytes, b: Bytes, whole: Bytes)
    requires IsPrefix(a + b, whole)
    ensures IsPrefix(a, whole)
  {
    assert whole[..|a + b|][..|a|] == (a + b)[..|a|] == a;
  }

  lemma ConcatOne(c: Bytes)
    ensures Concat([c]) == c
  {
    assert [c][..0] == [];
    assert Concat([c]) == Concat([]) + c == c;
  }

  lemma {:induction false} ConcatFirst(chunks: seq<Bytes>)
    requires chunks != []
    ensures Concat(chunks) == chunks[0] + Concat(chunks[1..])
  {
    var last := |chunks| - 1;
    if last == 0 {
      ConcatOne(chunks[0]);
      assert chunks == [chunks[0]];
    } else {
      ConcatFirst(chunks[..last]);
      assert chunks[..last][1..] == chunks[1..][..last - 1];
      var middle := Concat(chunks[1..][..last - 1]);
      assert Concat(chunks[1..]) == middle + chunks[last];
      assert Concat(chunks) == Concat(chunks[..last]) + chunks[last];
      hide Concat;
      assert (chunks[0] + middle) + chunks[last] == chunks[0] + (middle + chunks[last]);
    }
  }

  lemma ConsistentFile(st: State, remote: Bytes, n: nat)
    requires Consistent(st, remote) && st.call.Streaming? && n <= |st.call.buffered|
    ensures IsPrefix(st.file.value + st.call.buffered[..n], remote)
  {
    var f, b, rest := st.file.value, st.call.buffered, Concat(st.call.rest);
    ConcatOne(f + b + rest);
    assert f + b + rest == (f + b[..n]) + (b[n..] + rest);
    PrefixOf(f + b[..n], b[n..] + rest, remote);
  }

  lemma SuffixPrefix(remote: Bytes, start: nat, body: Bytes)
    requires start <= |remote| && IsPrefix(body, remote[start..])
    ensures IsPrefix(remote[..start] + body, remote)
    ensures body == remote[start..] ==> remote[..start] + body == remote
  {
    assert remote == remote[..start] + remote[start..];
    assert (remote[..start] + remote[start..])[..start + |body|] == remote[..start] + remote[start..][..|body|];
  }

  lemma AnswerConsistent(st: State, reply: Reply, remote: Bytes)
    requires Consistent(st, remote) && st.call.Asking? && Conforming(reply, st.call.start, remote)
    ensures Consistent(Apply(st, Answer(reply)), remote)
  {
    if reply.Response? && IsSuccess(reply.status) {
      var next := Apply(st, Answer(reply));
      var body := Concat(reply.chunks);
      ConcatOne(next.file.value + [] + body);
      hide Concat;
      if Appends(reply, st.call.start) {
        var start := st.call.start;
        assert next.file.value == remote[..start];
        assert next.file.value + [] + body == remote[..start] + body;
        SuffixPrefix(remote, start, body);
      } else {
        assert next.file.value + [] + body == body;
      }
    }
  }

  lemma StepConsistent(st: State, e: Event, remote: Bytes)
    requires Consistent(st, remote) && Enabled(st, e)
    requires e.Answer? ==> Conforming(e.reply, st.call.start, remote)
    ensures Consistent(Apply(st, e), remote)
  {
    match e
    case Begin(_, _) =>
    case Answer(reply) =>
      AnswerConsistent(st, reply, remote);
    case Chunk =>
      ConcatFirst(st.call.rest);
      assert st.file.value + st.call.buffered + Concat(st.call.rest)
          == st.file.value + (st.call.buffered + st.call.rest[0]) + Concat(st.call.rest[1..]);
    case WriteBack(n) =>
      ConsistentFile(st, remote, n);
      assert st.file.value + st.call.buffered + Concat(st.call.rest)
          == (st.file.value + st.call.buffered[..n]) + st.call.buffered[n..] + Concat(st.call.rest);
    case Finish =>
      ConsistentFile(st, remote, |st.call.buffered|);
      ConcatOne(st.file.value + st.call.buffered + Concat([]));
      assert st.file.value + st.call.buffered + Concat([]) == st.file.value + st.call.buffered;
    case Fail(n) =>
      ConsistentFile(st, remote, n);
    case Crash(n) =>
      if st.call.Streaming? {
        ConsistentFile(st, remote, n);
      }
  }

  lemma {:induction false} RunConsistent(remote: Bytes, st: State, events: seq<Event>)
    requires Consistent(st, remote) && ValidRun(remote, st, events)
    ensures Consistent(After(remote, st, events), remote)
  {
    hide Consistent;
    hide Conforming;
    if events != [] {
      RunConsistent(remote, st, events[..|events| - 1]);
      StepConsistent(After(remote, st, events[..|events| - 1]), events[|events| - 1], remote);
    }
  }

  /**
   However calls, crashes and errors follow each other, the file is always a prefix of the object; and while a
   reply streams in, the reported count is what is on disk or on the way to it.
   */
  lemma PrefixAlways(remote: Bytes, file: Option<Bytes>, events: seq<Event>)
    requires HoldsPrefix(file, remote) && ValidRun(remote, State(file, Idle), events)
    ensures var st := After(remote, State(file, Idle), events);
      && HoldsPrefix(st.file, remote)
      && (st.call.Streaming? ==> st.file.Some? && st.call.downloaded == |st.file.value| + |st.call.buffered|)
  {
    RunConsistent(remote, State(file, Idle), events);
  }

  // ----- What a successful return means -----

  /** Whatever happened before, a call with this expected size that returns success leaves the whole object. */
  ghost predicate SuccessIsWhole(remote: Bytes, expected: nat) {
    forall file, events |
        HoldsPrefix(file, remote) && ValidRun(remote, State(file, Idle), events)
        && After(remote, State(file, Idle), events).call == Returned(expected, true) ::
      After(remote, State(file, Idle), events).file == Some(remote)
  }

  /** Success means the whole object exactly when the expected size is unknown (zero) or not below the real one. */
  lemma SuccessIsWholeIff(remote: Bytes, expected: nat)
    ensures SuccessIsWhole(remote, expected) <==> expected == 0 || expected >= |remote|
  {
    if expected == 0 || expected >= |remote| {
      forall file, events |
          HoldsPrefix(file, remote) && ValidRun(remote, State(file, Idle), events)
          && After(remote, State(file, Idle), events).call == Returned(expected, true)
        ensures After(remote, State(file, Idle), events).file == Some(remote)
      {
        RunConsistent(remote, State(file, Idle), events);
        assert remote[..|remote|] == remote;
      }
    } else {
      CrashThenShort(remote, expected);
    }
  }

  /** From no file at all: a reply breaks off by a crash, and the next call takes what is there for complete. */
  lemma CrashedRun(remote: Bytes, expected: nat) returns (events: seq<Event>)
    requires 0 < expected < |remote|
    ensures ValidRun(remote, State(None, Idle), events)
    ensures After(remote, State(None, Idle), events) == State(Some(remote[..expected]), Returned(expected, true))
  {
    var start := State(None, Idle);
    NoEvents(remote, start);
    hide ValidRun;
    hide After;
    hide Conforming;
    var begin, reply := Begin(true, expected), Response(200, [remote], false);
    WholeReplyConforms(remote);
    RunStep(remote, start, [], begin, State(None, Asking(expected, 0)));
    var events1 := [] + [begin];
    RunStep(remote, start, events1, Answer(reply), State(Some([]), Streaming(expected, [remote], false, [], 0)));
    var events2 := events1 + [Answer(reply)];
    assert [remote][1..] == [] && [] + remote == remote;
    RunStep(remote, start, events2, Chunk, State(Some([]), Streaming(expected, [], false, remote, |remote|)));
    var events3 := events2 + [Chunk];
    assert [] + remote[..expected] == remote[..expected];
    RunStep(remote, start, events3, Crash(expected), State(Some(remote[..expected]), Idle));
    var events4 := events3 + [Crash(expected)];
    RunStep(remote, start, events4, begin, State(Some(remote[..expected]), Returned(expected, true)));
    events := events4 + [begin];
  }

  lemma WholeReplyConforms(remote: Bytes)
    ensures Conforming(Response(200, [remote], false), 0, remote)
  {
    ConcatOne(remote);
    assert remote[..|remote|] == remote;
  }

  lemma NoEvents(remote: Bytes, st: State)
    ensures ValidRun(remote, st, []) && After(remote, st, []) == st
  {
  }

  lemma CrashThenShort(remote: Bytes, expected: nat)
    requires 0 < expected < |remote|
    ensures !SuccessIsWhole(remote, expected)
  {
    var events := CrashedRun(remote, expected);
    hide ValidRun;
    hide After;
    assert HoldsPrefix(None, remote);
    assert After(remote, State(None, Idle), events).file != Some(remote);
  }

  lemma RunStep(remote: Bytes, st: State, events: seq<Event>, e: Event, next: State)
    requires ValidRun(remote, st, events) && Enabled(After(remote, st, events), e)
    requires e.Answer? ==> Conforming(e.reply, After(remote, st, events).call.start, remote)
    requires next == Apply(After(remote, st, events), e)
    ensures ValidRun(remote, st, events + [e]) && After(remote, st, events + [e]) == next
  {
    assert (events + [e])[..|events|] == events;
  }

  // ----- What is lost -----

  function Length(file: Option<Bytes>): nat { if file.Some? then |file.value| else 0 }

  /** The only event that shortens the file is a reply with the whole object to a call that found some of it. */
  lemma ShrinksIff(st: State, e: Event, remote: Bytes)
    requires Consistent(st, remote) && Enabled(st, e)
    requires e.Answer? ==> Conforming(e.reply, st.call.start, remote)
    ensures Length(Apply(st, e).file) < Length(st.file)
       <==> e.Answer? && e.reply.Response? && e.reply.status == 200 && Length(st.file) > 0
  {
  }

  /** Over any run: bytes on disk are lost only if some reply was the whole object. */
  lemma {:induction false} LossNeedsWholeReply(remote: Bytes, st: State, events: seq<Event>)
    requires Consistent(st, remote) && ValidRun(remote, st, events)
    requires Length(After(remote, st, events).file) < Length(st.file)
    ensures exists e :: e in events && e.Answer? && e.reply.Response? && e.reply.status == 200
  {
    hide Consistent;
    hide Conforming;
    hide Apply;
    var front, last := events[..|events| - 1], events[|events| - 1];
    var before := After(remote, st, front);
    RunConsistent(remote, st, front);
    ShrinksIff(before, last, remote);
    if Length(before.file) < Length(st.file) {
      LossNeedsWholeReply(remote, st, front);
      var e :| e in front && e.Answer? && e.reply.Response? && e.reply.status == 200;
      assert e in events;
    } else {
      assert last in events;
    }
  }

  // ----- The call as a whole -----

  /** The destination: what is on disk, and what the buffered writer has yet to write. */
  class Destination {
    var file: Option<Bytes>
    var pending: Bytes

    constructor (file: Option<Bytes>)
      ensures this.file == file && pending == []
    {
      this.file, pending := file, [];
    }

    method Create()
      modifies this
      ensures file == Some([]) && pending == []
    {
      file, pending := Some([]), [];
    }

    method OpenForAppend()
      modifies this`pending
      ensures pending == []
    {
      pending := [];
    }

    method Write(chunk: Bytes)
      modifies this`pending
      ensures pending == old(pending) + chunk
    {
      pending := pending + chunk;
    }

    /** Drops the writer; only the first `n` pending bytes reach the disk. */
    method Drop(n: nat)
      requires file.Some?
      modifies this
      ensures pending == [] && file == Some(old(file.value) + Taken(old(pending), n))
    {
      file, pending := Some(file.value + Taken(pending, n)), [];
    }

    method Flush()
      requires file.Some?
      modifies this
      ensures pending == [] && file == Some(old(file.value + pending))
    {
      file, pending := Some(file.value + pending), [];
    }
  }

  function Taken(s: Bytes, n: nat): Bytes { if n < |s| then s[..n] else s }

  datatype Outcome = Outcome(file: Option<Bytes>, result: Result<nat, DownloadError>)

  /**
   The effect of a call: its result, with the number of bytes present on success, and the file. When the stream
   breaks, the first `settled` of the bytes received reach the disk.
   */
  function Attempt(file: Option<Bytes>, resume: bool, expected: nat, reply: Reply, settled: nat): Outcome {
    var start := StartByte(file, resume);
    if TakenForComplete(file, resume, expected) then Outcome(file, Success(start))
    else if reply.Unreachable? then Outcome(file, Failure(NetworkError))
    else if !IsSuccess(reply.status) then Outcome(file, Failure(HttpStatus(reply.status)))
    else
      var base := if Appends(reply, start) then file.value else [];
      var body := Concat(reply.chunks);
      if reply.broken then Outcome(Some(base + Taken(body, settled)), Failure(NetworkError))
      else Outcome(Some(base + body), Success(|base| + |body|))
  }

  /** What the progress callback sees: after each chunk, all the bytes so far. */
  function Reported(from: nat, chunks: seq<Bytes>): seq<nat> {
    if chunks == [] then [] else Reported(from, chunks[..|chunks| - 1]) + [from + |Concat(chunks)|]
  }

  function Progress(file: Option<Bytes>, resume: bool, expected: nat, reply: Reply): seq<nat> {
    if TakenForComplete(file, resume, expected) || reply.Unreachable? || !IsSuccess(reply.status) then []
    else Reported(if Appends(reply, StartByte(file, resume)) then StartByte(file, resume) else 0, reply.chunks)
  }

  /** One report for each chunk: the bytes kept, and those of all the chunks up to this one. */
  lemma {:induction false} ReportedAt(from: nat, chunks: seq<Bytes>, k: nat)
    requires k < |chunks|
    ensures |Reported(from, chunks)| == |chunks|
    ensures Reported(from, chunks)[k] == from + |Concat(chunks[..k + 1])|
  {
    var last := |chunks| - 1;
    if k < last {
      ReportedAt(from, chunks[..last], k);
      assert chunks[..last][..k + 1] == chunks[..k + 1];
    } else {
      ReportedLength(from, chunks);
      assert chunks[..k + 1] == chunks;
    }
  }

  lemma {:induction false} ReportedLength(from: nat, chunks: seq<Bytes>)
    ensures |Reported(from, chunks)| == |chunks|
  {
    if chunks != [] {
      ReportedLength(from, chunks[..|chunks| - 1]);
    }
  }

  /**
   The progress reported while a reply streams in: one number for each chunk, namely the bytes of the file that were
   kept and of all chunks up to this one. The last number of a successful call is the size of the file.
   */
  lemma ProgressCounts(file: Option<Bytes>, resume: bool, expected: nat, reply: Reply, settled: nat, k: nat)
    requires reply.Response? && 200 <= reply.status < 300 && !TakenForComplete(file, resume, expected)
    requires k < |reply.chunks|
    ensures var kept := if resume && file.Some? && reply.status == 206 then |file.value| else 0;
      var progress := Progress(file, resume, expected, reply);
      var outcome := Attempt(file, resume, expected, reply, settled);
      && |progress| == |reply.chunks| && progress[k] == kept + |Concat(reply.chunks[..k + 1])|
      && (!reply.broken ==> outcome == Outcome(outcome.file, Success(progress[|progress| - 1]))
                            && Length(outcome.file) == progress[|progress| - 1])
  {
    var from := if Appends(reply, StartByte(file, resume)) then StartByte(file, resume) else 0;
    ReportedAt(from, reply.chunks, k);
    ReportedAt(from, reply.chunks, |reply.chunks| - 1);
    assert reply.chunks[..|reply.chunks|] == reply.chunks;
  }

  method Stream(destination: Destination, chunks: seq<Bytes>, startByte: nat)
    returns (downloaded: nat, progress: seq<nat>)
    modifies destination`pending
    requires destination.pending == []
    ensures destination.pending == Concat(chunks)
    ensures downloaded == startByte + |Concat(chunks)| && progress == Reported(startByte, chunks)
  {
    downloaded, progress := startByte, [];
    for i := 0 to |chunks|
      invariant destination.pending == Concat(chunks[..i])
      invariant downloaded == startByte + |destination.pending| && progress == Reported(startByte, chunks[..i])
    {
      assert chunks[..i + 1][..i] == chunks[..i];
      destination.Write(chunks[i]);
      downloaded := downloaded + |chunks[i]|;
      progress := progress + [downloaded];
    }
    assert chunks[..|chunks|] == chunks;
  }

  method DownloadFile(destination: Destination, resume: bool, expected: nat, server: nat -> Reply, settled: nat)
    returns (result: Result<nat, DownloadError>, progress: seq<nat>)
    modifies destination
    ensures var file := old(destination.file);
      var reply := server(StartByte(file, resume));
      && Outcome(destination.file, result) == Attempt(file, resume, expected, reply, settled)
      && progress == Progress(file, resume, expected, reply)
  {
    var startByte := 0;
    if resume && destination.file.Some? {
      startByte := |destination.file.value|;
      if expected > 0 && startByte >= expected {
        return Success(startByte), [];
      }
    }
    var response := server(startByte);
    if response.Unreachable? {
      return Failure(NetworkError), [];
    }
    if !IsSuccess(response.status) && response.status != 206 {
      return Failure(HttpStatus(response.status)), [];
    }
    var isPartial := response.status == 206;
    if startByte > 0 && !isPartial {
      startByte := 0;
    }
    if startByte > 0 && isPartial {
      destination.OpenForAppend();
    } else {
      destination.Create();
    }
    var downloaded;
    downloaded, progress := Stream(destination, response.chunks, startByte);
    if response.broken {
      destination.Drop(settled);
      return Failure(NetworkError), progress;
    }
    destination.Flush();
    result := Success(downloaded);
  }

  /** The events of an undisturbed call. */
  function Trace(file: Option<Bytes>, resume: bool, expected: nat, reply: Reply, settled: nat): seq<Event> {
    if TakenForComplete(file, resume, expected) then [Begin(resume, expected)]
    else if reply.Unreachable? || !IsSuccess(reply.status) then [Begin(resume, expected), Answer(reply)]
    else
      [Begin(resume, expected), Answer(reply)] + seq(|reply.chunks|, i => Chunk)
      + if reply.broken then [Fail(|Taken(Concat(reply.chunks), settled)|)] else [Finish]
  }

  function Chunks(n: nat): seq<Event> { seq(n, i => Chunk) }

  /** The steps of an undisturbed call lead to the effect of the call as a whole. */
  lemma AttemptIsRun(remote: Bytes, file: Option<Bytes>, resume: bool, expected: nat, reply: Reply, settled: nat)
    requires Conforming(reply, StartByte(file, resume), remote)
    ensures var st, events := State(file, Idle), Trace(file, resume, expected, reply, settled);
      var outcome := Attempt(file, resume, expected, reply, settled);
      && ValidRun(remote, st, events)
      && After(remote, st, events) == State(outcome.file, Returned(expected, outcome.result.Success?))
  {
    var st, begin := State(file, Idle), Begin(resume, expected);
    NoEvents(remote, st);
    hide ValidRun;
    hide After;
    hide Conforming;
    RunStep(remote, st, [], begin, Apply(st, begin));
    assert [] + [begin] == [begin];
    if !TakenForComplete(file, resume, expected) {
      var asked := Apply(st, begin);
      RunStep(remote, st, [begin], Answer(reply), Apply(asked, Answer(reply)));
      assert [begin] + [Answer(reply)] == [begin, Answer(reply)];
      if reply.Response? && IsSuccess(reply.status) {
        var at := Apply(asked, Answer(reply));
        StreamIsRun(remote, st, [begin, Answer(reply)], at, reply.chunks, |reply.chunks|);
        assert reply.chunks[..|reply.chunks|] == reply.chunks;
        StreamEnds(remote, st, [begin, Answer(reply)] + Chunks(|reply.chunks|), reply, settled);
      }
    }
  }

  /** After `n` chunks, none of which has reached the disk. */
  function Received(at: State, chunks: seq<Bytes>, n: nat): State
    requires at.call.Streaming? && n <= |chunks|
  {
    at.(call := at.call.(rest := chunks[n..], buffered := Concat(chunks[..n]),
                         downloaded := at.call.downloaded + |Concat(chunks[..n])|))
  }

  lemma ReceiveNext(at: State, chunks: seq<Bytes>, n: nat)
    requires at.call.Streaming? && n < |chunks|
    ensures Enabled(Received(at, chunks, n), Chunk)
    ensures Apply(Received(at, chunks, n), Chunk) == Received(at, chunks, n + 1)
  {
    assert chunks[..n + 1][..n] == chunks[..n];
    assert chunks[n..][1..] == chunks[n + 1..];
  }

  lemma {:induction false} StreamIsRun(
    remote: Bytes, st: State, opening: seq<Event>, at: State, chunks: seq<Bytes>, n: nat)
    requires ValidRun(remote, st, opening) && After(remote, st, opening) == at && n <= |chunks|
    requires at.call.Streaming? && at.call.rest == chunks && at.call.buffered == []
    ensures ValidRun(remote, st, opening + Chunks(n))
    ensures After(remote, st, opening + Chunks(n)) == Received(at, chunks, n)
  {
    hide ValidRun;
    hide After;
    hide Apply;
    hide Enabled;
    if n == 0 {
      assert opening + Chunks(0) == opening;
    } else {
      StreamIsRun(remote, st, opening, at, chunks, n - 1);
      ReceiveNext(at, chunks, n - 1);
      RunStep(remote, st, opening + Chunks(n - 1), Chunk, Received(at, chunks, n));
      assert (opening + Chunks(n - 1)) + [Chunk] == opening + Chunks(n);
    }
  }

  lemma StreamEnds(remote: Bytes, st: State, events: seq<Event>, reply: Reply, settled: nat)
    requires ValidRun(remote, st, events) && reply.Response?
    requires var now := After(remote, st, events);
      && now.file.Some? && now.call.Streaming? && now.call.rest == [] && now.call.broken == reply.broken
      && now.call.buffered == Concat(reply.chunks)
    ensures var body, now := Concat(reply.chunks), After(remote, st, events);
      var last := if reply.broken then Fail(|Taken(body, settled)|) else Finish;
      && ValidRun(remote, st, events + [last])
      && After(remote, st, events + [last])
         == State(Some(now.file.value + if reply.broken then Taken(body, settled) else body),
                  Returned(now.call.expected, !reply.broken))
  {
    var now, body := After(remote, st, events), Concat(reply.chunks);
    var last := if reply.broken then Fail(|Taken(body, settled)|) else Finish;
    hide ValidRun;
    hide After;
    hide Conforming;
    hide Concat;
    assert now.file.value + body[..|body|] == now.file.value + body;
    RunStep(remote, st, events, last, Apply(now, last));
  }

  /**
   What the status decides, in numbers: outside 200 to 299 the call fails and the file stays; 206 to a call that
   asked for a range appends to it, any other status in that range starts over.
   */
  lemma StatusDecides(file: Option<Bytes>, resume: bool, expected: nat, reply: Reply, settled: nat)
    requires reply.Response? && !TakenForComplete(file, resume, expected)
    ensures var outcome := Attempt(file, resume, expected, reply, settled);
      var start := if resume && file.Some? then |file.value| else 0;
      var kept := if start > 0 && reply.status == 206 then file.value else [];
      && (outcome.result == Failure(HttpStatus(reply.status)) <==> reply.status < 200 || reply.status >= 300)
      && (outcome.result == Failure(HttpStatus(reply.status)) ==> outcome.file == file)
      && (200 <= reply.status < 300 ==>
            && outcome.file.Some?
            && IsPrefix(kept, outcome.file.value)
            && IsPrefix(outcome.file.value, kept + Concat(reply.chunks))
            && |outcome.file.value| == |kept| + (if reply.broken then Min(settled, |Concat(reply.chunks)|)
                                                 else |Concat(reply.chunks)|)
            && (outcome.result.Success? <==> !reply.broken))
  {
    var body := Concat(reply.chunks);
    var kept := if StartByte(file, resume) > 0 && reply.status == 206 then file.value else [];
    var taken := Taken(body, settled);
    assert kept + taken == (kept + body)[..|kept| + |taken|];
    assert (kept + taken)[..|kept|] == kept && (kept + body)[..|kept|] == kept;
    assert kept + body == (kept + body)[..|kept + body|];
  }

  /** The call leaves a complete file alone and reports success, whatever the server would answer. */
  ghost predicate LeavesComplete(remote: Bytes, resume: bool, expected: nat) {
    forall reply, settled: nat | Conforming(reply, StartByte(Some(remote), resume), remote) ::
      Attempt(Some(remote), resume, expected, reply, settled) == Outcome(Some(remote), Success(|remote|))
  }

  /** A complete file is recognised exactly when resuming with a known expected size not above the real one. */
  lemma CompleteFileRecognisedIff(remote: Bytes, resume: bool, expected: nat)
    ensures LeavesComplete(remote, resume, expected) <==> resume && 0 < expected <= |remote|
  {
    if !(resume && 0 < expected <= |remote|) {
      assert Conforming(Unreachable, StartByte(Some(remote), resume), remote);
      assert Attempt(Some(remote), resume, expected, Unreachable, 0).result.Failure?;
    }
  }

  /** Otherwise a resuming call on it can only fail and leave it, or fetch everything again. */
  lemma CompleteFileAskedFor(remote: Bytes, expected: nat, reply: Reply, settled: nat)
    requires remote != [] && (expected == 0 || expected > |remote|) && Conforming(reply, |remote|, remote)
    ensures var outcome := Attempt(Some(remote), true, expected, reply, settled);
      || (outcome.result.Failure? && outcome.file == Some(remote))
      || (reply.Response? && reply.status == 200
          && (outcome.result.Success? ==> outcome == Outcome(Some(remote), Success(|remote|)))
          && (outcome.result.Failure? ==> outcome.file == Some(Taken(Concat(reply.chunks), settled))))
  {
    if reply.Response? {
      var body := Concat(reply.chunks);
      assert [] + body == body && [] + Taken(body, settled) == Taken(body, settled);
    }
  }

  // ----- Retrying -----

  /** One retry: what the server answers, and how much of it reaches the disk if the stream breaks. */
  datatype Retry = Retry(reply: Reply, settled: nat)

  /** The reply is what was asked for, and if it breaks, some of it reaches the disk. */
  ghost predicate Productive(t: Retry, start: nat, remote: Bytes) {
    && Conforming(t.reply, start, remote)
    && t.reply.Response? && t.reply.status == (if start > 0 then 206 else 200)
    && (t.reply.broken ==> Taken(Concat(t.reply.chunks), t.settled) != [])
  }

  /** The outcome of the last of several calls that resume, with the true size expected. */
  function Retried(remote: Bytes, tries: seq<Retry>): Outcome
    requires tries != []
  {
    var last := tries[|tries| - 1];
    var file := if |tries| == 1 then None else Retried(remote, tries[..|tries| - 1]).file;
    Attempt(file, true, |remote|, last.reply, last.settled)
  }

  ghost predicate AllProductive(remote: Bytes, tries: seq<Retry>)
    decreases |tries|
  {
    tries == []
    || (AllProductive(remote, tries[..|tries| - 1])
        && var file := if |tries| == 1 then None else Retried(remote, tries[..|tries| - 1]).file;
           Productive(tries[|tries| - 1], Length(file), remote) || TakenForComplete(file, true, |remote|))
  }

  lemma OneRetry(remote: Bytes, file: Option<Bytes>, t: Retry)
    requires HoldsPrefix(file, remote)
    requires Productive(t, Length(file), remote) || TakenForComplete(file, true, |remote|)
    ensures var outcome := Attempt(file, true, |remote|, t.reply, t.settled);
      && HoldsPrefix(outcome.file, remote) && outcome.file.Some?
      && (outcome.result.Success? ==> outcome.file == Some(remote))
      && (outcome.result.Failure? ==> Length(outcome.file) > Length(file))
  {
    if !TakenForComplete(file, true, |remote|) {
      var start := Length(file);
      assert start == StartByte(file, true);
      var body := Concat(t.reply.chunks);
      var base := if Appends(t.reply, start) then file.value else [];
      assert base == remote[..start];
      assert remote == remote[..start] + remote[start..];
      assert IsPrefix(body, remote[start..]);
      assert body == remote[start..][..|body|] == remote[start..start + |body|];
      assert Taken(body, t.settled) == remote[start..][..|Taken(body, t.settled)|];
      assert base + Taken(body, t.settled) == remote[..start + |Taken(body, t.settled)|];
      assert !t.reply.broken ==> base + body == remote;
    } else {
      assert remote[..|remote|] == remote;
    }
  }

  /** Calls that each get at least one new byte onto the disk fail at most as often as the object has bytes. */
  lemma {:induction false} FailuresBounded(remote: Bytes, tries: seq<Retry>)
    requires tries != [] && AllProductive(remote, tries)
    ensures var outcome := Retried(remote, tries);
      && HoldsPrefix(outcome.file, remote) && outcome.file.Some?
      && (outcome.result.Success? ==> outcome.file == Some(remote))
      && (outcome.result.Failure? ==> |tries| <= |remote|)
  {
    RetriesAdvance(remote, tries);
  }

  lemma {:induction false} RetriesAdvance(remote: Bytes, tries: seq<Retry>)
    requires tries != [] && AllProductive(remote, tries)
    ensures var outcome := Retried(remote, tries);
      && HoldsPrefix(outcome.file, remote) && outcome.file.Some?
      && (outcome.result.Success? ==> outcome.file == Some(remote))
      && (outcome.result.Failure? ==> Length(outcome.file) >= |tries|)
  {
    hide Attempt;
    hide Productive;
    var front, last := tries[..|tries| - 1], tries[|tries| - 1];
    if |tries| == 1 {
      OneRetry(remote, None, last);
    } else {
      RetriesAdvance(remote, front);
      OneRetry(remote, Retried(remote, front).file, last);
    }
  }
}
