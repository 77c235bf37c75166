/** Transactional reads from a device whose bytes arrive over time. */
module StreamReaders {
  import opened Common
  import opened LogBytes

  // ---- Requests answered from the whole stream ----

  datatype Request = Bytes(count: nat) | Until(terminator: Byte)

  /** The first occurrence at or after `from`, -1 if there is none. */
  function IndexOf(s: seq<Byte>, b: Byte, from: nat): (i: int)
    requires from <= |s|
    ensures i == -1 ==> b !in s[from..]
    ensures i != -1 ==> from <= i < |s| && s[i] == b && b !in s[from..i]
    decreases |s| - from
  {
    if from == |s| then -1
    else if s[from] == b then from
    else
      var i := IndexOf(s, b, from + 1);
      assert s[from..] == [s[from]] + s[from + 1..];
      assert i != -1 ==> s[from..i] == [s[from]] + s[from + 1..i];
      i
  }

  /** Where a request's answer ends in the stream; nothing if the stream is too short. */
  function AnswerEnd(stream: seq<Byte>, cursor: nat, r: Request): (e: Option<nat>)
    requires cursor <= |stream|
    ensures e.Some? ==> cursor <= e.value <= |stream|
  {
    match r
    case Bytes(count) => if cursor + count <= |stream| then Some(cursor + count) else None
    case Until(terminator) =>
      var i := IndexOf(stream, terminator, cursor);
      if i == -1 then None else Some(i + 1)
  }

  /** What a request asks for: so many bytes, or those up to and including the first terminator. */
  predicate IsAnswer(r: Request, data: seq<Byte>) {
    match r
    case Bytes(count) => |data| == count
    case Until(terminator) => data != [] && data[|data| - 1] == terminator && terminator !in data[..|data| - 1]
  }

  /** The answer is the one stretch of the stream from the cursor on that is what the request asks for. */
  lemma {:induction false} AnswerEndExactly(stream: seq<Byte>, cursor: nat, r: Request, end: nat)
    requires cursor <= end <= |stream|
    ensures AnswerEnd(stream, cursor, r) == Some(end) <==> IsAnswer(r, stream[cursor..end])
  {
    hide IndexOf;
    if r.Until? {
      var data, i := stream[cursor..end], IndexOf(stream, r.terminator, cursor);
      if IsAnswer(r, data) {
        assert data[..|data| - 1] == stream[cursor..end - 1] && data[|data| - 1] == stream[end - 1];
        FirstIsIndex(stream, r.terminator, cursor, end - 1);
      }
      if i != -1 && end == i + 1 {
        assert data[..|data| - 1] == stream[cursor..i] && data[|data| - 1] == stream[i];
      }
    }
  }

  datatype Answers = Answers(data: seq<seq<Byte>>, end: nat)

  /** The answers to consecutive requests, and where the last one ends. */
  function AnswerAll(stream: seq<Byte>, requests: seq<Request>): (a: Option<Answers>)
    ensures a.Some? ==> |a.value.data| == |requests| && a.value.end <= |stream|
  {
    if requests == [] then Some(Answers([], 0))
    else
      var before := AnswerAll(stream, requests[..|requests| - 1]);
      if before.None? then None
      else
        var end := AnswerEnd(stream, before.value.end, requests[|requests| - 1]);
        if end.None? then None
        else Some(Answers(before.value.data + [stream[before.value.end..end.value]], end.value))
  }

  predicate AreAnswers(requests: seq<Request>, data: seq<seq<Byte>>) {
    |data| == |requests| && forall i :: 0 <= i < |requests| ==> IsAnswer(requests[i], data[i])
  }

  function Joined(data: seq<seq<Byte>>): seq<Byte> {
    if data == [] then [] else Joined(data[..|data| - 1]) + data[|data| - 1]
  }

  /** Some data answer the requests exactly if they are what each asks for and, joined, begin the stream. */
  lemma {:induction false} AnswersExactly(stream: seq<Byte>, requests: seq<Request>, data: seq<seq<Byte>>)
    ensures AnswerAll(stream, requests) == Some(Answers(data, |Joined(data)|)) <==> AreAnswers(requests, data) && Joined(data) <= stream
    ensures var a := AnswerAll(stream, requests); a.Some? && a.value.data == data ==> a.value.end == |Joined(data)|
    decreases |requests|
  {
    hide AnswerEnd, IsAnswer;
    if requests != [] && |data| == |requests| {
      var n := |data| - 1;
      var front, earlier := data[..n], requests[..n];
      var before, joined := AnswerAll(stream, earlier), Joined(front);
      AnswersExactly(stream, earlier, front);
      assert data == front + [data[n]];
      OneMoreStretch(stream, joined, data[n]);
      if joined <= stream && |joined| + |data[n]| <= |stream| {
        AnswerEndExactly(stream, |joined|, requests[n], |joined| + |data[n]|);
      }
      MoreAnswers(requests, data);
      LastAnswer(stream, requests, data);
    }
  }

  /** The result for all requests is the result for all but the last, and the last answer. */
  lemma {:induction false} LastAnswer(stream: seq<Byte>, requests: seq<Request>, data: seq<seq<Byte>>)
    requires requests != [] && |data| == |requests|
    ensures var n := |data| - 1;
      var a, before := AnswerAll(stream, requests), AnswerAll(stream, requests[..n]);
      (a.Some? && a.value.data == data) <==>
        (before.Some? && before.value.data == data[..n]
          && var e := AnswerEnd(stream, before.value.end, requests[n]); e.Some? && stream[before.value.end..e.value] == data[n])
    ensures var n := |data| - 1;
      var a, before := AnswerAll(stream, requests), AnswerAll(stream, requests[..n]);
      a.Some? ==> before.Some? && AnswerEnd(stream, before.value.end, requests[n]) == Some(a.value.end)
  {
    hide AnswerEnd;
    var n := |data| - 1;
    assert data == data[..n] + [data[n]];
  }

  lemma MoreAnswers(requests: seq<Request>, data: seq<seq<Byte>>)
    requires requests != [] && |data| == |requests|
    ensures var n := |data| - 1; AreAnswers(requests, data) <==> AreAnswers(requests[..n], data[..n]) && IsAnswer(requests[n], data[n])
  {
    hide IsAnswer;
    var n := |data| - 1;
    if AreAnswers(requests[..n], data[..n]) && IsAnswer(requests[n], data[n]) {
      forall i | 0 <= i < |requests| ensures IsAnswer(requests[i], data[i]) {
        if i < n {
          assert IsAnswer(requests[..n][i], data[..n][i]);
        }
      }
    }
  }

  lemma OneMoreStretch(stream: seq<Byte>, joined: seq<Byte>, last: seq<Byte>)
    ensures joined + last <= stream
      <==> joined <= stream && |joined| + |last| <= |stream| && stream[|joined|..|joined| + |last|] == last
  {
    if joined <= stream && |joined| + |last| <= |stream| && stream[|joined|..|joined| + |last|] == last {
      assert stream[..|joined| + |last|] == stream[..|joined|] + stream[|joined|..|joined| + |last|];
    }
    if joined + last <= stream {
      assert stream[..|joined + last|] == joined + last;
      assert stream[..|joined + last|][..|joined|] == joined && stream[..|joined + last|][|joined|..] == last;
    }
  }

  /** There is only one way to answer requests from the front of a stream. */
  lemma {:induction false} AnswersUnique(stream: seq<Byte>, requests: seq<Request>, data: seq<seq<Byte>>, data': seq<seq<Byte>>)
    requires AreAnswers(requests, data) && Joined(data) <= stream
    requires AreAnswers(requests, data') && Joined(data') <= stream
    ensures data == data'
  {
    AnswersExactly(stream, requests, data);
    AnswersExactly(stream, requests, data');
  }

  /** Later bytes do not change an answer that has been found. */
  lemma AnswerStable(seen: seq<Byte>, later: seq<Byte>, cursor: nat, r: Request)
    requires cursor <= |seen| && AnswerEnd(seen, cursor, r).Some?
    ensures AnswerEnd(seen + later, cursor, r) == AnswerEnd(seen, cursor, r)
  {
    if r.Until? {
      var i := IndexOf(seen, r.terminator, cursor);
      assert (seen + later)[cursor..i] == seen[cursor..i];
      FirstIsIndex(seen + later, r.terminator, cursor, i);
    }
  }

  lemma {:induction false} FirstIsIndex(s: seq<Byte>, b: Byte, from: nat, i: nat)
    requires from <= i < |s| && s[i] == b && b !in s[from..i]
    ensures IndexOf(s, b, from) == i
    decreases i - from
  {
    if from < i {
      assert s[from..i] == [s[from]] + s[from + 1..i];
      FirstIsIndex(s, b, from + 1, i);
    }
  }

  /** A transaction over a stream of which only a prefix has arrived either fails there or gives
      the answers of the whole stream. */
  lemma {:induction false} ArrivalIrrelevant(seen: seq<Byte>, later: seq<Byte>, requests: seq<Request>)
    ensures AnswerAll(seen, requests).Some? ==> AnswerAll(seen + later, requests) == AnswerAll(seen, requests)
  {
    if requests != [] && AnswerAll(seen, requests).Some? {
      var before := AnswerAll(seen, requests[..|requests| - 1]);
      var r := requests[|requests| - 1];
      ArrivalIrrelevant(seen, later, requests[..|requests| - 1]);
      AnswerStable(seen, later, before.value.end, r);
      var end := AnswerEnd(seen, before.value.end, r);
      assert (seen + later)[before.value.end..end.value] == seen[before.value.end..end.value];
    }
  }

  /** Answers of the whole stream that end within what has arrived are answers there too. */
  lemma {:induction false} AnswersArrived(seen: seq<Byte>, later: seq<Byte>, requests: seq<Request>)
    requires var a := AnswerAll(seen + later, requests); a.Some? && a.value.end <= |seen|
    ensures AnswerAll(seen, requests) == AnswerAll(seen + later, requests)
  {
    if requests != [] {
      var r, before := requests[|requests| - 1], AnswerAll(seen + later, requests[..|requests| - 1]);
      var end := AnswerEnd(seen + later, before.value.end, r);
      AnswersArrived(seen, later, requests[..|requests| - 1]);
      AnswerArrived(seen, later, before.value.end, r);
      assert (seen + later)[before.value.end..end.value] == seen[before.value.end..end.value];
    }
  }

  lemma AnswerArrived(seen: seq<Byte>, later: seq<Byte>, cursor: nat, r: Request)
    requires cursor <= |seen|
    requires var e := AnswerEnd(seen + later, cursor, r); e.Some? && e.value <= |seen|
    ensures AnswerEnd(seen, cursor, r) == AnswerEnd(seen + later, cursor, r)
  {
    if r.Until? {
      var i := IndexOf(seen + later, r.terminator, cursor);
      assert seen[cursor..i] == (seen + later)[cursor..i];
      FirstIsIndex(seen, r.terminator, cursor, i);
    }
  }

  // ---- The device and the reader ----

  /** `pending` has been delivered and not read; `future` is what the peer has yet to send. */
  class Device {
    var pending: seq<Byte>
    var future: seq<Byte>

    constructor (stream: seq<Byte>)
      ensures pending == [] && future == stream
    {
      pending, future := [], stream;
    }

    /** The peer delivers `count` more bytes, or all it still has. */
    method Deliver(count: nat)
      modifies this
      ensures pending + future == old(pending + future)
      ensures |pending| >= |old(pending)|
    {
      var n := if count < |future| then count else |future|;
      assert future == future[..n] + future[n..];
      pending, future := pending + future[..n], future[n..];
    }

    /** Up to `length` bytes; the device may hand out less (`most` bounds it), or report an error
        as a negative or empty read. */
    method Read(length: nat, most: int) returns (bytesRead: int, bytes: seq<Byte>)
      requires length <= |pending|
      modifies this`pending
      ensures bytesRead <= length && |bytes| == if bytesRead > 0 then bytesRead else 0
      ensures old(pending) == bytes + pending
      ensures bytesRead == if most < length then most else length
    {
      bytesRead := if most < length then most else length;
      var taken := if bytesRead > 0 then bytesRead else 0;
      bytes := pending[..taken];
      pending := pending[taken..];
    }
  }

  /** How one attempt to fill the buffer turns out: bytes that arrive just before it, and the
      most the device then hands out. */
  datatype Turn = Turn(arriving: nat, most: int)

  /** The device never holds back everything it has. */
  predicate Willing(turns: seq<Turn>) {
    forall k :: 0 <= k < |turns| ==> turns[k].most > 0
  }

  /** After the turns given, nothing more arrives. */
  function TurnAt(turns: seq<Turn>, k: nat): (turn: Turn)
    ensures Willing(turns) ==> turn.most > 0
  {
    if k < |turns| then turns[k] else Turn(0, 1)
  }

  class StreamReader {
    const device: Device
    var buffer: seq<Byte>
    var cursor: nat
    var failed: bool

    ghost predicate Valid()
      reads this
    {
      cursor <= |buffer|
    }

    /** Everything not yet committed: buffered, delivered or still to come. */
    ghost function Stream(): seq<Byte>
      reads this, device
    {
      buffer + device.pending + device.future
    }

    constructor (device: Device)
      ensures Valid() && this.device == device && buffer == [] && cursor == 0 && !failed
    {
      this.device := device;
      buffer, cursor, failed := [], 0, false;
    }

    method StartTransaction()
      modifies this`cursor, this`failed
      ensures Valid() && cursor == 0 && !failed
    {
      cursor := 0;
      failed := false;
    }

    /** Takes over what has arrived. */
    method Fill(turn: Turn) returns (ok: bool)
      modifies this`buffer, device
      ensures Stream() == old(Stream()) && old(buffer) <= buffer
      ensures ok <==> |buffer| > |old(buffer)|
      ensures !ok && turn.most > 0 ==> device.pending == []
    {
      ghost var whole := Stream();
      device.Deliver(turn.arriving);
      assert Stream() == buffer + (device.pending + device.future) == whole;
      var available := |device.pending|;
      if available <= 0 {
        return false;
      }
      var bytesRead, bytes := device.Read(available, turn.most);
      if bytesRead <= 0 {
        assert bytes == [];
        return false;
      }
      assert buffer + bytes + device.pending == buffer + (bytes + device.pending);
      buffer := buffer + bytes;
      assert Stream() == whole;
      return true;
    }

    /** `turns` is how the device behaves, fill by fill. */
    method ReadBytes(count: nat, turns: seq<Turn>) returns (data: seq<Byte>)
      requires Valid()
      modifies this, device
      ensures Answered(Bytes(count), old(failed), old(cursor), old(buffer), old(Stream()), data)
      ensures !failed ==> |data| == count
      ensures failed && !old(failed) ==> |buffer| < cursor + count
      ensures RightlyFailed(old(failed), old(buffer), old(device.pending), turns)
    {
      if failed {
        return [];
      }

      var needed := cursor + count;
      var attempt := 0;
      while |buffer| < needed
        invariant Filling(old(cursor), old(buffer), old(Stream())) && !failed
        decreases |Stream()| - |buffer|
      {
        var ok := Fill(TurnAt(turns, attempt));
        attempt := attempt + 1;
        if !ok {
          failed := true;
          return [];
        }
      }

      data := buffer[cursor..needed];
      Taken(Bytes(count), data, needed);
      cursor := needed;
    }

    /** Fills until the terminator is in the buffer; -1 when a fill brings nothing. */
    method Search(terminator: Byte, turns: seq<Turn>) returns (idx: int)
      requires Valid()
      modifies this`buffer, device
      ensures Filling(old(cursor), old(buffer), old(Stream()))
      ensures idx == IndexOf(buffer, terminator, cursor)
      ensures idx == -1 && Willing(turns) ==> device.pending == []
    {
      var searchFrom := cursor;
      idx := IndexOf(buffer, terminator, searchFrom);
      var attempt := 0;
      while idx == -1
        invariant Filling(old(cursor), old(buffer), old(Stream()))
        invariant cursor <= searchFrom <= |buffer| && terminator !in buffer[cursor..searchFrom]
        invariant idx == IndexOf(buffer, terminator, searchFrom)
        decreases |Stream()| - |buffer|, idx == -1
      {
        hide *;
        ghost var was := buffer;
        NotYet(buffer, terminator, cursor, searchFrom);
        searchFrom := |buffer|;
        var ok := Fill(TurnAt(turns, attempt));
        attempt := attempt + 1;
        assert buffer[cursor..searchFrom] == was[cursor..];
        if !ok {
          Absent(buffer, terminator, cursor);
          return;
        }
        BufferInStream();
        idx := IndexOf(buffer, terminator, searchFrom);
      }
      FoundFirst(buffer, terminator, cursor, searchFrom);
    }

    method ReadUntil(terminator: Byte, turns: seq<Turn>) returns (data: seq<Byte>)
      requires Valid()
      modifies this, device
      ensures Answered(Until(terminator), old(failed), old(cursor), old(buffer), old(Stream()), data)
      ensures !failed ==> IsAnswer(Until(terminator), data)
      ensures failed && !old(failed) ==> terminator !in buffer[cursor..]
      ensures RightlyFailed(old(failed), old(buffer), old(device.pending), turns)
    {
      hide IndexOf;
      if failed {
        return [];
      }
      var idx := Search(terminator, turns);
      if idx == -1 {
        failed := true;
        return [];
      }
      var length := idx - cursor + 1;
      data := buffer[cursor..cursor + length];
      Taken(Until(terminator), data, cursor + length);
      AnswerEndExactly(buffer, cursor, Until(terminator), cursor + length);
      cursor := cursor + length;
    }

    lemma BufferInStream()
      ensures |buffer| <= |Stream()|
    {
    }

    /** The state of a reader between fills. */
    ghost predicate Filling(was: nat, had: seq<Byte>, stream: seq<Byte>)
      reads this, device
    {
      cursor == was <= |had| && had <= buffer && Stream() == stream
    }

    /** A request that succeeds is answered as by the whole stream; one that fails, because what was
        taken over does not hold the answer or an earlier request failed, moves nothing. */
    ghost predicate Answered(
      r: Request, wasFailed: bool, was: nat, had: seq<Byte>, stream: seq<Byte>, data: seq<Byte>)
      reads this, device
    {
      && Valid() && Stream() == stream && had <= buffer && was <= |stream|
      && (wasFailed ==> failed)
      && (failed ==> data == [] && cursor == was && (wasFailed || AnswerEnd(buffer, was, r).None?))
      && (!failed ==> AnswerEnd(stream, was, r) == Some(cursor) && data == stream[was..cursor])
    }

    /** A willing device fails a request only when all that has arrived is in the buffer; after a
        failure nothing more is taken over. */
    ghost predicate RightlyFailed(wasFailed: bool, had: seq<Byte>, pending: seq<Byte>, turns: seq<Turn>)
      reads this, device
    {
      && (wasFailed ==> buffer == had && device.pending == pending)
      && (!wasFailed && failed && Willing(turns) ==> device.pending == [])
    }

    lemma Taken(r: Request, data: seq<Byte>, end: nat)
      requires cursor <= end <= |buffer| && AnswerEnd(buffer, cursor, r) == Some(end) && data == buffer[cursor..end]
      ensures AnswerEnd(Stream(), cursor, r) == Some(end) && data == Stream()[cursor..end]
    {
      AnswerStable(buffer, device.pending + device.future, cursor, r);
      assert Stream() == buffer + (device.pending + device.future);
    }

    /** Commits what was read, or nothing if any read of the transaction failed. */
    method CommitTransaction() returns (ok: bool)
      requires Valid()
      modifies this`buffer, this`cursor
      ensures Valid() && cursor == 0 && ok == !failed
      ensures buffer == if ok then old(buffer)[old(cursor)..] else old(buffer)
      ensures Stream() == if ok then old(Stream())[old(cursor)..] else old(Stream())
    {
      if failed {
        cursor := 0;
        return false;
      }
      ghost var whole := Stream();
      assert whole[cursor..] == buffer[cursor..] + device.pending + device.future;
      buffer := buffer[cursor..];
      cursor := 0;
      return true;
    }
  }

  lemma NotYet(s: seq<Byte>, b: Byte, from: nat, mid: nat)
    requires from <= mid <= |s| && b !in s[from..mid] && IndexOf(s, b, mid) == -1
    ensures b !in s[from..]
  {
    assert s[from..] == s[from..mid] + s[mid..];
  }

  lemma Absent(s: seq<Byte>, b: Byte, from: nat)
    requires from <= |s| && b !in s[from..]
    ensures IndexOf(s, b, from) == -1
  {
    assert forall k :: from <= k < |s| ==> s[k] == s[from..][k - from];
  }

  lemma FoundFirst(s: seq<Byte>, b: Byte, from: nat, mid: nat)
    requires from <= mid <= |s| && b !in s[from..mid]
    ensures IndexOf(s, b, from) == IndexOf(s, b, mid)
    decreases mid - from
  {
    if from < mid {
      assert s[from..mid] == [s[from]] + s[from + 1..mid];
      FoundFirst(s, b, from + 1, mid);
    }
  }

  /** A transaction under way: the answers so far are the stream's, or a failure is due to what
      had arrived. */
  ghost predicate Transacting(
    reader: StreamReader, stream: seq<Byte>, requests: seq<Request>, data: seq<seq<Byte>>, willing: bool)
    reads reader, reader.device
  {
    && reader.Valid() && reader.Stream() == stream
    && (!reader.failed ==> AnswerAll(stream, requests) == Some(Answers(data, reader.cursor)))
    && (reader.failed && willing ==> reader.device.pending == [] && AnswerAll(reader.buffer, requests).None?)
  }

  /** One request of a transaction. */
  method Ask(
    reader: StreamReader, ghost stream: seq<Byte>, requests: seq<Request>, i: nat, data: seq<seq<Byte>>, turns: seq<Turn>,
    ghost willing: bool)
    returns (answer: seq<Byte>)
    requires i < |requests| && Transacting(reader, stream, requests[..i], data, willing)
    requires willing ==> Willing(turns)
    modifies reader, reader.device
    ensures Transacting(reader, stream, requests[..i + 1], data + [answer], willing)
  {
    hide AnswerEnd, Willing, AnswerAll;
    ghost var failed := reader.failed;
    match requests[i] {
      case Bytes(count) => answer := reader.ReadBytes(count, turns);
      case Until(terminator) => answer := reader.ReadUntil(terminator, turns);
    }
    OneMoreAnswer(reader.buffer, requests, i);
    OneMoreAnswer(stream, requests, i);
    if reader.failed && !failed {
      ghost var later := reader.device.pending + reader.device.future;
      assert stream == reader.buffer + later;
      AnswersArrived(reader.buffer, later, requests[..i]);
    }
  }

  /** A whole transaction: whatever the device delivers and however much of it at a time, a
      committed transaction returns the whole stream's answers and removes exactly their bytes,
      and a failed one leaves the stream as it was. It fails on a willing device only if what had
      arrived does not hold the answers. */
  method Transact(reader: StreamReader, requests: seq<Request>, turns: seq<seq<Turn>>)
    returns (ok: bool, data: seq<seq<Byte>>)
    requires reader.Valid() && |turns| == |requests|
    modifies reader, reader.device
    ensures reader.Valid()
    ensures ok ==>
      && var answers := AnswerAll(old(reader.Stream()), requests);
      && answers.Some? && data == answers.value.data
      && reader.Stream() == old(reader.Stream())[answers.value.end..]
    // each answer is what was asked for, and together they are what was removed
    ensures ok ==> AreAnswers(requests, data) && old(reader.Stream()) == Joined(data) + reader.Stream()
    ensures !ok ==> reader.Stream() == old(reader.Stream())
    ensures !ok && (forall k :: 0 <= k < |turns| ==> Willing(turns[k])) ==>
      forall d :: AreAnswers(requests, d) ==> !(Joined(d) <= reader.buffer)
    ensures !ok && (forall k :: 0 <= k < |turns| ==> Willing(turns[k])) ==>
      reader.device.pending == [] && AnswerAll(reader.buffer, requests).None?
  {
    hide Willing, AreAnswers, Joined;
    NoRequests(reader.Stream());
    hide AnswerAll;
    ghost var stream := reader.Stream();
    ghost var willing := forall k :: 0 <= k < |turns| ==> Willing(turns[k]);
    reader.StartTransaction();
    data := [];
    assert requests[..0] == [];
    for i := 0 to |requests|
      invariant Transacting(reader, stream, requests[..i], data, willing)
    {
      var answer := Ask(reader, stream, requests, i, data, turns[i], willing);
      data := data + [answer];
    }
    assert requests[..|requests|] == requests;
    if !reader.failed {
      FoundAnswers(stream, requests, data, reader.cursor);
    } else if willing {
      NoneArrived(reader.buffer, requests);
    }
    ok := reader.CommitTransaction();
  }

  lemma NoRequests(stream: seq<Byte>)
    ensures AnswerAll(stream, []) == Some(Answers([], 0))
  {
  }

  lemma {:induction false} FoundAnswers(stream: seq<Byte>, requests: seq<Request>, data: seq<seq<Byte>>, end: nat)
    requires AnswerAll(stream, requests) == Some(Answers(data, end))
    ensures end <= |stream| && AreAnswers(requests, data) && stream == Joined(data) + stream[end..]
  {
    hide AnswerAll, AreAnswers, Joined;
    AnswersExactly(stream, requests, data);
    assert stream == stream[..end] + stream[end..];
  }

  lemma {:induction false} NoneArrived(seen: seq<Byte>, requests: seq<Request>)
    requires AnswerAll(seen, requests).None?
    ensures forall data :: AreAnswers(requests, data) ==> !(Joined(data) <= seen)
  {
    hide AnswerAll, AreAnswers, Joined;
    forall data ensures AreAnswers(requests, data) ==> !(Joined(data) <= seen) {
      AnswersExactly(seen, requests, data);
    }
  }

  lemma OneMoreAnswer(stream: seq<Byte>, requests: seq<Request>, i: nat)
    requires i < |requests|
    ensures AnswerAll(stream, requests[..i + 1]) ==
      var before := AnswerAll(stream, requests[..i]);
      if before.None? then None
      else
        var end := AnswerEnd(stream, before.value.end, requests[i]);
        if end.None? then None
        else Some(Answers(before.value.data + [stream[before.value.end..end.value]], end.value))
  {
    hide AnswerEnd;
    assert requests[..i + 1][..i] == requests[..i];
  }
}
