/** Splitting a byte stream at a marker, chunk by chunk. */
module SplitParsers {
  import opened LogBytes

  // ---- Splitting a whole text ----

  predicate MatchAt(text: seq<Byte>, marker: seq<Byte>, q: nat) {
    q + |marker| <= |text| && text[q..q + |marker|] == marker
  }

  /** The first match at or after `from`, -1 if there is none. */
  function Find(text: seq<Byte>, marker: seq<Byte>, from: nat): (q: int)
    ensures q == -1 || (from <= q && MatchAt(text, marker, q))
    ensures forall k :: from <= k < (if q == -1 then |text| + 1 else q) ==> !MatchAt(text, marker, k)
    decreases |text| + 1 - from
  {
    if from + |marker| > |text| then -1
    else if MatchAt(text, marker, from) then from
    else Find(text, marker, from + 1)
  }

  datatype Split = Split(records: seq<seq<Byte>>, rest: seq<Byte>)

  /** Cuts at the first match at or after `first`, and then at the first match that leaves at
      least `gap` bytes after the previous one. */
  function Cut(text: seq<Byte>, marker: seq<Byte>, first: nat, gap: nat): Split
    requires marker != []
    decreases |text|
  {
    var q := Find(text, marker, first);
    if q == -1 then Split([], text)
    else
      var more := Cut(text[q + |marker|..], marker, gap, gap);
      Split([text[..q]] + more.records, more.rest)
  }

  /** The leftmost non-overlapping split. */
  function Leftmost(text: seq<Byte>, marker: seq<Byte>): Split
    requires marker != []
  {
    Cut(text, marker, 0, 0)
  }

  /** One call of the parser: matches that end inside the carried buffer are not looked for
      again, and the position right after a delimiter is passed over. */
  function Call(buffer: seq<Byte>, incoming: seq<Byte>, marker: seq<Byte>): Split
    requires marker != []
  {
    Cut(buffer + incoming, marker, if |buffer| < |marker| then 0 else |buffer| - |marker| + 1, 1)
  }

  /** A pass over positions from `q` on, with a record begun at `s`. */
  function Scan(text: seq<Byte>, marker: seq<Byte>, s: nat, q: nat): Split
    requires marker != [] && s <= |text|
    decreases |text| + 1 - q
  {
    if q + |marker| > |text| then Split([], text[s..])
    else if MatchAt(text, marker, q) then
      var more := Scan(text, marker, q + |marker|, q + |marker| + 1);
      Split([if s <= q then text[s..q] else []] + more.records, more.rest)
    else Scan(text, marker, s, q + 1)
  }

  /** The parser called with its buffer as what comes in: a delimiter may wrap from the end of the
      buffer to its start. */
  function Reparse(buffer: seq<Byte>, marker: seq<Byte>): Split
    requires marker != []
  {
    Scan(buffer + buffer, marker, |buffer|, |buffer| - if |buffer| < |marker| - 1 then |buffer| else |marker| - 1)
  }

  /** All calls for the chunks of a stream. */
  function Feed(chunks: seq<seq<Byte>>, marker: seq<Byte>): Split
    requires marker != []
  {
    if chunks == [] then Split([], [])
    else
      var before := Feed(chunks[..|chunks| - 1], marker);
      var last := Call(before.rest, chunks[|chunks| - 1], marker);
      Split(before.records + last.records, last.rest)
  }

  function Concat(parts: seq<seq<Byte>>): seq<Byte> {
    if parts == [] then [] else Concat(parts[..|parts| - 1]) + parts[|parts| - 1]
  }

  // ---- Nothing is lost ----

  /** The records, each followed by the marker. */
  function Terminated(records: seq<seq<Byte>>, marker: seq<Byte>): seq<Byte> {
    if records == [] then [] else records[0] + marker + Terminated(records[1..], marker)
  }

  lemma {:induction false} TerminatedConcat(a: seq<seq<Byte>>, b: seq<seq<Byte>>, marker: seq<Byte>)
    ensures Terminated(a + b, marker) == Terminated(a, marker) + Terminated(b, marker)
  {
    if a == [] {
      assert a + b == b;
    } else {
      TerminatedConcat(a[1..], b, marker);
      assert a + b == [a[0]] + (a[1..] + b) && a == [a[0]] + a[1..];
      OneRecord(a[0], a[1..] + b, marker);
      Assoc(a[0] + marker, Terminated(a[1..], marker), Terminated(b, marker));
    }
  }

  lemma JoinRecord(text: seq<Byte>, marker: seq<Byte>, q: nat, more: Split)
    requires MatchAt(text, marker, q)
    requires Terminated(more.records, marker) + more.rest == text[q + |marker|..]
    ensures Terminated([text[..q]] + more.records, marker) + more.rest == text
  {
    OneRecord(text[..q], more.records, marker);
    SplitAround(text, marker, q);
    hide Terminated, MatchAt;
    Assoc(text[..q], marker, text[q + |marker|..]);
    Assoc(text[..q] + marker, Terminated(more.records, marker), more.rest);
  }

  lemma SplitAround(text: seq<Byte>, marker: seq<Byte>, q: nat)
    requires MatchAt(text, marker, q)
    ensures text == text[..q] + (marker + text[q + |marker|..])
  {
    assert text == text[..q] + (text[q..q + |marker|] + text[q + |marker|..]);
  }

  lemma OneRecord(record: seq<Byte>, more: seq<seq<Byte>>, marker: seq<Byte>)
    ensures Terminated([record] + more, marker) == record + marker + Terminated(more, marker)
  {
    assert ([record] + more)[1..] == more;
  }

  lemma Assoc(a: seq<Byte>, b: seq<Byte>, c: seq<Byte>)
    ensures a + (b + c) == (a + b) + c
  {
  }

  lemma {:induction false} CutLossless(text: seq<Byte>, marker: seq<Byte>, first: nat, gap: nat)
    requires marker != []
    ensures var s := Cut(text, marker, first, gap); Terminated(s.records, marker) + s.rest == text
    decreases |text|
  {
    hide Terminated, Find;
    var q := Find(text, marker, first);
    if q == -1 {
      NothingTerminated(marker);
    } else {
      CutLossless(text[q + |marker|..], marker, gap, gap);
      JoinRecord(text, marker, q, Cut(text[q + |marker|..], marker, gap, gap));
    }
  }

  /** For every stream and chunking, the records with their markers and the buffer are exactly
      the bytes received. */
  lemma {:induction false} FeedLossless(chunks: seq<seq<Byte>>, marker: seq<Byte>)
    requires marker != []
    ensures var s := Feed(chunks, marker); Terminated(s.records, marker) + s.rest == Concat(chunks)
  {
    hide Cut, Terminated;
    if chunks == [] {
      NothingTerminated(marker);
    } else {
      var before := Feed(chunks[..|chunks| - 1], marker);
      var incoming := chunks[|chunks| - 1];
      FeedLossless(chunks[..|chunks| - 1], marker);
      CutLossless(before.rest + incoming, marker, if |before.rest| < |marker| then 0 else |before.rest| - |marker| + 1, 1);
      var last := Call(before.rest, incoming, marker);
      TerminatedConcat(before.records, last.records, marker);
      var x, y := Terminated(before.records, marker), Terminated(last.records, marker);
      assert x + y + last.rest == x + (y + last.rest);
      assert x + (before.rest + incoming) == x + before.rest + incoming;
    }
  }

  lemma NothingTerminated(marker: seq<Byte>)
    ensures Terminated([], marker) == []
  {
  }

  // ---- Splits, without looking for anything ----

  /** The marker after the record is the first one there that leaves at least so many bytes. */
  ghost predicate EndsAtMarker(record: seq<Byte>, marker: seq<Byte>, least: nat) {
    |record| >= least && forall x, y :: record + marker == x + marker + y && |x| >= least ==> x == record
  }

  ghost predicate HoldsNoMarker(s: seq<Byte>, marker: seq<Byte>, least: nat) {
    forall x, y :: s == x + marker + y ==> |x| < least
  }

  /** The text is the records with their markers and the rest, and no markers are in them but those
      less than `first` bytes from the start, or `gap` bytes from the marker before. */
  ghost predicate IsSplit(text: seq<Byte>, marker: seq<Byte>, first: nat, gap: nat, s: Split) {
    && Terminated(s.records, marker) + s.rest == text
    && (forall k :: 0 <= k < |s.records| ==> EndsAtMarker(s.records[k], marker, if k == 0 then first else gap))
    && HoldsNoMarker(s.rest, marker, if s.records == [] then first else gap)
  }

  /** A match is the marker between two parts of the text. */
  lemma MatchBetween(x: seq<Byte>, marker: seq<Byte>, y: seq<Byte>)
    ensures MatchAt(x + marker + y, marker, |x|)
  {
  }

  lemma AroundMatch(text: seq<Byte>, marker: seq<Byte>, q: nat)
    requires MatchAt(text, marker, q)
    ensures text == text[..q] + marker + text[q + |marker|..]
  {
  }

  lemma FirstRecordEnds(text: seq<Byte>, marker: seq<Byte>, first: nat, q: nat)
    requires first <= q && MatchAt(text, marker, q) && forall k :: first <= k < q ==> !MatchAt(text, marker, k)
    ensures EndsAtMarker(text[..q], marker, first)
  {
    var front := text[..q + |marker|];
    assert text[..q] + marker == front && text == front + text[q + |marker|..];
    hide MatchAt;
    forall x, y | text[..q] + marker == x + marker + y && |x| >= first ensures x == text[..q] {
      MatchBetween(x, marker, y);
      MatchInPrefix(front, text[q + |marker|..], marker, |x|);
      assert |x| <= q && x == front[..|x|];
    }
  }

  lemma RestHoldsNone(text: seq<Byte>, marker: seq<Byte>, first: nat)
    requires Find(text, marker, first) == -1
    ensures HoldsNoMarker(text, marker, first)
  {
    hide MatchAt;
    forall x, y | text == x + marker + y ensures |x| < first {
      MatchBetween(x, marker, y);
    }
  }

  /** The cut is such a split. */
  lemma {:induction false} CutIsSplit(text: seq<Byte>, marker: seq<Byte>, first: nat, gap: nat)
    requires marker != []
    ensures IsSplit(text, marker, first, gap, Cut(text, marker, first, gap))
    decreases |text|
  {
    CutLossless(text, marker, first, gap);
    hide Terminated, EndsAtMarker, HoldsNoMarker, MatchAt, Find;
    var q, d := Find(text, marker, first), Cut(text, marker, first, gap);
    if q == -1 {
      RestHoldsNone(text, marker, first);
    } else {
      InRange(text, marker, q);
      FirstRecordEnds(text, marker, first, q);
      CutIsSplit(text[q + |marker|..], marker, gap, gap);
      var more := Cut(text[q + |marker|..], marker, gap, gap);
      assert d == Split([text[..q]] + more.records, more.rest);
      forall k | 0 <= k < |d.records| ensures EndsAtMarker(d.records[k], marker, if k == 0 then first else gap) {
        if k > 0 {
          assert d.records[k] == more.records[k - 1];
        }
      }
    }
  }

  /** There is no other such split. */
  lemma {:induction false} SplitUnique(text: seq<Byte>, marker: seq<Byte>, first: nat, gap: nat, s: Split)
    requires marker != [] && IsSplit(text, marker, first, gap, s)
    ensures s == Cut(text, marker, first, gap)
    decreases |s.records|
  {
    hide Cut, MatchAt, Find;
    if s.records == [] {
      NothingTerminated(marker);
      NoneFound(text, marker, first);
      NoneCut(text, marker, first, gap);
    } else {
      var record, more := s.records[0], s.records[1..];
      var q, tail := |record|, Terminated(more, marker) + s.rest;
      assert s.records == [record] + more;
      OneRecord(record, more, marker);
      hide Terminated, EndsAtMarker, HoldsNoMarker;
      assert text == record + marker + tail;
      FirstMatch(record, marker, tail, first);
      assert text[q + |marker|..] == tail && text[..q] == record;
      forall k | 0 <= k < |more| ensures EndsAtMarker(more[k], marker, gap) {
        assert s.records[k + 1] == more[k];
      }
      SplitUnique(tail, marker, gap, gap, Split(more, s.rest));
      OneCut(text, marker, first, gap, q);
    }
  }

  lemma NoneCut(text: seq<Byte>, marker: seq<Byte>, first: nat, gap: nat)
    requires marker != [] && Find(text, marker, first) == -1
    ensures Cut(text, marker, first, gap) == Split([], text)
  {
  }

  lemma OneCut(text: seq<Byte>, marker: seq<Byte>, first: nat, gap: nat, q: nat)
    requires marker != [] && Find(text, marker, first) == q && q + |marker| <= |text|
    ensures var more := Cut(text[q + |marker|..], marker, gap, gap);
      Cut(text, marker, first, gap) == Split([text[..q]] + more.records, more.rest)
  {
  }

  lemma NoneFound(text: seq<Byte>, marker: seq<Byte>, first: nat)
    requires HoldsNoMarker(text, marker, first)
    ensures Find(text, marker, first) == -1
  {
    hide MatchAt;
    var q := Find(text, marker, first);
    if q != -1 {
      InRange(text, marker, q);
      AroundMatch(text, marker, q);
    }
  }

  lemma FirstMatch(record: seq<Byte>, marker: seq<Byte>, tail: seq<Byte>, first: nat)
    requires marker != [] && EndsAtMarker(record, marker, first)
    ensures Find(record + marker + tail, marker, first) == |record|
  {
    hide MatchAt;
    var text, q := record + marker + tail, |record|;
    MatchBetween(record, marker, tail);
    forall p | first <= p < q ensures !MatchAt(text, marker, p) {
      if MatchAt(text, marker, p) {
        MatchInPrefix(record + marker, tail, marker, p);
        AroundMatch(record + marker, marker, p);
      }
    }
    FindLater(text, marker, first, q);
    FindHere(text, marker, q);
  }

  /** What a call records and carries over, and what a whole text is split into, are the only splits
      of their kind. */
  lemma {:induction false} CallsAndSplits(text: seq<Byte>, buffer: seq<Byte>, incoming: seq<Byte>, marker: seq<Byte>, s: Split)
    requires marker != []
    ensures s == Leftmost(text, marker) <==> IsSplit(text, marker, 0, 0, s)
    ensures s == Call(buffer, incoming, marker)
      <==> IsSplit(buffer + incoming, marker, if |buffer| < |marker| then 0 else |buffer| - |marker| + 1, 1, s)
  {
    var first := if |buffer| < |marker| then 0 else |buffer| - |marker| + 1;
    CutIsSplit(text, marker, 0, 0);
    CutIsSplit(buffer + incoming, marker, first, 1);
    hide Cut, IsSplit;
    if IsSplit(text, marker, 0, 0, s) {
      SplitUnique(text, marker, 0, 0, s);
    }
    if IsSplit(buffer + incoming, marker, first, 1, s) {
      SplitUnique(buffer + incoming, marker, first, 1, s);
    }
  }

  lemma FindHere(text: seq<Byte>, marker: seq<Byte>, q: nat)
    requires MatchAt(text, marker, q)
    ensures Find(text, marker, q) == q
  {
  }

  // ---- Chunking does not matter ----

  /** No delimiter starts exactly where the previous one ended. */
  predicate NoneAdjacent(s: Split) {
    forall k :: 0 < k < |s.records| ==> s.records[k] != []
  }

  /** Passing over positions without a match changes nothing. */
  lemma {:induction false} FindLater(text: seq<Byte>, marker: seq<Byte>, from: nat, to: nat)
    requires from <= to && forall k :: from <= k < to ==> !MatchAt(text, marker, k)
    ensures Find(text, marker, from) == Find(text, marker, to)
  {
    hide MatchAt;
    var a, b := Find(text, marker, from), Find(text, marker, to);
    if a != -1 && b != -1 {
      assert !(a < b) && !(b < a);
    } else if a != -1 {
      InRange(text, marker, a);
    } else if b != -1 {
      InRange(text, marker, b);
    }
  }

  lemma InRange(text: seq<Byte>, marker: seq<Byte>, q: nat)
    requires MatchAt(text, marker, q)
    ensures q <= |text| && q + |marker| <= |text|
  {
  }

  lemma EmptyFirstRecord(text: seq<Byte>, marker: seq<Byte>)
    requires marker != []
    ensures MatchAt(text, marker, 0) ==> Cut(text, marker, 0, 0).records != [] && Cut(text, marker, 0, 0).records[0] == []
  {
  }

  /** Where no two delimiters touch, passing over the position after each changes nothing. */
  lemma {:induction false} GapHarmless(text: seq<Byte>, marker: seq<Byte>, first: nat)
    requires marker != [] && NoneAdjacent(Cut(text, marker, first, 0))
    ensures Cut(text, marker, first, 1) == Cut(text, marker, first, 0)
    decreases |text|
  {
    hide MatchAt, Find;
    var q := Find(text, marker, first);
    if q != -1 {
      InRange(text, marker, q);
      var after := text[q + |marker|..];
      var more, records := Cut(after, marker, 0, 0), Cut(text, marker, first, 0).records;
      assert records == [text[..q]] + more.records;
      EmptyFirstRecord(after, marker);
      LaterRecords(text[..q], more.records);
      FindLater(after, marker, 0, 1);
      assert Cut(after, marker, 1, 0) == more;
      GapHarmless(after, marker, 1);
    }
  }

  lemma LaterRecords(first: seq<Byte>, more: seq<seq<Byte>>)
    requires forall k :: 0 < k < |[first] + more| ==> ([first] + more)[k] != []
    ensures forall k :: 0 <= k < |more| ==> more[k] != []
  {
    assert forall k :: 0 <= k < |more| ==> more[k] == ([first] + more)[k + 1];
  }

  /** Passing over the position after a delimiter never cuts an empty record there. */
  lemma {:induction false} GapSeparates(text: seq<Byte>, marker: seq<Byte>, first: nat)
    requires marker != []
    ensures NoneAdjacent(Cut(text, marker, first, 1))
    ensures first > 0 && Cut(text, marker, first, 1).records != [] ==> Cut(text, marker, first, 1).records[0] != []
    decreases |text|
  {
    var q := Find(text, marker, first);
    if q != -1 {
      var after := text[q + |marker|..];
      GapSeparates(after, marker, 1);
      var more := Cut(after, marker, 1, 1);
      assert forall k :: 0 < k <= |more.records| ==> Cut(text, marker, first, 1).records[k] == more.records[k - 1];
    }
  }

  lemma {:induction false} RestHasNoMatch(text: seq<Byte>, marker: seq<Byte>, k: nat)
    requires marker != []
    ensures !MatchAt(Leftmost(text, marker).rest, marker, k)
    decreases |text|
  {
    var q := Find(text, marker, 0);
    if q != -1 {
      RestHasNoMatch(text[q + |marker|..], marker, k);
    } else if k > |text| {
    }
  }

  lemma MatchInPrefix(a: seq<Byte>, b: seq<Byte>, marker: seq<Byte>, k: nat)
    requires k + |marker| <= |a|
    ensures MatchAt(a + b, marker, k) <==> MatchAt(a, marker, k)
  {
    assert (a + b)[k..k + |marker|] == a[k..k + |marker|];
  }

  /** Splitting can stop at any byte and resume with the unfinished rest. */
  lemma {:induction false} LeftmostResumes(a: seq<Byte>, b: seq<Byte>, marker: seq<Byte>)
    requires marker != []
    ensures var before := Leftmost(a, marker);
      var after := Leftmost(before.rest + b, marker);
      Leftmost(a + b, marker) == Split(before.records + after.records, after.rest)
    decreases |a|
  {
    hide Cut, MatchAt, Leftmost, Find;
    var q := Find(a, marker, 0);
    if q == -1 {
      NoCut(a, marker);
      assert [] + Leftmost(a + b, marker).records == Leftmost(a + b, marker).records;
    } else {
      FirstCutStays(a, b, marker, q);
      var tail, whole := a[q + |marker|..], a + b;
      assert whole[q + |marker|..] == tail + b && whole[..q] == a[..q];
      FirstCut(a, marker, q);
      FirstCut(whole, marker, q);
      LeftmostResumes(tail, b, marker);
      Recorded([a[..q]], Leftmost(tail, marker).records, Leftmost(Leftmost(tail, marker).rest + b, marker).records);
    }
  }

  lemma NoCut(text: seq<Byte>, marker: seq<Byte>)
    requires marker != [] && Find(text, marker, 0) == -1
    ensures Leftmost(text, marker) == Split([], text)
  {
  }

  lemma FirstCutStays(a: seq<Byte>, b: seq<Byte>, marker: seq<Byte>, q: nat)
    requires q == Find(a, marker, 0)
    ensures q + |marker| <= |a| && Find(a + b, marker, 0) == q
  {
    MatchInPrefix(a, b, marker, q);
    forall k | 0 <= k < q ensures !MatchAt(a + b, marker, k) {
      MatchInPrefix(a, b, marker, k);
    }
    FindLater(a + b, marker, 0, q);
  }

  lemma FirstCut(text: seq<Byte>, marker: seq<Byte>, q: nat)
    requires marker != [] && q == Find(text, marker, 0) && q + |marker| <= |text|
    ensures var more := Leftmost(text[q + |marker|..], marker);
      Leftmost(text, marker) == Split([text[..q]] + more.records, more.rest)
  {
  }

  /** The buffer carries no whole match, so a call may start near its end. */
  lemma CallIsCut(buffer: seq<Byte>, incoming: seq<Byte>, marker: seq<Byte>)
    requires marker != [] && forall k :: !MatchAt(buffer, marker, k)
    ensures Call(buffer, incoming, marker) == Cut(buffer + incoming, marker, 0, 1)
  {
    var first := if |buffer| < |marker| then 0 else |buffer| - |marker| + 1;
    forall k | 0 <= k < first ensures !MatchAt(buffer + incoming, marker, k) {
      MatchInPrefix(buffer, incoming, marker, k);
    }
    FindLater(buffer + incoming, marker, 0, first);
  }

  /** However a stream without touching delimiters is cut into chunks, the records and the final
      buffer are those of splitting it whole. */
  lemma {:induction false} FeedIsLeftmost(chunks: seq<seq<Byte>>, marker: seq<Byte>)
    requires marker != [] && NoneAdjacent(Leftmost(Concat(chunks), marker))
    ensures Feed(chunks, marker) == Leftmost(Concat(chunks), marker)
  {
    hide Cut, Find, MatchAt;
    if chunks == [] {
      EmptyText(marker);
    } else {
      var earlier, incoming := chunks[..|chunks| - 1], chunks[|chunks| - 1];
      var text := Concat(earlier);
      var before, whole := Leftmost(text, marker), Leftmost(text + incoming, marker);
      LeftmostResumes(text, incoming, marker);
      var after := Leftmost(before.rest + incoming, marker);
      assert whole.records == before.records + after.records;
      forall k | 0 < k < |before.records| ensures before.records[k] != [] {
        assert whole.records[k] == before.records[k];
      }
      forall k | 0 < k < |after.records| ensures after.records[k] != [] {
        assert whole.records[|before.records| + k] == after.records[k];
      }
      FeedIsLeftmost(earlier, marker);
      forall k: nat ensures !MatchAt(before.rest, marker, k) {
        RestHasNoMatch(text, marker, k);
      }
      CallIsCut(before.rest, incoming, marker);
      GapHarmless(before.rest + incoming, marker, 0);
    }
  }

  lemma EmptyText(marker: seq<Byte>)
    requires marker != []
    ensures Leftmost([], marker) == Split([], [])
  {
  }

  /** Exactly the streams without touching delimiters are split alike in every chunking. */
  lemma ChunkingIrrelevantExactly(stream: seq<Byte>, marker: seq<Byte>)
    requires marker != []
    ensures (forall chunks :: Concat(chunks) == stream ==> Feed(chunks, marker) == Leftmost(stream, marker))
      <==> NoneAdjacent(Leftmost(stream, marker))
  {
    if NoneAdjacent(Leftmost(stream, marker)) {
      forall chunks | Concat(chunks) == stream ensures Feed(chunks, marker) == Leftmost(stream, marker) {
        FeedIsLeftmost(chunks, marker);
      }
    } else {
      SingleChunk(stream, marker);
    }
  }

  lemma SingleChunk(stream: seq<Byte>, marker: seq<Byte>)
    requires marker != []
    ensures Concat([stream]) == stream && Feed([stream], marker) == Cut(stream, marker, 0, 1)
    ensures NoneAdjacent(Feed([stream], marker))
  {
    hide Cut;
    assert [stream][..0] == [] && [] + stream == stream;
    GapSeparates(stream, marker, 0);
    var s := Cut(stream, marker, 0, 1);
    assert [] + s.records == s.records;
  }

  // ---- The buffer parsed again ----

  lemma {:induction false} ScanIsCut(text: seq<Byte>, marker: seq<Byte>, s: nat, q: nat)
    requires marker != [] && s <= |text| && s <= q
    ensures Scan(text, marker, s, q) == Cut(text[s..], marker, q - s, 1)
    decreases |text| + 1 - q
  {
    hide MatchAt;
    if q + |marker| > |text| {
      CutEnds(text[s..], marker, q - s);
    } else {
      CutStep(text, marker, s, q - s);
      if MatchAt(text, marker, q) {
        ScanIsCut(text, marker, q + |marker|, q + |marker| + 1);
      } else {
        ScanIsCut(text, marker, s, q + 1);
      }
    }
  }

  lemma {:induction false} CutStep(text: seq<Byte>, marker: seq<Byte>, s: nat, k: nat)
    requires marker != [] && s + k + |marker| <= |text|
    ensures var tail := text[s..];
      Cut(tail, marker, k, 1) ==
        if MatchAt(text, marker, s + k) then
          var more := Cut(text[s + k + |marker|..], marker, 1, 1);
          Split([text[s..s + k]] + more.records, more.rest)
        else Cut(tail, marker, k + 1, 1)
  {
    hide Cut, MatchAt, Find;
    var tail := text[s..];
    MatchInSuffix(text, marker, s, k);
    CutOn(tail, marker, k);
    assert tail[..k] == text[s..s + k] && tail[k + |marker|..] == text[s + k + |marker|..];
  }

  lemma {:induction false} CutOn(text: seq<Byte>, marker: seq<Byte>, k: nat)
    requires marker != [] && k + |marker| <= |text|
    ensures Cut(text, marker, k, 1) ==
      if MatchAt(text, marker, k) then
        var more := Cut(text[k + |marker|..], marker, 1, 1);
        Split([text[..k]] + more.records, more.rest)
      else Cut(text, marker, k + 1, 1)
  {
    FindStep(text, marker, k);
    hide MatchAt, Find;
  }

  lemma {:induction false} FindStep(text: seq<Byte>, marker: seq<Byte>, k: nat)
    requires k + |marker| <= |text|
    ensures Find(text, marker, k) == if MatchAt(text, marker, k) then k else Find(text, marker, k + 1)
  {
    hide MatchAt;
  }

  lemma CutEnds(text: seq<Byte>, marker: seq<Byte>, k: nat)
    requires marker != [] && k + |marker| > |text|
    ensures Cut(text, marker, k, 1) == Split([], text)
  {
  }

  /** A delimiter begins before the end of the buffer and ends after its start. */
  ghost predicate Wraps(buffer: seq<Byte>, marker: seq<Byte>) {
    exists q :: 0 <= q < |buffer| && |buffer| < q + |marker| && MatchAt(buffer + buffer, marker, q)
  }

  /** Positions without a match are passed over. */
  lemma {:induction false} ScanLater(text: seq<Byte>, marker: seq<Byte>, s: nat, from: nat, to: nat)
    requires marker != [] && s <= |text| && from <= to && forall k :: from <= k < to ==> !MatchAt(text, marker, k)
    ensures Scan(text, marker, s, from) == Scan(text, marker, s, to)
    decreases |text| + 1 - from
  {
    hide MatchAt;
    if from < to {
      if from + |marker| <= |text| {
        ScanStep(text, marker, s, from);
        ScanLater(text, marker, s, from + 1, to);
      } else {
        ScanEnds(text, marker, s, from);
        ScanEnds(text, marker, s, to);
      }
    }
  }

  /** How many bytes a pass accounts for. */
  lemma {:induction false} ScanLength(text: seq<Byte>, marker: seq<Byte>, s: nat, q: nat)
    requires marker != [] && s <= q && s <= |text|
    ensures var d := Scan(text, marker, s, q); |Terminated(d.records, marker)| + |d.rest| == |text| - s
  {
    hide Terminated, Scan, Cut;
    ScanIsCut(text, marker, s, q);
    CutLossless(text[s..], marker, q - s, 1);
  }

  /** The first match, if it wraps, gives an empty record and has bytes of the start taken twice. */
  lemma {:induction false} WrappedScan(buffer: seq<Byte>, marker: seq<Byte>, from: nat, q: nat)
    requires marker != [] && from <= q < |buffer| && |buffer| < q + |marker| && MatchAt(buffer + buffer, marker, q)
    requires forall k :: from <= k < q ==> !MatchAt(buffer + buffer, marker, k)
    ensures var d := Scan(buffer + buffer, marker, |buffer|, from);
      |Terminated(d.records, marker)| + |d.rest| > |buffer|
  {
    hide Terminated, Scan, MatchAt;
    var text := buffer + buffer;
    ScanLater(text, marker, |buffer|, from, q);
    InRange(text, marker, q);
    ScanStep(text, marker, |buffer|, q);
    ScanLength(text, marker, q + |marker|, q + |marker| + 1);
    OneRecord([], Scan(text, marker, q + |marker|, q + |marker| + 1).records, marker);
  }

  /** The wrapping delimiter gives an empty record, and what follows its end is split like a chunk. */
  lemma {:induction false} WrappedIs(buffer: seq<Byte>, marker: seq<Byte>, q: nat)
    requires marker != [] && q < |buffer| < q + |marker| && MatchAt(buffer + buffer, marker, q)
    requires forall k :: 0 <= k < q && |buffer| < k + |marker| ==> !MatchAt(buffer + buffer, marker, k)
    ensures q + |marker| - |buffer| <= |buffer|
    ensures var more := Cut(buffer[q + |marker| - |buffer|..], marker, 1, 1);
      Reparse(buffer, marker) == Split([[]] + more.records, more.rest)
  {
    var text, from := buffer + buffer, |buffer| - if |buffer| < |marker| - 1 then |buffer| else |marker| - 1;
    hide Scan, Cut, MatchAt;
    ScanLater(text, marker, |buffer|, from, q);
    InRange(text, marker, q);
    ScanStep(text, marker, |buffer|, q);
    ScanIsCut(text, marker, q + |marker|, q + |marker| + 1);
    assert text[q + |marker|..] == buffer[q + |marker| - |buffer|..];
  }

  /** Parsing the buffer again splits it, as one chunk, if and only if no delimiter wraps. */
  lemma {:induction false} ReparseExactly(buffer: seq<Byte>, marker: seq<Byte>)
    requires marker != []
    ensures Reparse(buffer, marker) == Cut(buffer, marker, 0, 1) <==> !Wraps(buffer, marker)
  {
    hide Cut, Scan, Terminated, MatchAt;
    var text, from := buffer + buffer, |buffer| - if |buffer| < |marker| - 1 then |buffer| else |marker| - 1;
    CutLossless(buffer, marker, 0, 1);
    if Wraps(buffer, marker) {
      var q := Find(text, marker, from);
      assert q != -1 && q < |buffer|;
      WrappedScan(buffer, marker, from, q);
    } else {
      ScanLater(text, marker, |buffer|, from, |buffer|);
      ScanIsCut(text, marker, |buffer|, |buffer|);
      assert text[|buffer|..] == buffer;
    }
  }

  // ---- Which chunkings matter ----

  /** Where the k-th delimiter of a split ends. */
  function DelimiterEnd(records: seq<seq<Byte>>, k: nat, marker: seq<Byte>): nat
    requires k < |records|
  {
    |Terminated(records[..k + 1], marker)|
  }

  /** Two touching delimiters of the whole split end in the same chunk. */
  ghost predicate TouchInAChunk(chunks: seq<seq<Byte>>, marker: seq<Byte>)
    requires marker != []
  {
    var records := Leftmost(Concat(chunks), marker).records;
    exists k, c :: 0 < k < |records| && 0 <= c < |chunks| && TouchIn(chunks, records, marker, k, c)
  }

  ghost predicate TouchIn(chunks: seq<seq<Byte>>, records: seq<seq<Byte>>, marker: seq<Byte>, k: nat, c: nat)
    requires 0 < k < |records| && c < |chunks|
  {
    && records[k] == []
    && |Concat(chunks[..c])| < DelimiterEnd(records, k - 1, marker)
    && DelimiterEnd(records, k, marker) <= |Concat(chunks[..c + 1])|
  }

  lemma {:induction false} EndsGrow(records: seq<seq<Byte>>, i: nat, j: nat, marker: seq<Byte>)
    requires i <= j < |records|
    ensures DelimiterEnd(records, i, marker) <= DelimiterEnd(records, j, marker)
  {
    hide Terminated;
    TerminatedConcat(records[..i + 1], records[i + 1..j + 1], marker);
    assert records[..i + 1] + records[i + 1..j + 1] == records[..j + 1];
  }

  lemma {:induction false} ConcatGrows(chunks: seq<seq<Byte>>, i: nat, j: nat)
    requires i <= j <= |chunks|
    ensures |Concat(chunks[..i])| <= |Concat(chunks[..j])|
    decreases j
  {
    if i < j {
      ConcatGrows(chunks, i, j - 1);
      assert chunks[..j][..j - 1] == chunks[..j - 1];
    }
  }

  /** The first cut is at a match. */
  lemma {:induction false} CutFirst(text: seq<Byte>, marker: seq<Byte>, first: nat, gap: nat)
    requires marker != [] && Cut(text, marker, first, gap).records != []
    ensures var record := Cut(text, marker, first, gap).records[0];
      first <= |record| && MatchAt(text, marker, |record|) && record == text[..|record|]
  {
  }

  /** What is known of a stream split whole, before and after its last chunk. */
  ghost predicate LastChunk(
    text: seq<Byte>, incoming: seq<Byte>, marker: seq<Byte>, before: Split, after: Split, whole: Split)
  {
    && marker != []
    && before == Leftmost(text, marker) && after == Leftmost(before.rest + incoming, marker)
    && whole == Leftmost(text + incoming, marker) && whole == Split(before.records + after.records, after.rest)
    && Terminated(before.records, marker) + before.rest == text
  }

  lemma {:induction false} LastChunkSplits(text: seq<Byte>, incoming: seq<Byte>, marker: seq<Byte>)
    requires marker != []
    ensures var before := Leftmost(text, marker);
      LastChunk(text, incoming, marker, before, Leftmost(before.rest + incoming, marker), Leftmost(text + incoming, marker))
  {
    hide Cut, Terminated;
    LeftmostResumes(text, incoming, marker);
    CutLossless(text, marker, 0, 0);
  }

  /** The delimiters of the earlier chunks end there; all others end in the last chunk. */
  lemma {:induction false} EndsApart(
    text: seq<Byte>, incoming: seq<Byte>, marker: seq<Byte>, before: Split, after: Split, whole: Split, k: nat)
    requires LastChunk(text, incoming, marker, before, after, whole) && k < |whole.records|
    ensures DelimiterEnd(whole.records, k, marker) <= |text| <==> k < |before.records|
    ensures k < |before.records| ==> DelimiterEnd(whole.records, k, marker) == DelimiterEnd(before.records, k, marker)
  {
    hide Leftmost, Terminated, MatchAt;
    var b := |before.records|;
    if k < b {
      assert whole.records[..k + 1] == before.records[..k + 1];
      EndsGrow(before.records, k, b - 1, marker);
      assert before.records[..b] == before.records;
    } else {
      EndsGrow(whole.records, b, k, marker);
      EndsBeyond(text, incoming, marker, before, after);
      assert whole.records[..b + 1] == before.records + [after.records[0]];
      TerminatedConcat(before.records, [after.records[0]], marker);
      OneRecord(after.records[0], [], marker);
      assert [after.records[0]] + [] == [after.records[0]];
      NothingTerminated(marker);
    }
  }

  lemma {:induction false} EndsBeyond(text: seq<Byte>, incoming: seq<Byte>, marker: seq<Byte>, before: Split, after: Split)
    requires marker != [] && before == Leftmost(text, marker) && after == Leftmost(before.rest + incoming, marker)
    requires after.records != []
    ensures |after.records[0]| + |marker| > |before.rest|
  {
    hide Cut, MatchAt;
    CutFirst(before.rest + incoming, marker, 0, 0);
    var q := |after.records[0]|;
    if q + |marker| <= |before.rest| {
      MatchInPrefix(before.rest, incoming, marker, q);
      RestHasNoMatch(text, marker, q);
      assert false;
    }
  }

  /** An earlier chunk is touched in exactly if it was before the last one came. */
  lemma {:induction false} TouchBefore(
    chunks: seq<seq<Byte>>, marker: seq<Byte>, before: Split, after: Split, whole: Split, k: nat, c: nat)
    requires chunks != [] && 0 < k < |whole.records| && c < |chunks| - 1
    requires LastChunk(Concat(chunks[..|chunks| - 1]), chunks[|chunks| - 1], marker, before, after, whole)
    ensures TouchIn(chunks, whole.records, marker, k, c)
      <==> k < |before.records| && TouchIn(chunks[..|chunks| - 1], before.records, marker, k, c)
  {
    hide Leftmost, DelimiterEnd, Terminated;
    var n := |chunks| - 1;
    var earlier, incoming := chunks[..n], chunks[n];
    EndsApart(Concat(earlier), incoming, marker, before, after, whole, k - 1);
    EndsApart(Concat(earlier), incoming, marker, before, after, whole, k);
    assert chunks[..c] == earlier[..c] && chunks[..c + 1] == earlier[..c + 1];
    ConcatGrows(earlier, c + 1, n);
    assert earlier[..n] == earlier;
  }

  /** The last chunk is touched in exactly by the delimiters it completes. */
  lemma {:induction false} TouchLast(chunks: seq<seq<Byte>>, marker: seq<Byte>, before: Split, after: Split, whole: Split, k: nat)
    requires chunks != [] && 0 < k < |whole.records|
    requires LastChunk(Concat(chunks[..|chunks| - 1]), chunks[|chunks| - 1], marker, before, after, whole)
    ensures TouchIn(chunks, whole.records, marker, k, |chunks| - 1)
      <==> k > |before.records| && after.records[k - |before.records|] == []
  {
    hide Leftmost, DelimiterEnd, Terminated;
    var n := |chunks| - 1;
    var text, incoming := Concat(chunks[..n]), chunks[n];
    EndsApart(text, incoming, marker, before, after, whole, k - 1);
    EndsWithin(text + incoming, marker, k);
    assert chunks[..n + 1] == chunks;
  }

  /** Touching delimiters end in one chunk exactly if they do before the last chunk or in it. */
  lemma {:induction false} TouchOneMore(chunks: seq<seq<Byte>>, marker: seq<Byte>, before: Split, after: Split, whole: Split)
    requires chunks != []
    requires LastChunk(Concat(chunks[..|chunks| - 1]), chunks[|chunks| - 1], marker, before, after, whole)
    ensures TouchInAChunk(chunks, marker) <==> TouchInAChunk(chunks[..|chunks| - 1], marker) || !NoneAdjacent(after)
  {
    hide Leftmost, TouchIn, Terminated;
    var n, b := |chunks| - 1, |before.records|;
    var earlier := chunks[..n];
    if TouchInAChunk(chunks, marker) {
      var k, c :| 0 < k < |whole.records| && 0 <= c < |chunks| && TouchIn(chunks, whole.records, marker, k, c);
      if c < n {
        TouchBefore(chunks, marker, before, after, whole, k, c);
      } else {
        TouchLast(chunks, marker, before, after, whole, k);
      }
    }
    if !NoneAdjacent(after) {
      var k :| 0 < k < |after.records| && after.records[k] == [];
      TouchLast(chunks, marker, before, after, whole, b + k);
    }
    if TouchInAChunk(earlier, marker) {
      var k, c :| 0 < k < |before.records| && 0 <= c < |earlier| && TouchIn(earlier, before.records, marker, k, c);
      TouchBefore(chunks, marker, before, after, whole, k, c);
    }
  }

  lemma {:induction false} EndsWithin(text: seq<Byte>, marker: seq<Byte>, k: nat)
    requires marker != [] && k < |Leftmost(text, marker).records|
    ensures DelimiterEnd(Leftmost(text, marker).records, k, marker) <= |text|
  {
    hide Cut, Terminated;
    var records := Leftmost(text, marker).records;
    CutLossless(text, marker, 0, 0);
    EndsGrow(records, k, |records| - 1, marker);
    assert records[..|records|] == records;
  }

  /** Chunks that end up split right were split right before the last one. */
  lemma {:induction false} RightBefore(chunks: seq<seq<Byte>>, marker: seq<Byte>, before: Split, after: Split, whole: Split)
    requires chunks != [] && marker != [] && Feed(chunks, marker) == whole
    requires LastChunk(Concat(chunks[..|chunks| - 1]), chunks[|chunks| - 1], marker, before, after, whole)
    ensures Feed(chunks[..|chunks| - 1], marker) == before
  {
    hide Cut, Leftmost, Terminated, MatchAt;
    var earlier, incoming := chunks[..|chunks| - 1], chunks[|chunks| - 1];
    var text, fed, r := Concat(earlier), Feed(earlier, marker), whole.records;
    var f, b := |fed.records|, |before.records|;
    FeedLossless(earlier, marker);
    var last := Call(fed.rest, incoming, marker);
    assert r == fed.records + last.records;
    assert r[..f] == fed.records && r[..b] == before.records && (f < |r| ==> last.records[0] == r[f]);
    if f > b {
      EndsApart(text, incoming, marker, before, after, whole, b);
      EndsGrow(r, b, f - 1, marker);
      assert false;
    }
    if f < b {
      assert before.records[..f] == fed.records;
      PassedOver(fed.rest, text, incoming, marker, before.records, before.rest, f);
      assert false;
    }
    assert Terminated(before.records, marker) + fed.rest == Terminated(before.records, marker) + before.rest;
    SameRest(Terminated(before.records, marker), fed.rest, before.rest);
  }

  lemma SameRest(front: seq<Byte>, a: seq<Byte>, b: seq<Byte>)
    requires front + a == front + b
    ensures a == b
  {
    assert (front + a)[|front|..] == a && (front + b)[|front|..] == b;
  }

  /** A whole delimiter left in the buffer is never found again. */
  lemma {:induction false} PassedOver(
    buffer: seq<Byte>, text: seq<Byte>, incoming: seq<Byte>, marker: seq<Byte>, records: seq<seq<Byte>>, rest: seq<Byte>, f: nat)
    requires marker != [] && f < |records| && Terminated(records, marker) + rest == text
    requires Terminated(records[..f], marker) + buffer == text
    ensures var last := Call(buffer, incoming, marker); last.records != [] ==> last.records[0] != records[f]
  {
    hide Cut, Terminated, MatchAt;
    var front, tail := Terminated(records[..f], marker), Terminated(records[f + 1..], marker);
    TerminatedConcat(records[..f], records[f..], marker);
    assert records[..f] + records[f..] == records && records[f..] == [records[f]] + records[f + 1..];
    OneRecord(records[f], records[f + 1..], marker);
    Assoc(front, records[f] + marker + tail, rest);
    SameRest(front, buffer, records[f] + marker + tail + rest);
    assert |buffer| >= |records[f]| + |marker|;
    if Call(buffer, incoming, marker).records != [] {
      CutFirst(buffer + incoming, marker, |buffer| - |marker| + 1, 1);
    }
  }

  /** Exactly when a chunked stream is split like the whole: no two touching delimiters end in the
      same chunk. */
  lemma {:induction false} ChunkingExactly(chunks: seq<seq<Byte>>, marker: seq<Byte>)
    requires marker != []
    ensures Feed(chunks, marker) == Leftmost(Concat(chunks), marker) <==> !TouchInAChunk(chunks, marker)
    decreases |chunks|
  {
    hide Cut, Leftmost, TouchIn;
    if chunks == [] {
      EmptyText(marker);
    } else {
      var earlier, incoming := chunks[..|chunks| - 1], chunks[|chunks| - 1];
      var text := Concat(earlier);
      var before, whole := Leftmost(text, marker), Leftmost(text + incoming, marker);
      var after := Leftmost(before.rest + incoming, marker);
      LastChunkSplits(text, incoming, marker);
      TouchOneMore(chunks, marker, before, after, whole);
      ChunkingExactly(earlier, marker);
      LastCall(text, incoming, marker, before, after);
      if Feed(chunks, marker) == whole {
        RightBefore(chunks, marker, before, after, whole);
      }
      SameRecords(before.records, Call(before.rest, incoming, marker), after);
    }
  }

  lemma SameRecords(front: seq<seq<Byte>>, a: Split, b: Split)
    ensures Split(front + a.records, a.rest) == Split(front + b.records, b.rest) <==> a == b
  {
    assert (front + a.records)[|front|..] == a.records && (front + b.records)[|front|..] == b.records;
  }

  /** The last call is right exactly if no two delimiters found in it touch. */
  lemma {:induction false} LastCall(text: seq<Byte>, incoming: seq<Byte>, marker: seq<Byte>, before: Split, after: Split)
    requires marker != [] && before == Leftmost(text, marker) && after == Leftmost(before.rest + incoming, marker)
    ensures Call(before.rest, incoming, marker) == after <==> NoneAdjacent(after)
  {
    hide Cut, MatchAt;
    forall k: nat ensures !MatchAt(before.rest, marker, k) {
      RestHasNoMatch(text, marker, k);
    }
    CallIsCut(before.rest, incoming, marker);
    GapSeparates(before.rest + incoming, marker, 0);
    if NoneAdjacent(after) {
      GapHarmless(before.rest + incoming, marker, 0);
    }
  }

  // Cutting at a one-byte marker.

  lemma CutAt(text: seq<Byte>, marker: seq<Byte>, gap: nat, q: nat)
    requires |marker| == 1 && q < |text| && text[q] == marker[0]
    ensures var more := Cut(text[q + 1..], marker, gap, gap);
      Cut(text, marker, q, gap) == Split([text[..q]] + more.records, more.rest)
  {
    assert text[q..q + 1] == marker;
    assert Find(text, marker, q) == q;
  }

  lemma CutPast(text: seq<Byte>, marker: seq<Byte>, gap: nat, q: nat)
    requires |marker| == 1 && q < |text| && text[q] != marker[0]
    ensures Cut(text, marker, q, gap) == Cut(text, marker, q + 1, gap)
  {
    assert text[q..q + 1][0] != marker[0];
    assert Find(text, marker, q) == Find(text, marker, q + 1);
  }

  lemma CutNoMore(text: seq<Byte>, marker: seq<Byte>, gap: nat, q: nat)
    requires |marker| == 1 && q >= |text|
    ensures Cut(text, marker, q, gap) == Split([], text)
  {
    assert Find(text, marker, q) == -1;
  }

  /** Of two touching delimiters, as in "a--b", a whole split cuts at both. */
  lemma TouchingWhole(text: seq<Byte>, marker: seq<Byte>)
    requires |marker| == 1 && |text| == 4
    requires text[0] != marker[0] && text[1] == text[2] == marker[0] && text[3] != marker[0]
    ensures Leftmost(text, marker) == Split([text[..1], []], text[3..])
  {
    hide Cut, Find, MatchAt;
    var after, last := text[2..], text[3..];
    assert after[1..] == last && after[..0] == [];
    CutPast(text, marker, 0, 0);
    CutAt(text, marker, 0, 1);
    CutAt(after, marker, 0, 0);
    CutPast(last, marker, 0, 0);
    CutNoMore(last, marker, 0, 1);
    assert [text[..1]] + ([[]] + []) == [text[..1], []];
  }

  /** In one chunk the second of them stays in the buffer. */
  lemma TouchingInOneChunk(text: seq<Byte>, marker: seq<Byte>)
    requires |marker| == 1 && |text| == 4
    requires text[0] != marker[0] && text[1] == text[2] == marker[0] && text[3] != marker[0]
    ensures Feed([text], marker) == Split([text[..1]], text[2..])
  {
    SingleChunk(text, marker);
    hide Cut, Find, MatchAt, Feed;
    var after := text[2..];
    CutPast(text, marker, 1, 0);
    CutAt(text, marker, 1, 1);
    CutPast(after, marker, 1, 1);
    CutNoMore(after, marker, 1, 2);
    assert [text[..1]] + [] == [text[..1]];
  }

  // ---- The parser ----

  /** A byte array that callers pass by reference. */
  class ByteArray {
    var bytes: seq<Byte>

    constructor (bytes: seq<Byte>)
      ensures this.bytes == bytes
    {
      this.bytes := bytes;
    }
  }

  class SplitParser {
    var mSplitMarker: seq<Byte>
    var mSplitMarkerChanged: bool
    // the records handed to listeners so far
    var read: seq<seq<Byte>>

    constructor ()
      ensures mSplitMarker == ['\n' as int] && !mSplitMarkerChanged && read == []
    {
      mSplitMarker, mSplitMarkerChanged, read := ['\n' as int], false, [];
    }

    method SetSplitMarker(marker: seq<Byte>)
      modifies this`mSplitMarker, this`mSplitMarkerChanged
      ensures mSplitMarker == marker
      ensures mSplitMarkerChanged == (old(mSplitMarkerChanged) || marker != old(mSplitMarker))
    {
      if marker == mSplitMarker {
        return;
      }
      mSplitMarker, mSplitMarkerChanged := marker, true;
    }

    /** Whether the marker stands at `readi`, counted from the start of `incoming`. */
    method MarkerAt(buffer: seq<Byte>, incoming: seq<Byte>, readi: int) returns (found: bool)
      requires -|buffer| <= readi <= |incoming| - |mSplitMarker|
      ensures found == MatchAt(buffer + incoming, mSplitMarker, |buffer| + readi)
    {
      var text, q := buffer + incoming, |buffer| + readi;
      for marki := 0 to |mSplitMarker|
        invariant text[q..q + marki] == mSplitMarker[..marki]
      {
        var byte := if readi + marki < 0 then buffer[|buffer| + readi + marki] else incoming[readi + marki];
        assert byte == text[q + marki] == text[q..q + |mSplitMarker|][marki];
        if byte != mSplitMarker[marki] {
          return false;
        }
        assert text[q..q + marki + 1] == text[q..q + marki] + [byte];
        assert mSplitMarker[..marki + 1] == mSplitMarker[..marki] + [mSplitMarker[marki]];
      }
      return true;
    }

    /** The bytes from `start` to `readi`, both counted from the start of `incoming`. */
    method Slice(buffer: seq<Byte>, incoming: seq<Byte>, start: int, readi: int) returns (slice: seq<Byte>)
      requires -|buffer| <= readi <= |incoming| && (start == -|buffer| || start == 0 || 0 < start <= readi)
      ensures slice == if start <= readi then (buffer + incoming)[|buffer| + start..|buffer| + readi] else []
    {
      var blen := |buffer|;
      slice := [];
      if start < 0 {
        slice := buffer[..if blen < blen + readi then blen else blen + readi];
      }
      if readi > 0 {
        var sstart := if 0 < start then start else 0;
        slice := slice + incoming[sstart..readi];
      }
    }

    /** Both arguments may be the same array: a changed marker, or a reader that takes over a filled
        buffer, has the buffer parsed as if it were incoming as well. */
    method ParseBytes(incoming: ByteArray, buffer: ByteArray)
      modifies this, buffer
      ensures mSplitMarker == old(mSplitMarker)
      ensures mSplitMarker == [] ==>
        && read == old(read) + (if old(buffer.bytes) != [] then [old(buffer.bytes)] else []) + [incoming.bytes]
        && buffer.bytes == []
      ensures mSplitMarker != [] ==>
        && !mSplitMarkerChanged
        && var first := if old(mSplitMarkerChanged) then Reparse(old(buffer.bytes), mSplitMarker) else Split([], old(buffer.bytes));
           var second := if incoming == buffer then Reparse(first.rest, mSplitMarker) else Call(first.rest, old(incoming.bytes), mSplitMarker);
           read == old(read) + first.records + second.records && buffer.bytes == second.rest
      decreases mSplitMarkerChanged
    {
      hide *;
      if mSplitMarker == [] {
        if buffer.bytes != [] {
          read := read + [buffer.bytes];
          buffer.bytes := [];
        }
        read := read + [incoming.bytes];
        return;
      }

      if mSplitMarkerChanged {
        mSplitMarkerChanged := false;
        ParseBytes(buffer, buffer);
        assert read == old(read) + [] + Reparse(old(buffer.bytes), mSplitMarker).records;
      }
      ParsePass(incoming, buffer);
    }

    /** One pass with a marker, over positions where it can end in what comes in. */
    method ParsePass(incoming: ByteArray, buffer: ByteArray)
      requires mSplitMarker != [] && !mSplitMarkerChanged
      modifies this`read, buffer
      ensures var s := if incoming == buffer then Reparse(old(buffer.bytes), mSplitMarker)
          else Call(old(buffer.bytes), old(incoming.bytes), mSplitMarker);
        read == old(read) + s.records && buffer.bytes == s.rest
    {
      hide *;
      var marker := mSplitMarker;
      var mlen, blen, ilen := |marker|, |buffer.bytes|, |incoming.bytes|;
      ghost var was, came, already := buffer.bytes, incoming.bytes, read;
      ghost var text := was + came;
      GoalIs(was, came, marker);

      var start := if incoming == buffer then 0 else -blen;
      var readi := -(if blen < mlen - 1 then blen else mlen - 1);
      ghost var goal := Scan(text, marker, blen + start, blen + readi);
      ghost var total := Split(already + goal.records, goal.rest);
      OnTheWayAtStart(text, marker, blen + start, blen + readi, read);
      while readi <= ilen - mlen
        invariant buffer.bytes == was && incoming.bytes == came
        invariant start == -blen || start == 0 || 0 < start <= readi
        invariant -blen <= start <= ilen && -blen <= readi
        invariant OnTheWay(text, marker, blen + start, blen + readi, read, total)
        decreases ilen - readi
      {
        var found := MarkerAt(buffer.bytes, incoming.bytes, readi);
        PassStep(text, marker, blen + start, blen + readi, read, total);
        if found {
          var slice := Slice(buffer.bytes, incoming.bytes, start, readi);
          readi := readi + mlen;
          start := readi;
          read := read + [slice];
        }
        readi := readi + 1;
      }
      PassEnds(text, marker, blen + start, blen + readi, read, total);
      assert text[blen + start..] == if start < 0 then was + came else came[start..];

      if start < 0 {
        buffer.bytes := buffer.bytes + incoming.bytes;
      } else {
        var slice := incoming.bytes[start..];
        buffer.bytes := slice;
      }
    }

    method StreamEnded(buffer: ByteArray)
      modifies this`read
      ensures read == old(read) + if buffer.bytes != [] then [buffer.bytes] else []
    {
      if buffer.bytes != [] {
        read := read + [buffer.bytes];
      }
    }
  }

  /** One position looked at: cut there on a match, go on otherwise. */
  lemma ScanStep(text: seq<Byte>, marker: seq<Byte>, s: nat, q: nat)
    requires marker != [] && s <= |text| && q + |marker| <= |text|
    ensures Scan(text, marker, s, q) ==
      if MatchAt(text, marker, q) then
        var more := Scan(text, marker, q + |marker|, q + |marker| + 1);
        Split([if s <= q then text[s..q] else []] + more.records, more.rest)
      else Scan(text, marker, s, q + 1)
  {
    hide MatchAt;
  }

  lemma ScanEnds(text: seq<Byte>, marker: seq<Byte>, s: nat, q: nat)
    requires marker != [] && s <= |text| && q + |marker| > |text|
    ensures Scan(text, marker, s, q) == Split([], text[s..])
  {
  }

  /** What is recorded and what the rest of the pass will record add up to the pass. */
  ghost predicate OnTheWay(text: seq<Byte>, marker: seq<Byte>, s: nat, q: nat, read: seq<seq<Byte>>, total: Split) {
    marker != [] && s <= |text| && var more := Scan(text, marker, s, q); total == Split(read + more.records, more.rest)
  }

  lemma OnTheWayAtStart(text: seq<Byte>, marker: seq<Byte>, s: nat, q: nat, read: seq<seq<Byte>>)
    requires marker != [] && s <= |text|
    ensures var goal := Scan(text, marker, s, q); OnTheWay(text, marker, s, q, read, Split(read + goal.records, goal.rest))
  {
  }

  lemma PassStep(text: seq<Byte>, marker: seq<Byte>, s: nat, q: nat, read: seq<seq<Byte>>, total: Split)
    requires OnTheWay(text, marker, s, q, read, total) && q + |marker| <= |text|
    ensures if MatchAt(text, marker, q)
      then OnTheWay(text, marker, q + |marker|, q + |marker| + 1, read + [if s <= q then text[s..q] else []], total)
      else OnTheWay(text, marker, s, q + 1, read, total)
  {
    hide Scan, MatchAt;
    ScanStep(text, marker, s, q);
    if MatchAt(text, marker, q) {
      Recorded(read, [if s <= q then text[s..q] else []], Scan(text, marker, q + |marker|, q + |marker| + 1).records);
    }
  }

  lemma PassEnds(text: seq<Byte>, marker: seq<Byte>, s: nat, q: nat, read: seq<seq<Byte>>, total: Split)
    requires OnTheWay(text, marker, s, q, read, total) && q + |marker| > |text|
    ensures total == Split(read, text[s..])
  {
    hide Scan;
    ScanEnds(text, marker, s, q);
    assert read + [] == read;
  }

  /** What one pass over an array and its buffer amounts to. */
  lemma {:induction false} GoalIs(buffer: seq<Byte>, incoming: seq<Byte>, marker: seq<Byte>)
    requires marker != []
    ensures var first := |buffer| - if |buffer| < |marker| - 1 then |buffer| else |marker| - 1;
      && Scan(buffer + incoming, marker, 0, first) == Call(buffer, incoming, marker)
      && Scan(buffer + buffer, marker, |buffer|, first) == Reparse(buffer, marker)
  {
    hide Scan, Cut;
    ScanIsCut(buffer + incoming, marker, 0, |buffer| - if |buffer| < |marker| - 1 then |buffer| else |marker| - 1);
    assert (buffer + incoming)[0..] == buffer + incoming;
  }

  lemma Recorded(a: seq<seq<Byte>>, b: seq<seq<Byte>>, c: seq<seq<Byte>>)
    ensures a + (b + c) == (a + b) + c
  {
  }

  lemma MatchInSuffix(text: seq<Byte>, marker: seq<Byte>, s: nat, k: nat)
    requires s <= |text|
    ensures MatchAt(text[s..], marker, k) <==> MatchAt(text, marker, s + k)
  {
    if s + k + |marker| <= |text| {
      assert text[s..][k..k + |marker|] == text[s + k..s + k + |marker|];
    }
  }
}
