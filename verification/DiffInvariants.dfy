/** What every step of the diff keeps, and so what the diff is for. */
module DiffInvariants {
  import opened RowEvents
  import opened ScriptDiffs
  import opened DiffKeys

  // ---- What the loop keeps ----

  /** Rows before `i` are settled, rows from `i` on are still old ones, and the notifications
      so far lead from the old rows to the present ones. */
  ghost predicate Diffing(
    cmpKey: string, was: seq<Variant>, new_: seq<Variant>, m: seq<Variant>, i: nat, es: seq<Event<Variant>>)
  {
    && i <= |m| && i <= |new_|
    && (forall k :: 0 <= k < i ==> KeyOf(cmpKey, m[k]) == KeyOf(cmpKey, new_[k]))
    && (forall k :: i <= k < |m| ==> m[k] in was)
    && Replays(was, es, m)
    && (MovesExact(new_, es) <==> m[..i] == new_[..i])
    && (Faithful(cmpKey, was, new_) ==> MovesExact(new_, es))
  }

  /** Items of the two lists with the same key are the same. */
  ghost predicate Faithful(cmpKey: string, was: seq<Variant>, new_: seq<Variant>) {
    forall i, k :: 0 <= i < |was| && 0 <= k < |new_| && KeyOf(cmpKey, was[i]) == KeyOf(cmpKey, new_[k]) ==> was[i] == new_[k]
  }

  /** Every moved row already held the value the new list has at its destination. */
  ghost predicate MovesExact(new_: seq<Variant>, es: seq<Event<Variant>>) {
    forall k :: 0 <= k < |es| ==> MoveExact(new_, es[k])
  }

  predicate MoveExact(new_: seq<Variant>, e: Event<Variant>) {
    e.Move? ==> 0 <= e.dest <= e.dest + |e.rows| <= |new_| && e.rows == new_[e.dest..e.dest + |e.rows|]
  }

  lemma MovesExactOneMore(new_: seq<Variant>, es: seq<Event<Variant>>, e: Event<Variant>)
    ensures MovesExact(new_, es + [e]) <==> MovesExact(new_, es) && MoveExact(new_, e)
  {
    var more := es + [e];
    assert more[|es|] == e;
    if MovesExact(new_, more) {
      forall k | 0 <= k < |es| ensures MoveExact(new_, es[k]) {
        assert more[k] == es[k];
      }
    }
  }

  lemma {:induction false} RemovedDiffing(cmpKey: string, was: seq<Variant>, new_: seq<Variant>, m: seq<Variant>, i: nat, es: seq<Event<Variant>>, end: nat)
    requires Diffing(cmpKey, was, new_, m, i, es) && i < end <= |m|
    ensures ValidFor(m, Remove(i, end - 1)) && Apply(m, Remove(i, end - 1)) == m[..i] + m[end..]
    ensures Diffing(cmpKey, was, new_, m[..i] + m[end..], i, es + [Remove(i, end - 1)])
  {
    hide Replays;
    var e := Remove(i, end - 1);
    ReplaysOneMore(was, es, m, e);
    MovesExactOneMore(new_, es, e);
    assert (m[..i] + m[end..])[..i] == m[..i];
  }

  lemma {:induction false} InsertedDiffing(cmpKey: string, was: seq<Variant>, new_: seq<Variant>, m: seq<Variant>, i: nat, es: seq<Event<Variant>>, end: nat)
    requires Diffing(cmpKey, was, new_, m, i, es) && i < end <= |new_|
    ensures var e := Insert(i, end - 1, new_[i..end]);
      ValidFor(m, e) && Diffing(cmpKey, was, new_, m[..i] + new_[i..end] + m[i..], end, es + [e])
  {
    hide Replays, KeyOf, MovesExact, Faithful;
    var e, m' := Insert(i, end - 1, new_[i..end]), m[..i] + new_[i..end] + m[i..];
    ReplaysOneMore(was, es, m, e);
    MovesExactOneMore(new_, es, e);
    assert forall k :: 0 <= k < end ==> m'[k] == if k < i then m[k] else new_[k];
    assert forall k :: end <= k < |m'| ==> m'[k] == m[k - (end - i)];
    assert m'[..end] == m[..i] + new_[i..end];
    assert new_[..end] == new_[..i] + new_[i..end];
    assert m'[..end][..i] == m[..i] && new_[..end][..i] == new_[..i];
  }

  lemma FrontsAgree(front: seq<Variant>, run: seq<Variant>, new_: seq<Variant>)
    requires |front| + |run| <= |new_|
    ensures front + run == new_[..|front| + |run|]
      <==> front == new_[..|front|] && run == new_[|front|..|front| + |run|]
  {
    var i := |front|;
    assert new_[..i + |run|] == new_[..i] + new_[i..i + |run|];
    if front + run == new_[..i + |run|] {
      assert (front + run)[..i] == front && (front + run)[i..] == run;
    }
  }

  lemma {:induction false} MovedDiffing(
    cmpKey: string, was: seq<Variant>, new_: seq<Variant>, m: seq<Variant>, i: nat, es: seq<Event<Variant>>, start: nat, end: nat)
    requires Diffing(cmpKey, was, new_, m, i, es) && i < start < end <= |m| && i + (end - start) <= |new_|
    requires forall k :: start <= k < end ==> KeyOf(cmpKey, m[k]) == KeyOf(cmpKey, new_[i + k - start])
    ensures ValidFor(m, Move(start, end - 1, i, m[start..end]))
    ensures Diffing(
      cmpKey, was, new_, Moved(m, i, start, end), i + (end - start), es + [Move(start, end - 1, i, m[start..end])])
  {
    var e := Move(start, end - 1, i, m[start..end]);
    MoveApplies(m, i, start, end);
    hide Replays, KeyOf, MovesExact, Faithful, Moved, Apply, ValidFor, MoveExact;
    ReplaysOneMore(was, es, m, e);
    MovesExactOneMore(new_, es, e);
    MovedRows(m, i, start, end);
    MoveIsExact(m, i, start, end, new_);
    FrontsAgree(m[..i], m[start..end], new_);
    if Faithful(cmpKey, was, new_) {
      FaithfulRows(cmpKey, was, new_, m, i, start, end);
    }
  }

  lemma MoveApplies(m: seq<Variant>, i: nat, start: nat, end: nat)
    requires i < start < end <= |m|
    ensures var e := Move(start, end - 1, i, m[start..end]); ValidFor(m, e) && Apply(m, e) == Moved(m, i, start, end)
  {
  }

  lemma MoveIsExact(m: seq<Variant>, i: nat, start: nat, end: nat, new_: seq<Variant>)
    requires i < start < end <= |m| && i + (end - start) <= |new_|
    ensures MoveExact(new_, Move(start, end - 1, i, m[start..end])) <==> m[start..end] == new_[i..i + (end - start)]
  {
  }

  lemma FaithfulRows(cmpKey: string, was: seq<Variant>, new_: seq<Variant>, m: seq<Variant>, i: nat, start: nat, end: nat)
    requires Faithful(cmpKey, was, new_)
    requires i < start < end <= |m| && i + (end - start) <= |new_|
    requires forall k :: i <= k < |m| ==> m[k] in was
    requires forall k :: start <= k < end ==> KeyOf(cmpKey, m[k]) == KeyOf(cmpKey, new_[i + k - start])
    ensures m[start..end] == new_[i..i + (end - start)]
  {
    forall k | start <= k < end ensures m[k] == new_[i + k - start] {
      assert m[k] in was;
    }
  }

  lemma {:induction false} ReplacedDiffing(cmpKey: string, was: seq<Variant>, new_: seq<Variant>, m: seq<Variant>, i: nat, es: seq<Event<Variant>>, end: nat)
    requires Diffing(cmpKey, was, new_, m, i, es) && i < end <= |m| && end <= |new_|
    ensures var e := Changed(i, end - 1, new_[i..end]);
      ValidFor(m, e) && Diffing(cmpKey, was, new_, m[..i] + new_[i..end] + m[end..], end, es + [e])
  {
    hide Replays, KeyOf, MovesExact, Faithful;
    var e, m' := Changed(i, end - 1, new_[i..end]), m[..i] + new_[i..end] + m[end..];
    ReplaysOneMore(was, es, m, e);
    MovesExactOneMore(new_, es, e);
    assert forall k :: 0 <= k < end ==> m'[k] == if k < i then m[k] else new_[k];
    assert forall k :: end <= k < |m'| ==> m'[k] == m[k];
    assert m'[..end] == m[..i] + new_[i..end];
    assert new_[..end] == new_[..i] + new_[i..end];
    assert m'[..end][..i] == m[..i] && new_[..end][..i] == new_[..i];
  }

  // ---- What survives, when keys are unique ----

  ghost predicate Unique(s: seq<Variant>) {
    forall x :: multiset(s)[x] <= 1
  }

  /** Rows are only ever kept or moved, removed because the new list lacks them, or inserted
      because the old list lacked them. */
  ghost predicate Conserving(was: seq<Variant>, new_: seq<Variant>, m: seq<Variant>, es: seq<Event<Variant>>) {
    && Unique(m)
    && multiset(m) + Removed(was, es) == multiset(was) + Inserted(es)
    && (forall x :: x in Removed(was, es) ==> x !in multiset(new_))
    && (forall x :: x in Inserted(es) ==> x in multiset(new_) && x !in multiset(was))
  }

  /** One notification that takes rows `gone` out and puts rows `added` in. */
  lemma {:induction false} StepConserves(
    was: seq<Variant>, new_: seq<Variant>, m: seq<Variant>, es: seq<Event<Variant>>, e: Event<Variant>, m': seq<Variant>)
    requires Conserving(was, new_, m, es) && Replays(was, es, m) && ValidFor(m, e)
    requires multiset(m') + RemovedBy(m, e) == multiset(m) + InsertedBy(e)
    requires forall x :: x in RemovedBy(m, e) ==> x !in multiset(new_)
    requires forall x :: x in InsertedBy(e) ==> InsertedBy(e)[x] <= 1 && x in multiset(new_) && x !in multiset(m)
    ensures Conserving(was, new_, m', es + [e])
  {
    hide Replay, ValidFor, RemovedBy, InsertedBy, Removed, Inserted;
    OneMoreEvent(was, es, m, e);
    var gone, added, before, after := RemovedBy(m, e), InsertedBy(e), multiset(m), multiset(m');
    var removed, inserted, old_ := Removed(was, es), Inserted(es), multiset(was);
    forall x
      ensures after[x] <= 1
      ensures (after + (removed + gone))[x] == (old_ + (inserted + added))[x]
      ensures x in added ==> x !in old_
    {
      assert (after + gone)[x] == (before + added)[x];
      assert (before + removed)[x] == (old_ + inserted)[x];
      assert before[x] <= 1 && (x in added ==> before[x] == 0 && added[x] <= 1 && removed[x] == 0);
    }
    assert after + (removed + gone) == old_ + (inserted + added);
  }

  lemma CutRows(s: seq<Variant>, i: nat, end: nat)
    requires i <= end <= |s|
    ensures multiset(s) == multiset(s[..i]) + multiset(s[i..end]) + multiset(s[end..])
  {
    assert s == s[..i] + s[i..end] + s[end..];
  }

  lemma OnlyThere(s: seq<Variant>, i: nat, end: nat, x: Variant)
    requires Unique(s) && i <= end <= |s| && x in s[i..end]
    ensures x !in s[..i] && multiset(s[i..end])[x] <= 1
  {
    CutRows(s, i, end);
    assert multiset(s[i..end])[x] > 0;
    assert multiset(s)[x] == multiset(s[..i])[x] + multiset(s[i..end])[x] + multiset(s[end..])[x];
  }

  lemma {:induction false} RemovedConserves(was: seq<Variant>, new_: seq<Variant>, m: seq<Variant>, i: nat, es: seq<Event<Variant>>, end: nat)
    requires Conserving(was, new_, m, es) && Replays(was, es, m)
    requires i < end <= |m| && i <= |new_| && m[..i] == new_[..i]
    requires forall k :: i <= k < end ==> m[k] !in new_[i..]
    ensures Conserving(was, new_, m[..i] + m[end..], es + [Remove(i, end - 1)])
  {
    assert Unique(m);
    hide Replays, Conserving, Removed, Inserted, Unique;
    var e := Remove(i, end - 1);
    CutRows(m, i, end);
    forall x | x in RemovedBy(m, e) ensures x !in multiset(new_) {
      GoneForGood(m, new_, i, end, x);
    }
    StepConserves(was, new_, m, es, e, m[..i] + m[end..]);
  }

  lemma GoneForGood(m: seq<Variant>, new_: seq<Variant>, i: nat, end: nat, x: Variant)
    requires Unique(m) && i <= end <= |m| && i <= |new_| && m[..i] == new_[..i]
    requires x in m[i..end] && forall k :: i <= k < end ==> m[k] !in new_[i..]
    ensures x !in new_
  {
    OnlyThere(m, i, end, x);
    assert new_ == new_[..i] + new_[i..];
  }

  lemma {:induction false} InsertedConserves(was: seq<Variant>, new_: seq<Variant>, m: seq<Variant>, i: nat, es: seq<Event<Variant>>, end: nat)
    requires Conserving(was, new_, m, es) && Unique(new_) && Replays(was, es, m)
    requires i < end <= |new_| && i <= |m| && m[..i] == new_[..i]
    requires forall k :: i <= k < end ==> new_[k] !in m[i..]
    ensures Conserving(was, new_, m[..i] + new_[i..end] + m[i..], es + [Insert(i, end - 1, new_[i..end])])
  {
    hide Replays, Conserving;
    var e, m' := Insert(i, end - 1, new_[i..end]), m[..i] + new_[i..end] + m[i..];
    CutRows(m, i, i);
    CutRows(new_, i, end);
    assert m == m[..i] + m[i..];
    assert multiset(m') == multiset(m[..i]) + multiset(new_[i..end]) + multiset(m[i..]);
    forall x | x in InsertedBy(e) ensures InsertedBy(e)[x] <= 1 && x in multiset(new_) && x !in multiset(m) {
      assert x in new_[i..end] && x !in m[i..];
      OnlyThere(new_, i, end, x);
    }
    StepConserves(was, new_, m, es, e, m');
  }

  lemma {:induction false} MovedConserves(was: seq<Variant>, new_: seq<Variant>, m: seq<Variant>, i: nat, es: seq<Event<Variant>>, start: nat, end: nat)
    requires Conserving(was, new_, m, es) && Replays(was, es, m) && i < start < end <= |m|
    ensures Conserving(was, new_, Moved(m, i, start, end), es + [Move(start, end - 1, i, m[start..end])])
  {
    hide Replays, Conserving, Moved;
    StepConserves(was, new_, m, es, Move(start, end - 1, i, m[start..end]), Moved(m, i, start, end));
  }

  /** With the model equal to the new list, nothing common to both lists was removed or inserted. */
  lemma ConservedExactly(was: seq<Variant>, new_: seq<Variant>, es: seq<Event<Variant>>)
    requires Conserving(was, new_, new_, es) && Unique(was) && Unique(new_)
    ensures Removed(was, es) == multiset(was) - multiset(new_)
    ensures Inserted(es) == multiset(new_) - multiset(was)
  {
    hide Removed, Inserted;
    var removed, inserted := Removed(was, es), Inserted(es);
    forall x
      ensures removed[x] == (multiset(was) - multiset(new_))[x]
      ensures inserted[x] == (multiset(new_) - multiset(was))[x]
    {
      assert multiset(new_)[x] + removed[x] == (multiset(new_) + removed)[x] == multiset(was)[x] + inserted[x];
      assert x in removed ==> multiset(new_)[x] == 0;
      assert x in inserted ==> multiset(new_)[x] > 0 && multiset(was)[x] == 0;
    }
  }

  // ---- Conservation, told by keys ----

  /** Every row a notification of changed data names keeps its key. */
  ghost predicate KeysKept(cmpKey: string, was: seq<Variant>, es: seq<Event<Variant>>) {
    es == [] || (
      && KeysKept(cmpKey, was, es[..|es| - 1])
      && var m := Replay(was, es[..|es| - 1]);
         m.Some? && ValidFor(m.value, es[|es| - 1]) ==> KeepsKeys(cmpKey, m.value, es[|es| - 1]))
  }

  predicate KeepsKeys(cmpKey: string, m: seq<Variant>, e: Event<Variant>)
    requires ValidFor(m, e)
  {
    e.Changed? ==> Keys(cmpKey, m[e.first..e.last + 1]) == Keys(cmpKey, e.rows)
  }

  lemma KeysKeptOneMore(cmpKey: string, was: seq<Variant>, es: seq<Event<Variant>>, m: seq<Variant>, e: Event<Variant>)
    requires Replays(was, es, m) && ValidFor(m, e)
    ensures KeysKept(cmpKey, was, es + [e]) <==> KeysKept(cmpKey, was, es) && KeepsKeys(cmpKey, m, e)
  {
    hide Replay, ValidFor, KeepsKeys;
    assert (es + [e])[..|es|] == es;
  }

  /** The conservation of rows, told by their keys. */
  ghost predicate KeysConserving(cmpKey: string, was: seq<Variant>, new_: seq<Variant>, m: seq<Variant>, es: seq<Event<Variant>>) {
    Unique(Keys(cmpKey, was)) && Unique(Keys(cmpKey, new_)) && KeysKept(cmpKey, was, es) ==>
      Conserving(Keys(cmpKey, was), Keys(cmpKey, new_), Keys(cmpKey, m), KeyEvents(cmpKey, es))
  }

  lemma KeyEventsOneMore(cmpKey: string, es: seq<Event<Variant>>, e: Event<Variant>)
    ensures KeyEvents(cmpKey, es + [e]) == KeyEvents(cmpKey, es) + [KeyEvent(cmpKey, e)]
  {
  }

  lemma {:induction false} KeysRemoved(cmpKey: string, was: seq<Variant>, new_: seq<Variant>, m: seq<Variant>, i: nat, es: seq<Event<Variant>>, end: nat)
    requires KeysConserving(cmpKey, was, new_, m, es) && Diffing(cmpKey, was, new_, m, i, es) && i < end <= |m|
    requires forall t, k :: i <= t < end && i <= k < |new_| ==> KeyOf(cmpKey, m[t]) != KeyOf(cmpKey, new_[k])
    ensures KeysConserving(cmpKey, was, new_, m[..i] + m[end..], es + [Remove(i, end - 1)])
  {
    hide Conserving, KeyOf, FindFrom, Unique, Replays, KeysKept, MovesExact, Faithful, ValidFor, Apply;
    var e, m' := Remove(i, end - 1), m[..i] + m[end..];
    RemoveValid(m, i, end);
    KeysKeptOneMore(cmpKey, was, es, m, e);
    if Unique(Keys(cmpKey, was)) && Unique(Keys(cmpKey, new_)) && KeysKept(cmpKey, was, es + [e]) {
      KeysReplay(cmpKey, was, es, m);
      KeyEventsOneMore(cmpKey, es, e);
      KeysOfParts(cmpKey, m, i, end);
      KeysOfJoined(cmpKey, m[..i], m[end..]);
      KeysAgree(cmpKey, m, new_, i);
      RemovedConserves(Keys(cmpKey, was), Keys(cmpKey, new_), Keys(cmpKey, m), i, KeyEvents(cmpKey, es), end);
    }
  }

  lemma RemoveValid(m: seq<Variant>, i: nat, end: nat)
    requires i < end <= |m|
    ensures ValidFor(m, Remove(i, end - 1))
  {
  }

  lemma KeysAgree(cmpKey: string, m: seq<Variant>, new_: seq<Variant>, i: nat)
    requires i <= |m| && i <= |new_| && forall k :: 0 <= k < i ==> KeyOf(cmpKey, m[k]) == KeyOf(cmpKey, new_[k])
    ensures Keys(cmpKey, m)[..i] == Keys(cmpKey, new_)[..i]
  {
    hide KeyOf;
  }

  lemma {:induction false} KeysInserted(cmpKey: string, was: seq<Variant>, new_: seq<Variant>, m: seq<Variant>, i: nat, es: seq<Event<Variant>>, end: nat)
    requires KeysConserving(cmpKey, was, new_, m, es) && Diffing(cmpKey, was, new_, m, i, es) && i < end <= |new_|
    requires forall t, k :: i <= t < |m| && i <= k < end ==> KeyOf(cmpKey, m[t]) != KeyOf(cmpKey, new_[k])
    ensures KeysConserving(cmpKey, was, new_, m[..i] + new_[i..end] + m[i..], es + [Insert(i, end - 1, new_[i..end])])
  {
    hide Conserving, KeyOf, FindFrom, Unique, Replays, KeysKept, MovesExact, Faithful, Apply;
    var e, m' := Insert(i, end - 1, new_[i..end]), m[..i] + new_[i..end] + m[i..];
    KeysKeptOneMore(cmpKey, was, es, m, e);
    if Unique(Keys(cmpKey, was)) && Unique(Keys(cmpKey, new_)) && KeysKept(cmpKey, was, es + [e]) {
      KeysReplay(cmpKey, was, es, m);
      KeyEventsOneMore(cmpKey, es, e);
      KeysOfParts(cmpKey, m, i, i);
      KeysOfParts(cmpKey, new_, i, end);
      KeysOfJoined3(cmpKey, m[..i], new_[i..end], m[i..]);
      KeysAgree(cmpKey, m, new_, i);
      InsertedConserves(Keys(cmpKey, was), Keys(cmpKey, new_), Keys(cmpKey, m), i, KeyEvents(cmpKey, es), end);
    }
  }

  lemma {:induction false} KeysMoved(
    cmpKey: string, was: seq<Variant>, new_: seq<Variant>, m: seq<Variant>, i: nat, es: seq<Event<Variant>>, start: nat, end: nat)
    requires KeysConserving(cmpKey, was, new_, m, es) && Replays(was, es, m) && i < start < end <= |m|
    ensures KeysConserving(cmpKey, was, new_, Moved(m, i, start, end), es + [Move(start, end - 1, i, m[start..end])])
  {
    hide KeyOf, Keys, KeyEvents, KeyEvent, Unique, Conserving, Replays, KeysKept, KeepsKeys, Apply, ValidFor, Moved;
    KeysKeptAfterMove(cmpKey, was, m, i, es, start, end);
    if Unique(Keys(cmpKey, was)) && Unique(Keys(cmpKey, new_)) && KeysKept(cmpKey, was, es) {
      MovedKeysConserve(cmpKey, was, new_, m, i, es, start, end);
    }
  }

  lemma KeysKeptAfterMove(
    cmpKey: string, was: seq<Variant>, m: seq<Variant>, i: nat, es: seq<Event<Variant>>, start: nat, end: nat)
    requires Replays(was, es, m) && i < start < end <= |m|
    ensures KeysKept(cmpKey, was, es + [Move(start, end - 1, i, m[start..end])]) <==> KeysKept(cmpKey, was, es)
  {
    hide KeysKept, Replays;
    KeysKeptOneMore(cmpKey, was, es, m, Move(start, end - 1, i, m[start..end]));
  }

  lemma MovedKeysConserve(
    cmpKey: string, was: seq<Variant>, new_: seq<Variant>, m: seq<Variant>, i: nat, es: seq<Event<Variant>>, start: nat, end: nat)
    requires Conserving(Keys(cmpKey, was), Keys(cmpKey, new_), Keys(cmpKey, m), KeyEvents(cmpKey, es))
    requires Replays(was, es, m) && i < start < end <= |m|
    ensures Conserving(Keys(cmpKey, was), Keys(cmpKey, new_), Keys(cmpKey, Moved(m, i, start, end)),
                       KeyEvents(cmpKey, es + [Move(start, end - 1, i, m[start..end])]))
  {
    hide KeyOf, Keys, KeyEvents, Unique, Conserving, Replays, Moved;
    KeysReplay(cmpKey, was, es, m);
    KeyEventsOneMore(cmpKey, es, Move(start, end - 1, i, m[start..end]));
    KeysOfParts(cmpKey, m, start, end);
    KeysOfMoved(cmpKey, m, i, start, end);
    MovedConserves(Keys(cmpKey, was), Keys(cmpKey, new_), Keys(cmpKey, m), i, KeyEvents(cmpKey, es), start, end);
  }

  lemma {:induction false} KeysChanged(cmpKey: string, was: seq<Variant>, new_: seq<Variant>, m: seq<Variant>, i: nat, es: seq<Event<Variant>>, end: nat)
    requires KeysConserving(cmpKey, was, new_, m, es) && Replays(was, es, m) && i < end <= |m| && end <= |new_|
    ensures KeysConserving(cmpKey, was, new_, m[..i] + new_[i..end] + m[end..], es + [Changed(i, end - 1, new_[i..end])])
  {
    hide Conserving, KeyOf, Unique, Replays, KeysKept, Apply;
    var e, m' := Changed(i, end - 1, new_[i..end]), m[..i] + new_[i..end] + m[end..];
    KeysKeptOneMore(cmpKey, was, es, m, e);
    if Unique(Keys(cmpKey, was)) && Unique(Keys(cmpKey, new_)) && KeysKept(cmpKey, was, es + [e]) {
      KeysReplay(cmpKey, was, es, m);
      KeysApply(cmpKey, m, e);
      KeyEventsOneMore(cmpKey, es, e);
      KeysOfParts(cmpKey, m, i, end);
      KeysOfJoined3(cmpKey, m[..i], new_[i..end], m[end..]);
      assert Keys(cmpKey, m') == Keys(cmpKey, m);
      StepConserves(Keys(cmpKey, was), Keys(cmpKey, new_), Keys(cmpKey, m), KeyEvents(cmpKey, es), KeyEvent(cmpKey, e), Keys(cmpKey, m));
    }
  }

  // ---- Both invariants together, branch by branch ----

  ghost predicate Progress(
    cmpKey: string, was: seq<Variant>, new_: seq<Variant>, m: seq<Variant>, i: nat, es: seq<Event<Variant>>)
  {
    && Diffing(cmpKey, was, new_, m, i, es)
    && (cmpKey == "" ==> KeysKept(cmpKey, was, es))
    && KeysConserving(cmpKey, was, new_, m, es)
  }

  lemma NothingYet(cmpKey: string, was: seq<Variant>, new_: seq<Variant>)
    ensures Progress(cmpKey, was, new_, was, 0, [])
  {
    hide KeyOf, Keys;
    assert KeyEvents(cmpKey, []) == [];
  }

  lemma {:induction false} RunRemoved(
    cmpKey: string, was: seq<Variant>, new_: seq<Variant>, m: seq<Variant>, i: nat, es: seq<Event<Variant>>, end: nat)
    requires Progress(cmpKey, was, new_, m, i, es) && i < end <= |m| && i <= |new_|
    requires forall t, k :: i <= t < end && i <= k < |new_| ==> KeyOf(cmpKey, m[t]) != KeyOf(cmpKey, new_[k])
    ensures Progress(cmpKey, was, new_, m[..i] + m[end..], i, es + [Remove(i, end - 1)])
  {
    hide KeysConserving, KeysKept, FindFrom, KeyOf;
    RemovedDiffing(cmpKey, was, new_, m, i, es, end);
    KeysKeptOneMore(cmpKey, was, es, m, Remove(i, end - 1));
    KeysRemoved(cmpKey, was, new_, m, i, es, end);
  }

  lemma {:induction false} RunInserted(
    cmpKey: string, was: seq<Variant>, new_: seq<Variant>, m: seq<Variant>, i: nat, es: seq<Event<Variant>>, end: nat)
    requires Progress(cmpKey, was, new_, m, i, es) && i < end <= |new_| && i <= |m|
    requires forall t, k :: i <= t < |m| && i <= k < end ==> KeyOf(cmpKey, m[t]) != KeyOf(cmpKey, new_[k])
    ensures Progress(
      cmpKey, was, new_, m[..i] + new_[i..end] + m[i..], end, es + [Insert(i, end - 1, new_[i..end])])
  {
    hide KeysConserving, KeysKept, FindFrom, KeyOf;
    InsertedDiffing(cmpKey, was, new_, m, i, es, end);
    KeysKeptOneMore(cmpKey, was, es, m, Insert(i, end - 1, new_[i..end]));
    KeysInserted(cmpKey, was, new_, m, i, es, end);
  }

  lemma {:induction false} RunMoved(
    cmpKey: string, was: seq<Variant>, new_: seq<Variant>, m: seq<Variant>, i: nat, es: seq<Event<Variant>>, start: nat, end: nat)
    requires Progress(cmpKey, was, new_, m, i, es) && i < start < end <= |m| && i + (end - start) <= |new_|
    requires forall k :: start <= k < end ==> KeyOf(cmpKey, m[k]) == KeyOf(cmpKey, new_[i + k - start])
    ensures Progress(
      cmpKey, was, new_, Moved(m, i, start, end), i + (end - start), es + [Move(start, end - 1, i, m[start..end])])
  {
    hide KeysConserving, KeysKept, KeyOf, Moved;
    MovedDiffing(cmpKey, was, new_, m, i, es, start, end);
    KeysKeptOneMore(cmpKey, was, es, m, Move(start, end - 1, i, m[start..end]));
    KeysMoved(cmpKey, was, new_, m, i, es, start, end);
  }

  lemma {:induction false} RunReplaced(
    cmpKey: string, was: seq<Variant>, new_: seq<Variant>, m: seq<Variant>, i: nat, es: seq<Event<Variant>>, end: nat)
    requires Progress(cmpKey, was, new_, m, i, es) && i < end <= |m| && end <= |new_|
    requires KeyOf(cmpKey, m[i]) == KeyOf(cmpKey, new_[i]) && m[i] != new_[i]
    ensures Progress(cmpKey, was, new_, m[..i] + new_[i..end] + m[end..], end, es + [Changed(i, end - 1, new_[i..end])])
  {
    assert cmpKey != "";
    hide KeysConserving, KeysKept, KeyOf;
    ReplacedDiffing(cmpKey, was, new_, m, i, es, end);
    KeysChanged(cmpKey, was, new_, m, i, es, end);
  }

  lemma RowKept(cmpKey: string, was: seq<Variant>, new_: seq<Variant>, m: seq<Variant>, i: nat, es: seq<Event<Variant>>)
    requires Progress(cmpKey, was, new_, m, i, es) && i < |m| && i < |new_| && m[i] == new_[i]
    ensures Progress(cmpKey, was, new_, m, i + 1, es)
  {
    hide Replays, KeysConserving, KeysKept;
    assert m[..i + 1] == m[..i] + [m[i]] && new_[..i + 1] == new_[..i] + [new_[i]];
    assert m[..i + 1][..i] == m[..i] && new_[..i + 1][..i] == new_[..i];
  }

  lemma {:induction false} Finished(cmpKey: string, was: seq<Variant>, new_: seq<Variant>, m: seq<Variant>, es: seq<Event<Variant>>)
    requires Progress(cmpKey, was, new_, m, |new_|, es) && |m| == |new_|
    ensures forall k :: 0 <= k < |m| ==> KeyOf(cmpKey, m[k]) == KeyOf(cmpKey, new_[k])
    ensures Replays(was, es, m)
    ensures m == new_ <==> MovesExact(new_, es)
    ensures Faithful(cmpKey, was, new_) || cmpKey == "" ==> m == new_
    ensures cmpKey == "" ==> KeysKept(cmpKey, was, es)
    ensures KeysConserved(cmpKey, was, new_, es)
  {
    hide Replays, Conserving, Unique, KeysKept, Removed, Inserted;
    assert m[..|new_|] == m && new_[..|new_|] == new_;
    if Unique(Keys(cmpKey, was)) && Unique(Keys(cmpKey, new_)) && KeysKept(cmpKey, was, es) {
      assert Keys(cmpKey, m) == Keys(cmpKey, new_);
      ConservedExactly(Keys(cmpKey, was), Keys(cmpKey, new_), KeyEvents(cmpKey, es));
    }
  }

  /** While no notification of changed data takes a row's key away, the keys of removed rows are
      exactly the old ones that are not new, and those of inserted rows the new ones that are not old. */
  ghost predicate KeysConserved(cmpKey: string, was: seq<Variant>, new_: seq<Variant>, es: seq<Event<Variant>>) {
    Unique(Keys(cmpKey, was)) && Unique(Keys(cmpKey, new_)) && KeysKept(cmpKey, was, es) ==>
      && Removed(Keys(cmpKey, was), KeyEvents(cmpKey, es)) == multiset(Keys(cmpKey, was)) - multiset(Keys(cmpKey, new_))
      && Inserted(KeyEvents(cmpKey, es)) == multiset(Keys(cmpKey, new_)) - multiset(Keys(cmpKey, was))
  }

  lemma StepKeeps(cmpKey: string, was: seq<Variant>, new_: seq<Variant>, p: Progressed, step: Step)
    requires Progress(cmpKey, was, new_, p.rows, p.at, p.events) && Fits(new_, p, step) && Due(cmpKey, new_, p, step)
    ensures var q := Taken(new_, p, step); Progress(cmpKey, was, new_, q.rows, q.at, q.events)
  {
    hide Progress, KeyOf, Moved;
    match step {
      case Inserts(e) => RunInserted(cmpKey, was, new_, p.rows, p.at, p.events, e);
      case Removes(e) => RunRemoved(cmpKey, was, new_, p.rows, p.at, p.events, e);
      case Moves(o, e) => RunMoved(cmpKey, was, new_, p.rows, p.at, p.events, o, e);
      case Changes(e) => RunReplaced(cmpKey, was, new_, p.rows, p.at, p.events, e);
      case Keeps => RowKept(cmpKey, was, new_, p.rows, p.at, p.events);
    }
  }

  /** The whole diff keeps what each step keeps, up to the end of the new list. */
  lemma {:induction false} DiffKeeps(cmpKey: string, was: seq<Variant>, new_: seq<Variant>, p: Progressed)
    requires p.at <= |new_| && p.at <= |p.rows|
    requires Progress(cmpKey, was, new_, p.rows, p.at, p.events)
    ensures var d := Diff(cmpKey, new_, p);
      d.at == |d.rows| == |new_| && Progress(cmpKey, was, new_, d.rows, d.at, d.events)
    decreases |new_| - p.at, |p.rows| - p.at
  {
    if Done(new_, p) {
      AtEnd(cmpKey, new_, p);
    } else {
      var step := NextStep(cmpKey, new_, p);
      StepKeeps(cmpKey, was, new_, p, step);
      StepShrinks(new_, p, step);
      hide Progress, Taken, Fits, Due, Diff;
      DiffKeeps(cmpKey, was, new_, Taken(new_, p, step));
    }
  }

  /** Listeners of a list already equal to the new one are told nothing. */
  lemma {:induction false} DiffOfSame(cmpKey: string, s: seq<Variant>, i: nat)
    requires i <= |s|
    ensures var d := Diff(cmpKey, s, Progressed(s, i, [])); d.rows == s && d.events == []
    decreases |s| - i
  {
    if i < |s| {
      DiffOfSame(cmpKey, s, i + 1);
    }
  }

  /** What the diff is for: the new list up to the key, told to listeners without disturbing more
      rows than needed. The rows are the new list exactly when every moved row already was. */
  lemma {:induction false} DiffReconciles(cmpKey: string, was: seq<Variant>, new_: seq<Variant>)
    ensures var d := Diff(cmpKey, new_, Progressed(was, 0, [])); var m, es := d.rows, d.events;
      && |m| == |new_|
      && (forall k :: 0 <= k < |m| ==> KeyOf(cmpKey, m[k]) == KeyOf(cmpKey, new_[k]))
      && Replays(was, es, m)
      && (m == new_ <==> MovesExact(new_, es))
      && (Faithful(cmpKey, was, new_) || cmpKey == "" ==> m == new_)
      && KeysConserved(cmpKey, was, new_, es)
      && (cmpKey == "" && Unique(was) && Unique(new_) ==>
        && Removed(was, es) == multiset(was) - multiset(new_)
        && Inserted(es) == multiset(new_) - multiset(was))
      && (new_ == was ==> m == new_ && es == [])
  {
    hide Progress, Diff, Replays, Removed, Inserted, MovesExact, Unique, Faithful, KeyOf, Keys, KeyEvents, KeysKept;
    var d := Diff(cmpKey, new_, Progressed(was, 0, []));
    NothingYet(cmpKey, was, new_);
    DiffKeeps(cmpKey, was, new_, Progressed(was, 0, []));
    Finished(cmpKey, was, new_, d.rows, d.events);
    WithoutKey(was, d.events);
    WithoutKey(new_, d.events);
    if new_ == was {
      DiffOfSame(cmpKey, was, 0);
    }
  }
}
