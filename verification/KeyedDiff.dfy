/** What the diff makes of changed items when rows are compared by a key. */
module KeyedDiffs {
  import opened RowEvents
  import opened ScriptDiffs
  import opened DiffKeys
  import opened DiffInvariants

  // ---- Where the rows to be settled come from ----

  /** The rows still to be settled are those at these places of the old list, in their old order. */
  ghost predicate From(was: seq<Variant>, p: Progressed, idx: seq<nat>) {
    && p.at <= |p.rows| && |idx| == |p.rows| - p.at
    && (forall t :: 0 <= t < |idx| ==> idx[t] < |was| && p.rows[p.at + t] == was[idx[t]])
    && (forall s, t :: 0 <= s < t < |idx| ==> idx[s] < idx[t])
  }

  /** The places left after a step. */
  ghost function Left(new_: seq<Variant>, p: Progressed, step: Step, idx: seq<nat>): seq<nat>
    requires Fits(new_, p, step) && |idx| == |p.rows| - p.at
  {
    match step
    case Inserts(_) => idx
    case Removes(e) => idx[e - p.at..]
    case Moves(o, e) => idx[..o - p.at] + idx[e - p.at..]
    case Changes(e) => idx[e - p.at..]
    case Keeps => idx[1..]
  }

  lemma StepFrom(was: seq<Variant>, new_: seq<Variant>, p: Progressed, step: Step, idx: seq<nat>)
    requires From(was, p, idx) && Fits(new_, p, step) && |idx| == |p.rows| - p.at
    ensures From(was, Taken(new_, p, step), Left(new_, p, step, idx))
  {
    hide *;
    match step {
      case Inserts(e) => InsertFrom(was, new_, p, e, idx);
      case Removes(e) => RemoveFrom(was, new_, p, e, idx);
      case Moves(o, e) => MoveFrom(was, new_, p, o, e, idx);
      case Changes(e) => ChangeFrom(was, new_, p, e, idx);
      case Keeps => KeepFrom(was, new_, p, idx);
    }
  }

  lemma InsertFrom(was: seq<Variant>, new_: seq<Variant>, p: Progressed, e: nat, idx: seq<nat>)
    requires From(was, p, idx) && Fits(new_, p, Inserts(e)) && |idx| == |p.rows| - p.at
    ensures From(was, Taken(new_, p, Inserts(e)), Left(new_, p, Inserts(e), idx))
  {
  }

  lemma RemoveFrom(was: seq<Variant>, new_: seq<Variant>, p: Progressed, e: nat, idx: seq<nat>)
    requires From(was, p, idx) && Fits(new_, p, Removes(e)) && |idx| == |p.rows| - p.at
    ensures From(was, Taken(new_, p, Removes(e)), Left(new_, p, Removes(e), idx))
  {
    hide From;
    DropFrom(was, p, RemoveRun(p, e), e - p.at, idx);
  }

  lemma ChangeFrom(was: seq<Variant>, new_: seq<Variant>, p: Progressed, e: nat, idx: seq<nat>)
    requires From(was, p, idx) && Fits(new_, p, Changes(e)) && |idx| == |p.rows| - p.at
    ensures From(was, Taken(new_, p, Changes(e)), Left(new_, p, Changes(e), idx))
  {
    hide From;
    DropFrom(was, p, ChangeRun(p, new_, e), e - p.at, idx);
  }

  lemma KeepFrom(was: seq<Variant>, new_: seq<Variant>, p: Progressed, idx: seq<nat>)
    requires From(was, p, idx) && Fits(new_, p, Keeps) && |idx| == |p.rows| - p.at
    ensures From(was, Taken(new_, p, Keeps), Left(new_, p, Keeps, idx))
  {
    hide From;
    DropFrom(was, p, p.(at := p.at + 1), 1, idx);
  }

  /** The rows left are the last ones. */
  lemma DropFrom(was: seq<Variant>, p: Progressed, q: Progressed, d: nat, idx: seq<nat>)
    requires From(was, p, idx) && p.at + d <= |p.rows| && q.at <= |q.rows|
    requires |idx| == |p.rows| - p.at && q.rows[q.at..] == p.rows[p.at + d..]
    ensures From(was, q, idx[d..])
  {
    forall t | 0 <= t < |idx| - d ensures q.rows[q.at + t] == was[idx[d..][t]] {
      assert q.rows[q.at..][t] == p.rows[p.at + d..][t] == p.rows[p.at + (d + t)] == was[idx[d + t]];
    }
  }

  lemma MoveFrom(was: seq<Variant>, new_: seq<Variant>, p: Progressed, o: nat, e: nat, idx: seq<nat>)
    requires From(was, p, idx) && Fits(new_, p, Moves(o, e)) && |idx| == |p.rows| - p.at
    ensures From(was, Taken(new_, p, Moves(o, e)), Left(new_, p, Moves(o, e), idx))
  {
    MovedRows(p.rows, p.at, o, e);
    hide Moved;
  }

  lemma UniquePlaces(s: seq<Variant>, i: nat, j: nat)
    requires Unique(s) && i < j < |s|
    ensures s[i] != s[j]
  {
    CutRows(s, j, j);
    assert s[..j][i] == s[i] && s[j..][0] == s[j];
    assert multiset(s[..j])[s[i]] > 0 && multiset(s[j..])[s[j]] > 0;
    assert multiset(s)[s[j]] == multiset(s[..j])[s[j]] + multiset(s[j..j])[s[j]] + multiset(s[j..])[s[j]] <= 1;
  }

  lemma AllPlacesUnique(s: seq<Variant>)
    requires Unique(s)
    ensures forall i, j :: 0 <= i < j < |s| ==> s[i] != s[j]
  {
    forall i, j | 0 <= i < j < |s| ensures s[i] != s[j] {
      UniquePlaces(s, i, j);
    }
  }

  // ---- Rows that have to pass others ----

  /** Old row `j` has the key of new item `k`, and some row before it that of an item after `k`. */
  ghost predicate Crossed(a: seq<Variant>, b: seq<Variant>, j: nat, k: nat) {
    && j < |a| && k < |b| && a[j] == b[k]
    && exists i, l :: 0 <= i < j && k < l < |b| && a[i] == b[l]
  }

  ghost predicate RowCrosses(cmpKey: string, was: seq<Variant>, new_: seq<Variant>, row: Variant, k: nat) {
    exists j :: 0 <= j < |was| && was[j] == row && Crossed(Keys(cmpKey, was), Keys(cmpKey, new_), j, k)
  }

  /** Each moved row has to pass others. */
  ghost predicate MoveCrosses(cmpKey: string, was: seq<Variant>, new_: seq<Variant>, e: Event<Variant>) {
    e.Move? ==>
      && e.rows != [] && 0 <= e.dest && e.dest + |e.rows| <= |new_|
      && forall t :: 0 <= t < |e.rows| ==> RowCrosses(cmpKey, was, new_, e.rows[t], e.dest + t)
  }

  ghost predicate MovesCross(cmpKey: string, was: seq<Variant>, new_: seq<Variant>, es: seq<Event<Variant>>) {
    forall n :: 0 <= n < |es| ==> MoveCrosses(cmpKey, was, new_, es[n])
  }

  lemma RunKeys(
    cmpKey: string, was: seq<Variant>, new_: seq<Variant>, p: Progressed, o: nat, e: nat, idx: seq<nat>, t: nat)
    requires From(was, p, idx) && Fits(new_, p, Moves(o, e)) && Due(cmpKey, new_, p, Moves(o, e)) && o <= t < e
    ensures was[idx[t - p.at]] == p.rows[t]
    ensures Keys(cmpKey, was)[idx[t - p.at]] == Keys(cmpKey, new_)[p.at + t - o]
  {
    hide KeyOf;
    assert p.rows[p.at + (t - p.at)] == was[idx[t - p.at]];
  }

  /** A moved row passes at least the row that was at its destination. */
  lemma MovedIsCrossed(
    cmpKey: string, was: seq<Variant>, new_: seq<Variant>, p: Progressed, o: nat, e: nat, idx: seq<nat>, t: nat)
    requires Unique(Keys(cmpKey, was)) && From(was, p, idx) && Fits(new_, p, Moves(o, e)) && Due(cmpKey, new_, p, Moves(o, e)) && o <= t < e
    ensures Crossed(Keys(cmpKey, was), Keys(cmpKey, new_), idx[t - p.at], p.at + t - o)
  {
    var a, b, i := Keys(cmpKey, was), Keys(cmpKey, new_), p.at;
    AllPlacesUnique(a);
    hide KeyOf, Unique;
    var l :| i < l < |new_| && KeyOf(cmpKey, p.rows[i]) == KeyOf(cmpKey, new_[l]);
    assert p.rows[i + 0] == was[idx[0]];
    forall n | i <= n < i + (e - o) ensures b[n] != a[idx[0]] {
      RunKeys(cmpKey, was, new_, p, o, e, idx, o + n - i);
    }
    RunKeys(cmpKey, was, new_, p, o, e, idx, t);
    assert a[idx[0]] == b[l] && idx[0] < idx[t - i];
  }

  lemma MoveStepCrosses(cmpKey: string, was: seq<Variant>, new_: seq<Variant>, p: Progressed, o: nat, e: nat, idx: seq<nat>)
    requires Unique(Keys(cmpKey, was)) && From(was, p, idx) && Fits(new_, p, Moves(o, e)) && Due(cmpKey, new_, p, Moves(o, e))
    ensures MoveCrosses(cmpKey, was, new_, Move(o, e - 1, p.at, p.rows[o..e]))
  {
    hide KeyOf, Keys, Unique, Crossed;
    var rows := p.rows[o..e];
    forall t | 0 <= t < |rows| ensures RowCrosses(cmpKey, was, new_, rows[t], p.at + t) {
      MovedIsCrossed(cmpKey, was, new_, p, o, e, idx, o + t);
      RunKeys(cmpKey, was, new_, p, o, e, idx, o + t);
    }
  }

  lemma {:induction false} StepCrosses(cmpKey: string, was: seq<Variant>, new_: seq<Variant>, p: Progressed, step: Step, idx: seq<nat>)
    requires Unique(Keys(cmpKey, was)) && From(was, p, idx) && Fits(new_, p, step) && Due(cmpKey, new_, p, step)
    requires MovesCross(cmpKey, was, new_, p.events)
    ensures MovesCross(cmpKey, was, new_, Taken(new_, p, step).events)
  {
    if step.Moves? {
      MoveStepCrosses(cmpKey, was, new_, p, step.o, step.e, idx);
    }
    hide KeyOf, MoveDue, Moved, RowCrosses, Keys, From, Unique;
    var es, q := p.events, Taken(new_, p, step);
    forall n | 0 <= n < |q.events| ensures MoveCrosses(cmpKey, was, new_, q.events[n]) {
      if n < |es| {
        assert q.events[n] == es[n];
      }
    }
  }

  lemma {:induction false} DiffCrosses(cmpKey: string, was: seq<Variant>, new_: seq<Variant>, p: Progressed, idx: seq<nat>)
    requires Unique(Keys(cmpKey, was)) && From(was, p, idx) && p.at <= |new_|
    requires MovesCross(cmpKey, was, new_, p.events)
    ensures MovesCross(cmpKey, was, new_, Diff(cmpKey, new_, p).events)
    decreases |new_| - p.at, |p.rows| - p.at
  {
    if Done(new_, p) {
      AtEnd(cmpKey, new_, p);
    } else {
      var step := NextStep(cmpKey, new_, p);
      StepFrom(was, new_, p, step, idx);
      StepCrosses(cmpKey, was, new_, p, step, idx);
      StepShrinks(new_, p, step);
      hide *;
      DiffCrosses(cmpKey, was, new_, Taken(new_, p, step), Left(new_, p, step, idx));
    }
  }

  ghost function AllPlaces(n: nat): seq<nat> {
    seq(n, i requires 0 <= i < n => i)
  }

  /** Item `k` has not changed, if its row, by keys `a` and `b`, has to pass others. */
  ghost predicate UnchangedBy(a: seq<Variant>, b: seq<Variant>, was: seq<Variant>, new_: seq<Variant>, k: nat)
    requires k < |new_|
  {
    forall j :: 0 <= j < |was| && Crossed(a, b, j, k) ==> was[j] == new_[k]
  }

  ghost predicate UnchangedAt(cmpKey: string, was: seq<Variant>, new_: seq<Variant>, k: nat)
    requires k < |new_|
  {
    UnchangedBy(Keys(cmpKey, was), Keys(cmpKey, new_), was, new_, k)
  }

  /** No item has changed whose row has to pass others. */
  ghost predicate CrossedUnchanged(cmpKey: string, was: seq<Variant>, new_: seq<Variant>) {
    forall k :: 0 <= k < |new_| ==> UnchangedAt(cmpKey, was, new_, k)
  }

  /** With unique old keys, the rows are the new list if no item has changed whose row has to pass
      others; and nothing is moved if no row has to. */
  lemma {:induction false} UnchangedWhereCrossed(cmpKey: string, was: seq<Variant>, new_: seq<Variant>)
    requires Unique(Keys(cmpKey, was))
    ensures var d := Diff(cmpKey, new_, Progressed(was, 0, []));
      && MovesCross(cmpKey, was, new_, d.events)
      && (CrossedUnchanged(cmpKey, was, new_) ==> d.rows == new_)
      && ((exists n :: 0 <= n < |d.events| && d.events[n].Move?) ==>
        exists j, k :: Crossed(Keys(cmpKey, was), Keys(cmpKey, new_), j, k))
  {
    hide KeyOf, Diff, Keys, Unique, Crossed, Replays;
    var d := Diff(cmpKey, new_, Progressed(was, 0, []));
    DiffCrosses(cmpKey, was, new_, Progressed(was, 0, []), AllPlaces(|was|));
    DiffReconciles(cmpKey, was, new_);
    if CrossedUnchanged(cmpKey, was, new_) {
      forall n | 0 <= n < |d.events| ensures MoveExact(new_, d.events[n]) {
        assert MoveCrosses(cmpKey, was, new_, d.events[n]);
        CrossedMoveExact(cmpKey, was, new_, d.events[n]);
      }
    }
    if n :| 0 <= n < |d.events| && d.events[n].Move? {
      assert MoveCrosses(cmpKey, was, new_, d.events[n]);
      assert RowCrosses(cmpKey, was, new_, d.events[n].rows[0], d.events[n].dest + 0);
    }
  }

  lemma CrossedMoveExact(cmpKey: string, was: seq<Variant>, new_: seq<Variant>, e: Event<Variant>)
    requires CrossedUnchanged(cmpKey, was, new_) && MoveCrosses(cmpKey, was, new_, e)
    ensures MoveExact(new_, e)
  {
    hide Keys, Crossed;
    if e.Move? {
      forall t | 0 <= t < |e.rows| ensures e.rows[t] == new_[e.dest..e.dest + |e.rows|][t] {
        assert UnchangedAt(cmpKey, was, new_, e.dest + t);
        assert RowCrosses(cmpKey, was, new_, e.rows[t], e.dest + t);
      }
    }
  }

  // ---- Every order of the old rows ----

  lemma {:induction false} SettledStays(cmpKey: string, new_: seq<Variant>, p: Progressed)
    requires p.at <= |new_| && p.at <= |p.rows|
    ensures var d := Diff(cmpKey, new_, p); p.at <= |d.rows| && d.rows[..p.at] == p.rows[..p.at] && p.events <= d.events
    decreases |new_| - p.at, |p.rows| - p.at
  {
    if Done(new_, p) {
      AtEnd(cmpKey, new_, p);
    } else {
      var step := NextStep(cmpKey, new_, p);
      StepShrinks(new_, p, step);
      hide *;
      var q := Taken(new_, p, step);
      SettledStays(cmpKey, new_, q);
      assert Diff(cmpKey, new_, q).rows[..q.at][..p.at] == q.rows[..q.at][..p.at];
    }
  }

  /** The first old row waits for item `l` and the second for item `k` before it. */
  ghost predicate Waiting(cmpKey: string, was: seq<Variant>, new_: seq<Variant>, p: Progressed, idx: seq<nat>, k: nat, l: nat) {
    && From(was, p, idx) && |idx| >= 2 && idx[0] == 0 && idx[1] == 1
    && p.at <= k < l < |new_| && KeyOf(cmpKey, was[0]) == KeyOf(cmpKey, new_[l]) && KeyOf(cmpKey, was[1]) == KeyOf(cmpKey, new_[k])
  }

  /** Until item `k` is reached only other rows are moved and new ones inserted. */
  lemma StepWhileWaiting(
    cmpKey: string, was: seq<Variant>, new_: seq<Variant>, p: Progressed, step: Step, idx: seq<nat>, k: nat, l: nat)
    requires Unique(Keys(cmpKey, was)) && Unique(Keys(cmpKey, new_))
    requires Waiting(cmpKey, was, new_, p, idx, k, l) && Fits(new_, p, step) && Due(cmpKey, new_, p, step)
    ensures (step.Inserts? && step.e <= k)
      || (step.Moves? && step.o > p.at + 1 && p.at + (step.e - step.o) <= k)
      || (step.Moves? && step.o == p.at + 1 && p.at == k)
  {
    AllPlacesUnique(Keys(cmpKey, was));
    AllPlacesUnique(Keys(cmpKey, new_));
    assert p.rows[p.at + 0] == was[idx[0]] && p.rows[p.at + 1] == was[idx[1]];
    hide KeyOf, Unique;
    assert Keys(cmpKey, new_)[k] == KeyOf(cmpKey, p.rows[p.at + 1]) && Keys(cmpKey, new_)[l] == KeyOf(cmpKey, p.rows[p.at]);
    assert p.at < |new_| && Keys(cmpKey, new_)[p.at] != Keys(cmpKey, new_)[l];
    if step.Moves? {
      RunKeys(cmpKey, was, new_, p, step.o, step.e, idx, step.o);
      assert step.o == p.at + 1 ==> Keys(cmpKey, new_)[p.at] == Keys(cmpKey, new_)[k];
      if step.o > p.at + 1 {
        forall n | p.at <= n < p.at + (step.e - step.o) ensures Keys(cmpKey, new_)[n] != Keys(cmpKey, new_)[k] {
          RunKeys(cmpKey, was, new_, p, step.o, step.e, idx, step.o + n - p.at);
          assert Keys(cmpKey, was)[idx[step.o + n - p.at - p.at]] != Keys(cmpKey, was)[idx[1]];
        }
      }
    }
  }

  /** The waiting row is moved up as it is. */
  lemma {:induction false} WaitingRowIsMoved(
    cmpKey: string, was: seq<Variant>, new_: seq<Variant>, p: Progressed, idx: seq<nat>, k: nat, l: nat)
    requires Unique(Keys(cmpKey, was)) && Unique(Keys(cmpKey, new_)) && Waiting(cmpKey, was, new_, p, idx, k, l)
    ensures var rows := Diff(cmpKey, new_, p).rows; k < |rows| && rows[k] == was[1]
    decreases |new_| - p.at, |p.rows| - p.at
  {
    var step := NextStep(cmpKey, new_, p);
    StepWhileWaiting(cmpKey, was, new_, p, step, idx, k, l);
    StepFrom(was, new_, p, step, idx);
    StepShrinks(new_, p, step);
    var q := Taken(new_, p, step);
    hide KeyOf, Unique, Diff, Moved;
    if step.Moves? && p.at == k {
      SettledStays(cmpKey, new_, q);
      MovedRows(p.rows, p.at, step.o, step.e);
      assert p.rows[p.at + 1] == was[idx[1]];
      assert q.rows[..q.at][k] == q.rows[k] == was[1];
    } else {
      WaitingRowIsMoved(cmpKey, was, new_, q, Left(new_, p, step, idx), k, l);
    }
  }

  lemma WithoutRow(cmpKey: string, s: seq<Variant>, q: nat)
    requires q < |s|
    ensures multiset(s) == multiset(s[..q] + s[q + 1..]) + multiset{s[q]}
    ensures multiset(Keys(cmpKey, s)) == multiset(Keys(cmpKey, s[..q] + s[q + 1..])) + multiset{KeyOf(cmpKey, s[q])}
  {
    hide KeyOf, Keys;
    CutRows(s, q, q + 1);
    KeysOfCut(cmpKey, s, q, q + 1);
    CutRows(Keys(cmpKey, s), q, q + 1);
    assert s[q..q + 1] == [s[q]] && Keys(cmpKey, s)[q..q + 1] == [KeyOf(cmpKey, s[q])];
  }

  lemma SameWithout(a: multiset<Variant>, b: multiset<Variant>, x: Variant)
    requires a + multiset{x} == b + multiset{x}
    ensures a == b
  {
    assert a == (a + multiset{x}) - multiset{x} && b == (b + multiset{x}) - multiset{x};
  }

  lemma {:induction false} KeysPermuted(cmpKey: string, s: seq<Variant>, t: seq<Variant>)
    requires multiset(s) == multiset(t)
    ensures multiset(Keys(cmpKey, s)) == multiset(Keys(cmpKey, t))
    decreases |s|
  {
    hide *;
    assert |s| == |multiset(s)| == |multiset(t)| == |t|;
    if s == [] {
      assert s == t;
    } else {
      SameMembers(s, t);
      assert s[0] in s;
      var q :| 0 <= q < |t| && t[q] == s[0];
      var s', t' := s[..0] + s[1..], t[..q] + t[q + 1..];
      WithoutRow(cmpKey, s, 0);
      WithoutRow(cmpKey, t, q);
      SameWithout(multiset(s'), multiset(t'), s[0]);
      KeysPermuted(cmpKey, s', t');
    }
  }

  /** Of the items whose keys the old list has, only the last may have changed. */
  ghost predicate OnlyLastChanged(cmpKey: string, was: seq<Variant>, new_: seq<Variant>) {
    forall k, l :: 0 <= k < l < |new_| && Keys(cmpKey, new_)[k] in Keys(cmpKey, was) && Keys(cmpKey, new_)[l] in Keys(cmpKey, was)
      ==> new_[k] in was
  }

  lemma CommonUnchanged(cmpKey: string, order: seq<Variant>, new_: seq<Variant>, j: nat, k: nat)
    requires Unique(Keys(cmpKey, order)) && j < |order| && k < |new_| && new_[k] in order
    requires Keys(cmpKey, order)[j] == Keys(cmpKey, new_)[k]
    ensures order[j] == new_[k]
  {
    AllPlacesUnique(Keys(cmpKey, order));
    hide *;
    var j' :| 0 <= j' < |order| && order[j'] == new_[k];
    assert Keys(cmpKey, order)[j'] == KeyOf(cmpKey, order[j']) == Keys(cmpKey, order)[j];
  }

  lemma SameMembers(s: seq<Variant>, t: seq<Variant>)
    requires multiset(s) == multiset(t)
    ensures forall x :: x in s <==> x in t
  {
    assert forall x :: x in s <==> x in multiset(s);
    assert forall x :: x in t <==> x in multiset(t);
  }

  lemma {:induction false} OnlyLastChangedSuffices(cmpKey: string, was: seq<Variant>, new_: seq<Variant>, order: seq<Variant>)
    requires Unique(Keys(cmpKey, was)) && OnlyLastChanged(cmpKey, was, new_) && multiset(order) == multiset(was)
    ensures Diff(cmpKey, new_, Progressed(order, 0, [])).rows == new_
  {
    var a, b := Keys(cmpKey, order), Keys(cmpKey, new_);
    KeysPermuted(cmpKey, was, order);
    UniquePermuted(Keys(cmpKey, was), a);
    SameMembers(a, Keys(cmpKey, was));
    SameMembers(order, was);
    hide KeyOf, Unique, Diff, Keys;
    forall k, j | 0 <= k < |new_| && 0 <= j < |order| && Crossed(a, b, j, k) ensures order[j] == new_[k] {
      var i, l :| 0 <= i < j && k < l < |b| && a[i] == b[l];
      assert b[k] in a && b[l] in a;
      CommonUnchanged(cmpKey, order, new_, j, k);
    }
    UnchangedWhereCrossed(cmpKey, order, new_);
  }

  ghost function First(s: seq<Variant>, x: nat): (order: seq<Variant>)
    requires x < |s|
    ensures multiset(order) == multiset(s)
    ensures order[0] == s[x] && forall t :: 0 <= t < x ==> order[t + 1] == s[t]
    ensures forall t :: x < t < |s| ==> order[t] == s[t]
  {
    assert s == s[..x] + [s[x]] + s[x + 1..];
    [s[x]] + s[..x] + s[x + 1..]
  }

  /** The rows at two places first, the others after them. */
  ghost function FirstTwo(s: seq<Variant>, x: nat, y: nat): (order: seq<Variant>)
    requires x < |s| && y < |s| && x != y
    ensures multiset(order) == multiset(s) && |order| >= 2 && order[0] == s[x] && order[1] == s[y]
  {
    hide First;
    var order := First(First(s, y), if x < y then x + 1 else x);
    assert |order| == |multiset(order)| == |multiset(s)| == |s|;
    order
  }

  lemma {:induction false} StaleOrder(cmpKey: string, order: seq<Variant>, new_: seq<Variant>, k: nat, l: nat)
    requires Unique(Keys(cmpKey, order)) && Unique(Keys(cmpKey, new_)) && |order| >= 2 && k < l < |new_|
    requires KeyOf(cmpKey, order[0]) == KeyOf(cmpKey, new_[l]) && KeyOf(cmpKey, order[1]) == KeyOf(cmpKey, new_[k])
    requires order[1] != new_[k]
    ensures Diff(cmpKey, new_, Progressed(order, 0, [])).rows != new_
  {
    hide KeyOf, Unique, Diff, Keys;
    WaitingRowIsMoved(cmpKey, order, new_, Progressed(order, 0, []), AllPlaces(|order|), k, l);
  }

  /** A changed item that another common one follows is stale in some order. */
  lemma {:induction false} SomeOrderIsStale(cmpKey: string, was: seq<Variant>, new_: seq<Variant>, k: nat, l: nat)
    requires Unique(Keys(cmpKey, was)) && Unique(Keys(cmpKey, new_)) && k < l < |new_|
    requires Keys(cmpKey, new_)[k] in Keys(cmpKey, was) && Keys(cmpKey, new_)[l] in Keys(cmpKey, was) && new_[k] !in was
    ensures exists order :: multiset(order) == multiset(was) && Diff(cmpKey, new_, Progressed(order, 0, [])).rows != new_
  {
    AllPlacesUnique(Keys(cmpKey, new_));
    hide *;
    var a, b := Keys(cmpKey, was), Keys(cmpKey, new_);
    var x :| 0 <= x < |a| && a[x] == b[l];
    var y :| 0 <= y < |a| && a[y] == b[k];
    assert x != y;
    var order := FirstTwo(was, x, y);
    KeysPermuted(cmpKey, was, order);
    UniquePermuted(a, Keys(cmpKey, order));
    StaleOrder(cmpKey, order, new_, k, l);
  }

  lemma UniquePermuted(s: seq<Variant>, t: seq<Variant>)
    requires multiset(s) == multiset(t) && Unique(s)
    ensures Unique(t)
  {
  }

  /** With unique keys, every order of the old rows ends at exactly the new list if and only if no
      item but the last of those whose keys the old list has is changed. */
  lemma {:induction false} EveryOrderExact(cmpKey: string, was: seq<Variant>, new_: seq<Variant>)
    requires Unique(Keys(cmpKey, was)) && Unique(Keys(cmpKey, new_))
    ensures (forall order :: multiset(order) == multiset(was) ==> Diff(cmpKey, new_, Progressed(order, 0, [])).rows == new_)
      <==> OnlyLastChanged(cmpKey, was, new_)
  {
    hide KeyOf, Unique, Diff, Keys;
    if OnlyLastChanged(cmpKey, was, new_) {
      forall order | multiset(order) == multiset(was) ensures Diff(cmpKey, new_, Progressed(order, 0, [])).rows == new_ {
        OnlyLastChangedSuffices(cmpKey, was, new_, order);
      }
    } else {
      var k, l :| 0 <= k < l < |new_| && Keys(cmpKey, new_)[k] in Keys(cmpKey, was) && Keys(cmpKey, new_)[l] in Keys(cmpKey, was)
        && new_[k] !in was;
      SomeOrderIsStale(cmpKey, was, new_, k, l);
    }
  }

  // ---- Concrete lists ----

  // An object with key property "id" before and after its other property changed, and two other values.
  const OLD: Variant := Object(map["id" := Scalar("1"), "text" := Scalar("old")])
  const NEW: Variant := Object(map["id" := Scalar("1"), "text" := Scalar("new")])
  const OTHER: Variant := Scalar("other")
  const THIRD: Variant := Scalar("third")

  lemma StaleKeys()
    ensures KeyOf("id", OLD) == KeyOf("id", NEW) != KeyOf("id", OTHER) && OLD != NEW && OLD != OTHER && NEW != OTHER
    ensures THIRD != OTHER
  {
    assert OLD.properties["text"] == Scalar("old") && NEW.properties["text"] == Scalar("new");
    assert "old"[0] != "new"[0] && "third"[0] != "other"[0];
  }

  lemma OneRowMoved(p: Progressed)
    requires |p.rows| == 2 && p.at == 0
    ensures MoveRun(p, 1, 2) == Progressed([p.rows[1], p.rows[0]], 1, p.events + [Move(1, 1, 0, [p.rows[1]])])
  {
    MovedRows(p.rows, 0, 1, 2);
    assert p.rows[1..2] == [p.rows[1]] && Moved(p.rows, 0, 1, 2) == [p.rows[1], p.rows[0]];
  }

  /** With a key, a row moved up keeps its old value. */
  lemma MovedRowIsStale()
    ensures Diff("id", [NEW, OTHER], Progressed([OTHER, OLD], 0, [])) == Progressed([OLD, OTHER], 2, [Move(1, 1, 0, [OLD])])
  {
    StaleKeys();
    hide *;
    var was, now := [OTHER, OLD], [NEW, OTHER];
    assert was[0] == OTHER && was[1] == OLD && now[0] == NEW && now[1] == OTHER;
    var p, moved := Progressed(was, 0, []), Progressed([OLD, OTHER], 1, [Move(1, 1, 0, [OLD])]);
    assert FindFrom("id", was, 0, NEW) == 1;
    assert FindFrom("id", now, 0, OTHER) < |now|;
    ResolveMoves("id", now, p, 1, 2);
    OneRowMoved(p);
    AfterMismatch("id", now, p, moved);
    AfterKept("id", now, moved);
    AtEnd("id", now, moved.(at := 2));
  }

  /** The same row left where it is takes over the new value. */
  lemma KeptRowIsFresh()
    ensures Diff("id", [NEW, OTHER], Progressed([OLD, OTHER], 0, [])) == Progressed([NEW, OTHER], 2, [Changed(0, 0, [NEW])])
  {
    StaleKeys();
    var was, now := [OLD, OTHER], [NEW, OTHER];
    assert DifferingEnd(was, now, 1) == 1;
    hide *;
    assert was[0] == OLD && was[1] == OTHER && now[0] == NEW && now[1] == OTHER;
    assert was[..0] + now[0..1] + was[1..] == now && now[0..1] == [NEW];
    var p, changed := Progressed(was, 0, []), Progressed(now, 1, [Changed(0, 0, [NEW])]);
    AfterChange("id", now, p, 1, now);
    assert p.events + [Changed(0, 0, now[0..1])] == changed.events;
    AfterKept("id", now, changed);
    AtEnd("id", now, changed.(at := 2));
  }
}
