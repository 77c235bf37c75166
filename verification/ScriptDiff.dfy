/** The diff that keeps a list model's rows alive while its values change, as a function. */
module ScriptDiffs {
  import opened RowEvents

  /** A script value: an object with named properties, or anything else. */
  datatype Variant = Scalar(text: string) | Object(properties: map<string, Variant>)

  /** What a value is compared by: its key property if there is a key and the value has it. */
  function KeyOf(cmpKey: string, v: Variant): Variant {
    if cmpKey != "" && v.Object? && cmpKey in v.properties then v.properties[cmpKey] else v
  }

  /** The first index at or after `from` whose item has the key of `v`, or the length. */
  function FindFrom(cmpKey: string, s: seq<Variant>, from: nat, v: Variant): (i: nat)
    requires from <= |s|
    ensures from <= i <= |s|
    ensures forall k :: from <= k < i ==> KeyOf(cmpKey, s[k]) != KeyOf(cmpKey, v)
    ensures i < |s| ==> KeyOf(cmpKey, s[i]) == KeyOf(cmpKey, v)
    decreases |s| - from
  {
    if from == |s| || KeyOf(cmpKey, s[from]) == KeyOf(cmpKey, v) then from else FindFrom(cmpKey, s, from + 1, v)
  }

  /** QList::move toward the front. */
  function MoveItem(s: seq<Variant>, from: nat, to: nat): seq<Variant>
    requires to <= from < |s|
  {
    s[..to] + [s[from]] + s[to..from] + s[from + 1..]
  }

  lemma MoveOneMore(m: seq<Variant>, start: nat, index: nat, i: nat)
    requires index < start && start + i < |m|
    ensures MoveItem(m[..index] + m[start..start + i] + m[index..start] + m[start + i..], start + i, index + i)
         == m[..index] + m[start..start + i + 1] + m[index..start] + m[start + i + 1..]
  {
    var front, between, rest := m[..index] + m[start..start + i], m[index..start], m[start + i..];
    MoveToFront(front, between, rest);
    assert m[start..start + i + 1] == m[start..start + i] + [rest[0]] && rest[1..] == m[start + i + 1..];
    assert m[..index] + (m[start..start + i] + [rest[0]]) == front + [rest[0]];
  }

  lemma MoveToFront(front: seq<Variant>, between: seq<Variant>, rest: seq<Variant>)
    requires rest != []
    ensures MoveItem(front + between + rest, |front| + |between|, |front|) == front + [rest[0]] + between + rest[1..]
  {
    var s := front + between + rest;
    assert s[..|front|] == front && s[|front|..|front| + |between|] == between;
    assert s[|front| + |between|] == rest[0] && s[|front| + |between| + 1..] == rest[1..];
  }

  lemma ReplaceOneMore(m: seq<Variant>, new_: seq<Variant>, first: nat, i: nat)
    requires first <= i < |m| && i < |new_|
    ensures var s := m[..first] + new_[first..i] + m[i..];
      |s| == |m| && s[i := new_[i]] == m[..first] + new_[first..i + 1] + m[i + 1..]
  {
    var front, s := m[..first] + new_[first..i], m[..first] + new_[first..i] + m[i..];
    assert s[..i] == front && s[i + 1..] == m[i + 1..];
    assert m[..first] + new_[first..i + 1] == front + [new_[i]];
  }

  lemma MovedRows(m: seq<Variant>, i: nat, start: nat, end: nat)
    requires i < start < end <= |m|
    ensures var m', i' := Moved(m, i, start, end), i + (end - start);
      && m'[..i'] == m[..i] + m[start..end]
      && (forall k :: 0 <= k < i ==> m'[k] == m[k])
      && (forall k :: i <= k < i' ==> m'[k] == m[start + k - i])
      && (forall k :: i' <= k < end ==> m'[k] == m[k - (end - start)])
      && (forall k :: end <= k < |m| ==> m'[k] == m[k])
  {
    assert Moved(m, i, start, end) == (m[..i] + m[start..end]) + (m[i..start] + m[end..]);
  }

  // ---- The diff as a function ----

  /** From `from` to the end of the run of rows whose keys the rest of the new list lacks. */
  function RemovedEnd(cmpKey: string, new_: seq<Variant>, i: nat, m: seq<Variant>, from: nat): (e: nat)
    requires i <= |new_| && from <= |m|
    ensures from <= e <= |m|
    decreases |m| - from
  {
    if from == |m| || FindFrom(cmpKey, new_, i, m[from]) < |new_| then from
    else RemovedEnd(cmpKey, new_, i, m, from + 1)
  }

  lemma {:induction false} RemovedRun(cmpKey: string, new_: seq<Variant>, i: nat, m: seq<Variant>, from: nat)
    requires i <= |new_| && from <= |m|
    ensures var e := RemovedEnd(cmpKey, new_, i, m, from);
      && (forall k :: from <= k < e ==> FindFrom(cmpKey, new_, i, m[k]) == |new_|)
      && (e < |m| ==> FindFrom(cmpKey, new_, i, m[e]) < |new_|)
    decreases |m| - from
  {
    if from < |m| {
      RemovedRun(cmpKey, new_, i, m, from + 1);
    }
  }

  /** From two places to the end of the run of matching keys, counted in rows. */
  function MatchedRun(cmpKey: string, m: seq<Variant>, o: nat, new_: seq<Variant>, j: nat): (n: nat)
    requires o <= |m| && j <= |new_|
    ensures o + n <= |m| && j + n <= |new_|
    decreases |m| - o
  {
    if o == |m| || j == |new_| || KeyOf(cmpKey, m[o]) != KeyOf(cmpKey, new_[j]) then 0
    else 1 + MatchedRun(cmpKey, m, o + 1, new_, j + 1)
  }

  lemma {:induction false} MatchedKeys(cmpKey: string, m: seq<Variant>, o: nat, new_: seq<Variant>, j: nat)
    requires o <= |m| && j <= |new_|
    ensures var n := MatchedRun(cmpKey, m, o, new_, j);
      && (forall k :: o <= k < o + n ==> KeyOf(cmpKey, m[k]) == KeyOf(cmpKey, new_[j + k - o]))
      && (o + n < |m| && j + n < |new_| ==> KeyOf(cmpKey, m[o + n]) != KeyOf(cmpKey, new_[j + n]))
    decreases |m| - o
  {
    hide KeyOf;
    if o < |m| && j < |new_| {
      MatchedKeys(cmpKey, m, o + 1, new_, j + 1);
    }
  }

  /** From `from` to the end of the run of differing values, whatever their keys. */
  function DifferingEnd(m: seq<Variant>, new_: seq<Variant>, from: nat): (e: nat)
    requires from <= |m| && from <= |new_|
    ensures from <= e <= |m| && e <= |new_|
    decreases |m| - from
  {
    if from == |m| || from == |new_| || new_[from] == m[from] then from else DifferingEnd(m, new_, from + 1)
  }

  lemma {:induction false} DifferingRun(m: seq<Variant>, new_: seq<Variant>, from: nat)
    requires from <= |m| && from <= |new_|
    ensures var e := DifferingEnd(m, new_, from);
      && (forall k :: from <= k < e ==> m[k] != new_[k])
      && (e < |m| && e < |new_| ==> m[e] == new_[e])
    decreases |m| - from
  {
    if from < |m| && from < |new_| && new_[from] != m[from] {
      DifferingRun(m, new_, from + 1);
    }
  }

  /** The rows, the place both iterators are at, and what listeners were told. */
  datatype Progressed = Progressed(rows: seq<Variant>, at: nat, events: seq<Event<Variant>>)

  function InsertRun(p: Progressed, new_: seq<Variant>, e: nat): (q: Progressed)
    requires p.at < e <= |new_| && p.at <= |p.rows|
    ensures q.at == e <= |q.rows|
  {
    var m, i := p.rows, p.at;
    Progressed(m[..i] + new_[i..e] + m[i..], e, p.events + [Insert(i, e - 1, new_[i..e])])
  }

  function RemoveRun(p: Progressed, e: nat): (q: Progressed)
    requires p.at < e <= |p.rows|
    ensures q.at == p.at <= |q.rows| < |p.rows|
  {
    var m, i := p.rows, p.at;
    Progressed(m[..i] + m[e..], i, p.events + [Remove(i, e - 1)])
  }

  function MoveRun(p: Progressed, o: nat, e: nat): (q: Progressed)
    requires p.at < o < e <= |p.rows|
    ensures p.at < q.at == p.at + (e - o) <= |q.rows| == |p.rows|
  {
    var m, i := p.rows, p.at;
    Progressed(Moved(m, i, o, e), i + (e - o), p.events + [Move(o, e - 1, i, m[o..e])])
  }

  function ChangeRun(p: Progressed, new_: seq<Variant>, e: nat): (q: Progressed)
    requires p.at < e <= |p.rows| && e <= |new_|
    ensures q.at == e <= |q.rows| == |p.rows|
  {
    var m, i := p.rows, p.at;
    Progressed(m[..i] + new_[i..e] + m[e..], e, p.events + [Changed(i, e - 1, new_[i..e])])
  }

  /** One step at a row whose key is not the new list's. */
  function Resolve(cmpKey: string, new_: seq<Variant>, p: Progressed): (q: Progressed)
    requires p.at < |new_| && p.at < |p.rows| && KeyOf(cmpKey, new_[p.at]) != KeyOf(cmpKey, p.rows[p.at])
    ensures q.at <= |new_| && q.at <= |q.rows|
    ensures q.at > p.at || (q.at == p.at && |q.rows| < |p.rows|)
  {
    hide KeyOf, FindFrom, RemovedEnd, MatchedRun, InsertRun, RemoveRun, MoveRun;
    var m, i := p.rows, p.at;
    var o := FindFrom(cmpKey, m, i, new_[i]);
    if o == |m| then InsertRun(p, new_, RemovedEnd(cmpKey, m, i, new_, i + 1))
    else if FindFrom(cmpKey, new_, i, m[i]) == |new_| then RemoveRun(p, RemovedEnd(cmpKey, new_, i, m, i + 1))
    else MoveRun(p, o, o + 1 + MatchedRun(cmpKey, m, o + 1, new_, i + 1))
  }

  // What `Resolve` does, case by case.

  lemma ResolveInserts(cmpKey: string, new_: seq<Variant>, p: Progressed, e: nat)
    requires p.at < |new_| && p.at < |p.rows| && KeyOf(cmpKey, new_[p.at]) != KeyOf(cmpKey, p.rows[p.at])
    requires FindFrom(cmpKey, p.rows, p.at, new_[p.at]) == |p.rows|
    requires e == RemovedEnd(cmpKey, p.rows, p.at, new_, p.at + 1)
    ensures Resolve(cmpKey, new_, p) == InsertRun(p, new_, e)
  {
    hide KeyOf, FindFrom, RemovedEnd, MatchedRun, InsertRun, RemoveRun, MoveRun;
  }

  lemma ResolveRemoves(cmpKey: string, new_: seq<Variant>, p: Progressed, e: nat)
    requires p.at < |new_| && p.at < |p.rows| && KeyOf(cmpKey, new_[p.at]) != KeyOf(cmpKey, p.rows[p.at])
    requires FindFrom(cmpKey, p.rows, p.at, new_[p.at]) < |p.rows|
    requires FindFrom(cmpKey, new_, p.at, p.rows[p.at]) == |new_|
    requires e == RemovedEnd(cmpKey, new_, p.at, p.rows, p.at + 1)
    ensures Resolve(cmpKey, new_, p) == RemoveRun(p, e)
  {
    hide KeyOf, FindFrom, RemovedEnd, MatchedRun, InsertRun, RemoveRun, MoveRun;
  }

  lemma ResolveMoves(cmpKey: string, new_: seq<Variant>, p: Progressed, o: nat, e: nat)
    requires p.at < |new_| && p.at < |p.rows| && KeyOf(cmpKey, new_[p.at]) != KeyOf(cmpKey, p.rows[p.at])
    requires o == FindFrom(cmpKey, p.rows, p.at, new_[p.at]) < |p.rows|
    requires FindFrom(cmpKey, new_, p.at, p.rows[p.at]) < |new_|
    requires e == o + 1 + MatchedRun(cmpKey, p.rows, o + 1, new_, p.at + 1)
    ensures p.at < o < e <= |p.rows| && p.at + (e - o) <= |new_|
    ensures Resolve(cmpKey, new_, p) == MoveRun(p, o, e)
  {
    hide KeyOf, FindFrom, RemovedEnd, MatchedRun, InsertRun, RemoveRun, MoveRun;
    assert p.at < o;
  }

  /** What the diff makes of the rows from here on. */
  function Diff(cmpKey: string, new_: seq<Variant>, p: Progressed): Progressed
    requires p.at <= |new_| && p.at <= |p.rows|
    decreases |new_| - p.at, |p.rows| - p.at
  {
    var m, i := p.rows, p.at;
    if i == |new_| then
      if i == |m| then p else Progressed(m[..i], i, p.events + [Remove(i, |m| - 1)])
    else if i == |m| then Progressed(m + new_[i..], |new_|, p.events + [Insert(i, |new_| - 1, new_[i..])])
    else if KeyOf(cmpKey, new_[i]) != KeyOf(cmpKey, m[i]) then Diff(cmpKey, new_, Resolve(cmpKey, new_, p))
    else if new_[i] != m[i] then
      var e := DifferingEnd(m, new_, i + 1);
      Diff(cmpKey, new_, ChangeRun(p, new_, e))
    else Diff(cmpKey, new_, p.(at := i + 1))
  }

  // How the diff goes on, case by case.

  lemma AtEnd(cmpKey: string, new_: seq<Variant>, p: Progressed)
    requires p.at == |new_| <= |p.rows|
    ensures Diff(cmpKey, new_, p) == if p.at == |p.rows| then p
      else Progressed(p.rows[..p.at], p.at, p.events + [Remove(p.at, |p.rows| - 1)])
  {
  }

  lemma OutOfRows(cmpKey: string, new_: seq<Variant>, p: Progressed)
    requires p.at == |p.rows| < |new_|
    ensures Diff(cmpKey, new_, p)
      == Progressed(p.rows + new_[p.at..], |new_|, p.events + [Insert(p.at, |new_| - 1, new_[p.at..])])
  {
  }

  lemma AfterMismatch(cmpKey: string, new_: seq<Variant>, p: Progressed, q: Progressed)
    requires p.at < |new_| && p.at < |p.rows| && KeyOf(cmpKey, new_[p.at]) != KeyOf(cmpKey, p.rows[p.at])
    requires q == Resolve(cmpKey, new_, p)
    ensures Diff(cmpKey, new_, p) == Diff(cmpKey, new_, q)
  {
    hide KeyOf, FindFrom, Resolve, DifferingEnd;
  }

  lemma AfterChange(cmpKey: string, new_: seq<Variant>, p: Progressed, e: nat, rows: seq<Variant>)
    requires p.at < |new_| && p.at < |p.rows|
    requires KeyOf(cmpKey, new_[p.at]) == KeyOf(cmpKey, p.rows[p.at]) && new_[p.at] != p.rows[p.at]
    requires e == DifferingEnd(p.rows, new_, p.at + 1) && rows == p.rows[..p.at] + new_[p.at..e] + p.rows[e..]
    ensures Diff(cmpKey, new_, p) == Diff(cmpKey, new_, Progressed(rows, e, p.events + [Changed(p.at, e - 1, new_[p.at..e])]))
  {
    hide KeyOf, FindFrom, Resolve, DifferingEnd;
  }

  lemma AfterKept(cmpKey: string, new_: seq<Variant>, p: Progressed)
    requires p.at < |new_| && p.at < |p.rows| && new_[p.at] == p.rows[p.at]
    ensures Diff(cmpKey, new_, p) == Diff(cmpKey, new_, p.(at := p.at + 1))
  {
    hide KeyOf, FindFrom, Resolve, DifferingEnd;
  }

  lemma MatchedFrom(cmpKey: string, m: seq<Variant>, o: nat, new_: seq<Variant>, j: nat, e: nat)
    requires o < |m| && j < |new_| && KeyOf(cmpKey, m[o]) == KeyOf(cmpKey, new_[j])
    requires e == o + 1 + MatchedRun(cmpKey, m, o + 1, new_, j + 1)
    ensures e <= |m| && j + e - o <= |new_|
    ensures forall k :: o <= k < e ==> KeyOf(cmpKey, m[k]) == KeyOf(cmpKey, new_[j + k - o])
  {
    hide *;
    MatchedKeys(cmpKey, m, o + 1, new_, j + 1);
  }

  // ---- The diff step by step ----

  datatype Step = Inserts(e: nat) | Removes(e: nat) | Moves(o: nat, e: nat) | Changes(e: nat) | Keeps

  /** A step stays within both lists. */
  predicate Fits(new_: seq<Variant>, p: Progressed, step: Step) {
    var m, i := p.rows, p.at;
    && i <= |m| && i <= |new_|
    && match step
       case Inserts(e) => i < e <= |new_|
       case Removes(e) => i < e <= |m|
       case Moves(o, e) => i < o < e <= |m| && i + (e - o) <= |new_|
       case Changes(e) => i < e <= |m| && e <= |new_|
       case Keeps => i < |m| && i < |new_|
  }

  /** When the diff takes a step. Running out of new items removes, and running out of rows inserts. */
  ghost predicate Due(cmpKey: string, new_: seq<Variant>, p: Progressed, step: Step)
    requires Fits(new_, p, step)
  {
    var m, i := p.rows, p.at;
    match step
    case Inserts(e) => forall t, k :: i <= t < |m| && i <= k < e ==> KeyOf(cmpKey, m[t]) != KeyOf(cmpKey, new_[k])
    case Removes(e) => forall t, k :: i <= t < e && i <= k < |new_| ==> KeyOf(cmpKey, m[t]) != KeyOf(cmpKey, new_[k])
    case Moves(o, e) => MoveDue(cmpKey, new_, m, i, o, e)
    case Changes(e) =>
      && KeyOf(cmpKey, m[i]) == KeyOf(cmpKey, new_[i])
      && (forall k :: i <= k < e ==> m[k] != new_[k])
      && (e < |m| && e < |new_| ==> m[e] == new_[e])
    case Keeps => m[i] == new_[i]
  }

  ghost predicate MoveDue(cmpKey: string, new_: seq<Variant>, m: seq<Variant>, i: nat, o: nat, e: nat)
    requires i < o < e <= |m| && i + (e - o) <= |new_|
  {
    && (forall t :: o <= t < e ==> KeyOf(cmpKey, m[t]) == KeyOf(cmpKey, new_[i + t - o]))
    && (forall t :: i <= t < o ==> KeyOf(cmpKey, m[t]) != KeyOf(cmpKey, new_[i]))
    && (exists l :: i < l < |new_| && KeyOf(cmpKey, m[i]) == KeyOf(cmpKey, new_[l]))
  }

  function Taken(new_: seq<Variant>, p: Progressed, step: Step): Progressed
    requires Fits(new_, p, step)
  {
    match step
    case Inserts(e) => InsertRun(p, new_, e)
    case Removes(e) => RemoveRun(p, e)
    case Moves(o, e) => MoveRun(p, o, e)
    case Changes(e) => ChangeRun(p, new_, e)
    case Keeps => p.(at := p.at + 1)
  }

  ghost predicate Done(new_: seq<Variant>, p: Progressed) {
    p.at == |p.rows| == |new_|
  }

  lemma InsertDue(cmpKey: string, new_: seq<Variant>, p: Progressed)
    requires p.at < |new_| && p.at < |p.rows| && FindFrom(cmpKey, p.rows, p.at, new_[p.at]) == |p.rows|
    ensures var step := Inserts(RemovedEnd(cmpKey, p.rows, p.at, new_, p.at + 1)); Fits(new_, p, step) && Due(cmpKey, new_, p, step)
  {
    hide KeyOf, FindFrom, RemovedEnd;
    RemovedRun(cmpKey, p.rows, p.at, new_, p.at + 1);
  }

  lemma RemoveDue(cmpKey: string, new_: seq<Variant>, p: Progressed)
    requires p.at < |new_| && p.at < |p.rows| && FindFrom(cmpKey, new_, p.at, p.rows[p.at]) == |new_|
    ensures var step := Removes(RemovedEnd(cmpKey, new_, p.at, p.rows, p.at + 1)); Fits(new_, p, step) && Due(cmpKey, new_, p, step)
  {
    hide KeyOf, FindFrom, RemovedEnd;
    RemovedRun(cmpKey, new_, p.at, p.rows, p.at + 1);
  }

  lemma RunMoveDue(cmpKey: string, new_: seq<Variant>, p: Progressed, o: nat, e: nat)
    requires p.at < |new_| && p.at < |p.rows| && KeyOf(cmpKey, new_[p.at]) != KeyOf(cmpKey, p.rows[p.at])
    requires o == FindFrom(cmpKey, p.rows, p.at, new_[p.at]) < |p.rows|
    requires FindFrom(cmpKey, new_, p.at, p.rows[p.at]) < |new_|
    requires e == o + 1 + MatchedRun(cmpKey, p.rows, o + 1, new_, p.at + 1)
    ensures Fits(new_, p, Moves(o, e)) && Due(cmpKey, new_, p, Moves(o, e))
  {
    hide KeyOf, FindFrom, MatchedRun;
    assert p.at < FindFrom(cmpKey, new_, p.at, p.rows[p.at]);
    MatchedFrom(cmpKey, p.rows, o, new_, p.at, e);
  }

  lemma ResolveStep(cmpKey: string, new_: seq<Variant>, p: Progressed) returns (step: Step)
    requires p.at < |new_| && p.at < |p.rows| && KeyOf(cmpKey, new_[p.at]) != KeyOf(cmpKey, p.rows[p.at])
    ensures Fits(new_, p, step) && Due(cmpKey, new_, p, step) && Resolve(cmpKey, new_, p) == Taken(new_, p, step)
  {
    hide KeyOf, FindFrom, RemovedEnd, MatchedRun, Resolve, InsertRun, RemoveRun, MoveRun, ChangeRun, Due;
    var m, i := p.rows, p.at;
    var o := FindFrom(cmpKey, m, i, new_[i]);
    if o == |m| {
      step := Inserts(RemovedEnd(cmpKey, m, i, new_, i + 1));
      InsertDue(cmpKey, new_, p);
      ResolveInserts(cmpKey, new_, p, step.e);
    } else if FindFrom(cmpKey, new_, i, m[i]) == |new_| {
      step := Removes(RemovedEnd(cmpKey, new_, i, m, i + 1));
      RemoveDue(cmpKey, new_, p);
      ResolveRemoves(cmpKey, new_, p, step.e);
    } else {
      step := Moves(o, o + 1 + MatchedRun(cmpKey, m, o + 1, new_, i + 1));
      RunMoveDue(cmpKey, new_, p, o, step.e);
      ResolveMoves(cmpKey, new_, p, o, step.e);
    }
  }

  /** Until it is done, the diff takes the step that is due and goes on. */
  lemma NextStep(cmpKey: string, new_: seq<Variant>, p: Progressed) returns (step: Step)
    requires p.at <= |new_| && p.at <= |p.rows| && !Done(new_, p)
    ensures Fits(new_, p, step) && Due(cmpKey, new_, p, step) && Diff(cmpKey, new_, p) == Diff(cmpKey, new_, Taken(new_, p, step))
  {
    hide KeyOf, Diff, Resolve, DifferingEnd, MoveDue;
    var m, i := p.rows, p.at;
    if i == |new_| {
      step := Removes(|m|);
      AtEnd(cmpKey, new_, p);
      assert m[..i] + m[|m|..] == m[..i];
      AtEnd(cmpKey, new_, RemoveRun(p, |m|));
    } else if i == |m| {
      step := Inserts(|new_|);
      OutOfRows(cmpKey, new_, p);
      assert new_[i..|new_|] == new_[i..] && m[..i] + new_[i..] + m[i..] == m + new_[i..];
      AtEnd(cmpKey, new_, InsertRun(p, new_, |new_|));
    } else if KeyOf(cmpKey, new_[i]) != KeyOf(cmpKey, m[i]) {
      step := ResolveStep(cmpKey, new_, p);
      AfterMismatch(cmpKey, new_, p, Taken(new_, p, step));
    } else if new_[i] != m[i] {
      step := Changes(DifferingEnd(m, new_, i + 1));
      DifferingRun(m, new_, i + 1);
      AfterChange(cmpKey, new_, p, step.e, m[..i] + new_[i..step.e] + m[step.e..]);
    } else {
      step := Keeps;
      AfterKept(cmpKey, new_, p);
    }
  }

  lemma StepShrinks(new_: seq<Variant>, p: Progressed, step: Step)
    requires Fits(new_, p, step)
    ensures var q := Taken(new_, p, step);
      && p.at <= q.at <= |new_| && q.at <= |q.rows|
      && (q.at > p.at || |q.rows| < |p.rows|)
      && q.rows[..p.at] == p.rows[..p.at]
      && p.events <= q.events
  {
    if step.Moves? {
      MovedRows(p.rows, p.at, step.o, step.e);
    }
  }
}
