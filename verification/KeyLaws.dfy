/** What a key means for the diff, said with the values' properties alone. */
module KeyLaws {
  import opened RowEvents
  import opened ScriptDiffs
  import opened DiffKeys
  import opened DiffInvariants
  import opened KeyedDiffs
  import opened SurvivingRows

  predicate Has(name: string, v: Variant) {
    v.Object? && name in v.properties
  }

  /** When two values stand for the same row. */
  lemma MatchCases(name: string, v: Variant, w: Variant)
    ensures KeyOf(name, v) == KeyOf(name, w) <==>
      if name == "" || (!Has(name, v) && !Has(name, w)) then v == w
      else if Has(name, v) && Has(name, w) then v.properties[name] == w.properties[name]
      else if Has(name, v) then v.properties[name] == w
      else v == w.properties[name]
  {
  }

  // ---- Lists without the property ----

  ghost predicate NoneHas(name: string, s: seq<Variant>) {
    forall i :: 0 <= i < |s| ==> !Has(name, s[i])
  }

  lemma {:induction false} PlainFind(name: string, s: seq<Variant>, from: nat, v: Variant)
    requires from <= |s| && NoneHas(name, s) && !Has(name, v)
    ensures FindFrom(name, s, from, v) == FindFrom("", s, from, v)
    decreases |s| - from
  {
    if from < |s| {
      PlainFind(name, s, from + 1, v);
    }
  }

  lemma {:induction false} PlainRemovedEnd(name: string, new_: seq<Variant>, i: nat, m: seq<Variant>, from: nat)
    requires i <= |new_| && from <= |m| && NoneHas(name, new_) && NoneHas(name, m)
    ensures RemovedEnd(name, new_, i, m, from) == RemovedEnd("", new_, i, m, from)
    decreases |m| - from
  {
    hide FindFrom;
    if from < |m| {
      PlainFind(name, new_, i, m[from]);
      PlainRemovedEnd(name, new_, i, m, from + 1);
    }
  }

  lemma {:induction false} PlainMatchedRun(name: string, m: seq<Variant>, o: nat, new_: seq<Variant>, j: nat)
    requires o <= |m| && j <= |new_| && NoneHas(name, new_) && NoneHas(name, m)
    ensures MatchedRun(name, m, o, new_, j) == MatchedRun("", m, o, new_, j)
    decreases |m| - o
  {
    if o < |m| && j < |new_| {
      PlainMatchedRun(name, m, o + 1, new_, j + 1);
    }
  }

  lemma PlainValues(name: string, v: Variant, w: Variant)
    requires !Has(name, v) && !Has(name, w)
    ensures KeyOf(name, v) == KeyOf(name, w) <==> v == w
    ensures KeyOf("", v) == KeyOf("", w) <==> v == w
  {
  }

  lemma {:induction false} PlainInserts(name: string, new_: seq<Variant>, p: Progressed)
    requires p.at < |new_| && p.at < |p.rows| && NoneHas(name, new_) && NoneHas(name, p.rows)
    requires KeyOf(name, new_[p.at]) != KeyOf(name, p.rows[p.at]) && KeyOf("", new_[p.at]) != KeyOf("", p.rows[p.at])
    requires FindFrom(name, p.rows, p.at, new_[p.at]) == FindFrom("", p.rows, p.at, new_[p.at]) == |p.rows|
    ensures Resolve(name, new_, p) == Resolve("", new_, p)
  {
    hide *;
    PlainRemovedEnd(name, p.rows, p.at, new_, p.at + 1);
    ResolveInserts(name, new_, p, RemovedEnd(name, p.rows, p.at, new_, p.at + 1));
    ResolveInserts("", new_, p, RemovedEnd(name, p.rows, p.at, new_, p.at + 1));
  }

  lemma {:induction false} PlainRemoves(name: string, new_: seq<Variant>, p: Progressed)
    requires p.at < |new_| && p.at < |p.rows| && NoneHas(name, new_) && NoneHas(name, p.rows)
    requires KeyOf(name, new_[p.at]) != KeyOf(name, p.rows[p.at]) && KeyOf("", new_[p.at]) != KeyOf("", p.rows[p.at])
    requires FindFrom(name, p.rows, p.at, new_[p.at]) == FindFrom("", p.rows, p.at, new_[p.at]) < |p.rows|
    requires FindFrom(name, new_, p.at, p.rows[p.at]) == FindFrom("", new_, p.at, p.rows[p.at]) == |new_|
    ensures Resolve(name, new_, p) == Resolve("", new_, p)
  {
    hide *;
    PlainRemovedEnd(name, new_, p.at, p.rows, p.at + 1);
    ResolveRemoves(name, new_, p, RemovedEnd(name, new_, p.at, p.rows, p.at + 1));
    ResolveRemoves("", new_, p, RemovedEnd(name, new_, p.at, p.rows, p.at + 1));
  }

  lemma {:induction false} PlainMoves(name: string, new_: seq<Variant>, p: Progressed, o: nat)
    requires p.at < |new_| && p.at < |p.rows| && NoneHas(name, new_) && NoneHas(name, p.rows)
    requires KeyOf(name, new_[p.at]) != KeyOf(name, p.rows[p.at]) && KeyOf("", new_[p.at]) != KeyOf("", p.rows[p.at])
    requires FindFrom(name, p.rows, p.at, new_[p.at]) == FindFrom("", p.rows, p.at, new_[p.at]) == o < |p.rows|
    requires FindFrom(name, new_, p.at, p.rows[p.at]) == FindFrom("", new_, p.at, p.rows[p.at]) < |new_|
    ensures Resolve(name, new_, p) == Resolve("", new_, p)
  {
    hide *;
    PlainMatchedRun(name, p.rows, o + 1, new_, p.at + 1);
    var e := o + 1 + MatchedRun(name, p.rows, o + 1, new_, p.at + 1);
    ResolveMoves(name, new_, p, o, e);
    ResolveMoves("", new_, p, o, e);
  }

  lemma {:induction false} PlainResolve(name: string, new_: seq<Variant>, p: Progressed)
    requires p.at < |new_| && p.at < |p.rows| && new_[p.at] != p.rows[p.at] && NoneHas(name, new_) && NoneHas(name, p.rows)
    ensures KeyOf(name, new_[p.at]) != KeyOf(name, p.rows[p.at]) && KeyOf("", new_[p.at]) != KeyOf("", p.rows[p.at])
    ensures Resolve(name, new_, p) == Resolve("", new_, p)
  {
    assert !Has(name, new_[p.at]) && !Has(name, p.rows[p.at]);
    hide *;
    PlainValues(name, new_[p.at], p.rows[p.at]);
    PlainFind(name, p.rows, p.at, new_[p.at]);
    PlainFind(name, new_, p.at, p.rows[p.at]);
    if FindFrom(name, p.rows, p.at, new_[p.at]) == |p.rows| {
      PlainInserts(name, new_, p);
    } else if FindFrom(name, new_, p.at, p.rows[p.at]) == |new_| {
      PlainRemoves(name, new_, p);
    } else {
      PlainMoves(name, new_, p, FindFrom(name, p.rows, p.at, new_[p.at]));
    }
  }

  /** Steps bring in no values but the new list's. */
  lemma StepValues(new_: seq<Variant>, p: Progressed, step: Step)
    requires Fits(new_, p, step)
    ensures var q := Taken(new_, p, step);
      forall i :: 0 <= i < |q.rows| ==> q.rows[i] in p.rows || q.rows[i] in new_
  {
    if step.Moves? {
      MovedRows(p.rows, p.at, step.o, step.e);
    }
    hide Moved;
  }

  lemma NoneHasAfter(name: string, new_: seq<Variant>, p: Progressed, step: Step)
    requires Fits(new_, p, step) && NoneHas(name, new_) && NoneHas(name, p.rows)
    ensures NoneHas(name, Taken(new_, p, step).rows)
  {
    StepValues(new_, p, step);
    hide Taken;
  }

  /** Where no value has the key's property, the diff is the one without a key. */
  lemma {:induction false} DiffWithoutProperty(name: string, new_: seq<Variant>, p: Progressed)
    requires p.at <= |new_| && p.at <= |p.rows| && NoneHas(name, new_) && NoneHas(name, p.rows)
    ensures Diff(name, new_, p) == Diff("", new_, p)
    decreases |new_| - p.at, |p.rows| - p.at
  {
    var m, i := p.rows, p.at;
    if i == |new_| {
      AtEnd(name, new_, p);
      AtEnd("", new_, p);
    } else if i == |m| {
      OutOfRows(name, new_, p);
      OutOfRows("", new_, p);
    } else if new_[i] != m[i] {
      PlainResolve(name, new_, p);
      var q := Resolve(name, new_, p);
      var step := ResolveStep(name, new_, p);
      NoneHasAfter(name, new_, p, step);
      StepShrinks(new_, p, step);
      hide *;
      AfterMismatch(name, new_, p, q);
      AfterMismatch("", new_, p, q);
      DiffWithoutProperty(name, new_, q);
    } else {
      AfterKept(name, new_, p);
      AfterKept("", new_, p);
      DiffWithoutProperty(name, new_, p.(at := i + 1));
    }
  }

  // ---- Lists of values that all have the property ----

  ghost predicate AllHave(name: string, s: seq<Variant>) {
    forall i :: 0 <= i < |s| ==> Has(name, s[i])
  }

  function PropertyOf(name: string, v: Variant): Variant {
    if Has(name, v) then v.properties[name] else Scalar("")
  }

  function Properties(name: string, s: seq<Variant>): (properties: seq<Variant>)
    ensures |properties| == |s|
    ensures forall i :: 0 <= i < |s| ==> properties[i] == PropertyOf(name, s[i])
  {
    seq(|s|, i requires 0 <= i < |s| => PropertyOf(name, s[i]))
  }

  function PropertyEvent(name: string, e: Event<Variant>): Event<Variant> {
    match e
    case Insert(first, last, rows) => Insert(first, last, Properties(name, rows))
    case Remove(_, _) => e
    case Move(first, last, dest, rows) => Move(first, last, dest, Properties(name, rows))
    case Changed(first, last, rows) => Changed(first, last, Properties(name, rows))
  }

  function PropertyEvents(name: string, es: seq<Event<Variant>>): (properties: seq<Event<Variant>>) {
    seq(|es|, i requires 0 <= i < |es| => PropertyEvent(name, es[i]))
  }

  ghost predicate EventHas(name: string, e: Event<Variant>) {
    !e.Remove? ==> AllHave(name, e.rows)
  }

  ghost predicate EventsHave(name: string, es: seq<Event<Variant>>) {
    forall i :: 0 <= i < |es| ==> EventHas(name, es[i])
  }

  lemma KeysAreProperties(name: string, s: seq<Variant>)
    requires name != "" && AllHave(name, s)
    ensures Keys(name, s) == Properties(name, s)
  {
  }

  lemma KeyEventsAreProperties(name: string, es: seq<Event<Variant>>)
    requires name != "" && EventsHave(name, es)
    ensures KeyEvents(name, es) == PropertyEvents(name, es)
  {
    forall i | 0 <= i < |es| ensures KeyEvent(name, es[i]) == PropertyEvent(name, es[i]) {
      assert EventHas(name, es[i]);
      if !es[i].Remove? {
        KeysAreProperties(name, es[i].rows);
      }
    }
  }

  lemma AllHaveAfter(name: string, new_: seq<Variant>, p: Progressed, step: Step)
    requires Fits(new_, p, step) && AllHave(name, new_) && AllHave(name, p.rows) && EventsHave(name, p.events)
    ensures AllHave(name, Taken(new_, p, step).rows) && EventsHave(name, Taken(new_, p, step).events)
  {
    StepValues(new_, p, step);
    hide Moved, Has;
  }

  lemma {:induction false} DiffHas(name: string, new_: seq<Variant>, p: Progressed)
    requires p.at <= |new_| && p.at <= |p.rows| && AllHave(name, new_) && AllHave(name, p.rows) && EventsHave(name, p.events)
    ensures var d := Diff(name, new_, p); AllHave(name, d.rows) && EventsHave(name, d.events)
    decreases |new_| - p.at, |p.rows| - p.at
  {
    if Done(new_, p) {
      AtEnd(name, new_, p);
    } else {
      var step := NextStep(name, new_, p);
      AllHaveAfter(name, new_, p, step);
      StepShrinks(new_, p, step);
      hide *;
      DiffHas(name, new_, Taken(new_, p, step));
    }
  }

  /** Where all values have the key's property, rows stand and fall with it: the rows end up with the
      new list's properties; and, under the condition for unique ones, the removed properties are old
      minus new, the inserted ones new minus old, and the rows are the new list exactly if no item
      has changed whose row has to pass others. */
  lemma {:induction false} DiffByProperty(name: string, was: seq<Variant>, new_: seq<Variant>)
    requires name != "" && AllHave(name, was) && AllHave(name, new_)
    ensures var d := Diff(name, new_, Progressed(was, 0, []));
      var a, b, es := Properties(name, was), Properties(name, new_), d.events;
      && AllHave(name, d.rows) && Properties(name, d.rows) == b
      && (Unique(a) && Unique(b) && (forall k :: 0 <= k < |new_| ==> SurvivableBy(a, b, was, new_, k)) ==>
        && Removed(a, PropertyEvents(name, es)) == multiset(a) - multiset(b)
        && Inserted(PropertyEvents(name, es)) == multiset(b) - multiset(a)
        && (d.rows == new_ <==> forall k :: 0 <= k < |new_| ==> UnchangedBy(a, b, was, new_, k)))
  {
    var d := Diff(name, new_, Progressed(was, 0, []));
    DiffHas(name, new_, Progressed(was, 0, []));
    DiffReconciles(name, was, new_);
    hide Diff, Keys, Properties, KeyEvents, PropertyEvents, AllHave, Unique, SurvivableBy, UnchangedBy, Removed, Inserted;
    KeysAreProperties(name, was);
    KeysAreProperties(name, new_);
    KeysAreProperties(name, d.rows);
    KeyEventsAreProperties(name, d.events);
    assert Keys(name, d.rows) == Keys(name, new_);
    if Unique(Properties(name, was)) && Unique(Properties(name, new_))
      && forall k :: 0 <= k < |new_| ==> SurvivableBy(Properties(name, was), Properties(name, new_), was, new_, k) {
      SurvivorsExact(name, was, new_);
      forall k | 0 <= k < |new_|
        ensures UnchangedAt(name, was, new_, k) <==> UnchangedBy(Properties(name, was), Properties(name, new_), was, new_, k)
      {
      }
    }
  }
}
