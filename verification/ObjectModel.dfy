/** The insert-and-remove diff of object lists. */
module ObjectModels {
  import opened RowEvents

  /** The old items the new list still contains, in their old order. */
  function Survivors<T(==)>(was: seq<T>, new_: seq<T>): seq<T> {
    if was == [] then []
    else (if was[0] in new_ then [was[0]] else []) + Survivors(was[1..], new_)
  }

  /** What the greedy walk over the new list never meets of the survivors. */
  function Leftover<T(==)>(survivors: seq<T>, new_: seq<T>): seq<T> {
    if new_ == [] then survivors
    else if survivors != [] && survivors[0] == new_[0] then Leftover(survivors[1..], new_[1..])
    else Leftover(survivors, new_[1..])
  }

  /** `a` is obtained from `b` by dropping items, in any way. */
  predicate IsSubsequence<T(==)>(a: seq<T>, b: seq<T>)
    decreases |b|
  {
    || a == []
    || (b != [] && ((a[0] == b[0] && IsSubsequence(a[1..], b[1..])) || IsSubsequence(a, b[1..])))
  }

  /** Dropping items, said with places: each item of `a` is found in `b`, one after the other. */
  ghost predicate FoundAt<T>(a: seq<T>, b: seq<T>, at: seq<nat>) {
    && |at| == |a|
    && (forall k :: 0 <= k < |a| ==> at[k] < |b| && b[at[k]] == a[k])
    && (forall j, k :: 0 <= j < k < |a| ==> at[j] < at[k])
  }

  lemma {:induction false} SubsequenceFound<T>(a: seq<T>, b: seq<T>) returns (at: seq<nat>)
    requires IsSubsequence(a, b)
    ensures FoundAt(a, b, at)
    decreases |b|
  {
    if a == [] {
      at := [];
    } else if a[0] == b[0] && IsSubsequence(a[1..], b[1..]) {
      var rest := SubsequenceFound(a[1..], b[1..]);
      at := [0] + seq(|rest|, k requires 0 <= k < |rest| => rest[k] + 1);
      assert forall k :: 0 < k < |a| ==> a[k] == a[1..][k - 1] == b[1..][rest[k - 1]] == b[at[k]];
    } else {
      var rest := SubsequenceFound(a, b[1..]);
      at := seq(|rest|, k requires 0 <= k < |rest| => rest[k] + 1);
      assert forall k :: 0 <= k < |a| ==> a[k] == b[1..][rest[k]] == b[at[k]];
    }
  }

  lemma {:induction false} FoundIsSubsequence<T>(a: seq<T>, b: seq<T>, at: seq<nat>)
    requires FoundAt(a, b, at)
    ensures IsSubsequence(a, b)
    decreases |b|
  {
    if a != [] {
      assert at[0] < |b|;
      var tail := b[1..];
      if at[0] == 0 {
        var rest := seq(|at| - 1, k requires 0 <= k < |at| - 1 => if at[k + 1] > 0 then (at[k + 1] - 1) as nat else 0);
        assert forall k :: 0 <= k < |a| - 1 ==> at[k + 1] > at[0] && a[1..][k] == a[k + 1] == b[at[k + 1]] == tail[rest[k]];
        FoundIsSubsequence(a[1..], tail, rest);
      } else {
        var rest := seq(|at|, k requires 0 <= k < |at| => if at[k] > 0 then (at[k] - 1) as nat else 0);
        assert forall k :: 0 <= k < |a| ==> at[k] >= at[0] > 0 && a[k] == b[at[k]] == tail[rest[k]];
        FoundIsSubsequence(a, tail, rest);
      }
    }
  }

  /** The survivors are in the old order. */
  lemma {:induction false} SurvivorsInOrder<T>(was: seq<T>, new_: seq<T>)
    ensures IsSubsequence(Survivors(was, new_), was)
    decreases |was|
  {
    if was != [] {
      var rest := Survivors(was[1..], new_);
      SurvivorsInOrder(was[1..], new_);
      if was[0] in new_ {
        assert Survivors(was, new_)[1..] == rest;
      } else {
        assert Survivors(was, new_) == [] + rest == rest;
      }
    }
  }

  /** They are all the old objects that the new list has, as often as they were there. */
  lemma {:induction false} SurvivorsAre<T>(was: seq<T>, new_: seq<T>)
    ensures forall x :: multiset(Survivors(was, new_))[x] == if x in new_ then multiset(was)[x] else 0
    decreases |was|
  {
    if was != [] {
      var rest := Survivors(was[1..], new_);
      SurvivorsAre(was[1..], new_);
      assert was == [was[0]] + was[1..];
      assert multiset(was) == multiset{was[0]} + multiset(was[1..]);
      assert multiset(Survivors(was, new_)) == (if was[0] in new_ then multiset{was[0]} else multiset{}) + multiset(rest);
    }
  }

  /** What is left over is the end of the survivors, after as many as can be met in the new order. */
  lemma {:induction false} LeftoverIs<T>(survivors: seq<T>, new_: seq<T>) returns (k: nat)
    ensures k <= |survivors| && Leftover(survivors, new_) == survivors[k..]
    ensures IsSubsequence(survivors[..k], new_)
    ensures k < |survivors| ==> !IsSubsequence(survivors[..k + 1], new_)
    decreases |new_|
  {
    if new_ == [] {
      k := 0;
      assert survivors[0..] == survivors && survivors[..0] == [];
    } else if survivors != [] && survivors[0] == new_[0] {
      var n := LeftoverIs(survivors[1..], new_[1..]);
      k := n + 1;
      assert survivors[k..] == survivors[1..][n..];
      assert survivors[..k][0] == survivors[0] && survivors[..k][1..] == survivors[1..][..n];
      if k < |survivors| {
        var longer := survivors[..k + 1];
        assert longer[0] == new_[0] && longer[1..] == survivors[1..][..n + 1];
        if IsSubsequence(longer, new_[1..]) {
          ShorterSubsequence(longer, new_[1..]);
        }
      }
    } else {
      k := LeftoverIs(survivors, new_[1..]);
      if k < |survivors| {
        assert survivors[..k + 1][0] == survivors[0];
      }
    }
  }

  lemma {:induction false} ShorterSubsequence<T>(a: seq<T>, b: seq<T>)
    requires a != [] && IsSubsequence(a, b)
    ensures IsSubsequence(a[1..], b)
    decreases |b|
  {
    if !(a[0] == b[0] && IsSubsequence(a[1..], b[1..])) {
      ShorterSubsequence(a, b[1..]);
    }
  }

  /** The greedy walk meets every survivor whenever there is any way to. */
  lemma {:induction false} LeftoverEmpty<T>(survivors: seq<T>, new_: seq<T>)
    ensures Leftover(survivors, new_) == [] <==> IsSubsequence(survivors, new_)
    decreases |new_|
  {
    if new_ != [] {
      if survivors != [] && survivors[0] == new_[0] {
        LeftoverEmpty(survivors[1..], new_[1..]);
        if IsSubsequence(survivors, new_[1..]) {
          ShorterSubsequence(survivors, new_[1..]);
        }
      } else {
        LeftoverEmpty(survivors, new_[1..]);
      }
    }
  }

  /** The diff's result is the new list followed by the leftover survivors, and it is the new
      list exactly when the survivors already stand in the new order. */
  lemma DiffExact<T>(was: seq<T>, new_: seq<T>)
    ensures new_ + Leftover(Survivors(was, new_), new_) == new_ <==> IsSubsequence(Survivors(was, new_), new_)
  {
    var rest := Leftover(Survivors(was, new_), new_);
    LeftoverEmpty(Survivors(was, new_), new_);
    assert |new_ + rest| == |new_| + |rest|;
  }

  /** Two swapped objects: one of them is listed twice afterwards. */
  lemma SwapDuplicates<T>(a: T, b: T)
    requires a != b
    ensures [b, a] + Leftover(Survivors([a, b], [b, a]), [b, a]) == [b, a, b]
  {
    assert [a, b][1..] == [b] && [b][1..] == [] && [b, a][1..] == [a] && [a][1..] == [];
    assert Survivors([b], [b, a]) == [b];
    assert Survivors([a, b], [b, a]) == [a, b];
    assert Leftover([b], []) == [b];
    assert Leftover([a, b], [a]) == [b];
  }

  lemma {:induction false} SurvivorsSplit<T>(a: seq<T>, b: seq<T>, new_: seq<T>)
    ensures Survivors(a + b, new_) == Survivors(a, new_) + Survivors(b, new_)
  {
    if a == [] {
      assert a + b == b;
    } else {
      SurvivorsSplit(a[1..], b, new_);
      assert (a + b)[0] == a[0] && (a + b)[1..] == a[1..] + b;
      var head := if a[0] in new_ then [a[0]] else [];
      assert head + (Survivors(a[1..], new_) + Survivors(b, new_)) == head + Survivors(a[1..], new_) + Survivors(b, new_);
    }
  }

  class ObjectModel<T(==)> {
    var mValuesList: seq<T>

    constructor ()
      ensures mValuesList == []
    {
      mValuesList := [];
    }

    /** Inserts before `index`, at the end for -1, and says what listeners are told. */
    method InsertObject(object_: T, index: int) returns (told: Event<T>)
      requires -1 <= index <= |mValuesList|
      modifies this
      ensures var i := if index == -1 then |old(mValuesList)| else index;
        told == Insert(i, i, [object_]) && mValuesList == old(mValuesList)[..i] + [object_] + old(mValuesList)[i..]
      ensures ValidFor(old(mValuesList), told) && mValuesList == Apply(old(mValuesList), told)
    {
      var iindex := if index == -1 then |mValuesList| else index;
      told := Insert(iindex, iindex, [object_]);
      mValuesList := mValuesList[..iindex] + [object_] + mValuesList[iindex..];
    }

    method RemoveAt(index: nat) returns (told: Event<T>)
      requires index < |mValuesList|
      modifies this
      ensures told == Remove(index, index) && mValuesList == old(mValuesList)[..index] + old(mValuesList)[index + 1..]
      ensures ValidFor(old(mValuesList), told) && mValuesList == Apply(old(mValuesList), told)
    {
      told := Remove(index, index);
      mValuesList := mValuesList[..index] + mValuesList[index + 1..];
    }

    /** The first half of the diff: objects that the new list lacks go. */
    method RemoveMissing(newValues: seq<T>) returns (emitted: seq<Event<T>>)
      modifies this
      ensures mValuesList == Survivors(old(mValuesList), newValues)
      ensures Replays(old(mValuesList), emitted, mValuesList)
      ensures Removed(old(mValuesList), emitted) + multiset(mValuesList) == multiset(old(mValuesList))
      ensures Inserted(emitted) == multiset{}
    {
      hide *;
      ghost var was := mValuesList;
      emitted := [];
      NothingRemoved(was, newValues);
      var i := 0;
      while i < |mValuesList|
        invariant 0 <= i <= |mValuesList| && Removing(was, newValues, mValuesList, i, emitted)
        decreases |mValuesList| - i
      {
        RemovingStep(was, newValues, mValuesList, i, emitted);
        if mValuesList[i] in newValues {
          i := i + 1;
        } else {
          var told := RemoveAt(i);
          emitted := emitted + [told];
        }
      }
      AllRemoved(was, newValues, mValuesList, emitted);
    }

    /** Removes what the new list lacks, then inserts what is not already in place; nothing moves
        and nothing after the last new object is touched. */
    method DiffUpdate(newValues: seq<T>) returns (emitted: seq<Event<T>>)
      modifies this
      ensures mValuesList == newValues + Leftover(Survivors(old(mValuesList), newValues), newValues)
      ensures Replays(old(mValuesList), emitted, mValuesList)
      // survivors are neither removed nor inserted again
      ensures Removed(old(mValuesList), emitted) + multiset(Survivors(old(mValuesList), newValues)) == multiset(old(mValuesList))
      ensures Inserted(emitted) + multiset(Survivors(old(mValuesList), newValues)) == multiset(mValuesList)
    {
      hide *;
      ghost var was := mValuesList;
      emitted := RemoveMissing(newValues);
      ghost var survivors := mValuesList;
      NothingAdded(was, newValues, survivors, emitted);
      var oi := 0;
      while oi < |newValues|
        invariant 0 <= oi <= |newValues| && oi <= |mValuesList|
        invariant Adding(was, newValues, survivors, mValuesList, oi, emitted)
      {
        var object_ := newValues[oi];
        AddingStep(was, newValues, survivors, mValuesList, oi, emitted);
        if |mValuesList| == oi || mValuesList[oi] != object_ {
          var told := InsertObject(object_, oi);
          emitted := emitted + [told];
        }
        oi := oi + 1;
      }
      AllAdded(was, newValues, survivors, mValuesList, emitted);
    }
  }

  // ---- What the loops keep ----

  /** Rows before `i` survive, and rows removed so far did not. */
  ghost predicate Removing<T>(was: seq<T>, new_: seq<T>, m: seq<T>, i: nat, es: seq<Event<T>>) {
    && i <= |m| && Survivors(m, new_) == Survivors(was, new_) && Survivors(m[..i], new_) == m[..i]
    && Replays(was, es, m)
    && Removed(was, es) + multiset(m) == multiset(was) && Inserted(es) == multiset{}
  }

  lemma NothingRemoved<T>(was: seq<T>, new_: seq<T>)
    ensures Removing(was, new_, was, 0, [])
  {
  }

  lemma RemovingStep<T>(was: seq<T>, new_: seq<T>, m: seq<T>, i: nat, es: seq<Event<T>>)
    requires i < |m| && Removing(was, new_, m, i, es)
    ensures if m[i] in new_ then Removing(was, new_, m, i + 1, es)
      else Removing(was, new_, m[..i] + m[i + 1..], i, es + [Remove(i, i)])
  {
    hide Replays, Survivors, Removed, Inserted;
    OneRow(m, i, new_);
    if m[i] in new_ {
      assert m[..i + 1] == m[..i] + [m[i]];
    } else {
      RowDropped(was, es, m, i);
      assert (m[..i] + m[i + 1..])[..i] == m[..i];
    }
  }

  lemma AllRemoved<T>(was: seq<T>, new_: seq<T>, m: seq<T>, es: seq<Event<T>>)
    requires Removing(was, new_, m, |m|, es)
    ensures m == Survivors(was, new_) && Replays(was, es, m)
    ensures Removed(was, es) + multiset(m) == multiset(was) && Inserted(es) == multiset{}
  {
    hide Replays, Survivors, Removed, Inserted;
    assert m[..|m|] == m;
  }

  /** The first `i` rows are the new list's, and the walk over the survivors goes on from there. */
  ghost predicate Adding<T>(was: seq<T>, new_: seq<T>, survivors: seq<T>, m: seq<T>, i: nat, es: seq<Event<T>>) {
    && i <= |new_| && i <= |m| && m[..i] == new_[..i]
    && Leftover(m[i..], new_[i..]) == Leftover(survivors, new_)
    && Replays(was, es, m)
    && Removed(was, es) + multiset(survivors) == multiset(was) && Inserted(es) + multiset(survivors) == multiset(m)
  }

  lemma NothingAdded<T>(was: seq<T>, new_: seq<T>, survivors: seq<T>, es: seq<Event<T>>)
    requires Replays(was, es, survivors)
    requires Removed(was, es) + multiset(survivors) == multiset(was) && Inserted(es) == multiset{}
    ensures Adding(was, new_, survivors, survivors, 0, es)
  {
    hide Replays, Leftover, Removed, Inserted;
    assert survivors[0..] == survivors && new_[0..] == new_;
  }

  lemma AddingStep<T>(was: seq<T>, new_: seq<T>, survivors: seq<T>, m: seq<T>, i: nat, es: seq<Event<T>>)
    requires i < |new_| && Adding(was, new_, survivors, m, i, es)
    ensures if i < |m| && m[i] == new_[i] then Adding(was, new_, survivors, m, i + 1, es)
      else Adding(was, new_, survivors, m[..i] + [new_[i]] + m[i..], i + 1, es + [Insert(i, i, [new_[i]])])
  {
    hide Replays, Leftover, Removed, Inserted;
    OneObject(m, new_, i);
    assert new_[..i + 1] == new_[..i] + [new_[i]];
    if i < |m| && m[i] == new_[i] {
      assert m[..i + 1] == m[..i] + [m[i]];
    } else {
      RowAdded(was, es, m, i, new_[i]);
      var m' := m[..i] + [new_[i]] + m[i..];
      assert m'[..i + 1] == m[..i] + [new_[i]] && m'[i + 1..] == m[i..];
    }
  }

  lemma AllAdded<T>(was: seq<T>, new_: seq<T>, survivors: seq<T>, m: seq<T>, es: seq<Event<T>>)
    requires Adding(was, new_, survivors, m, |new_|, es)
    ensures m == new_ + Leftover(survivors, new_) && Replays(was, es, m)
    ensures Removed(was, es) + multiset(survivors) == multiset(was) && Inserted(es) + multiset(survivors) == multiset(m)
  {
    var rest := m[|new_|..];
    assert new_[|new_|..] == [] && Leftover(rest, []) == rest;
    hide Replays, Leftover, Removed, Inserted;
    assert new_[..|new_|] == new_ && m == m[..|new_|] + rest;
  }

  lemma RowDropped<T>(was: seq<T>, es: seq<Event<T>>, m: seq<T>, i: nat)
    requires Replays(was, es, m) && i < |m|
    ensures var es', m' := es + [Remove(i, i)], m[..i] + m[i + 1..];
      && Replays(was, es', m') && Inserted(es') == Inserted(es)
      && Removed(was, es') + multiset(m') == Removed(was, es) + multiset(m)
  {
    hide Removed, Inserted;
    ReplaysOneMore(was, es, m, Remove(i, i));
    OneMoreEvent(was, es, m, Remove(i, i));
    assert m == m[..i] + m[i..i + 1] + m[i + 1..];
  }

  lemma RowAdded<T>(was: seq<T>, es: seq<Event<T>>, m: seq<T>, i: nat, x: T)
    requires Replays(was, es, m) && i <= |m|
    ensures var es', m' := es + [Insert(i, i, [x])], m[..i] + [x] + m[i..];
      && Replays(was, es', m') && Removed(was, es') == Removed(was, es)
      && Inserted(es') == Inserted(es) + multiset{x} && multiset(m') == multiset(m) + multiset{x}
  {
    hide Removed, Inserted;
    ReplaysOneMore(was, es, m, Insert(i, i, [x]));
    OneMoreEvent(was, es, m, Insert(i, i, [x]));
    assert m == m[..i] + m[i..];
  }

  /** One step of the greedy walk. */
  lemma OneObject<T>(m: seq<T>, new_: seq<T>, oi: nat)
    requires oi < |new_| && oi <= |m|
    ensures Leftover(m[oi..], new_[oi..])
      == Leftover(if oi < |m| && m[oi] == new_[oi] then m[oi + 1..] else m[oi..], new_[oi + 1..])
  {
    assert new_[oi..][1..] == new_[oi + 1..];
    if oi < |m| {
      assert m[oi..][1..] == m[oi + 1..];
    }
  }

  /** Whether row i survives decides what the survivors are. */
  lemma OneRow<T>(m: seq<T>, i: nat, new_: seq<T>)
    requires i < |m|
    ensures m[i] in new_ ==> Survivors(m[..i + 1], new_) == Survivors(m[..i], new_) + [m[i]]
    ensures m[i] !in new_ ==> Survivors(m[..i] + m[i + 1..], new_) == Survivors(m, new_)
  {
    assert m[..i + 1] == m[..i] + [m[i]];
    assert m == m[..i] + [m[i]] + m[i + 1..];
    SurvivorsSplit(m[..i], [m[i]], new_);
    SurvivorsSplit(m[..i] + [m[i]], m[i + 1..], new_);
    SurvivorsSplit(m[..i], m[i + 1..], new_);
    assert Survivors([m[i]], new_) == if m[i] in new_ then [m[i]] else [];
  }
}
