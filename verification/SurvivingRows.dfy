/** Which rows of a keyed list survive a diff. */
module SurvivingRows {
  import opened RowEvents
  import opened ScriptDiffs
  import opened DiffKeys
  import opened DiffInvariants
  import opened KeyedDiffs

  // ---- When replaced rows keep their keys ----

  /** The first place at or after `from` whose key is not among the first `k` new ones. */
  ghost function NextUnsettled(a: seq<Variant>, b: seq<Variant>, from: nat, k: nat): (r: nat)
    requires from <= |a| && k <= |b|
    ensures from <= r <= |a| && (r < |a| ==> a[r] !in b[..k])
    ensures forall j :: from <= j < r ==> a[j] in b[..k]
    decreases |a| - from
  {
    if from == |a| || a[from] !in b[..k] then from else NextUnsettled(a, b, from + 1, k)
  }

  /** After old row `j` and new item `k`, the next row to settle is the next item's, if there are both. */
  ghost predicate NextMatches(a: seq<Variant>, b: seq<Variant>, j: nat, k: nat)
    requires j < |a| && k < |b|
  {
    var r := NextUnsettled(a, b, j + 1, k + 1);
    r == |a| || k + 1 == |b| || a[r] == b[k + 1]
  }

  /** If item `k` has changed and its row need not pass others, the row to settle next is the next item's. */
  ghost predicate SurvivableBy(a: seq<Variant>, b: seq<Variant>, was: seq<Variant>, new_: seq<Variant>, k: nat)
    requires |a| == |was| && |b| == |new_| && k < |new_|
  {
    forall j :: 0 <= j < |was| && a[j] == b[k] && was[j] != new_[k] && !Crossed(a, b, j, k) ==> NextMatches(a, b, j, k)
  }

  ghost predicate Survivable(cmpKey: string, was: seq<Variant>, new_: seq<Variant>, k: nat)
    requires k < |new_|
  {
    SurvivableBy(Keys(cmpKey, was), Keys(cmpKey, new_), was, new_, k)
  }

  ghost predicate UnchangedFrom(cmpKey: string, was: seq<Variant>, new_: seq<Variant>, from: nat, to: nat)
    requires to <= |new_|
  {
    forall k :: from <= k < to ==> UnchangedAt(cmpKey, was, new_, k)
  }

  ghost predicate SurvivableFrom(cmpKey: string, was: seq<Variant>, new_: seq<Variant>, from: nat, to: nat)
    requires to <= |new_|
  {
    forall k :: from <= k < to ==> Survivable(cmpKey, was, new_, k)
  }

  /** As long as no key is lost: the rows to settle do not have keys already settled, rows of keys
      yet to be settled are all there, and so is every row after the first but for settled ones. */
  ghost predicate Complete(a: seq<Variant>, b: seq<Variant>, i: nat, idx: seq<nat>) {
    && i <= |b| && (forall t :: 0 <= t < |idx| ==> idx[t] < |a|)
    && (forall s, t :: 0 <= s < t < |idx| ==> idx[s] < idx[t])
    && (forall t, n :: 0 <= t < |idx| && 0 <= n < i ==> a[idx[t]] != b[n])
    && (forall j, n :: 0 <= j < |a| && i <= n < |b| && a[j] == b[n] ==> j in idx)
    && (forall j :: 0 <= j < |a| && idx != [] && idx[0] < j && j !in idx ==> a[j] in b[..i])
  }

  lemma PlaceIn(idx: seq<nat>, j: nat) returns (t: nat)
    requires j in idx
    ensures t < |idx| && idx[t] == j
  {
    t :| 0 <= t < |idx| && idx[t] == j;
  }

  /** New items no row has are settled. */
  lemma CompleteAfterInsert(a: seq<Variant>, b: seq<Variant>, i: nat, idx: seq<nat>, e: nat)
    requires Complete(a, b, i, idx) && i <= e <= |b|
    requires forall t, k :: 0 <= t < |idx| && i <= k < e ==> a[idx[t]] != b[k]
    ensures Complete(a, b, e, idx)
    ensures forall k :: i <= k < e ==> b[k] !in a
  {
    assert forall x :: x in b[..i] ==> x in b[..e];
    forall k | i <= k < e ensures b[k] !in a {
      forall j | 0 <= j < |a| ensures a[j] != b[k] {
        if j in idx {
          var t := PlaceIn(idx, j);
        }
      }
    }
  }

  /** The first rows, which the rest of the new list lacks, are dropped. */
  lemma CompleteAfterRemove(a: seq<Variant>, b: seq<Variant>, i: nat, idx: seq<nat>, d: nat)
    requires Complete(a, b, i, idx) && d <= |idx|
    requires forall t, k :: 0 <= t < d && i <= k < |b| ==> a[idx[t]] != b[k]
    ensures Complete(a, b, i, idx[d..])
  {
    forall t | d <= t < |idx| ensures idx[t] in idx[d..] {
      assert idx[d..][t - d] == idx[t];
    }
    forall j, n | 0 <= j < |a| && i <= n < |b| && a[j] == b[n] ensures j in idx[d..] {
      var t := PlaceIn(idx, j);
    }
    forall j | j in idx && d < |idx| && idx[d] < j ensures j in idx[d..] {
      var t := PlaceIn(idx, j);
    }
  }

  /** A run of rows that the next new items stand for is settled. */
  lemma CompleteAfterRun(a: seq<Variant>, b: seq<Variant>, i: nat, idx: seq<nat>, x: nat, y: nat)
    requires Complete(a, b, i, idx) && Unique(a) && Unique(b) && x <= y <= |idx| && i + (y - x) <= |b|
    requires forall t :: x <= t < y ==> a[idx[t]] == b[i + t - x]
    ensures Complete(a, b, i + (y - x), idx[..x] + idx[y..])
  {
    RunSettled(a, b, i, idx, x, y);
    LeftRows(a, b, i, idx, x, y);
    RowsToComeThere(a, b, i, idx, x, y);
    LaterRowsThere(a, b, i, idx, x, y);
  }

  lemma LeftRows(a: seq<Variant>, b: seq<Variant>, i: nat, idx: seq<nat>, x: nat, y: nat)
    requires Complete(a, b, i, idx) && x <= y <= |idx| && i + (y - x) <= |b|
    requires forall t, n :: 0 <= t < |idx| && !(x <= t < y) && 0 <= n < i + (y - x) ==> a[idx[t]] != b[n]
    ensures var left := idx[..x] + idx[y..];
      && (forall t :: 0 <= t < |left| ==> left[t] < |a|)
      && (forall s, t :: 0 <= s < t < |left| ==> left[s] < left[t])
      && (forall t, n :: 0 <= t < |left| && 0 <= n < i + (y - x) ==> a[left[t]] != b[n])
  {
  }

  lemma RowsToComeThere(a: seq<Variant>, b: seq<Variant>, i: nat, idx: seq<nat>, x: nat, y: nat)
    requires Complete(a, b, i, idx) && x <= y <= |idx| && i + (y - x) <= |b|
    requires forall t, n :: x <= t < y && i + (y - x) <= n < |b| ==> a[idx[t]] != b[n]
    ensures forall j, n :: 0 <= j < |a| && i + (y - x) <= n < |b| && a[j] == b[n] ==> j in idx[..x] + idx[y..]
  {
    forall j, n | 0 <= j < |a| && i + (y - x) <= n < |b| && a[j] == b[n] ensures j in idx[..x] + idx[y..] {
      var t := PlaceIn(idx, j);
      LeftPlace(idx, x, y, t);
    }
  }

  lemma LaterRowsThere(a: seq<Variant>, b: seq<Variant>, i: nat, idx: seq<nat>, x: nat, y: nat)
    requires Complete(a, b, i, idx) && x <= y <= |idx| && i + (y - x) <= |b|
    requires forall t :: x <= t < y ==> a[idx[t]] == b[i + t - x]
    ensures var left := idx[..x] + idx[y..];
      forall j :: 0 <= j < |a| && left != [] && left[0] < j && j !in left ==> a[j] in b[..i + (y - x)]
  {
    var i', left := i + (y - x), idx[..x] + idx[y..];
    forall t | 0 <= t < |idx| && !(x <= t < y) ensures idx[t] in left {
      LeftPlace(idx, x, y, t);
    }
    forall j | 0 <= j < |a| && left != [] && left[0] < j && j !in left ensures a[j] in b[..i'] {
      if j in idx {
        var t := PlaceIn(idx, j);
        assert b[..i'][i + t - x] == a[j];
      } else {
        assert b[..i] == b[..i'][..i];
      }
    }
  }

  /** The run's keys are the next new ones, and nobody else's. */
  lemma RunSettled(a: seq<Variant>, b: seq<Variant>, i: nat, idx: seq<nat>, x: nat, y: nat)
    requires Complete(a, b, i, idx) && Unique(a) && Unique(b) && x <= y <= |idx| && i + (y - x) <= |b|
    requires forall t :: x <= t < y ==> a[idx[t]] == b[i + t - x]
    ensures forall t, n :: 0 <= t < |idx| && !(x <= t < y) && 0 <= n < i + (y - x) ==> a[idx[t]] != b[n]
    ensures forall t, n :: x <= t < y && i + (y - x) <= n < |b| ==> a[idx[t]] != b[n]
  {
    AllPlacesUnique(a);
    AllPlacesUnique(b);
    hide Unique;
    forall t, n | 0 <= t < |idx| && !(x <= t < y) && 0 <= n < i + (y - x) ensures a[idx[t]] != b[n] {
      if n >= i {
        assert b[n] == a[idx[x + n - i]];
      }
    }
  }

  lemma LeftPlace(idx: seq<nat>, x: nat, y: nat, t: nat)
    requires x <= y <= |idx| && t < |idx| && !(x <= t < y)
    ensures idx[t] in idx[..x] + idx[y..]
  {
    if t < x {
      assert idx[..x][t] == idx[t];
    } else {
      assert idx[y..][t - y] == idx[t];
    }
  }

  /** The row after a settled run is the next one to settle. */
  lemma NextRow(a: seq<Variant>, b: seq<Variant>, i: nat, idx: seq<nat>, k: nat)
    requires Complete(a, b, i, idx) && Unique(a) && i <= k < |b| && k - i < |idx|
    requires forall t :: 0 <= t <= k - i ==> a[idx[t]] == b[i + t]
    ensures NextUnsettled(a, b, idx[k - i] + 1, k + 1) == if k + 1 - i < |idx| then idx[k + 1 - i] else |a|
  {
    AllPlacesUnique(a);
    hide Unique;
    var from, next := idx[k - i] + 1, if k + 1 - i < |idx| then idx[k + 1 - i] else |a|;
    forall j | from <= j < next ensures a[j] in b[..k + 1] {
      assert forall t :: 0 <= t < |idx| ==> idx[t] != j;
      assert b[..i] == b[..k + 1][..i];
    }
    if next < |a| {
      var settled := b[..k + 1];
      forall n | 0 <= n < |settled| ensures settled[n] != a[next] {
        if n >= i {
          assert b[n] == a[idx[n - i]];
        }
      }
    }
    UnsettledIs(a, b, from, k + 1, next);
  }

  lemma UnsettledIs(a: seq<Variant>, b: seq<Variant>, from: nat, k: nat, next: nat)
    requires from <= next <= |a| && k <= |b|
    requires forall j :: from <= j < next ==> a[j] in b[..k]
    requires next < |a| ==> a[next] !in b[..k]
    ensures NextUnsettled(a, b, from, k) == next
  {
    hide NextUnsettled;
    var r := NextUnsettled(a, b, from, k);
    assert !(r < next) && !(next < r);
  }

  /** A row that settles in its turn need not pass others. */
  lemma InTurn(a: seq<Variant>, b: seq<Variant>, i: nat, idx: seq<nat>, k: nat)
    requires Complete(a, b, i, idx) && Unique(b) && i <= k < |b| && k - i < |idx|
    requires forall t :: 0 <= t <= k - i ==> a[idx[t]] == b[i + t]
    ensures !Crossed(a, b, idx[k - i], k)
  {
    AllPlacesUnique(b);
    hide Unique;
    forall j, l | 0 <= j < idx[k - i] && k < l < |b| ensures a[j] != b[l] {
      if j in idx {
        var t := PlaceIn(idx, j);
        assert a[idx[t]] == b[i + t];
      }
    }
  }

  /** The rows from `i` on, at these places, differ from the new items up to `e`. */
  ghost predicate AllChanged(was: seq<Variant>, new_: seq<Variant>, i: nat, idx: seq<nat>, e: nat) {
    && i < e <= |new_| && e - i <= |idx|
    && forall t :: 0 <= t < e - i ==> idx[t] < |was| && was[idx[t]] != new_[i + t]
  }

  /** One replaced row after another: where the run has kept the keys so far, item `k` is survivable
      exactly if the next row's key is the next item's. */
  lemma SurvivesNext(cmpKey: string, was: seq<Variant>, new_: seq<Variant>, i: nat, idx: seq<nat>, k: nat)
    requires Unique(Keys(cmpKey, was)) && Unique(Keys(cmpKey, new_)) && Complete(Keys(cmpKey, was), Keys(cmpKey, new_), i, idx)
    requires i <= k < |new_| && k - i < |idx| && was[idx[k - i]] != new_[k]
    requires forall t :: 0 <= t <= k - i ==> Keys(cmpKey, was)[idx[t]] == Keys(cmpKey, new_)[i + t]
    ensures Survivable(cmpKey, was, new_, k)
      <==> (k + 1 - i < |idx| && k + 1 < |new_| ==> Keys(cmpKey, was)[idx[k + 1 - i]] == Keys(cmpKey, new_)[k + 1])
  {
    var a, b := Keys(cmpKey, was), Keys(cmpKey, new_);
    NextRow(a, b, i, idx, k);
    InTurn(a, b, i, idx, k);
    AllPlacesUnique(a);
    hide Unique, KeyOf, Crossed, NextUnsettled, Keys;
    assert a[idx[k - i]] == b[k];
    assert forall j :: 0 <= j < |a| && a[j] == b[k] ==> j == idx[k - i];
  }

  /** A run of replacements keeps all keys exactly if each of its items is survivable. */
  lemma RunSurvives(cmpKey: string, was: seq<Variant>, new_: seq<Variant>, i: nat, idx: seq<nat>, e: nat)
    requires Unique(Keys(cmpKey, was)) && Unique(Keys(cmpKey, new_)) && Complete(Keys(cmpKey, was), Keys(cmpKey, new_), i, idx)
    requires AllChanged(was, new_, i, idx, e) && Keys(cmpKey, was)[idx[0]] == Keys(cmpKey, new_)[i]
    requires e - i < |idx| && e < |new_| ==> Keys(cmpKey, was)[idx[e - i]] == Keys(cmpKey, new_)[e]
    ensures (forall t :: 0 <= t < e - i ==> Keys(cmpKey, was)[idx[t]] == Keys(cmpKey, new_)[i + t])
      <==> SurvivableFrom(cmpKey, was, new_, i, e)
  {
    hide Unique, KeyOf, Keys, Survivable, Complete;
    var a, b := Keys(cmpKey, was), Keys(cmpKey, new_);
    if forall t :: 0 <= t < e - i ==> a[idx[t]] == b[i + t] {
      forall k | i <= k < e ensures Survivable(cmpKey, was, new_, k) {
        SurvivesNext(cmpKey, was, new_, i, idx, k);
        assert k + 1 < e ==> a[idx[k + 1 - i]] == b[i + (k + 1 - i)];
      }
    }
    if SurvivableFrom(cmpKey, was, new_, i, e) {
      var n := 1;
      while n < e - i
        invariant 1 <= n <= e - i
        invariant forall t :: 0 <= t < n ==> a[idx[t]] == b[i + t]
      {
        SurvivesNext(cmpKey, was, new_, i, idx, i + n - 1);
        n := n + 1;
      }
    }
  }

  // ---- Step by step, while no key is lost ----

  lemma OnlyRow(a: seq<Variant>, b: seq<Variant>, j: nat, k: nat)
    requires Unique(a) && j < |a| && k < |b| && a[j] == b[k]
    ensures forall j' :: 0 <= j' < |a| && a[j'] == b[k] ==> j' == j
  {
    AllPlacesUnique(a);
  }

  /** Items no row has, or whose row is as it was, or has to pass others, take no row's key. */
  lemma RowlessItem(cmpKey: string, was: seq<Variant>, new_: seq<Variant>, k: nat)
    requires k < |new_| && Keys(cmpKey, new_)[k] !in Keys(cmpKey, was)
    ensures Survivable(cmpKey, was, new_, k) && UnchangedAt(cmpKey, was, new_, k)
  {
    hide KeyOf, Keys;
  }

  lemma ItemWithRow(cmpKey: string, was: seq<Variant>, new_: seq<Variant>, j: nat, k: nat)
    requires Unique(Keys(cmpKey, was)) && j < |was| && k < |new_| && Keys(cmpKey, was)[j] == Keys(cmpKey, new_)[k]
    ensures Crossed(Keys(cmpKey, was), Keys(cmpKey, new_), j, k) || was[j] == new_[k] ==> Survivable(cmpKey, was, new_, k)
    ensures UnchangedAt(cmpKey, was, new_, k) <==> (Crossed(Keys(cmpKey, was), Keys(cmpKey, new_), j, k) ==> was[j] == new_[k])
  {
    OnlyRow(Keys(cmpKey, was), Keys(cmpKey, new_), j, k);
    hide KeyOf, Keys, Unique, NextMatches;
    assert forall j' :: 0 <= j' < |was| && Crossed(Keys(cmpKey, was), Keys(cmpKey, new_), j', k) ==> j' == j;
  }

  /** What is known where no key has been lost. */
  ghost predicate Surviving(cmpKey: string, was: seq<Variant>, new_: seq<Variant>, p: Progressed, idx: seq<nat>) {
    && Unique(Keys(cmpKey, was)) && Unique(Keys(cmpKey, new_))
    && From(was, p, idx) && Complete(Keys(cmpKey, was), Keys(cmpKey, new_), p.at, idx)
  }

  lemma RowKey(cmpKey: string, was: seq<Variant>, p: Progressed, idx: seq<nat>, t: nat)
    requires From(was, p, idx) && p.at <= t < |p.rows|
    ensures idx[t - p.at] < |was| && was[idx[t - p.at]] == p.rows[t]
    ensures Keys(cmpKey, was)[idx[t - p.at]] == KeyOf(cmpKey, p.rows[t])
  {
    hide KeyOf;
    assert p.rows[p.at + (t - p.at)] == was[idx[t - p.at]];
  }

  lemma InsertSurvives(cmpKey: string, was: seq<Variant>, new_: seq<Variant>, p: Progressed, idx: seq<nat>, e: nat)
    requires Surviving(cmpKey, was, new_, p, idx) && Fits(new_, p, Inserts(e)) && Due(cmpKey, new_, p, Inserts(e))
    ensures |idx| == |p.rows| - p.at && Complete(Keys(cmpKey, was), Keys(cmpKey, new_), e, idx)
    ensures SurvivableFrom(cmpKey, was, new_, p.at, e) && UnchangedFrom(cmpKey, was, new_, p.at, e)
  {
    hide KeyOf, Keys, Unique, Survivable, UnchangedAt, Complete;
    forall t, k | 0 <= t < |idx| && p.at <= k < e ensures Keys(cmpKey, was)[idx[t]] != Keys(cmpKey, new_)[k] {
      RowKey(cmpKey, was, p, idx, p.at + t);
    }
    CompleteAfterInsert(Keys(cmpKey, was), Keys(cmpKey, new_), p.at, idx, e);
    forall k | p.at <= k < e ensures Survivable(cmpKey, was, new_, k) && UnchangedAt(cmpKey, was, new_, k) {
      RowlessItem(cmpKey, was, new_, k);
    }
  }

  lemma RemoveSurvives(cmpKey: string, was: seq<Variant>, new_: seq<Variant>, p: Progressed, idx: seq<nat>, e: nat)
    requires Surviving(cmpKey, was, new_, p, idx) && Fits(new_, p, Removes(e)) && Due(cmpKey, new_, p, Removes(e))
    ensures |idx| == |p.rows| - p.at && Complete(Keys(cmpKey, was), Keys(cmpKey, new_), p.at, idx[e - p.at..])
    ensures SurvivableFrom(cmpKey, was, new_, p.at, p.at) && UnchangedFrom(cmpKey, was, new_, p.at, p.at)
  {
    hide KeyOf, Keys, Unique, Complete;
    forall t, k | 0 <= t < e - p.at && p.at <= k < |new_| ensures Keys(cmpKey, was)[idx[t]] != Keys(cmpKey, new_)[k] {
      RowKey(cmpKey, was, p, idx, p.at + t);
    }
    CompleteAfterRemove(Keys(cmpKey, was), Keys(cmpKey, new_), p.at, idx, e - p.at);
  }

  lemma MoveCompletes(cmpKey: string, was: seq<Variant>, new_: seq<Variant>, p: Progressed, idx: seq<nat>, o: nat, e: nat)
    requires Surviving(cmpKey, was, new_, p, idx) && Fits(new_, p, Moves(o, e)) && Due(cmpKey, new_, p, Moves(o, e))
    ensures |idx| == |p.rows| - p.at
    ensures Complete(Keys(cmpKey, was), Keys(cmpKey, new_), p.at + (e - o), idx[..o - p.at] + idx[e - p.at..])
  {
    hide KeyOf, Keys, Unique, Complete, MoveDue;
    var i := p.at;
    assert i < o < e <= |p.rows| && i + (e - o) <= |new_| && |idx| == |p.rows| - i;
    forall t | o - i <= t < e - i ensures Keys(cmpKey, was)[idx[t]] == Keys(cmpKey, new_)[i + t - (o - i)] {
      RunKeys(cmpKey, was, new_, p, o, e, idx, i + t);
    }
    CompleteAfterRun(Keys(cmpKey, was), Keys(cmpKey, new_), i, idx, o - i, e - i);
  }

  lemma MoveSurvives(cmpKey: string, was: seq<Variant>, new_: seq<Variant>, p: Progressed, idx: seq<nat>, o: nat, e: nat, k: nat)
    requires Surviving(cmpKey, was, new_, p, idx) && Fits(new_, p, Moves(o, e)) && Due(cmpKey, new_, p, Moves(o, e)) && p.at <= k < p.at + (e - o)
    ensures Survivable(cmpKey, was, new_, k) && (p.rows[k + (o - p.at)] == new_[k] ==> UnchangedAt(cmpKey, was, new_, k))
  {
    hide KeyOf, Keys, Unique, Survivable, UnchangedAt, Complete, Crossed, MoveDue;
    var t := k + (o - p.at);
    RunKeys(cmpKey, was, new_, p, o, e, idx, t);
    MovedIsCrossed(cmpKey, was, new_, p, o, e, idx, t);
    ItemWithRow(cmpKey, was, new_, idx[t - p.at], k);
  }

  lemma MovesSurvive(cmpKey: string, was: seq<Variant>, new_: seq<Variant>, p: Progressed, idx: seq<nat>, o: nat, e: nat)
    requires Surviving(cmpKey, was, new_, p, idx) && Fits(new_, p, Moves(o, e)) && Due(cmpKey, new_, p, Moves(o, e))
    ensures SurvivableFrom(cmpKey, was, new_, p.at, p.at + (e - o))
    ensures p.rows[o..e] == new_[p.at..p.at + (e - o)] ==> UnchangedFrom(cmpKey, was, new_, p.at, p.at + (e - o))
  {
    hide KeyOf, Surviving, Survivable, UnchangedAt, MoveDue;
    var run, items := p.rows[o..e], new_[p.at..p.at + (e - o)];
    forall k | p.at <= k < p.at + (e - o)
      ensures Survivable(cmpKey, was, new_, k) && (run == items ==> UnchangedAt(cmpKey, was, new_, k))
    {
      MoveSurvives(cmpKey, was, new_, p, idx, o, e, k);
      assert run[k - p.at] == p.rows[k + (o - p.at)] && items[k - p.at] == new_[k];
    }
  }

  lemma KeptRow(cmpKey: string, was: seq<Variant>, new_: seq<Variant>, p: Progressed, idx: seq<nat>)
    requires From(was, p, idx) && Fits(new_, p, Keeps) && Due(cmpKey, new_, p, Keeps)
    ensures |idx| == |p.rows| - p.at > 0 && idx[0] < |was| && p.at < |new_| && was[idx[0]] == new_[p.at]
    ensures Keys(cmpKey, was)[idx[0]] == Keys(cmpKey, new_)[p.at]
  {
    hide KeyOf, Keys;
    RowKey(cmpKey, was, p, idx, p.at);
  }

  lemma OneItem(cmpKey: string, was: seq<Variant>, new_: seq<Variant>, k: nat)
    requires k < |new_| && Survivable(cmpKey, was, new_, k) && UnchangedAt(cmpKey, was, new_, k)
    ensures SurvivableFrom(cmpKey, was, new_, k, k + 1) && UnchangedFrom(cmpKey, was, new_, k, k + 1)
  {
    hide Survivable, UnchangedAt;
  }

  lemma KeepSurvives(cmpKey: string, was: seq<Variant>, new_: seq<Variant>, p: Progressed, idx: seq<nat>)
    requires Surviving(cmpKey, was, new_, p, idx) && Fits(new_, p, Keeps) && Due(cmpKey, new_, p, Keeps)
    ensures |idx| == |p.rows| - p.at && Complete(Keys(cmpKey, was), Keys(cmpKey, new_), p.at + 1, idx[1..])
    ensures SurvivableFrom(cmpKey, was, new_, p.at, p.at + 1) && UnchangedFrom(cmpKey, was, new_, p.at, p.at + 1)
  {
    hide KeyOf, Keys, Unique, From, Fits, Due, Complete, Crossed, Survivable, UnchangedAt, SurvivableFrom, UnchangedFrom;
    KeptRow(cmpKey, was, new_, p, idx);
    CompleteAfterRun(Keys(cmpKey, was), Keys(cmpKey, new_), p.at, idx, 0, 1);
    assert idx[..0] + idx[1..] == idx[1..];
    ItemWithRow(cmpKey, was, new_, idx[0], p.at);
    OneItem(cmpKey, was, new_, p.at);
  }

  lemma ChangedRows(cmpKey: string, was: seq<Variant>, new_: seq<Variant>, p: Progressed, idx: seq<nat>, e: nat)
    requires From(was, p, idx) && Fits(new_, p, Changes(e)) && Due(cmpKey, new_, p, Changes(e))
    ensures AllChanged(was, new_, p.at, idx, e) && idx[0] < |was|
    ensures Keys(cmpKey, was)[idx[0]] == Keys(cmpKey, new_)[p.at]
    ensures e - p.at < |idx| && e < |new_| ==> idx[e - p.at] < |was| && Keys(cmpKey, was)[idx[e - p.at]] == Keys(cmpKey, new_)[e]
  {
    hide KeyOf, Keys;
    forall t | 0 <= t < e - p.at ensures idx[t] < |was| && was[idx[t]] != new_[p.at + t] {
      RowKey(cmpKey, was, p, idx, p.at + t);
    }
    RowKey(cmpKey, was, p, idx, p.at);
    if e < |p.rows| {
      RowKey(cmpKey, was, p, idx, e);
    }
  }

  lemma ChangeSurvives(cmpKey: string, was: seq<Variant>, new_: seq<Variant>, p: Progressed, idx: seq<nat>, e: nat)
    requires Unique(Keys(cmpKey, was)) && Unique(Keys(cmpKey, new_)) && From(was, p, idx)
    requires Complete(Keys(cmpKey, was), Keys(cmpKey, new_), p.at, idx) && Fits(new_, p, Changes(e)) && Due(cmpKey, new_, p, Changes(e))
    requires p.at < e <= |p.rows| && e <= |new_| && |idx| == |p.rows| - p.at
    ensures var kept := Keys(cmpKey, p.rows[p.at..e]) == Keys(cmpKey, new_[p.at..e]);
      && (kept <==> SurvivableFrom(cmpKey, was, new_, p.at, e))
      && (kept ==> Complete(Keys(cmpKey, was), Keys(cmpKey, new_), e, idx[e - p.at..]))
      && (kept ==> UnchangedFrom(cmpKey, was, new_, p.at, e))
  {
    hide *;
    ChangedRows(cmpKey, was, new_, p, idx, e);
    KeptRun(cmpKey, was, new_, p, idx, e);
    ChangedRunSurvives(cmpKey, was, new_, p.at, idx, e);
  }

  lemma ChangedRunSurvives(cmpKey: string, was: seq<Variant>, new_: seq<Variant>, i: nat, idx: seq<nat>, e: nat)
    requires Unique(Keys(cmpKey, was)) && Unique(Keys(cmpKey, new_)) && Complete(Keys(cmpKey, was), Keys(cmpKey, new_), i, idx)
    requires AllChanged(was, new_, i, idx, e) && Keys(cmpKey, was)[idx[0]] == Keys(cmpKey, new_)[i]
    requires e - i < |idx| && e < |new_| ==> Keys(cmpKey, was)[idx[e - i]] == Keys(cmpKey, new_)[e]
    ensures var kept := forall t :: 0 <= t < e - i ==> Keys(cmpKey, was)[idx[t]] == Keys(cmpKey, new_)[i + t];
      && (kept <==> SurvivableFrom(cmpKey, was, new_, i, e))
      && (kept ==> Complete(Keys(cmpKey, was), Keys(cmpKey, new_), e, idx[e - i..]))
      && (kept ==> UnchangedFrom(cmpKey, was, new_, i, e))
  {
    RunSurvives(cmpKey, was, new_, i, idx, e);
    hide KeyOf, Keys, Unique, SurvivableFrom, UnchangedFrom;
    if forall t :: 0 <= t < e - i ==> Keys(cmpKey, was)[idx[t]] == Keys(cmpKey, new_)[i + t] {
      KeptRunSettles(cmpKey, was, new_, i, idx, e);
    }
  }

  lemma KeptRunSettles(cmpKey: string, was: seq<Variant>, new_: seq<Variant>, i: nat, idx: seq<nat>, e: nat)
    requires Unique(Keys(cmpKey, was)) && Unique(Keys(cmpKey, new_)) && Complete(Keys(cmpKey, was), Keys(cmpKey, new_), i, idx)
    requires AllChanged(was, new_, i, idx, e)
    requires forall t :: 0 <= t < e - i ==> Keys(cmpKey, was)[idx[t]] == Keys(cmpKey, new_)[i + t]
    ensures Complete(Keys(cmpKey, was), Keys(cmpKey, new_), e, idx[e - i..])
    ensures UnchangedFrom(cmpKey, was, new_, i, e)
  {
    hide KeyOf, Keys, Unique, Complete, Survivable, UnchangedAt, Crossed;
    var a, b := Keys(cmpKey, was), Keys(cmpKey, new_);
    CompleteAfterRun(a, b, i, idx, 0, e - i);
    assert idx[..0] + idx[e - i..] == idx[e - i..];
    forall k | i <= k < e ensures UnchangedAt(cmpKey, was, new_, k) {
      assert a[idx[k - i]] == b[i + (k - i)];
      InTurn(a, b, i, idx, k);
      ItemWithRow(cmpKey, was, new_, idx[k - i], k);
    }
  }

  lemma KeptRun(cmpKey: string, was: seq<Variant>, new_: seq<Variant>, p: Progressed, idx: seq<nat>, e: nat)
    requires From(was, p, idx) && p.at < e <= |p.rows| && e <= |new_|
    ensures Keys(cmpKey, p.rows[p.at..e]) == Keys(cmpKey, new_[p.at..e])
      <==> forall t :: 0 <= t < e - p.at ==> Keys(cmpKey, was)[idx[t]] == Keys(cmpKey, new_)[p.at + t]
  {
    hide KeyOf, Keys;
    var x, y := Keys(cmpKey, p.rows[p.at..e]), Keys(cmpKey, new_[p.at..e]);
    forall t | 0 <= t < e - p.at
      ensures x[t] == Keys(cmpKey, was)[idx[t]] && y[t] == Keys(cmpKey, new_)[p.at + t]
    {
      RowKey(cmpKey, was, p, idx, p.at + t);
    }
  }

  lemma {:induction false} KeptBefore(cmpKey: string, was: seq<Variant>, es: seq<Event<Variant>>, n: nat)
    requires n <= |es| && KeysKept(cmpKey, was, es)
    ensures KeysKept(cmpKey, was, es[..n])
    decreases |es|
  {
    if n == |es| {
      assert es[..n] == es;
    } else {
      KeptBefore(cmpKey, was, es[..|es| - 1], n);
      assert es[..|es| - 1][..n] == es[..n];
    }
  }

  lemma ExactBefore(new_: seq<Variant>, es: seq<Event<Variant>>, more: seq<Event<Variant>>)
    requires es <= more && MovesExact(new_, more)
    ensures MovesExact(new_, es)
  {
    hide MoveExact;
    forall k | 0 <= k < |es| ensures MoveExact(new_, es[k]) {
      assert es[k] == more[k];
    }
  }

  /** Only a notification of changed data can lose a key. */
  lemma KeyLost(cmpKey: string, was: seq<Variant>, es: seq<Event<Variant>>, m: seq<Variant>, e: Event<Variant>)
    requires Replays(was, es, m) && ValidFor(m, e)
    ensures !e.Changed? ==> (KeysKept(cmpKey, was, es + [e]) <==> KeysKept(cmpKey, was, es))
    ensures e.Changed? ==> (KeysKept(cmpKey, was, es + [e])
      <==> (KeysKept(cmpKey, was, es) && Keys(cmpKey, m[e.first..e.last + 1]) == Keys(cmpKey, e.rows)))
  {
    KeysKeptOneMore(cmpKey, was, es, m, e);
    hide Replays, KeysKept;
  }

  ghost predicate Stepping(cmpKey: string, was: seq<Variant>, new_: seq<Variant>, p: Progressed, idx: seq<nat>, step: Step) {
    && Replays(was, p.events, p.rows) && KeysKept(cmpKey, was, p.events)
    && |idx| == |p.rows| - p.at && Surviving(cmpKey, was, new_, p, idx) && Fits(new_, p, step) && Due(cmpKey, new_, p, step)
  }

  /** A step that loses no key settles survivable items only; the rest is as complete as before, and
      moves that change nothing settle unchanged items. */
  ghost predicate Stepped(cmpKey: string, was: seq<Variant>, new_: seq<Variant>, p: Progressed, idx: seq<nat>, step: Step)
    requires Fits(new_, p, step)
  {
    var q := Taken(new_, p, step);
    && |idx| == |p.rows| - p.at && q.at <= |new_|
    && (KeysKept(cmpKey, was, q.events) <==> SurvivableFrom(cmpKey, was, new_, p.at, q.at))
    && (KeysKept(cmpKey, was, q.events) ==> Surviving(cmpKey, was, new_, q, Left(new_, p, step, idx)))
    && (KeysKept(cmpKey, was, q.events) && MovesExact(new_, q.events) ==> UnchangedFrom(cmpKey, was, new_, p.at, q.at))
  }

  lemma InsertStep(cmpKey: string, was: seq<Variant>, new_: seq<Variant>, p: Progressed, idx: seq<nat>, e: nat)
    requires Stepping(cmpKey, was, new_, p, idx, Inserts(e))
    ensures Stepped(cmpKey, was, new_, p, idx, Inserts(e))
  {
    hide KeyOf, Keys, KeysKept, Due, MovesExact, MoveExact, Unique, Complete, SurvivableFrom, UnchangedFrom, Moved, From, Replays;
    KeyLost(cmpKey, was, p.events, p.rows, Insert(p.at, e - 1, new_[p.at..e]));
    StepFrom(was, new_, p, Inserts(e), idx);
    InsertSurvives(cmpKey, was, new_, p, idx, e);
  }

  lemma RemoveStep(cmpKey: string, was: seq<Variant>, new_: seq<Variant>, p: Progressed, idx: seq<nat>, e: nat)
    requires Stepping(cmpKey, was, new_, p, idx, Removes(e))
    ensures Stepped(cmpKey, was, new_, p, idx, Removes(e))
  {
    hide KeyOf, Keys, KeysKept, Due, MovesExact, MoveExact, Unique, Complete, SurvivableFrom, UnchangedFrom, Moved, From, Replays;
    KeyLost(cmpKey, was, p.events, p.rows, Remove(p.at, e - 1));
    StepFrom(was, new_, p, Removes(e), idx);
    RemoveSurvives(cmpKey, was, new_, p, idx, e);
  }

  lemma MoveStep(cmpKey: string, was: seq<Variant>, new_: seq<Variant>, p: Progressed, idx: seq<nat>, o: nat, e: nat)
    requires Stepping(cmpKey, was, new_, p, idx, Moves(o, e))
    ensures Stepped(cmpKey, was, new_, p, idx, Moves(o, e))
  {
    hide KeyOf, Keys, KeysKept, Due, MovesExact, MoveExact, Unique, Complete, SurvivableFrom, UnchangedFrom, Moved, From, Replays;
    KeyLost(cmpKey, was, p.events, p.rows, Move(o, e - 1, p.at, p.rows[o..e]));
    StepFrom(was, new_, p, Moves(o, e), idx);
    MoveCompletes(cmpKey, was, new_, p, idx, o, e);
    MovesSurvive(cmpKey, was, new_, p, idx, o, e);
    MovesExactOneMore(new_, p.events, Move(o, e - 1, p.at, p.rows[o..e]));
    MoveIsExact(p.rows, p.at, o, e, new_);
  }

  lemma ChangeStep(cmpKey: string, was: seq<Variant>, new_: seq<Variant>, p: Progressed, idx: seq<nat>, e: nat)
    requires Stepping(cmpKey, was, new_, p, idx, Changes(e))
    ensures Stepped(cmpKey, was, new_, p, idx, Changes(e))
  {
    hide KeyOf, Keys, KeysKept, Due, MovesExact, MoveExact, Unique, Complete, SurvivableFrom, UnchangedFrom, Moved, From, Replays;
    KeyLost(cmpKey, was, p.events, p.rows, Changed(p.at, e - 1, new_[p.at..e]));
    StepFrom(was, new_, p, Changes(e), idx);
    ChangeSurvives(cmpKey, was, new_, p, idx, e);
  }

  lemma KeepStep(cmpKey: string, was: seq<Variant>, new_: seq<Variant>, p: Progressed, idx: seq<nat>)
    requires Stepping(cmpKey, was, new_, p, idx, Keeps)
    ensures Stepped(cmpKey, was, new_, p, idx, Keeps)
  {
    hide KeyOf, Keys, KeysKept, Due, MovesExact, MoveExact, Unique, Complete, SurvivableFrom, UnchangedFrom, Moved, From, Replays;
    StepFrom(was, new_, p, Keeps, idx);
    KeepSurvives(cmpKey, was, new_, p, idx);
  }

  lemma {:induction false} StepSurvives(cmpKey: string, was: seq<Variant>, new_: seq<Variant>, p: Progressed, idx: seq<nat>, step: Step)
    requires Replays(was, p.events, p.rows) && KeysKept(cmpKey, was, p.events)
    requires Surviving(cmpKey, was, new_, p, idx) && Fits(new_, p, step) && Due(cmpKey, new_, p, step)
    ensures |idx| == |p.rows| - p.at
    ensures var q := Taken(new_, p, step);
      && q.at <= |new_|
      && (KeysKept(cmpKey, was, q.events) <==> SurvivableFrom(cmpKey, was, new_, p.at, q.at))
      && (KeysKept(cmpKey, was, q.events) ==> Surviving(cmpKey, was, new_, q, Left(new_, p, step, idx)))
      && (KeysKept(cmpKey, was, q.events) && MovesExact(new_, q.events) ==> UnchangedFrom(cmpKey, was, new_, p.at, q.at))
  {
    assert |idx| == |p.rows| - p.at;
    hide Replays, KeysKept, Surviving, Fits, Due, Taken, Left, SurvivableFrom, UnchangedFrom, MovesExact;
    match step {
      case Inserts(e) => InsertStep(cmpKey, was, new_, p, idx, e);
      case Removes(e) => RemoveStep(cmpKey, was, new_, p, idx, e);
      case Moves(o, e) => MoveStep(cmpKey, was, new_, p, idx, o, e);
      case Changes(e) => ChangeStep(cmpKey, was, new_, p, idx, e);
      case Keeps => KeepStep(cmpKey, was, new_, p, idx);
    }
  }

  lemma ProgressReplays(cmpKey: string, was: seq<Variant>, new_: seq<Variant>, p: Progressed)
    requires Progress(cmpKey, was, new_, p.rows, p.at, p.events)
    ensures Replays(was, p.events, p.rows)
  {
  }

  lemma {:induction false} DiffSurvives(cmpKey: string, was: seq<Variant>, new_: seq<Variant>, p: Progressed, idx: seq<nat>)
    requires Progress(cmpKey, was, new_, p.rows, p.at, p.events) && KeysKept(cmpKey, was, p.events)
    requires Surviving(cmpKey, was, new_, p, idx) && p.at <= |new_| && p.at <= |p.rows|
    ensures var d := Diff(cmpKey, new_, p);
      && (KeysKept(cmpKey, was, d.events) <==> SurvivableFrom(cmpKey, was, new_, p.at, |new_|))
      && (KeysKept(cmpKey, was, d.events) && MovesExact(new_, d.events) ==>
        UnchangedFrom(cmpKey, was, new_, p.at, |new_|))
    decreases |new_| - p.at, |p.rows| - p.at
  {
    if Done(new_, p) {
      AtEnd(cmpKey, new_, p);
    } else {
      var step := NextStep(cmpKey, new_, p);
      hide *;
      StepShrinks(new_, p, step);
      StepKeeps(cmpKey, was, new_, p, step);
      ProgressReplays(cmpKey, was, new_, p);
      StepSurvives(cmpKey, was, new_, p, idx, step);
      var q, left := Taken(new_, p, step), Left(new_, p, step, idx);
      SettledStays(cmpKey, new_, q);
      if KeysKept(cmpKey, was, q.events) {
        DiffSurvives(cmpKey, was, new_, q, left);
      }
      DiffSurvivesOn(cmpKey, was, new_, p, q, Diff(cmpKey, new_, q).events);
    }
  }

  lemma DiffSurvivesOn(cmpKey: string, was: seq<Variant>, new_: seq<Variant>, p: Progressed, q: Progressed, es: seq<Event<Variant>>)
    requires p.at <= q.at <= |new_| && q.events <= es
    requires KeysKept(cmpKey, was, q.events) <==> SurvivableFrom(cmpKey, was, new_, p.at, q.at)
    requires KeysKept(cmpKey, was, q.events) && MovesExact(new_, q.events) ==> UnchangedFrom(cmpKey, was, new_, p.at, q.at)
    requires KeysKept(cmpKey, was, q.events) ==>
      && (KeysKept(cmpKey, was, es) <==> SurvivableFrom(cmpKey, was, new_, q.at, |new_|))
      && (KeysKept(cmpKey, was, es) && MovesExact(new_, es) ==> UnchangedFrom(cmpKey, was, new_, q.at, |new_|))
    ensures KeysKept(cmpKey, was, es) <==> SurvivableFrom(cmpKey, was, new_, p.at, |new_|)
    ensures KeysKept(cmpKey, was, es) && MovesExact(new_, es) ==> UnchangedFrom(cmpKey, was, new_, p.at, |new_|)
  {
    hide KeysKept, MovesExact, Survivable, UnchangedAt;
    assert es[..|q.events|] == q.events;
    if KeysKept(cmpKey, was, es) {
      KeptBefore(cmpKey, was, es, |q.events|);
      if MovesExact(new_, es) {
        ExactBefore(new_, q.events, es);
      }
    }
  }

  // ---- What survives with a key ----

  lemma {:induction false} DiffFromStart(cmpKey: string, was: seq<Variant>, new_: seq<Variant>)
    requires Unique(Keys(cmpKey, was)) && Unique(Keys(cmpKey, new_))
    ensures var es := Diff(cmpKey, new_, Progressed(was, 0, [])).events;
      && (KeysKept(cmpKey, was, es) <==> SurvivableFrom(cmpKey, was, new_, 0, |new_|))
      && (KeysKept(cmpKey, was, es) && MovesExact(new_, es) ==> UnchangedFrom(cmpKey, was, new_, 0, |new_|))
  {
    var p, idx := Progressed(was, 0, []), AllPlaces(|was|);
    hide *;
    AtStart(cmpKey, was, new_, p, idx);
    DiffSurvives(cmpKey, was, new_, p, idx);
  }

  lemma {:induction false} AtStart(cmpKey: string, was: seq<Variant>, new_: seq<Variant>, p: Progressed, idx: seq<nat>)
    requires Unique(Keys(cmpKey, was)) && Unique(Keys(cmpKey, new_))
    requires p == Progressed(was, 0, []) && idx == AllPlaces(|was|)
    ensures Progress(cmpKey, was, new_, p.rows, p.at, p.events) && KeysKept(cmpKey, was, p.events)
    ensures Surviving(cmpKey, was, new_, p, idx)
  {
    NothingYet(cmpKey, was, new_);
    hide KeyOf, Keys, Unique, Progress;
    forall j | 0 <= j < |was| ensures j in idx {
      assert idx[j] == j;
    }
  }

  /** With unique keys, no row loses its key to a replacement if and only if every changed item in its
      turn is followed by the item of the next row. */
  lemma {:induction false} KeysKeptExactly(cmpKey: string, was: seq<Variant>, new_: seq<Variant>)
    requires Unique(Keys(cmpKey, was)) && Unique(Keys(cmpKey, new_))
    ensures KeysKept(cmpKey, was, Diff(cmpKey, new_, Progressed(was, 0, [])).events) <==> SurvivableFrom(cmpKey, was, new_, 0, |new_|)
  {
    hide *;
    DiffFromStart(cmpKey, was, new_);
  }

  /** Then the rows whose keys both lists have are neither removed nor inserted, and the rows are the
      new list if and only if no item has changed whose row has to pass others. */
  lemma {:induction false} SurvivorsExact(cmpKey: string, was: seq<Variant>, new_: seq<Variant>)
    requires Unique(Keys(cmpKey, was)) && Unique(Keys(cmpKey, new_)) && SurvivableFrom(cmpKey, was, new_, 0, |new_|)
    ensures var d := Diff(cmpKey, new_, Progressed(was, 0, []));
      && Removed(Keys(cmpKey, was), KeyEvents(cmpKey, d.events)) == multiset(Keys(cmpKey, was)) - multiset(Keys(cmpKey, new_))
      && Inserted(KeyEvents(cmpKey, d.events)) == multiset(Keys(cmpKey, new_)) - multiset(Keys(cmpKey, was))
      && (d.rows == new_ <==> CrossedUnchanged(cmpKey, was, new_))
  {
    DiffFromStart(cmpKey, was, new_);
    DiffReconciles(cmpKey, was, new_);
    UnchangedWhereCrossed(cmpKey, was, new_);
    hide Diff, Keys, KeyEvents, KeysKept, Unique, SurvivableFrom, UnchangedAt, MovesExact, Removed, Inserted, MovesCross, Replays;
  }

  /** Where no item with a matching key has changed, every common row survives. */
  lemma FaithfulSurvives(cmpKey: string, was: seq<Variant>, new_: seq<Variant>)
    requires Faithful(cmpKey, was, new_)
    ensures SurvivableFrom(cmpKey, was, new_, 0, |new_|)
  {
    hide KeyOf;
  }

  /** A run of replacements goes on over rows with other keys: here the row of `OTHER`, which follows
      the changed item's, is not the next new item's, so it is overwritten and inserted again. */
  lemma ReplaceRunLosesRow()
    ensures Diff("id", [NEW, THIRD, OTHER], Progressed([OLD, OTHER], 0, []))
      == Progressed([NEW, THIRD, OTHER], 3, [Changed(0, 1, [NEW, THIRD]), Insert(2, 2, [OTHER])])
  {
    StaleKeys();
    var was, now := [OLD, OTHER], [NEW, THIRD, OTHER];
    assert was[0] == OLD && was[1] == OTHER && now[0] == NEW && now[1] == THIRD && now[2] == OTHER;
    assert DifferingEnd(was, now, 1) == 2 by {
      assert DifferingEnd(was, now, 2) == 2;
    }
    hide *;
    var p, changed := Progressed(was, 0, []), Progressed([NEW, THIRD], 2, [Changed(0, 1, [NEW, THIRD])]);
    assert now[0..2] == [NEW, THIRD] && was[..0] + now[0..2] + was[2..] == changed.rows;
    AfterChange("id", now, p, 2, changed.rows);
    assert p.events + [Changed(0, 1, now[0..2])] == changed.events;
    OutOfRows("id", now, changed);
    assert now[2..] == [OTHER] && changed.rows + [OTHER] == now;
  }
}
