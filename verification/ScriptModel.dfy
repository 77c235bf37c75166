/** The list model whose rows the diff rebuilds in place. */
module ScriptModels {
  import opened RowEvents
  import opened ScriptDiffs
  import opened DiffKeys
  import opened DiffInvariants
  import opened KeyedDiffs
  import opened SurvivingRows

  class ScriptModel {
    var mValues: seq<Variant>
    var cmpKey: string

    constructor ()
      ensures mValues == [] && cmpKey == ""
    {
      mValues, cmpKey := [], "";
    }

    /** Rebuilds the rows in place from `newValues`; `emitted` is what listeners were told. */
    method UpdateValuesUnique(newValues: seq<Variant>) returns (emitted: seq<Event<Variant>>)
      modifies this`mValues
      // the rows agree with the new list up to the key, and exactly when every moved row did
      ensures |mValues| == |newValues|
      ensures forall k :: 0 <= k < |mValues| ==> KeyOf(cmpKey, mValues[k]) == KeyOf(cmpKey, newValues[k])
      ensures mValues == newValues <==> MovesExact(newValues, emitted)
      ensures Faithful(cmpKey, old(mValues), newValues) ==> mValues == newValues
      ensures cmpKey == "" ==> mValues == newValues
      // a listener ends up with the same rows
      ensures Replays(old(mValues), emitted, mValues)
      // with unique old keys, an item may change if its row need not pass others
      ensures Unique(Keys(cmpKey, old(mValues))) && CrossedUnchanged(cmpKey, old(mValues), newValues) ==> mValues == newValues
      // nothing common to both lists is removed or inserted, unless a replacement takes a row's key
      ensures KeysConserved(cmpKey, old(mValues), newValues, emitted)
      ensures Unique(Keys(cmpKey, old(mValues))) && Unique(Keys(cmpKey, newValues)) ==>
        (KeysKept(cmpKey, old(mValues), emitted) <==> SurvivableFrom(cmpKey, old(mValues), newValues, 0, |newValues|))
      ensures cmpKey == "" && Unique(old(mValues)) && Unique(newValues) ==>
        && Removed(old(mValues), emitted) == multiset(old(mValues)) - multiset(newValues)
        && Inserted(emitted) == multiset(newValues) - multiset(old(mValues))
      ensures newValues == old(mValues) ==> emitted == []
      // all of it is determined by the two lists and the key
      ensures var d := Diff(cmpKey, newValues, Progressed(old(mValues), 0, [])); mValues == d.rows && emitted == d.events
    {
      hide *;
      ghost var was := mValues;
      emitted := [];
      var iter: nat, newIter: nat := 0, 0;

      while true
        invariant iter == newIter <= |newValues| && iter <= |mValues|
        invariant Diff(cmpKey, newValues, Progressed(was, 0, []))
          == Diff(cmpKey, newValues, Progressed(mValues, iter, emitted))
        decreases |newValues| - newIter, |mValues| - iter
      {
        ghost var before := Progressed(mValues, iter, emitted);
        if newIter == |newValues| {
          AtEnd(cmpKey, newValues, before);
          if iter == |mValues| {
            break;
          }

          var startIndex, endIndex := |newValues|, |mValues| - 1;
          emitted := emitted + [Remove(startIndex, endIndex)];
          mValues := mValues[..iter];
          break;
        } else if iter == |mValues| {
          OutOfRows(cmpKey, newValues, before);
          var startIndex, endIndex := |mValues|, |newValues| - 1;
          emitted := emitted + [Insert(startIndex, endIndex, newValues[startIndex..])];
          mValues := mValues + newValues[startIndex..];
          iter := |newValues|;
          break;
        } else if KeyOf(cmpKey, newValues[newIter]) != KeyOf(cmpKey, mValues[iter]) {
          iter, emitted := ResolveMismatch(newValues, iter, emitted);
          AfterMismatch(cmpKey, newValues, before, Progressed(mValues, iter, emitted));
          newIter := iter;
        } else if newValues[newIter] != mValues[iter] {
          var first := iter;
          iter := ReplaceRows(newValues, iter);
          newIter := iter;
          AfterChange(cmpKey, newValues, before, iter, mValues);
          emitted := emitted + [Changed(first, iter - 1, newValues[first..iter])];
        } else {
          AfterKept(cmpKey, newValues, before);
          iter, newIter := iter + 1, newIter + 1;
        }
      }
      DiffReconciles(cmpKey, was, newValues);
      if Unique(Keys(cmpKey, was)) {
        UnchangedWhereCrossed(cmpKey, was, newValues);
        if Unique(Keys(cmpKey, newValues)) {
          KeysKeptExactly(cmpKey, was, newValues);
        }
      }
    }

    /** One step at a row whose key is not the new list's: rows the new list lacks are removed, a
        run found further down is moved up, or new values are inserted. The iterators into both
        lists stay at the same distance. */
    method ResolveMismatch(newValues: seq<Variant>, start: nat, told: seq<Event<Variant>>)
      returns (iter: nat, emitted: seq<Event<Variant>>)
      requires start < |newValues| && start < |mValues|
      requires KeyOf(cmpKey, newValues[start]) != KeyOf(cmpKey, mValues[start])
      modifies this`mValues
      ensures Progressed(mValues, iter, emitted) == Resolve(cmpKey, newValues, Progressed(old(mValues), start, told))
    {
      hide KeyOf, FindFrom, Moved, RemovedEnd, MatchedRun, Diff, Resolve;
      ghost var was := Progressed(mValues, start, told);
      iter, emitted := start, told;
      var newIter: nat := start;
      var oldIter := FindFrom(cmpKey, mValues, iter, newValues[newIter]);

      if oldIter != |mValues| {
        if FindFrom(cmpKey, newValues, newIter, mValues[iter]) == |newValues| {
          var startIter := iter;
          iter := ScanRemoved(newValues, newIter, iter);
          ResolveRemoves(cmpKey, newValues, was, iter);
          emitted := emitted + [Remove(startIter, iter - 1)];
          mValues := mValues[..startIter] + mValues[iter..];
          iter := startIter;
        } else {
          var oldStartIter, index := oldIter, iter;
          oldIter, newIter := ScanMoved(newValues, newIter, oldIter);
          var len := oldIter - oldStartIter;
          ResolveMoves(cmpKey, newValues, was, oldStartIter, oldIter);
          emitted := emitted + [Move(oldStartIter, oldIter - 1, index, mValues[oldStartIter..oldIter])];
          MoveRows(oldStartIter, index, len);
          iter := index + len;
        }
      } else {
        var startNewIter, index := newIter, iter;
        newIter := ScanInserted(newValues, newIter, iter);
        ResolveInserts(cmpKey, newValues, was, newIter);
        emitted := emitted + [Insert(index, newIter - 1, newValues[startNewIter..newIter])];
        mValues := mValues[..index] + newValues[startNewIter..newIter] + mValues[index..];
        iter := newIter;
      }
    }

    /** From a row whose key the rest of the new list lacks to the end of the run of such rows. */
    method ScanRemoved(newValues: seq<Variant>, newIter: nat, from: nat) returns (iter: nat)
      requires newIter <= |newValues| && from < |mValues|
      ensures iter == RemovedEnd(cmpKey, newValues, newIter, mValues, from + 1)
    {
      iter := from + 1;
      while iter != |mValues| && FindFrom(cmpKey, newValues, newIter, mValues[iter]) == |newValues|
        invariant from < iter <= |mValues|
        invariant RemovedEnd(cmpKey, newValues, newIter, mValues, iter)
          == RemovedEnd(cmpKey, newValues, newIter, mValues, from + 1)
        decreases |mValues| - iter
      {
        iter := iter + 1;
      }
    }

    /** From a new value no row matches to the end of the run of such values. */
    method ScanInserted(newValues: seq<Variant>, from: nat, iter: nat) returns (newIter: nat)
      requires from < |newValues| && iter <= |mValues|
      ensures newIter == RemovedEnd(cmpKey, mValues, iter, newValues, from + 1)
    {
      newIter := from + 1;
      while newIter != |newValues| && FindFrom(cmpKey, mValues, iter, newValues[newIter]) == |mValues|
        invariant from < newIter <= |newValues|
        invariant RemovedEnd(cmpKey, mValues, iter, newValues, newIter)
          == RemovedEnd(cmpKey, mValues, iter, newValues, from + 1)
        decreases |newValues| - newIter
      {
        newIter := newIter + 1;
      }
    }

    /** The longest run of matching items from two matching ones. */
    method ScanMoved(newValues: seq<Variant>, newFrom: nat, oldFrom: nat) returns (oldIter: nat, newIter: nat)
      requires newFrom < |newValues| && oldFrom < |mValues|
      ensures var n := 1 + MatchedRun(cmpKey, mValues, oldFrom + 1, newValues, newFrom + 1);
        oldIter == oldFrom + n && newIter == newFrom + n
    {
      oldIter, newIter := oldFrom + 1, newFrom + 1;
      while oldIter != |mValues| && newIter != |newValues|
        && KeyOf(cmpKey, mValues[oldIter]) == KeyOf(cmpKey, newValues[newIter])
        invariant oldFrom < oldIter <= |mValues| && newFrom < newIter <= |newValues|
        invariant newIter - newFrom == oldIter - oldFrom
        invariant MatchedRun(cmpKey, mValues, oldFrom + 1, newValues, newFrom + 1)
          == oldIter - oldFrom - 1 + MatchedRun(cmpKey, mValues, oldIter, newValues, newIter)
        decreases |mValues| - oldIter
      {
        oldIter, newIter := oldIter + 1, newIter + 1;
      }
    }

    /** Moves a run of rows to the front of others, one row at a time. */
    method MoveRows(start: nat, index: nat, len: nat)
      requires index < start && start + len <= |mValues|
      modifies this`mValues
      ensures len > 0 ==> mValues == Moved(old(mValues), index, start, start + len)
    {
      ghost var m := mValues;
      var i := 0;
      while i != len
        invariant 0 <= i <= len
        invariant mValues == m[..index] + m[start..start + i] + m[index..start] + m[start + i..]
        decreases len - i
      {
        MoveOneMore(m, start, index, i);
        mValues := MoveItem(mValues, start + i, index + i);
        i := i + 1;
      }
    }

    /** Takes over new values while they differ, whatever their keys. */
    method ReplaceRows(newValues: seq<Variant>, first: nat) returns (iter: nat)
      requires first < |mValues| && first < |newValues|
      modifies this`mValues
      ensures iter == DifferingEnd(old(mValues), newValues, first + 1)
      ensures mValues == old(mValues)[..first] + newValues[first..iter] + old(mValues)[iter..]
    {
      ghost var m := mValues;
      iter := first;
      var again := true;
      while again
        invariant first <= iter <= |newValues| && iter <= |mValues| == |m|
        invariant again ==> iter < |newValues| && iter < |mValues|
        invariant iter == first ==> again
        invariant mValues == m[..first] + newValues[first..iter] + m[iter..]
        invariant iter > first && again ==> newValues[iter] != m[iter]
        invariant iter > first ==> DifferingEnd(m, newValues, first + 1) == if again then DifferingEnd(m, newValues, iter) else iter
        decreases |newValues| - iter, again
      {
        ReplaceOneMore(m, newValues, first, iter);
        mValues := mValues[iter := newValues[iter]];
        iter := iter + 1;
        assert iter < |m| ==> mValues[iter] == m[iter];
        again := iter != |mValues| && iter != |newValues| && newValues[iter] != mValues[iter];
      }
    }

    method SetValues(newValues: seq<Variant>) returns (emitted: seq<Event<Variant>>)
      modifies this`mValues
      ensures |mValues| == |newValues|
      ensures forall k :: 0 <= k < |mValues| ==> KeyOf(cmpKey, mValues[k]) == KeyOf(cmpKey, newValues[k])
      ensures Replays(old(mValues), emitted, mValues)
      ensures mValues == newValues <==> MovesExact(newValues, emitted)
      ensures Faithful(cmpKey, old(mValues), newValues) || cmpKey == "" ==> mValues == newValues
      // leaving early changes nothing
      ensures var d := Diff(cmpKey, newValues, Progressed(old(mValues), 0, [])); mValues == d.rows && emitted == d.events
    {
      if newValues == mValues {
        DiffReconciles(cmpKey, mValues, newValues);
        return [];
      }
      emitted := UpdateValuesUnique(newValues);
    }

    /** A new key alone changes no row. */
    method SetObjectProp(objectProp: string) returns (emitted: seq<Event<Variant>>)
      modifies this
      ensures cmpKey == objectProp && mValues == old(mValues) && emitted == []
    {
      if objectProp == cmpKey {
        return [];
      }
      cmpKey := objectProp;
      emitted := UpdateValuesUnique(mValues);
    }
  }
}
