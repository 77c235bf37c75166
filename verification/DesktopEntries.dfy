/** The index of desktop entries and what a rescan does to the entries it owns. */
module DesktopEntries {
  import opened Common

  /** What the scanner parsed from one file. */
  datatype Record = Record(id: string, name: string, hidden: bool)

  /** Records without a name are not shown. */
  predicate IsValid(r: Record) { r.name != "" }

  /** The record that a key, such as a lowercased id, ends up with: the last one of the key that is
      valid and visible, if no hidden one of the key follows. */
  function FinalFor(key: string -> string, scan: seq<Record>, l: string): (r: Option<Record>)
    ensures r.Some? ==> key(r.value.id) == l && r.value in scan && IsValid(r.value) && !r.value.hidden
  {
    if scan == [] then None
    else
      var last, before := scan[|scan| - 1], scan[..|scan| - 1];
      if key(last.id) != l then FinalFor(key, before, l)
      else if last.hidden then None
      else if IsValid(last) then Some(last)
      else FinalFor(key, before, l)
  }

  function AsIs(id: string): string { id }

  /** The record an id ends up with. */
  function Final(scan: seq<Record>, id: string): (r: Option<Record>)
    ensures r.Some? ==> r.value.id == id && r.value in scan && IsValid(r.value) && !r.value.hidden
  {
    FinalFor(AsIs, scan, id)
  }

  /** Record k is a named visible one of this key, and no later record of the key hides or replaces it. */
  ghost predicate Settles(key: string -> string, scan: seq<Record>, l: string, k: int) {
    && 0 <= k < |scan| && key(scan[k].id) == l && !scan[k].hidden && scan[k].name != ""
    && forall j :: k < j < |scan| && key(scan[j].id) == l ==> !scan[j].hidden && scan[j].name == ""
  }

  /** The final record, said about positions. */
  lemma {:induction false} FinalIsLast(key: string -> string, scan: seq<Record>, l: string)
    ensures var r := FinalFor(key, scan, l);
      && (r.Some? ==> exists k :: Settles(key, scan, l, k) && r == Some(scan[k]))
      && (r.None? ==> forall k :: !Settles(key, scan, l, k))
    decreases |scan|
  {
    if scan != [] {
      var n := |scan| - 1;
      var before := scan[..n];
      FinalIsLast(key, before, l);
      if key(scan[n].id) != l || (!scan[n].hidden && !IsValid(scan[n])) {
        forall k ensures Settles(key, scan, l, k) <==> Settles(key, before, l, k) {
          SettlesBefore(key, scan, l, k);
        }
        if FinalFor(key, before, l).Some? {
          var k :| Settles(key, before, l, k) && FinalFor(key, before, l) == Some(before[k]);
          assert Settles(key, scan, l, k);
        }
      } else if !scan[n].hidden {
        assert Settles(key, scan, l, n);
      }
    }
  }

  lemma SettlesBefore(key: string -> string, scan: seq<Record>, l: string, k: int)
    requires scan != []
    requires var last := scan[|scan| - 1]; key(last.id) != l || (!last.hidden && !IsValid(last))
    ensures Settles(key, scan, l, k) <==> Settles(key, scan[..|scan| - 1], l, k)
  {
    var before := scan[..|scan| - 1];
    assert forall j :: 0 <= j < |before| ==> before[j] == scan[j];
  }

  /** An id's own record answers for its lowercased form exactly if no later record of another case
      hides or replaces it. */
  lemma {:induction false} OtherCaseExactly(lower: string -> string, scan: seq<Record>, id: string, k: nat)
    requires Settles(AsIs, scan, id, k)
    ensures FinalFor(lower, scan, lower(id)) == Some(scan[k])
      <==> forall j :: k < j < |scan| && lower(scan[j].id) == lower(id) ==> !scan[j].hidden && scan[j].name == ""
  {
    hide FinalFor;
    var l := lower(id);
    FinalIsLast(lower, scan, l);
    if FinalFor(lower, scan, l) == Some(scan[k]) {
      var k' :| Settles(lower, scan, l, k') && scan[k'] == scan[k];
      assert k' == k;
    }
    if Settles(lower, scan, l, k) {
      var k' :| Settles(lower, scan, l, k') && FinalFor(lower, scan, l) == Some(scan[k']);
      assert k' == k;
    }
  }

  /** A hidden record of another case cuts off the entry that is listed: an id in the index that is
      found under no other case. */
  lemma HiddenCaseCutsOff(lower: string -> string, visible: Record, mask: Record)
    requires !visible.hidden && IsValid(visible) && mask.hidden && mask.id != visible.id && lower(mask.id) == lower(visible.id)
    ensures var scan := [visible, mask]; Final(scan, visible.id) == Some(visible) && FinalFor(lower, scan, lower(visible.id)) == None
  {
    FinalForOneMore(AsIs, [visible], mask, visible.id);
    FinalForOneMore(AsIs, [], visible, visible.id);
    FinalForOneMore(lower, [visible], mask, lower(visible.id));
    assert [visible] + [mask] == [visible, mask] && [] + [visible] == [visible];
  }

  lemma {:induction false} FinalForOneMore(key: string -> string, scanned: seq<Record>, data: Record, l: string)
    ensures FinalFor(key, scanned + [data], l)
      == if key(data.id) != l then FinalFor(key, scanned, l)
         else if data.hidden then None
         else if IsValid(data) then Some(data)
         else FinalFor(key, scanned, l)
  {
    assert (scanned + [data])[..|scanned|] == scanned;
  }

  /** Whatever answers for a lowercased id is the final record of its own id. */
  lemma {:induction false} LowerIsFinal(lower: string -> string, scan: seq<Record>, l: string)
    ensures var r := FinalFor(lower, scan, l); r.Some? ==> lower(r.value.id) == l && Final(scan, r.value.id) == r
    decreases |scan|
  {
    if scan != [] {
      LowerIsFinal(lower, scan[..|scan| - 1], l);
    }
  }

  class DesktopEntry {
    const id: string
    var state: Record
    // how often the entry has been scheduled for deletion
    var deletions: nat

    constructor (id: string, state: Record)
      ensures this.id == id && this.state == state && deletions == 0
    {
      this.id, this.state, deletions := id, state, 0;
    }

    method UpdateState(newState: Record)
      modifies this`state
      ensures state == newState
    {
      state := newState;
    }

    method DeleteLater()
      modifies this`deletions
      ensures deletions == old(deletions) + 1
    {
      deletions := deletions + 1;
    }
  }

  predicate Maps(entries: map<string, DesktopEntry>, e: DesktopEntry) {
    e.id in entries && entries[e.id] == e
  }

  ghost predicate Keyed(entries: map<string, DesktopEntry>) {
    forall id :: id in entries ==> entries[id].id == id
  }

  /** Entries under lowercased ids are entries of the index, under their own lowercased id. */
  ghost predicate LowercaseIndex(
    lower: string -> string, entries: map<string, DesktopEntry>, lowercase: map<string, DesktopEntry>)
  {
    forall l :: l in lowercase ==> Maps(entries, lowercase[l]) && lower(lowercase[l].id) == l
  }

  /** Exactly the lowercased ids that a record answers for have an entry, under that record's id. */
  ghost predicate LowercaseHolds(lower: string -> string, lowercase: map<string, DesktopEntry>, scanned: seq<Record>) {
    forall l ::
      && (l in lowercase <==> FinalFor(lower, scanned, l).Some?)
      && (l in lowercase ==> lowercase[l].id == FinalFor(lower, scanned, l).value.id)
  }

  /** One more record: it takes its lowercased id out, takes it over, or is skipped. */
  lemma LowercaseOneMore(
    lower: string -> string, lowercase: map<string, DesktopEntry>, scanned: seq<Record>, data: Record, more: map<string, DesktopEntry>)
    requires LowercaseHolds(lower, lowercase, scanned)
    requires data.hidden ==> more == lowercase - {lower(data.id)}
    requires !data.hidden && !IsValid(data) ==> more == lowercase
    requires !data.hidden && IsValid(data) ==>
      exists e: DesktopEntry :: e.id == data.id && more == lowercase[lower(data.id) := e]
    ensures LowercaseHolds(lower, more, scanned + [data])
  {
    hide FinalFor;
    forall l {
      FinalForOneMore(lower, scanned, data, l);
    }
  }

  class DesktopEntryManager {
    const lower: string -> string
    var desktopEntries: map<string, DesktopEntry>
    var lowercaseDesktopEntries: map<string, DesktopEntry>

    ghost predicate Valid()
      reads this, desktopEntries.Values
    {
      && Keyed(desktopEntries)
      && LowercaseIndex(lower, desktopEntries, lowercaseDesktopEntries)
      && forall id :: id in desktopEntries ==> desktopEntries[id].deletions == 0
    }

    constructor (lower: string -> string)
      ensures Valid() && desktopEntries == map[] && this.lower == lower
    {
      this.lower := lower;
      desktopEntries, lowercaseDesktopEntries := map[], map[];
    }

    /** Exact ids first, then lowercased ones; never an entry that is to be deleted. */
    method ById(id: string) returns (found: Option<DesktopEntry>)
      requires Valid()
      ensures id in desktopEntries ==> found == Some(desktopEntries[id])
      ensures id !in desktopEntries && lower(id) in lowercaseDesktopEntries ==>
        found == Some(lowercaseDesktopEntries[lower(id)])
      ensures found.Some? ==>
        && found.value.deletions == 0 && Maps(desktopEntries, found.value)
        && (found.value.id == id || lower(found.value.id) == lower(id))
      ensures found.None? <==> id !in desktopEntries && lower(id) !in lowercaseDesktopEntries
    {
      if id in desktopEntries {
        return Some(desktopEntries[id]);
      }
      if lower(id) in lowercaseDesktopEntries {
        return Some(lowercaseDesktopEntries[lower(id)]);
      }
      return None;
    }

    /** A hidden record takes its id out of the new index and out of the old entries. */
    method Mask(
      data: Record, scanned: seq<Record>, oldEntries: map<string, DesktopEntry>, newEntries: map<string, DesktopEntry>,
      newLowercaseEntries: map<string, DesktopEntry>, ghost all: set<DesktopEntry>)
      returns (oldLeft: map<string, DesktopEntry>, newLeft: map<string, DesktopEntry>, lowercaseLeft: map<string, DesktopEntry>)
      requires data.hidden && Scanning(all, oldEntries, newEntries, {}) && Holds(newEntries, scanned)
      requires LowercaseIndex(lower, newEntries, newLowercaseEntries)
      modifies all`deletions
      ensures Scanning(all, oldLeft, newLeft, {}) && Holds(newLeft, scanned + [data])
      ensures oldLeft == oldEntries - {data.id} && newLeft == newEntries - {data.id}
      ensures lowercaseLeft == newLowercaseEntries - {lower(data.id)}
      ensures LowercaseIndex(lower, newLeft, lowercaseLeft)
    {
      hide Scanning, Final;
      oldLeft, newLeft := oldEntries, newEntries;
      if data.id in newLeft {
        var victim := newLeft[data.id];
        TakeNew(all, oldLeft, newLeft, {}, data.id);
        newLeft := newLeft - {data.id};
        DeleteInHand(victim, all, oldLeft, newLeft, {});
      }
      lowercaseLeft := newLowercaseEntries - {lower(data.id)};
      if data.id in oldLeft {
        var victim := oldLeft[data.id];
        TakeOld(all, oldLeft, newLeft, {}, data.id);
        oldLeft := oldLeft - {data.id};
        DeleteInHand(victim, all, oldLeft, newLeft, {});
      }
      forall other ensures Final(scanned + [data], other) == if other == data.id then None else Final(scanned, other) {
        FinalOneMore(scanned, data, other);
      }
    }

    /** The entry for a visible record: the old one of its id if that is still unclaimed. */
    method Claim(
      data: Record, ghost scanned: seq<Record>, oldEntries: map<string, DesktopEntry>, ghost newEntries: map<string, DesktopEntry>, ghost all: set<DesktopEntry>)
      returns (dentry: DesktopEntry, oldLeft: map<string, DesktopEntry>, ghost more: set<DesktopEntry>)
      requires Scanning(all, oldEntries, newEntries, {}) && Holds(newEntries, scanned)
      modifies all`state
      ensures dentry in more && dentry.id == data.id && dentry.state == data && oldLeft == oldEntries - {data.id}
      ensures more == all || (more == all + {dentry} && fresh(dentry))
      ensures data.id in oldEntries ==> dentry == oldEntries[data.id]
      ensures Scanning(more, oldLeft, newEntries, {dentry}) && Holds(newEntries, scanned)
    {
      hide Final;
      more := all;
      if data.id in oldEntries {
        dentry := oldEntries[data.id];
        oldLeft := oldEntries - {data.id};
        TakeOld(all, oldEntries, newEntries, {}, data.id);
        dentry.UpdateState(data);
      } else {
        dentry := new DesktopEntry(data.id, data);
        oldLeft := oldEntries;
        assert oldLeft == oldEntries - {data.id};
        more := all + {dentry};
      }
    }

    /** Puts a claimed entry into the new index, in place of an earlier one of the same id. */
    method Place(
      dentry: DesktopEntry, scanned: seq<Record>, ghost oldEntries: map<string, DesktopEntry>,
      newEntries: map<string, DesktopEntry>, newLowercaseEntries: map<string, DesktopEntry>, ghost all: set<DesktopEntry>)
      returns (newMore: map<string, DesktopEntry>, lowercaseMore: map<string, DesktopEntry>)
      requires Scanning(all, oldEntries, newEntries, {dentry}) && dentry.id !in oldEntries
      requires Holds(newEntries, scanned) && LowercaseIndex(lower, newEntries, newLowercaseEntries)
      requires dentry.state.id == dentry.id && IsValid(dentry.state) && !dentry.state.hidden
      modifies all`deletions
      ensures Scanning(all, oldEntries, newMore, {}) && Holds(newMore, scanned + [dentry.state])
      ensures newMore == newEntries[dentry.id := dentry]
      ensures lowercaseMore == newLowercaseEntries[lower(dentry.id) := dentry]
      ensures LowercaseIndex(lower, newMore, lowercaseMore)
    {
      hide Scanning, Final;
      newMore, lowercaseMore := newEntries, newLowercaseEntries;
      var lowerId := lower(dentry.id);
      if dentry.id in newMore {
        var victim := newMore[dentry.id];
        TakeNew(all, oldEntries, newMore, {dentry}, dentry.id);
        newMore := newMore - {dentry.id};
        DeleteInHand(victim, all, oldEntries, newMore, {dentry});
        lowercaseMore := lowercaseMore - {lowerId};
      }
      PutNew(all, oldEntries, newMore, dentry);
      newMore := newMore[dentry.id := dentry];
      if lowerId in lowercaseMore {
        lowercaseMore := lowercaseMore - {lowerId};
      }
      lowercaseMore := lowercaseMore[lowerId := dentry];
      forall other
        ensures Final(scanned + [dentry.state], other) == if other == dentry.id then Some(dentry.state) else Final(scanned, other)
      {
        FinalOneMore(scanned, dentry.state, other);
      }
    }

    /** Every entry that existed or is created ends up in the index or scheduled for deletion once,
        never both, and the index holds exactly the final records. An id that comes up once keeps
        the entry it had. */
    method OnScanCompleted(scanResults: seq<Record>) returns (ghost created: set<DesktopEntry>)
      requires Valid()
      modifies this, desktopEntries.Values
      ensures Valid() && fresh(created)
      ensures forall id :: id in desktopEntries <==> Final(scanResults, id).Some?
      ensures forall id :: id in desktopEntries ==> Some(desktopEntries[id].state) == Final(scanResults, id)
      ensures LowercaseHolds(lower, lowercaseDesktopEntries, scanResults)
      ensures desktopEntries.Values <= old(desktopEntries.Values) + created
      ensures forall e :: e in old(desktopEntries.Values) + created ==>
        e.deletions == if Maps(desktopEntries, e) then 0 else 1
      ensures forall id :: id in desktopEntries && id in old(desktopEntries) && Mentions(scanResults, id) == 1 ==>
        desktopEntries[id] == old(desktopEntries[id])
    {
      hide Scanning, LowercaseIndex, LowercaseHolds, Holds, Final, Mentions, Kept;
      var oldEntries := desktopEntries;
      var newEntries: map<string, DesktopEntry> := map[];
      var newLowercaseEntries: map<string, DesktopEntry> := map[];
      ghost var all := desktopEntries.Values;
      NothingScanned(lower, oldEntries);

      for i := 0 to |scanResults|
        invariant desktopEntries == old(desktopEntries)
        invariant old(desktopEntries.Values) <= all && fresh(all - old(desktopEntries.Values))
        invariant Scanning(all, oldEntries, newEntries, {})
        invariant LowercaseIndex(lower, newEntries, newLowercaseEntries)
        invariant LowercaseHolds(lower, newLowercaseEntries, scanResults[..i])
        invariant Holds(newEntries, scanResults[..i])
        invariant Kept(old(desktopEntries), oldEntries, newEntries, scanResults[..i])
      {
        var data := scanResults[i];
        ghost var lowercaseBefore := newLowercaseEntries;
        assert scanResults[..i + 1] == scanResults[..i] + [data];
        if data.hidden {
          KeptMasked(desktopEntries, oldEntries, newEntries, scanResults[..i], data);
          oldEntries, newEntries, newLowercaseEntries :=
            Mask(data, scanResults[..i], oldEntries, newEntries, newLowercaseEntries, all);
          LowercaseOneMore(lower, lowercaseBefore, scanResults[..i], data, newLowercaseEntries);
          continue;
        }

        var dentry;
        ghost var oldBefore := oldEntries;
        dentry, oldEntries, all := Claim(data, scanResults[..i], oldEntries, newEntries, all);
        KeptClaimed(desktopEntries, oldBefore, newEntries, scanResults[..i], data, dentry);
        if !IsValid(dentry.state) {
          LowercaseOneMore(lower, lowercaseBefore, scanResults[..i], data, newLowercaseEntries);
          if data.id !in oldEntries {
            assert {} + {dentry} == {dentry};
            DeleteInHand(dentry, all, oldEntries, newEntries, {});
          }
          HoldsSkipped(newEntries, scanResults[..i], data);
          continue;
        }
        newEntries, newLowercaseEntries := Place(dentry, scanResults[..i], oldEntries, newEntries, newLowercaseEntries, all);
        LowercaseOneMore(lower, lowercaseBefore, scanResults[..i], data, newLowercaseEntries);
      }

      desktopEntries := newEntries;
      lowercaseDesktopEntries := newLowercaseEntries;
      assert scanResults[..|scanResults|] == scanResults;
      KeptAtEnd(old(desktopEntries), oldEntries, newEntries, scanResults);
      HoldsMeans(newEntries, scanResults);
      created := all - old(desktopEntries.Values);
      DeleteRest(oldEntries, newEntries, all);
    }
  }

  /** All entries seen so far are in exactly one place: still old, already new, in hand, or
      scheduled for deletion once. */
  ghost predicate Scanning(
    all: set<DesktopEntry>, oldEntries: map<string, DesktopEntry>, newEntries: map<string, DesktopEntry>,
    inHand: set<DesktopEntry>)
    reads all
  {
    && Keyed(oldEntries) && Keyed(newEntries)
    && (forall id :: id in oldEntries ==> id !in newEntries && oldEntries[id] in all)
    && (forall id :: id in newEntries ==> newEntries[id] in all)
    && (forall e :: e in inHand ==> e in all && !Maps(oldEntries, e) && !Maps(newEntries, e))
    && (forall e :: e in all ==>
      e.deletions == if Maps(oldEntries, e) || Maps(newEntries, e) || e in inHand then 0 else 1)
  }

  /** The new index holds exactly the final records of what was scanned. */
  ghost predicate Holds(newEntries: map<string, DesktopEntry>, scanned: seq<Record>)
    reads newEntries.Values`state
  {
    && (forall id :: id in newEntries <==> Final(scanned, id).Some?)
    && (forall id :: id in newEntries ==> Some(newEntries[id].state) == Final(scanned, id))
  }

  lemma HoldsMeans(newEntries: map<string, DesktopEntry>, scanned: seq<Record>)
    requires Holds(newEntries, scanned)
    ensures forall id :: id in newEntries <==> Final(scanned, id).Some?
    ensures forall id :: id in newEntries ==> Some(newEntries[id].state) == Final(scanned, id)
  {
  }

  lemma HoldsSkipped(newEntries: map<string, DesktopEntry>, scanned: seq<Record>, data: Record)
    requires Holds(newEntries, scanned) && !data.hidden && !IsValid(data)
    ensures Holds(newEntries, scanned + [data])
  {
    hide Final;
    forall other ensures Final(scanned + [data], other) == Final(scanned, other) {
      FinalOneMore(scanned, data, other);
    }
  }

  lemma FinalOneMore(scanned: seq<Record>, data: Record, id: string)
    ensures Final(scanned + [data], id)
      == if data.id != id then Final(scanned, id)
         else if data.hidden then None
         else if IsValid(data) then Some(data)
         else Final(scanned, id)
  {
    FinalForOneMore(AsIs, scanned, data, id);
  }

  /** How often the scan lists an id. */
  function Mentions(scan: seq<Record>, id: string): nat {
    if scan == [] then 0
    else Mentions(scan[..|scan| - 1], id) + if scan[|scan| - 1].id == id then 1 else 0
  }

  /** Ids not mentioned yet still have their old entry, and ids mentioned once have taken it over. */
  ghost predicate Kept(
    was: map<string, DesktopEntry>, oldEntries: map<string, DesktopEntry>, newEntries: map<string, DesktopEntry>,
    scanned: seq<Record>)
  {
    && (forall id :: id in was && Mentions(scanned, id) == 0 ==>
      id !in newEntries && id in oldEntries && oldEntries[id] == was[id])
    && (forall id :: id in was && id in newEntries && Mentions(scanned, id) == 1 ==> newEntries[id] == was[id])
  }

  /** An id is mentioned once exactly if one record has it and no other. */
  lemma {:induction false} MentionedOnce(scan: seq<Record>, id: string)
    ensures Mentions(scan, id) == 0 <==> forall k :: 0 <= k < |scan| ==> scan[k].id != id
    ensures Mentions(scan, id) == 1
      <==> exists k :: 0 <= k < |scan| && scan[k].id == id && forall j :: 0 <= j < |scan| && scan[j].id == id ==> j == k
    decreases |scan|
  {
    if scan != [] {
      var n := |scan| - 1;
      var before := scan[..n];
      MentionedOnce(before, id);
      assert forall k :: 0 <= k < n ==> before[k] == scan[k];
      if Mentions(scan, id) == 1 {
        if scan[n].id == id {
          assert forall j :: 0 <= j < |scan| && scan[j].id == id ==> j == n;
        } else {
          var k :| 0 <= k < n && before[k].id == id && forall j :: 0 <= j < n && before[j].id == id ==> j == k;
          assert scan[k].id == id && forall j :: 0 <= j < |scan| && scan[j].id == id ==> j == k;
        }
      }
      if k :| 0 <= k < |scan| && scan[k].id == id && forall j :: 0 <= j < |scan| && scan[j].id == id ==> j == k {
        if k < n {
          assert before[k].id == id && forall j :: 0 <= j < n && before[j].id == id ==> j == k;
        }
      }
    }
  }

  lemma KeptMasked(
    was: map<string, DesktopEntry>, oldEntries: map<string, DesktopEntry>, newEntries: map<string, DesktopEntry>,
    scanned: seq<Record>, data: Record)
    requires Kept(was, oldEntries, newEntries, scanned)
    ensures Kept(was, oldEntries - {data.id}, newEntries - {data.id}, scanned + [data])
  {
    hide Mentions;
    forall id ensures Mentions(scanned + [data], id) == Mentions(scanned, id) + if data.id == id then 1 else 0 {
      MentionsOneMore(scanned, data, id);
    }
  }

  lemma KeptClaimed(
    was: map<string, DesktopEntry>, oldEntries: map<string, DesktopEntry>, newEntries: map<string, DesktopEntry>,
    scanned: seq<Record>, data: Record, e: DesktopEntry)
    requires Kept(was, oldEntries, newEntries, scanned) && (data.id in oldEntries ==> e == oldEntries[data.id])
    ensures Kept(was, oldEntries - {data.id}, newEntries, scanned + [data])
    ensures Kept(was, oldEntries - {data.id}, newEntries[data.id := e], scanned + [data])
  {
    hide Mentions;
    forall id ensures Mentions(scanned + [data], id) == Mentions(scanned, id) + if data.id == id then 1 else 0 {
      MentionsOneMore(scanned, data, id);
    }
  }

  lemma MentionsOneMore(scanned: seq<Record>, data: Record, id: string)
    ensures Mentions(scanned + [data], id) == Mentions(scanned, id) + if data.id == id then 1 else 0
  {
    assert (scanned + [data])[..|scanned|] == scanned;
  }

  lemma KeptAtEnd(
    was: map<string, DesktopEntry>, oldEntries: map<string, DesktopEntry>, newEntries: map<string, DesktopEntry>,
    scan: seq<Record>)
    requires Kept(was, oldEntries, newEntries, scan)
    ensures forall id :: id in newEntries && id in was && Mentions(scan, id) == 1 ==> newEntries[id] == was[id]
  {
  }

  lemma NothingScanned(lower: string -> string, oldEntries: map<string, DesktopEntry>)
    requires Keyed(oldEntries) && forall id :: id in oldEntries ==> oldEntries[id].deletions == 0
    ensures Scanning(oldEntries.Values, oldEntries, map[], {}) && LowercaseIndex(lower, map[], map[])
    ensures Holds(map[], [])
    ensures Kept(oldEntries, oldEntries, map[], []) && LowercaseHolds(lower, map[], [])
  {
  }

  lemma TakeNew(
    all: set<DesktopEntry>, oldEntries: map<string, DesktopEntry>, newEntries: map<string, DesktopEntry>,
    inHand: set<DesktopEntry>, id: string)
    requires Scanning(all, oldEntries, newEntries, inHand) && id in newEntries
    ensures newEntries[id] !in inHand && newEntries[id].id == id
    ensures Scanning(all, oldEntries, newEntries - {id}, inHand + {newEntries[id]})
  {
  }

  lemma TakeOld(
    all: set<DesktopEntry>, oldEntries: map<string, DesktopEntry>, newEntries: map<string, DesktopEntry>,
    inHand: set<DesktopEntry>, id: string)
    requires Scanning(all, oldEntries, newEntries, inHand) && id in oldEntries
    ensures oldEntries[id] !in inHand && oldEntries[id].id == id && oldEntries[id] in all
    ensures Scanning(all, oldEntries - {id}, newEntries, inHand + {oldEntries[id]})
  {
  }

  lemma PutNew(
    all: set<DesktopEntry>, oldEntries: map<string, DesktopEntry>, newEntries: map<string, DesktopEntry>, e: DesktopEntry)
    requires Scanning(all, oldEntries, newEntries, {e}) && e.id !in newEntries && e.id !in oldEntries
    ensures Scanning(all, oldEntries, newEntries[e.id := e], {})
  {
  }

  method DeleteInHand(
    e: DesktopEntry, ghost all: set<DesktopEntry>, ghost oldEntries: map<string, DesktopEntry>,
    ghost newEntries: map<string, DesktopEntry>, ghost inHand: set<DesktopEntry>)
    requires Scanning(all, oldEntries, newEntries, inHand + {e}) && e !in inHand
    modifies e`deletions
    ensures Scanning(all, oldEntries, newEntries, inHand)
  {
    e.DeleteLater();
  }

  /** Old entries that no record claimed are deleted. */
  method DeleteRest(oldEntries: map<string, DesktopEntry>, ghost newEntries: map<string, DesktopEntry>, ghost all: set<DesktopEntry>)
    requires Scanning(all, oldEntries, newEntries, {})
    modifies all`deletions
    ensures Keyed(newEntries) && (forall id :: id in newEntries ==> newEntries[id] in all)
    ensures forall e :: e in all ==> e.deletions == if Maps(newEntries, e) then 0 else 1
  {
    forall id | id in oldEntries {
      oldEntries[id].deletions := oldEntries[id].deletions + 1;
    }
  }
}
