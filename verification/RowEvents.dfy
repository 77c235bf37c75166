/** Row notifications of a list model, and what a listener that only sees them reconstructs. */
module RowEvents {
  import opened Common

  /** Row ranges are inclusive. Rows a listener can read from the model at that moment travel
      with the event. */
  datatype Event<V> =
    | Insert(first: int, last: int, rows: seq<V>)
    | Remove(first: int, last: int)
    | Move(first: int, last: int, dest: int, rows: seq<V>)
    | Changed(first: int, last: int, rows: seq<V>)

  /** What the begin functions of Qt's item models demand of a notification. */
  predicate ValidFor<V(==)>(m: seq<V>, e: Event<V>) {
    match e
    case Insert(first, last, rows) => 0 <= first <= |m| && first <= last && |rows| == last - first + 1
    case Remove(first, last) => 0 <= first <= last < |m|
    case Move(first, last, dest, rows) =>
      && 0 <= first <= last < |m| && 0 <= dest <= |m| && !(first <= dest <= last + 1)
      && rows == m[first..last + 1]
    case Changed(first, last, rows) => 0 <= first <= last < |m| && |rows| == last - first + 1
  }

  /** The rows after a run was moved to the front of others. */
  function Moved<V>(m: seq<V>, i: nat, start: nat, end: nat): (m': seq<V>)
    requires i < start < end <= |m|
    ensures |m'| == |m| && multiset(m') == multiset(m)
  {
    assert m == m[..i] + m[i..start] + m[start..end] + m[end..];
    m[..i] + m[start..end] + m[i..start] + m[end..]
  }

  function Apply<V(==)>(m: seq<V>, e: Event<V>): seq<V>
    requires ValidFor(m, e)
  {
    match e
    case Insert(first, last, rows) => m[..first] + rows + m[first..]
    case Remove(first, last) => m[..first] + m[last + 1..]
    case Move(first, last, dest, _) =>
      if dest < first then Moved(m, dest, first, last + 1) else Moved(m, first, last + 1, dest)
    case Changed(first, last, rows) => m[..first] + rows + m[last + 1..]
  }

  /** What following the notifications makes of the rows `was`; nothing if some notification is
      not valid for the rows at the moment it is emitted. */
  function Replay<V(==)>(was: seq<V>, es: seq<Event<V>>): Option<seq<V>> {
    if es == [] then Some(was)
    else
      var m, e := Replay(was, es[..|es| - 1]), es[|es| - 1];
      if m.Some? && ValidFor(m.value, e) then Some(Apply(m.value, e)) else None
  }

  ghost predicate Replays<V>(was: seq<V>, es: seq<Event<V>>, now: seq<V>) {
    Replay(was, es) == Some(now)
  }

  lemma ReplaysOneMore<V>(was: seq<V>, es: seq<Event<V>>, m: seq<V>, e: Event<V>)
    requires Replays(was, es, m) && ValidFor(m, e)
    ensures Replays(was, es + [e], Apply(m, e))
  {
    assert (es + [e])[..|es|] == es;
  }

  // ---- What was removed and inserted on the way ----

  ghost function RemovedBy<V>(m: seq<V>, e: Event<V>): multiset<V>
    requires ValidFor(m, e)
  {
    if e.Remove? then multiset(m[e.first..e.last + 1]) else multiset{}
  }

  ghost function InsertedBy<V>(e: Event<V>): multiset<V> {
    if e.Insert? then multiset(e.rows) else multiset{}
  }

  /** All rows named by remove notifications, as they were when removed. */
  ghost function Removed<V>(was: seq<V>, es: seq<Event<V>>): multiset<V> {
    if es == [] then multiset{}
    else
      var m, e := Replay(was, es[..|es| - 1]), es[|es| - 1];
      Removed(was, es[..|es| - 1]) + if m.Some? && ValidFor(m.value, e) then RemovedBy(m.value, e) else multiset{}
  }

  ghost function Inserted<V>(es: seq<Event<V>>): multiset<V> {
    if es == [] then multiset{} else Inserted(es[..|es| - 1]) + InsertedBy(es[|es| - 1])
  }

  lemma OneMoreEvent<V>(was: seq<V>, es: seq<Event<V>>, m: seq<V>, e: Event<V>)
    requires Replays(was, es, m) && ValidFor(m, e)
    ensures Removed(was, es + [e]) == Removed(was, es) + RemovedBy(m, e)
    ensures Inserted(es + [e]) == Inserted(es) + InsertedBy(e)
  {
    hide Replay, ValidFor, RemovedBy, InsertedBy;
    assert (es + [e])[..|es|] == es;
  }
}
