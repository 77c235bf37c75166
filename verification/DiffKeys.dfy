/** Rows and notifications of a script list, reduced to keys. */
module DiffKeys {
  import opened RowEvents
  import opened ScriptDiffs

  function Keys(cmpKey: string, s: seq<Variant>): (keys: seq<Variant>)
    ensures |keys| == |s|
    ensures forall i :: 0 <= i < |s| ==> keys[i] == KeyOf(cmpKey, s[i])
  {
    seq(|s|, i requires 0 <= i < |s| => KeyOf(cmpKey, s[i]))
  }

  function KeyEvent(cmpKey: string, e: Event<Variant>): Event<Variant> {
    match e
    case Insert(first, last, rows) => Insert(first, last, Keys(cmpKey, rows))
    case Remove(_, _) => e
    case Move(first, last, dest, rows) => Move(first, last, dest, Keys(cmpKey, rows))
    case Changed(first, last, rows) => Changed(first, last, Keys(cmpKey, rows))
  }

  function KeyEvents(cmpKey: string, es: seq<Event<Variant>>): (keyed: seq<Event<Variant>>)
    ensures |keyed| == |es|
  {
    seq(|es|, i requires 0 <= i < |es| => KeyEvent(cmpKey, es[i]))
  }

  lemma KeysOfParts(cmpKey: string, s: seq<Variant>, i: nat, end: nat)
    requires i <= end <= |s|
    ensures Keys(cmpKey, s[..i]) == Keys(cmpKey, s)[..i]
    ensures Keys(cmpKey, s[i..end]) == Keys(cmpKey, s)[i..end]
    ensures Keys(cmpKey, s[end..]) == Keys(cmpKey, s)[end..]
  {
    hide KeyOf;
  }

  lemma KeysOfJoined(cmpKey: string, a: seq<Variant>, b: seq<Variant>)
    ensures Keys(cmpKey, a + b) == Keys(cmpKey, a) + Keys(cmpKey, b)
  {
    hide KeyOf;
  }

  lemma WithoutKey(s: seq<Variant>, es: seq<Event<Variant>>)
    ensures Keys("", s) == s && KeyEvents("", es) == es
  {
    assert forall rows :: Keys("", rows) == rows;
  }

  lemma KeysOfJoined3(cmpKey: string, a: seq<Variant>, b: seq<Variant>, c: seq<Variant>)
    ensures Keys(cmpKey, a + b + c) == Keys(cmpKey, a) + Keys(cmpKey, b) + Keys(cmpKey, c)
  {
    hide Keys;
    KeysOfJoined(cmpKey, a, b);
    KeysOfJoined(cmpKey, a + b, c);
  }

  lemma KeysOfJoined4(cmpKey: string, a: seq<Variant>, b: seq<Variant>, c: seq<Variant>, d: seq<Variant>)
    ensures Keys(cmpKey, a + b + c + d) == Keys(cmpKey, a) + Keys(cmpKey, b) + Keys(cmpKey, c) + Keys(cmpKey, d)
  {
    hide Keys;
    KeysOfJoined3(cmpKey, a, b, c);
    KeysOfJoined(cmpKey, a + b + c, d);
  }

  lemma KeysOfMoved(cmpKey: string, m: seq<Variant>, i: nat, start: nat, end: nat)
    requires i < start < end <= |m|
    ensures Keys(cmpKey, Moved(m, i, start, end)) == Moved(Keys(cmpKey, m), i, start, end)
  {
    hide Keys;
    KeysOfParts(cmpKey, m, i, start);
    KeysOfParts(cmpKey, m, start, end);
    KeysOfJoined4(cmpKey, m[..i], m[start..end], m[i..start], m[end..]);
  }

  lemma KeysOfSpliced(cmpKey: string, m: seq<Variant>, i: nat, rows: seq<Variant>, end: nat)
    requires i <= end <= |m|
    ensures Keys(cmpKey, m[..i] + rows + m[end..]) == Keys(cmpKey, m)[..i] + Keys(cmpKey, rows) + Keys(cmpKey, m)[end..]
  {
    hide Keys;
    KeysOfParts(cmpKey, m, i, end);
    KeysOfJoined3(cmpKey, m[..i], rows, m[end..]);
  }

  lemma KeysOfCut(cmpKey: string, m: seq<Variant>, i: nat, end: nat)
    requires i <= end <= |m|
    ensures Keys(cmpKey, m[..i] + m[end..]) == Keys(cmpKey, m)[..i] + Keys(cmpKey, m)[end..]
  {
    hide Keys;
    KeysOfParts(cmpKey, m, i, end);
    KeysOfJoined(cmpKey, m[..i], m[end..]);
  }

  lemma {:induction false} KeysApplyMove(cmpKey: string, m: seq<Variant>, e: Event<Variant>)
    requires e.Move? && ValidFor(m, e) && ValidFor(Keys(cmpKey, m), KeyEvent(cmpKey, e))
    ensures Apply(Keys(cmpKey, m), KeyEvent(cmpKey, e)) == Keys(cmpKey, Apply(m, e))
  {
    hide Keys, KeyOf, Moved;
    KeysOfParts(cmpKey, m, e.first, e.last + 1);
    if e.dest < e.first {
      KeysOfMoved(cmpKey, m, e.dest, e.first, e.last + 1);
    } else {
      KeysOfMoved(cmpKey, m, e.first, e.last + 1, e.dest);
    }
  }

  lemma {:induction false} KeysApplyEdit(cmpKey: string, m: seq<Variant>, e: Event<Variant>)
    requires !e.Move? && ValidFor(m, e) && ValidFor(Keys(cmpKey, m), KeyEvent(cmpKey, e))
    ensures Apply(Keys(cmpKey, m), KeyEvent(cmpKey, e)) == Keys(cmpKey, Apply(m, e))
  {
    hide Keys, KeyOf, Moved;
    match e {
      case Insert(first, _, rows) => KeysOfSpliced(cmpKey, m, first, rows, first);
      case Remove(first, last) => KeysOfCut(cmpKey, m, first, last + 1);
      case Changed(first, last, rows) => KeysOfSpliced(cmpKey, m, first, rows, last + 1);
    }
  }

  lemma KeysValid(cmpKey: string, m: seq<Variant>, e: Event<Variant>)
    requires ValidFor(m, e)
    ensures ValidFor(Keys(cmpKey, m), KeyEvent(cmpKey, e))
  {
    if e.Move? {
      KeysOfParts(cmpKey, m, e.first, e.last + 1);
    }
    hide Keys, KeyOf;
  }

  /** A listener that only sees keys follows along. */
  lemma {:induction false} KeysApply(cmpKey: string, m: seq<Variant>, e: Event<Variant>)
    requires ValidFor(m, e)
    ensures ValidFor(Keys(cmpKey, m), KeyEvent(cmpKey, e))
    ensures Apply(Keys(cmpKey, m), KeyEvent(cmpKey, e)) == Keys(cmpKey, Apply(m, e))
  {
    hide *;
    KeysValid(cmpKey, m, e);
    if e.Move? {
      KeysApplyMove(cmpKey, m, e);
    } else {
      KeysApplyEdit(cmpKey, m, e);
    }
  }

  lemma {:induction false} KeysReplay(cmpKey: string, was: seq<Variant>, es: seq<Event<Variant>>, m: seq<Variant>)
    requires Replays(was, es, m)
    ensures Replays(Keys(cmpKey, was), KeyEvents(cmpKey, es), Keys(cmpKey, m))
    decreases |es|
  {
    hide ValidFor, Apply, Keys, KeyEvent;
    if es != [] {
      var before, e := es[..|es| - 1], es[|es| - 1];
      var m' := Replay(was, before).value;
      KeysReplay(cmpKey, was, before, m');
      KeysApply(cmpKey, m', e);
      assert KeyEvents(cmpKey, es)[..|es| - 1] == KeyEvents(cmpKey, before);
    }
  }
}
