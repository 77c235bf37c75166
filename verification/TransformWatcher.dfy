/** The chains of items from two items up to their lowest common ancestor. */
module TransformWatchers {
  import opened Common

  /** Items are numbered; an item without an entry has no parent. */
  type Item = nat
  type Parents = map<Item, Item>

  /** No item is its own ancestor. */
  ghost predicate Forest(parents: Parents, depth: Item -> nat) {
    forall x :: x in parents ==> depth(parents[x]) < depth(x)
  }

  // ---- Ancestors and the lowest common one ----

  /** The item, its parent, and so on up to its root. */
  ghost function RootPath(parents: Parents, depth: Item -> nat, x: Item): (p: seq<Item>)
    requires Forest(parents, depth)
    ensures p != [] && p[0] == x
    decreases depth(x)
  {
    [x] + if x in parents then RootPath(parents, depth, parents[x]) else []
  }

  ghost predicate IsCommonAncestor(parents: Parents, depth: Item -> nat, a: Item, b: Item, c: Item)
    requires Forest(parents, depth)
  {
    c in RootPath(parents, depth, a) && c in RootPath(parents, depth, b)
  }

  /** A common ancestor that every common ancestor is an ancestor of. */
  ghost predicate IsLowest(parents: Parents, depth: Item -> nat, a: Item, b: Item, c: Item)
    requires Forest(parents, depth)
  {
    && IsCommonAncestor(parents, depth, a, b, c)
    && forall d :: IsCommonAncestor(parents, depth, a, b, d) ==> d in RootPath(parents, depth, c)
  }

  lemma PathUnfolds(parents: Parents, depth: Item -> nat, x: Item)
    requires Forest(parents, depth)
    ensures RootPath(parents, depth, x) == if x in parents then [x] + RootPath(parents, depth, parents[x]) else [x]
  {
  }

  lemma {:induction false} PathStep(parents: Parents, depth: Item -> nat, x: Item, i: nat)
    requires Forest(parents, depth) && i < |RootPath(parents, depth, x)|
    ensures var p := RootPath(parents, depth, x);
      && p[i..] == RootPath(parents, depth, p[i])
      && (p[i] in parents <==> i + 1 < |p|)
      && (p[i] in parents ==> p[i + 1] == parents[p[i]])
    decreases i
  {
    hide RootPath;
    PathUnfolds(parents, depth, x);
    var p := RootPath(parents, depth, x);
    if i == 0 {
      assert p[0..] == p;
    } else {
      var q := RootPath(parents, depth, parents[x]);
      PathStep(parents, depth, parents[x], i - 1);
      TailOf(x, q, i);
    }
  }

  lemma TailOf(x: Item, q: seq<Item>, i: nat)
    requires 0 < i <= |q|
    ensures ([x] + q)[i..] == q[i - 1..] && ([x] + q)[i] == q[i - 1] && (i < |q| ==> ([x] + q)[i + 1] == q[i])
  {
  }

  /** Heights fall along a path, so no item is on it twice. */
  lemma {:induction false} PathDescends(parents: Parents, depth: Item -> nat, x: Item, i: nat, j: nat)
    requires Forest(parents, depth) && i < j < |RootPath(parents, depth, x)|
    ensures depth(RootPath(parents, depth, x)[j]) < depth(RootPath(parents, depth, x)[i])
    decreases j - i
  {
    PathStep(parents, depth, x, i);
    if i + 1 < j {
      PathDescends(parents, depth, x, i + 1, j);
    }
  }

  lemma {:induction false} IndexUnique(parents: Parents, depth: Item -> nat, x: Item, i: nat)
    requires Forest(parents, depth) && i < |RootPath(parents, depth, x)|
    ensures PlaceOf(RootPath(parents, depth, x), RootPath(parents, depth, x)[i]) == i
  {
    var p := RootPath(parents, depth, x);
    var k := PlaceOf(p, p[i]);
    if k < i {
      PathDescends(parents, depth, x, k, i);
    }
  }

  /** Paths that meet go on together. */
  lemma {:induction false} PathsMerge(parents: Parents, depth: Item -> nat, a: Item, b: Item, i: nat)
    requires Forest(parents, depth) && i < |RootPath(parents, depth, a)|
    requires RootPath(parents, depth, a)[i] in RootPath(parents, depth, b)
    ensures var pa, pb := RootPath(parents, depth, a), RootPath(parents, depth, b);
      pa[i..] == pb[PlaceOf(pb, pa[i])..]
  {
    var pa, pb := RootPath(parents, depth, a), RootPath(parents, depth, b);
    PathStep(parents, depth, a, i);
    PathStep(parents, depth, b, PlaceOf(pb, pa[i]));
  }

  /** The first item of one path that is also on the other. */
  function FirstShared(pa: seq<Item>, pb: seq<Item>): (i: nat)
    ensures i <= |pa|
    ensures i < |pa| ==> pa[i] in pb
    ensures forall k :: 0 <= k < i ==> pa[k] !in pb
  {
    if pa == [] || pa[0] in pb then 0
    else
      assert forall k :: 0 < k < |pa| ==> pa[k] == pa[1..][k - 1];
      1 + FirstShared(pa[1..], pb)
  }

  datatype Chains = Chains(parentChain: seq<Item>, childChain: seq<Item>)

  /** Up to and including the first shared item on one side, up to just below it on the other;
      the whole paths when nothing is shared. */
  function Resolved(pa: seq<Item>, pb: seq<Item>): Chains {
    var i := FirstShared(pa, pb);
    if i == |pa| then Chains(pa, pb) else Chains(pa[..i + 1], pb[..PlaceOf(pb, pa[i])])
  }

  lemma {:induction false} FirstSharedIsLowest(parents: Parents, depth: Item -> nat, a: Item, b: Item)
    requires Forest(parents, depth)
    ensures var pa, pb := RootPath(parents, depth, a), RootPath(parents, depth, b);
      var i := FirstShared(pa, pb);
      if i < |pa| then IsLowest(parents, depth, a, b, pa[i])
      else forall c :: !IsCommonAncestor(parents, depth, a, b, c)
  {
    hide FirstShared, RootPath, PlaceOf;
    var pa, pb := RootPath(parents, depth, a), RootPath(parents, depth, b);
    var i := FirstShared(pa, pb);
    if i < |pa| {
      PathStep(parents, depth, a, i);
      forall d | IsCommonAncestor(parents, depth, a, b, d) ensures d in RootPath(parents, depth, pa[i]) {
        LaterOnPath(pa, i, PlaceOf(pa, d));
      }
    }
  }

  lemma LaterOnPath(p: seq<Item>, i: nat, k: nat)
    requires i <= k < |p|
    ensures p[k] in p[i..]
  {
    assert p[i..][k - i] == p[k];
  }

  /** The chains lead from `a` to `c` and from `b` to just below it. */
  ghost predicate LeadTo(chains: Chains, pa: seq<Item>, pb: seq<Item>, c: Item) {
    && chains.parentChain != [] && chains.parentChain <= pa && chains.parentChain[|chains.parentChain| - 1] == c
    && chains.childChain + [c] <= pb
  }

  /** The chains lead to the lowest common ancestor, or to both roots if there is none. */
  lemma {:induction false} ResolvedIsLowest(parents: Parents, depth: Item -> nat, a: Item, b: Item)
    requires Forest(parents, depth)
    ensures var pa, pb := RootPath(parents, depth, a), RootPath(parents, depth, b);
      || (exists c :: IsLowest(parents, depth, a, b, c) && LeadTo(Resolved(pa, pb), pa, pb, c))
      || ((forall c :: !IsCommonAncestor(parents, depth, a, b, c)) && Resolved(pa, pb) == Chains(pa, pb))
  {
    hide FirstShared, PlaceOf, RootPath, IsLowest, IsCommonAncestor;
    var pa, pb := RootPath(parents, depth, a), RootPath(parents, depth, b);
    var i := FirstShared(pa, pb);
    FirstSharedIsLowest(parents, depth, a, b);
    if i < |pa| {
      var j := PlaceOf(pb, pa[i]);
      assert pb[..j] + [pb[j]] == pb[..j + 1];
      assert LeadTo(Resolved(pa, pb), pa, pb, pa[i]);
    }
  }

  /** There is only one lowest common ancestor. */
  lemma LowestUnique(parents: Parents, depth: Item -> nat, a: Item, b: Item, c: Item, d: Item)
    requires Forest(parents, depth) && IsLowest(parents, depth, a, b, c) && IsLowest(parents, depth, a, b, d)
    ensures c == d
  {
    var pc, pd := RootPath(parents, depth, c), RootPath(parents, depth, d);
    var i :| 0 <= i < |pc| && pc[i] == d;
    var j :| 0 <= j < |pd| && pd[j] == c;
    if i > 0 {
      PathDescends(parents, depth, c, 0, i);
      if j > 0 {
        PathDescends(parents, depth, d, 0, j);
      }
    }
  }

  // ---- Walking up ----

  function ParentOf(parents: Parents, x: Item): Option<Item> {
    if x in parents then Some(parents[x]) else None
  }

  /** The item at a place of a path, nothing past its end. */
  function At(p: seq<Item>, k: nat): Option<Item> {
    if k < |p| then Some(p[k]) else None
  }

  lemma {:induction false} WalkUp(parents: Parents, depth: Item -> nat, x: Item, k: nat)
    requires Forest(parents, depth) && k < |RootPath(parents, depth, x)|
    ensures ParentOf(parents, RootPath(parents, depth, x)[k]) == At(RootPath(parents, depth, x), k + 1)
  {
    PathStep(parents, depth, x, k);
  }

  /** How far the walk from `b` goes: to `a`, to the shortcut, or to the root. */
  function Reach(pb: seq<Item>, a: Item, commonParent: Option<Item>): (n: nat)
    ensures n <= |pb| && (pb != [] ==> n > 0)
    ensures forall k :: 0 <= k < n - 1 ==> pb[k] != a && Some(pb[k]) != commonParent
    ensures 0 < n < |pb| ==> pb[n - 1] == a || Some(pb[n - 1]) == commonParent
  {
    if pb == [] then 0
    else if pb[0] == a || Some(pb[0]) == commonParent then 1
    else
      assert forall k :: 0 < k < |pb| ==> pb[k] == pb[1..][k - 1];
      1 + Reach(pb[1..], a, commonParent)
  }

  // ---- How the two walks can end ----

  lemma {:induction false} OnPathOnce(parents: Parents, depth: Item -> nat, x: Item, i: nat, j: nat)
    requires Forest(parents, depth) && i < |RootPath(parents, depth, x)| && j < |RootPath(parents, depth, x)|
    requires RootPath(parents, depth, x)[i] == RootPath(parents, depth, x)[j]
    ensures i == j
  {
    IndexUnique(parents, depth, x, i);
    IndexUnique(parents, depth, x, j);
  }

  /** The items of the walk from `b`, and whether the shortcut is among them. */
  lemma {:induction false} ReachedShortcut(parents: Parents, depth: Item -> nat, a: Item, b: Item, c: Item)
    requires Forest(parents, depth)
    requires var pb := RootPath(parents, depth, b); pb[Reach(pb, a, Some(c)) - 1] != a
    ensures var pb := RootPath(parents, depth, b);
      c in pb ==> Reach(pb, a, Some(c)) == PlaceOf(pb, c) + 1
    ensures var pb := RootPath(parents, depth, b); c !in pb ==> Reach(pb, a, Some(c)) == |pb|
  {
    hide RootPath, Reach, PlaceOf;
    var pb := RootPath(parents, depth, b);
    var n := Reach(pb, a, Some(c));
    if c in pb {
      var k := PlaceOf(pb, c);
      assert pb[k] == c;
    }
  }

  /** The walk from `b` came to `a`. */
  lemma {:induction false} MetAtA(parents: Parents, depth: Item -> nat, a: Item, b: Item, commonParent: Option<Item>)
    requires Forest(parents, depth)
    requires var pb := RootPath(parents, depth, b); pb[Reach(pb, a, commonParent) - 1] == a
    ensures var pa, pb := RootPath(parents, depth, a), RootPath(parents, depth, b);
      && Resolved(pa, pb) == Chains([a], pb[..Reach(pb, a, commonParent) - 1])
      && (commonParent.Some? ==> (commonParent.value in pa <==> commonParent.value in pb))
  {
    hide RootPath, Reach, PlaceOf;
    var pa, pb := RootPath(parents, depth, a), RootPath(parents, depth, b);
    var k := Reach(pb, a, commonParent) - 1;
    IndexUnique(parents, depth, b, k);
    PathsMerge(parents, depth, a, b, 0);
    assert pa[0..] == pa == pb[k..] && pa[..1] == [a];
    assert pb == pb[..k] + pb[k..];
    if commonParent.Some? {
      assert commonParent.value !in pb[..k];
    }
  }

  /** An item of the walk from `a` that is on the path of `b` but above the walk from `b` leaves
      none of the items after it in that walk. */
  lemma {:induction false} AboveWalk(parents: Parents, depth: Item -> nat, a: Item, b: Item, n: nat, f: nat, k: nat)
    requires Forest(parents, depth) && f < k < |RootPath(parents, depth, a)| && n <= |RootPath(parents, depth, b)|
    requires var pa, pb := RootPath(parents, depth, a), RootPath(parents, depth, b);
      pa[f] in pb && pa[f] !in pb[..n]
    ensures var pa, pb := RootPath(parents, depth, a), RootPath(parents, depth, b); pa[k] !in pb[..n]
  {
    hide RootPath, PlaceOf;
    var pa, pb := RootPath(parents, depth, a), RootPath(parents, depth, b);
    var m := PlaceOf(pb, pa[f]);
    PathsMerge(parents, depth, a, b, f);
    assert forall i :: 0 <= i < n ==> pb[..n][i] == pb[i];
    assert pb[m..][k - f] == pa[f..][k - f];
    forall j | 0 <= j < n ensures pb[..n][j] != pa[k] {
      if pb[j] == pa[k] {
        OnPathOnce(parents, depth, b, j, m + (k - f));
      }
    }
  }

  /** Meeting within the walk from `b`, both paths have the shortcut or neither has. */
  lemma {:induction false} ShortcutShared(parents: Parents, depth: Item -> nat, a: Item, b: Item, c: Item, k: nat)
    requires Forest(parents, depth) && k < |RootPath(parents, depth, a)|
    requires var pa, pb := RootPath(parents, depth, a), RootPath(parents, depth, b);
      var n := Reach(pb, a, Some(c));
      pb[n - 1] != a && pa[k] in pb[..n] && c !in pa[..k]
    ensures c in RootPath(parents, depth, a) <==> c in RootPath(parents, depth, b)
  {
    hide RootPath, Reach, PlaceOf;
    var pa, pb := RootPath(parents, depth, a), RootPath(parents, depth, b);
    var n := Reach(pb, a, Some(c));
    ReachedShortcut(parents, depth, a, b, c);
    var j := PlaceOf(pb[..n], pa[k]);
    assert pb[..n][j] == pb[j];
    IndexUnique(parents, depth, b, j);
    PathsMerge(parents, depth, a, b, k);
    SameEnds(pa, k, pb, j, c);
  }

  lemma SameEnds(pa: seq<Item>, k: nat, pb: seq<Item>, j: nat, c: Item)
    requires k < |pa| && j < |pb| && pa[k..] == pb[j..] && c !in pa[..k]
    requires c in pb ==> j <= PlaceOf(pb, c)
    ensures c in pa <==> c in pb
  {
    hide PlaceOf;
    assert pa == pa[..k] + pa[k..];
    if c in pb {
      LaterOnPath(pb, j, PlaceOf(pb, c));
    } else {
      assert pb == pb[..j] + pb[j..];
    }
  }

  /** The walk from `a` came to an item of the walk from `b`. */
  lemma {:induction false} MetAt(parents: Parents, depth: Item -> nat, a: Item, b: Item, commonParent: Option<Item>, k: nat)
    requires Forest(parents, depth) && k < |RootPath(parents, depth, a)|
    requires var pa, pb := RootPath(parents, depth, a), RootPath(parents, depth, b);
      var n := Reach(pb, a, commonParent);
      && pb[n - 1] != a && pa[k] in pb[..n]
      && forall i :: 0 <= i < k ==> pa[i] !in pb[..n] && Some(pa[i]) != commonParent
    ensures var pa, pb := RootPath(parents, depth, a), RootPath(parents, depth, b);
      && Resolved(pa, pb) == Chains(pa[..k + 1], pb[..PlaceOf(pb, pa[k])])
      && PlaceOf(pb, pa[k]) == PlaceOf(pb[..Reach(pb, a, commonParent)], pa[k])
      && (commonParent.Some? ==> (commonParent.value in pa <==> commonParent.value in pb))
  {
    hide *;
    var pa, pb := RootPath(parents, depth, a), RootPath(parents, depth, b);
    var n := Reach(pb, a, commonParent);
    PlaceInFront(parents, depth, b, n, pa[k]);
    FirstSharedAt(parents, depth, a, b, n, k);
    ResolvedAt(pa, pb, k);
    if commonParent.Some? {
      ShortcutShared(parents, depth, a, b, commonParent.value, k);
    }
  }

  lemma {:induction false} PlaceInFront(parents: Parents, depth: Item -> nat, b: Item, n: nat, x: Item)
    requires Forest(parents, depth) && n <= |RootPath(parents, depth, b)| && x in RootPath(parents, depth, b)[..n]
    ensures x in RootPath(parents, depth, b)
    ensures PlaceOf(RootPath(parents, depth, b), x) == PlaceOf(RootPath(parents, depth, b)[..n], x)
  {
    hide *;
    var pb := RootPath(parents, depth, b);
    var j := PlaceOf(pb[..n], x);
    assert pb[..n][j] == pb[j];
    IndexUnique(parents, depth, b, j);
  }

  lemma ResolvedAt(pa: seq<Item>, pb: seq<Item>, k: nat)
    requires k < |pa| && FirstShared(pa, pb) == k
    ensures Resolved(pa, pb) == Chains(pa[..k + 1], pb[..PlaceOf(pb, pa[k])])
  {
  }

  lemma {:induction false} FirstSharedAt(parents: Parents, depth: Item -> nat, a: Item, b: Item, n: nat, k: nat)
    requires Forest(parents, depth) && k < |RootPath(parents, depth, a)| && n <= |RootPath(parents, depth, b)|
    requires var pa, pb := RootPath(parents, depth, a), RootPath(parents, depth, b);
      pa[k] in pb && pa[k] in pb[..n] && forall i :: 0 <= i < k ==> pa[i] !in pb[..n]
    ensures FirstShared(RootPath(parents, depth, a), RootPath(parents, depth, b)) == k
  {
    hide RootPath, FirstShared;
    var f := FirstShared(RootPath(parents, depth, a), RootPath(parents, depth, b));
    if f < k {
      AboveWalk(parents, depth, a, b, n, f, k);
    }
  }

  /** The walk from `a` reached its root and met neither the walk from `b` nor the shortcut. */
  lemma {:induction false} NeverMet(parents: Parents, depth: Item -> nat, a: Item, b: Item, commonParent: Option<Item>)
    requires Forest(parents, depth)
    requires var pa, pb := RootPath(parents, depth, a), RootPath(parents, depth, b);
      var n := Reach(pb, a, commonParent);
      pb[n - 1] != a && forall i :: 0 <= i < |pa| ==> pa[i] !in pb[..n] && Some(pa[i]) != commonParent
    ensures var pa, pb := RootPath(parents, depth, a), RootPath(parents, depth, b);
      var n := Reach(pb, a, commonParent);
      && (commonParent.Some? ==> commonParent.value !in pa)
      && (commonParent.Some? && commonParent.value in pb ==> n == PlaceOf(pb, commonParent.value) + 1)
      && (!(commonParent.Some? && commonParent.value in pb) ==> Resolved(pa, pb) == Chains(pa, pb[..n]))
  {
    hide RootPath, Reach, PlaceOf, FirstShared;
    var pa, pb := RootPath(parents, depth, a), RootPath(parents, depth, b);
    if commonParent.Some? {
      ReachedShortcut(parents, depth, a, b, commonParent.value);
    } else {
      assert Reach(pb, a, commonParent) == |pb|;
    }
    assert pb[..|pb|] == pb;
  }

  /** The walk from `a` came to the shortcut first. */
  lemma {:induction false} ShortcutFirst(parents: Parents, depth: Item -> nat, a: Item, b: Item, c: Item)
    requires Forest(parents, depth)
    requires var pb := RootPath(parents, depth, b);
      var n := Reach(pb, a, Some(c));
      pb[n - 1] != a && c !in pb[..n]
    ensures c !in RootPath(parents, depth, b)
  {
    hide RootPath, Reach, PlaceOf;
    ReachedShortcut(parents, depth, a, b, c);
    var pb := RootPath(parents, depth, b);
    var n := Reach(pb, a, Some(c));
    assert forall i :: 0 <= i < n ==> pb[..n][i] == pb[i];
  }

  lemma OutsideSharedEnd(pa: seq<Item>, i: nat, pb: seq<Item>, j: nat, k: nat)
    requires i < |pa| && j < |pb| && pa[i..] == pb[j..] && k < |pb| && pb[k] !in pa
    ensures k < j
  {
    assert forall m :: j <= m < |pb| ==> pb[m] == pb[j..][m - j] == pa[i + (m - j)];
  }

  /** A shortcut above `b` only still gives the right chains in two cases: it is the root of `b`, or
      it stands just below a root that is above both. */
  lemma {:induction false} ShortcutAboveBOnly(parents: Parents, depth: Item -> nat, a: Item, b: Item, c: Item)
    requires Forest(parents, depth)
    requires c in RootPath(parents, depth, b) && c !in RootPath(parents, depth, a)
    ensures var pa, pb := RootPath(parents, depth, a), RootPath(parents, depth, b);
      Chains(pa, pb[..PlaceOf(pb, c) + 1]) == Resolved(pa, pb)
      <==> c !in parents || (parents[c] in pa && parents[c] !in parents)
  {
    hide RootPath, PlaceOf, FirstShared;
    var pa, pb := RootPath(parents, depth, a), RootPath(parents, depth, b);
    var i, k := FirstShared(pa, pb), PlaceOf(pb, c);
    PathStep(parents, depth, b, k);
    if i < |pa| {
      var j := PlaceOf(pb, pa[i]);
      PathStep(parents, depth, a, i);
      PathStep(parents, depth, b, j);
      PathsMerge(parents, depth, a, b, i);
      OutsideSharedEnd(pa, i, pb, j, k);
      if k + 1 < |pb| {
        IndexUnique(parents, depth, b, k + 1);
        PathStep(parents, depth, b, k + 1);
      }
      assert |pa[..i + 1]| == i + 1 && |pb[..j]| == j && |pb[..k + 1]| == k + 1;
      if i + 1 == |pa| {
        assert pa[..i + 1] == pa;
      }
    } else {
      assert pb[..|pb|] == pb;
      assert c in parents ==> pb[k + 1] !in pa;
    }
  }

  class TransformWatcher {
    var parentChain: seq<Item>
    var childChain: seq<Item>

    constructor ()
      ensures parentChain == [] && childChain == []
    {
      parentChain, childChain := [], [];
    }

    /** The chain from `b`, and whether it ended at `a`. */
    method WalkFromB(parents: Parents, a: Item, b: Item, commonParent: Option<Item>, ghost depth: Item -> nat)
      returns (bChain: seq<Item>, foundA: bool)
      requires Forest(parents, depth)
      ensures var pb := RootPath(parents, depth, b);
        && bChain == pb[..Reach(pb, a, commonParent)] && bChain != []
        && (foundA <==> bChain[|bChain| - 1] == a)
    {
      hide RootPath, Reach;
      ghost var pb := RootPath(parents, depth, b);
      bChain, foundA := [], false;
      var bParent := Some(b);
      while bParent != None
        invariant |bChain| <= |pb| && bChain == pb[..|bChain|] && bParent == At(pb, |bChain|)
        invariant forall k :: 0 <= k < |bChain| ==> pb[k] != a && Some(pb[k]) != commonParent
        decreases |pb| - |bChain|
      {
        WalkUp(parents, depth, b, |bChain|);
        bChain := bChain + [bParent.value];
        if bParent.value == a {
          return bChain, true;
        }
        if bParent == commonParent {
          return bChain, false;
        }
        bParent := ParentOf(parents, bParent.value);
      }
    }

    /** Finds the place of `item` in the chain from `b`. */
    method FindInChain(bChain: seq<Item>, item: Item) returns (j: nat)
      ensures j == PlaceOf(bChain, item)
    {
      j := 0;
      while j != |bChain| && bChain[j] != item
        invariant 0 <= j <= |bChain|
        invariant forall k :: 0 <= k < j ==> bChain[k] != item
        decreases |bChain| - j
      {
        j := j + 1;
      }
    }

    /** Resolves the chains between `a` and `b`. A shortcut that is a common ancestor, or an
        ancestor of neither, makes no difference; one above `a` only is noticed and changes nothing;
        one above `b` only silently ends both walks too late and too early. */
    method ResolveChains(
      parents: Parents, maybeA: Option<Item>, maybeB: Option<Item>, commonParent: Option<Item>, ghost depth: Item -> nat)
      returns (warned: bool)
      requires Forest(parents, depth)
      modifies this
      ensures maybeA.None? || maybeB.None? || warned ==>
        parentChain == old(parentChain) && childChain == old(childChain)
      ensures maybeA.None? || maybeB.None? ==> !warned
      ensures maybeA.Some? && maybeB.Some? ==>
        var pa, pb := RootPath(parents, depth, maybeA.value), RootPath(parents, depth, maybeB.value);
        && (warned <==> commonParent.Some? && commonParent.value in pa && commonParent.value !in pb)
        && (!warned ==>
          Chains(parentChain, childChain) ==
            if commonParent.Some? && commonParent.value in pb && commonParent.value !in pa
            then Chains(pa, pb[..PlaceOf(pb, commonParent.value) + 1])
            else Resolved(pa, pb))
    {
      hide RootPath, Reach, PlaceOf, FirstShared, Resolved;
      warned := false;
      if maybeA == None || maybeB == None {
        return;
      }
      var a, b := maybeA.value, maybeB.value;
      var aChain := [a];
      var bChain, chainResolved := WalkFromB(parents, a, b, commonParent, depth);

      if chainResolved {
        MetAtA(parents, depth, a, b, commonParent);
      } else {
        aChain, bChain, chainResolved, warned := WalkFromA(parents, a, b, commonParent, bChain, depth);
        if warned {
          return;
        }
      }

      parentChain := aChain;
      if bChain[|bChain| - 1] == aChain[|aChain| - 1] {
        bChain := bChain[..|bChain| - 1];
      }
      childChain := bChain;
    }

    /** The chain from `a` to the first item of the chain from `b`, which is cut there; or to the
        root; or a warning at the shortcut. */
    method WalkFromA(
      parents: Parents, a: Item, b: Item, commonParent: Option<Item>, reached: seq<Item>, ghost depth: Item -> nat)
      returns (aChain: seq<Item>, bChain: seq<Item>, chainResolved: bool, warned: bool)
      requires Forest(parents, depth)
      requires var pb := RootPath(parents, depth, b);
        reached == pb[..Reach(pb, a, commonParent)] && reached[|reached| - 1] != a
      ensures var pa, pb := RootPath(parents, depth, a), RootPath(parents, depth, b);
        && (warned <==> commonParent.Some? && commonParent.value in pa && commonParent.value !in pb)
        && (!warned && commonParent.Some? && commonParent.value in pb && commonParent.value !in pa ==>
          Walked(aChain, bChain, Chains(pa, pb[..PlaceOf(pb, commonParent.value) + 1])))
        && (!warned && !(commonParent.Some? && commonParent.value in pb && commonParent.value !in pa) ==>
          Walked(aChain, bChain, Resolved(pa, pb)))
    {
      hide Forest, RootPath, Reach, PlaceOf, FirstShared, Resolved;
      ghost var pa, pb := RootPath(parents, depth, a), RootPath(parents, depth, b);
      aChain, bChain, chainResolved, warned := [], reached, false, false;
      var aParent := Some(a);
      while aParent != None
        invariant |aChain| <= |pa| && aChain == pa[..|aChain|] && aParent == At(pa, |aChain|)
        invariant forall k :: 0 <= k < |aChain| ==> pa[k] !in reached && Some(pa[k]) != commonParent
        decreases |pa| - |aChain|
      {
        ghost var k := |aChain|;
        WalkUp(parents, depth, a, k);
        aChain := aChain + [aParent.value];
        var j := FindInChain(bChain, aParent.value);
        if j < |bChain| {
          MetAt(parents, depth, a, b, commonParent, k);
          bChain := bChain[..j + 1];
          return aChain, bChain, true, false;
        }
        if aParent == commonParent {
          ShortcutFirst(parents, depth, a, b, aParent.value);
          return aChain, bChain, false, true;
        }
        aParent := ParentOf(parents, aParent.value);
      }
      NeverMet(parents, depth, a, b, commonParent);
      assert aChain == pa && aChain[|aChain| - 1] !in reached;
      assert reached[|reached| - 1] in reached;
    }
  }

  /** Two walks that lead to these chains once a shared last item is taken off the second. */
  ghost predicate Walked(aChain: seq<Item>, bChain: seq<Item>, chains: Chains) {
    && aChain != [] && bChain != []
    && aChain == chains.parentChain
    && chains.childChain
      == if bChain[|bChain| - 1] == aChain[|aChain| - 1] then bChain[..|bChain| - 1] else bChain
  }
}
