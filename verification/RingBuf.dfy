/** Fixed-capacity ring of recently constructed items, and its hashed variant.

    The specification view of a ring is its `window`: a sequence, newest item first.
    Raw memory is explicit: a slot is `Raw` until an item is constructed in it and again
    once the item is destroyed, so a double construction or a double destruction is a
    violated precondition. */
module RingBuf {

  datatype Slot<+T> = Raw | Live(value: T)

  /** The remainder of C++, which truncates toward zero. */
  function CppMod(a: int, n: int): (r: int)
    requires n > 0
    ensures -n < a < n ==> r == a
    ensures a == n ==> r == 0
  {
    if a >= 0 then SmallMod(a, n); a % n else SmallMod(-a, n); -((-a) % n)
  }

  lemma SmallMod(a: nat, n: int)
    requires n > 0
    ensures a < n ==> a % n == a
    ensures a == n ==> a % n == 0
  {
  }

  /** The slot holding the i-th most recent item. */
  function SlotOf(head: int, i: int, capacity: int): int {
    if i <= head then head - i else head - i + capacity
  }

  /** What a push does to the window: newest first, oldest dropped past the capacity. */
  function Pushed<T>(window: seq<T>, x: T, capacity: nat): seq<T> {
    if |window| < capacity then [x] + window else ([x] + window)[..capacity]
  }

  /** A ring fills its slots in order before it wraps, and exactly `size` slots are live. */
  ghost predicate WellFormed<T>(slots: seq<Slot<T>>, head: int, size: int) {
    && 0 <= size <= |slots|
    && (size == 0 ==> head == -1)
    && (size != 0 ==> 0 <= head < |slots|)
    && (size < |slots| ==> head == size - 1)
    && (forall k :: 0 <= k < |slots| ==> (slots[k].Live? <==> k < size))
  }

  /** The items in the slots, newest first. */
  ghost function View<T>(slots: seq<Slot<T>>, head: int, size: int): (w: seq<T>)
    requires WellFormed(slots, head, size)
    ensures |w| == size
    ensures forall i :: 0 <= i < size ==> w[i] == slots[SlotOf(head, i, |slots|)].value
  {
    seq(size, i requires 0 <= i < size => slots[SlotOf(head, i, |slots|)].value)
  }

  lemma EmplacedView<T>(slots: seq<Slot<T>>, head: int, size: int, x: T, i: int, newSize: int)
    requires WellFormed(slots, head, size) && |slots| > 0
    requires i == if head + 1 == |slots| then 0 else head + 1
    requires newSize == if size == |slots| then size else i + 1
    ensures WellFormed(slots[i := Live(x)], i, newSize)
    ensures View(slots[i := Live(x)], i, newSize) == Pushed(View(slots, head, size), x, |slots|)
  {
    EmplacedWellFormed(slots, head, size, x, i, newSize);
    var now, was := View(slots[i := Live(x)], i, newSize), View(slots, head, size);
    hide WellFormed, View, SlotOf;
    forall k | 0 < k < newSize
      ensures now[k] == was[k - 1]
    {
      EmplacedSlot(head, i, k, |slots|, size, newSize);
      assert now[k] == slots[i := Live(x)][SlotOf(i, k, |slots|)].value;
    }
    assert SlotOf(i, 0, |slots|) == i by {
      FirstSlot(i, |slots|);
    }
  }

  lemma EmplacedWellFormed<T>(slots: seq<Slot<T>>, head: int, size: int, x: T, i: int, newSize: int)
    requires WellFormed(slots, head, size) && |slots| > 0
    requires i == if head + 1 == |slots| then 0 else head + 1
    requires newSize == if size == |slots| then size else i + 1
    ensures WellFormed(slots[i := Live(x)], i, newSize) && 0 <= i < |slots|
    ensures size <= newSize <= size + 1 && newSize <= |slots| && (newSize == size ==> size == |slots|)
    ensures -1 <= head < |slots| && (size < |slots| ==> head == size - 1) && (size == |slots| ==> head >= 0)
  {
  }

  lemma FirstSlot(head: int, capacity: int)
    requires 0 <= head
    ensures SlotOf(head, 0, capacity) == head
  {
  }

  /** The slots before the new one, wrapped or not, are those before the old head. */
  lemma EmplacedSlot(head: int, i: int, k: int, capacity: int, size: int, newSize: int)
    requires -1 <= head < capacity && 0 < k < newSize <= capacity
    requires i == if head + 1 == capacity then 0 else head + 1
    requires size <= newSize <= size + 1 && (size < capacity ==> head == size - 1) && (newSize == size ==> size == capacity)
    requires size == capacity ==> head >= 0
    ensures SlotOf(i, k, capacity) == SlotOf(head, k - 1, capacity) && 0 <= SlotOf(i, k, capacity) < capacity
    ensures SlotOf(i, k, capacity) != i && k - 1 < size
  {
  }

  lemma NewestReplaced<T>(slots: seq<Slot<T>>, head: int, size: int, x: T)
    requires WellFormed(slots, head, size) && size > 0
    ensures WellFormed(slots[head := Live(x)], head, size)
    ensures View(slots[head := Live(x)], head, size) == View(slots, head, size)[0 := x]
  {
    var now := View(slots[head := Live(x)], head, size);
    forall k | 0 < k < size
      ensures now[k] == View(slots, head, size)[k]
    {
      assert SlotOf(head, k, |slots|) != head;
    }
  }

  class RingBuffer<T> {
    var data: array<Slot<T>>
    var mCapacity: int
    var head: int
    var mSize: int
    // every constructor and destructor call so far
    ghost var constructed: nat
    ghost var destroyed: nat

    ghost predicate Valid()
      reads this, data
    {
      && data.Length == mCapacity
      && WellFormed(data[..], head, mSize)
      && constructed - destroyed == mSize
    }

    ghost function Window(): (w: seq<T>)
      requires Valid()
      reads this, data
      ensures |w| == mSize
    {
      View(data[..], head, mSize)
    }

    constructor (capacity: nat)
      ensures Valid() && fresh(data)
      ensures mCapacity == capacity && Window() == [] && constructed == destroyed == 0
    {
      data := new Slot<T>[capacity](_ => Raw);
      mCapacity, head, mSize := capacity, -1, 0;
      constructed, destroyed := 0, 0;
    }

    predicate IndexIsAllocated(index: int)
      reads this
    {
      mSize == mCapacity || index <= head
    }

    /** Runs the destructor of a slot's item: only a live item may be destroyed. */
    method Destroy(i: int)
      requires 0 <= i < data.Length && data[i].Live?
      modifies data, this`destroyed
      ensures data[..] == old(data[..])[i := Raw] && destroyed == old(destroyed) + 1
    {
      data[i] := Raw;
      destroyed := destroyed + 1;
    }

    /** Constructs an item in place: only raw memory may be constructed in. */
    method Construct(i: int, x: T)
      requires 0 <= i < data.Length && data[i].Raw?
      modifies data, this`constructed
      ensures data[..] == old(data[..])[i := Live(x)] && constructed == old(constructed) + 1
    {
      data[i] := Live(x);
      constructed := constructed + 1;
    }

    method Emplace(x: T) returns (slot: int)
      requires Valid() && mCapacity > 0
      modifies this, data
      ensures Valid() && data == old(data) && mCapacity == old(mCapacity)
      ensures slot == head && constructed == old(constructed) + 1
      ensures Window() == Pushed(old(Window()), x, mCapacity)
    {
      ghost var was, oldHead, oldSize := data[..], head, mSize;
      var i := CppMod(head + 1, mCapacity);

      if IndexIsAllocated(i) {
        assert data[i] == was[i];
        Destroy(i);
      }
      assert data[i] == data[..][i];
      Construct(i, x);
      assert data[..] == was[i := Live(x)];

      head := i;
      if mSize != mCapacity {
        mSize := i + 1;
      }
      slot := i;
      EmplacedView(was, oldHead, oldSize, x, i, mSize);
    }

    method Clear()
      requires Valid()
      modifies this, data
      ensures Valid() && data == old(data) && mCapacity == old(mCapacity)
      ensures Window() == [] && constructed == old(constructed)
      ensures forall k :: 0 <= k < mCapacity ==> data[k].Raw?
    {
      if head == -1 {
        return;
      }

      var i := head;
      var again := true;
      ghost var was, done := data[..], 0;
      while again
        invariant data == old(data) && mSize == old(mSize) && head == old(head)
        invariant mCapacity == old(mCapacity) && constructed == old(constructed)
        invariant 0 <= done <= mSize && destroyed == old(destroyed) + done
        invariant again <==> done < mSize
        invariant i == if head + done < mSize then head + done else head + done - mSize
        invariant forall k :: 0 <= k < mCapacity ==>
          (data[k].Live? <==> k < mSize && !(if i >= head then done > 0 && (head < k <= i || done == mSize) else head < k || k <= i))
        decreases mSize - done
      {
        i := CppMod(i + 1, mSize);
        assert data[i].Live?;
        ghost var before := data[..];
        Destroy(i);
        assert forall k :: 0 <= k < mCapacity ==> data[k] == data[..][k] == before[i := Raw][k];
        done := done + 1;
        again := i != head;
      }

      mSize := 0;
      head := -1;
    }

    /** The i-th most recent item; an index outside the window is undefined. */
    method At(i: int) returns (x: T)
      requires Valid() && 0 <= i < mSize
      ensures x == Window()[i]
    {
      var bufferI := CppMod(head - i, mCapacity);
      if bufferI < 0 {
        bufferI := bufferI + mCapacity;
      }
      assert bufferI == SlotOf(head, i, mCapacity);
      x := data[bufferI].value;
    }
  }

  // ---- Every run of pushes and clears ----

  datatype Op<T> = Emplace(x: T) | Clear

  function Run<T>(ops: seq<Op<T>>, capacity: nat): seq<T> {
    if ops == [] then []
    else
      var last := ops[|ops| - 1];
      if last.Clear? then [] else Pushed(Run(ops[..|ops| - 1], capacity), last.x, capacity)
  }

  /** Everything pushed since the last clear, newest first: no capacity involved. */
  function SinceClear<T>(ops: seq<Op<T>>): seq<T> {
    if ops == [] then []
    else
      var last := ops[|ops| - 1];
      if last.Clear? then [] else [last.x] + SinceClear(ops[..|ops| - 1])
  }

  lemma {:induction false} RunIsNewestPrefix<T>(ops: seq<Op<T>>, capacity: nat)
    ensures |Run(ops, capacity)| == if |SinceClear(ops)| < capacity then |SinceClear(ops)| else capacity
    ensures forall i :: 0 <= i < |Run(ops, capacity)| ==> Run(ops, capacity)[i] == SinceClear(ops)[i]
  {
    if ops != [] {
      RunIsNewestPrefix(ops[..|ops| - 1], capacity);
    }
  }

  // ---- Lookup by hash ----

  ghost predicate HashRespects<T(!new)>(hash: T -> nat, eq: (T, T) -> bool) {
    forall a, b :: eq(a, b) ==> hash(a) == hash(b)
  }

  /** `i` is where a plain newest-first search for `value` stops, -1 if nowhere. */
  ghost predicate FirstMatch<T>(window: seq<T>, eq: (T, T) -> bool, value: T, i: int) {
    && -1 <= i < |window|
    && (i >= 0 ==> eq(value, window[i]))
    && forall k :: 0 <= k < (if i >= 0 then i else |window|) ==> !eq(value, window[k])
  }

  /** The values of hashed entries. */
  function Values<T>(entries: seq<(nat, T)>): (values: seq<T>)
    ensures |values| == |entries|
    ensures forall i :: 0 <= i < |entries| ==> values[i] == entries[i].1
  {
    seq(|entries|, i requires 0 <= i < |entries| => entries[i].1)
  }

  ghost predicate Hashed<T>(entries: seq<(nat, T)>, hash: T -> nat) {
    forall i :: 0 <= i < |entries| ==> entries[i].0 == hash(entries[i].1)
  }

  lemma HashedPush<T>(entries: seq<(nat, T)>, hash: T -> nat, value: T, capacity: nat)
    requires capacity > 0 && Hashed(entries, hash)
    ensures Pushed(entries, (0, value), capacity) != []
    ensures var now := Pushed(entries, (0, value), capacity)[0 := (hash(value), value)];
      Hashed(now, hash) && Values(now) == Pushed(Values(entries), value, capacity)
  {
  }

  class HashBuffer<T(!new)> {
    const ring: RingBuffer<(nat, T)>
    const hash: T -> nat
    const eq: (T, T) -> bool

    ghost predicate Valid()
      reads this, ring, ring.data
    {
      && ring.Valid()
      && HashRespects(hash, eq)
      && Hashed(ring.Window(), hash)
    }

    ghost function Window(): (w: seq<T>)
      requires Valid()
      reads this, ring, ring.data
      ensures |w| == ring.mSize
    {
      Values(ring.Window())
    }

    constructor (capacity: nat, hash: T -> nat, eq: (T, T) -> bool)
      requires HashRespects(hash, eq)
      ensures Valid() && fresh(ring) && fresh(ring.data)
      ensures Window() == [] && ring.mCapacity == capacity && this.eq == eq && this.hash == hash
    {
      ring := new RingBuffer(capacity);
      this.hash, this.eq := hash, eq;
    }

    method IndexOf(value: T) returns (index: int)
      requires Valid()
      ensures FirstMatch(Window(), eq, value, index)
    {
      var h := hash(value);
      var i := 0;
      while i < ring.mSize
        invariant 0 <= i <= |Window()|
        invariant forall k :: 0 <= k < i ==> !eq(value, Window()[k])
      {
        var v := ring.At(i);
        assert v == ring.Window()[i];
        if h == v.0 && eq(value, v.1) {
          return i;
        }
        i := i + 1;
      }
      return -1;
    }

    method Emplace(value: T)
      requires Valid() && ring.mCapacity > 0
      modifies ring, ring.data
      ensures Valid() && ring.data == old(ring.data) && ring.mCapacity == old(ring.mCapacity)
      ensures Window() == Pushed(old(Window()), value, ring.mCapacity)
    {
      hide Pushed, Hashed, Values, View, WellFormed, HashRespects;
      HashedPush(ring.Window(), hash, value, ring.mCapacity);
      var slot := ring.Emplace((0, value));
      SetNewest(slot, (hash(value), value));
    }

    /** Writes through the reference that the ring's emplace returned. */
    method SetNewest(slot: int, entry: (nat, T))
      requires ring.Valid() && ring.mSize > 0 && slot == ring.head
      modifies ring.data
      ensures ring.Valid() && ring.Window() == old(ring.Window())[0 := entry]
    {
      ghost var slots := ring.data[..];
      NewestReplaced(slots, ring.head, ring.mSize, entry);
      ring.data[slot] := Live(entry);
      assert ring.data[..] == slots[slot := Live(entry)];
    }

    method At(i: int) returns (x: T)
      requires Valid() && 0 <= i < ring.mSize
      ensures x == Window()[i]
    {
      var entry := ring.At(i);
      x := entry.1;
    }
  }
}
