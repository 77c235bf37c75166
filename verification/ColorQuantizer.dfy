/** Median-cut colour quantization. */
module ColorQuantizers {

  type Level = c: int | 0 <= c < 256

  datatype Color = Color(red: Level, green: Level, blue: Level)

  datatype Channel = Red | Green | Blue

  function Get(c: Color, channel: Channel): Level {
    match channel
    case Red => c.red
    case Green => c.green
    case Blue => c.blue
  }

  // ---- Ranges and averages ----

  function MinOf(s: seq<Color>, channel: Channel): Level {
    if s == [] then 255
    else
      var rest, last := MinOf(s[..|s| - 1], channel), Get(s[|s| - 1], channel);
      if last < rest then last else rest
  }

  function MaxOf(s: seq<Color>, channel: Channel): Level {
    if s == [] then 0
    else
      var rest, last := MaxOf(s[..|s| - 1], channel), Get(s[|s| - 1], channel);
      if last > rest then last else rest
  }

  /** The extremes are attained, and nothing lies outside them. */
  lemma {:induction false} Extremes(s: seq<Color>, channel: Channel)
    ensures forall c :: c in s ==> MinOf(s, channel) <= Get(c, channel) <= MaxOf(s, channel)
    ensures s != [] ==> exists c :: c in s && Get(c, channel) == MinOf(s, channel)
    ensures s != [] ==> exists c :: c in s && Get(c, channel) == MaxOf(s, channel)
    decreases |s|
  {
    hide Get;
    if s != [] {
      Extremes(s[..|s| - 1], channel);
      assert s == s[..|s| - 1] + [s[|s| - 1]];
    }
  }

  function Range(s: seq<Color>, channel: Channel): int { MaxOf(s, channel) - MinOf(s, channel) }

  /** No channel varies more; ties go to red, then green. */
  predicate IsWidest(s: seq<Color>, channel: Channel) {
    s != [] ==>
      && Range(s, Red) <= Range(s, channel) && Range(s, Green) <= Range(s, channel) && Range(s, Blue) <= Range(s, channel)
      && (channel == Red || Range(s, Red) < Range(s, channel))
      && (channel == Blue ==> Range(s, Green) < Range(s, channel))
  }

  function Total(s: seq<Color>, channel: Channel): nat {
    if s == [] then 0 else Total(s[..|s| - 1], channel) + Get(s[|s| - 1], channel)
  }

  /** The quotient of two counts, rounded half up. */
  function RoundedQuotient(total: nat, n: nat): nat
    requires n > 0
  {
    (2 * total + n) / (2 * n)
  }

  /** The colour's channels are the rounded averages of the bucket's. */
  predicate IsAverage(c: Color, bucket: seq<Color>) {
    && bucket != []
    && Get(c, Red) == RoundedQuotient(Total(bucket, Red), |bucket|)
    && Get(c, Green) == RoundedQuotient(Total(bucket, Green), |bucket|)
    && Get(c, Blue) == RoundedQuotient(Total(bucket, Blue), |bucket|)
  }

  /** A sum counts every pixel once: it is the value of a single pixel, adds up over parts, and does
      not depend on the order. */
  lemma TotalOfOne(c: Color, channel: Channel)
    ensures Total([c], channel) == match channel case Red => c.red case Green => c.green case Blue => c.blue
    ensures Total([], channel) == 0
  {
    assert [c][..0] == [];
  }

  lemma {:induction false} TotalOfParts(a: seq<Color>, b: seq<Color>, channel: Channel)
    ensures Total(a + b, channel) == Total(a, channel) + Total(b, channel)
    decreases |b|
  {
    hide Get;
    if b == [] {
      assert a + b == a;
    } else {
      var before, last := b[..|b| - 1], b[|b| - 1];
      assert (a + b)[..|a + b| - 1] == a + before;
      TotalOfParts(a, before, channel);
    }
  }

  lemma {:induction false} TotalWithout(s: seq<Color>, k: nat, channel: Channel)
    requires k < |s|
    ensures var rest := s[..k] + s[k + 1..];
      && multiset(s) == multiset(rest) + multiset{s[k]}
      && Total(s, channel) == Total(rest, channel) + Get(s[k], channel)
  {
    hide Get;
    TotalOfOne(s[k], channel);
    assert [s[k]][..0] == [];
    hide Total;
    assert s == s[..k] + [s[k]] + s[k + 1..];
    TotalOfParts(s[..k], s[k + 1..], channel);
    TotalOfParts(s[..k] + [s[k]], s[k + 1..], channel);
    TotalOfParts(s[..k], [s[k]], channel);
  }

  lemma SameWithout(a: multiset<Color>, b: multiset<Color>, c: Color)
    requires a + multiset{c} == b + multiset{c}
    ensures a == b
  {
    assert a == (a + multiset{c}) - multiset{c} && b == (b + multiset{c}) - multiset{c};
  }

  lemma {:induction false} TotalOfAnyOrder(a: seq<Color>, b: seq<Color>, channel: Channel)
    requires multiset(a) == multiset(b)
    ensures Total(a, channel) == Total(b, channel)
    decreases |a|
  {
    hide Total, Get;
    assert |a| == |multiset(a)| == |multiset(b)| == |b|;
    if a == [] {
      assert a == b;
    } else {
      assert a[0] in multiset(b);
      var k :| 0 <= k < |b| && b[k] == a[0];
      TotalWithout(a, 0, channel);
      TotalWithout(b, k, channel);
      var rest, rest' := a[..0] + a[1..], b[..k] + b[k + 1..];
      SameWithout(multiset(rest), multiset(rest'), a[0]);
      TotalOfAnyOrder(rest, rest', channel);
    }
  }

  lemma RoundsHalfUp(total: nat, n: nat)
    requires n > 0
    ensures var r := RoundedQuotient(total, n); 2 * n * r - n <= 2 * total < 2 * n * r + n
  {
    var r := RoundedQuotient(total, n);
    assert 2 * total + n == (2 * n) * r + (2 * total + n) % (2 * n);
  }

  /** An average is the whole number nearest to the quotient of sum and number of pixels, the upper one
      if two are; so a bucket has just one. */
  lemma AverageRounds(c: Color, bucket: seq<Color>, channel: Channel)
    requires IsAverage(c, bucket)
    ensures var n, sum, v := |bucket|, Total(bucket, channel), Get(c, channel); 2 * n * v - n <= 2 * sum < 2 * n * v + n
  {
    hide Total;
    RoundsHalfUp(Total(bucket, channel), |bucket|);
  }

  /** Colours without order: the average of any reordering is the same. */
  lemma AverageOfAnyOrder(c: Color, a: seq<Color>, b: seq<Color>)
    requires multiset(a) == multiset(b)
    ensures IsAverage(c, a) <==> IsAverage(c, b)
  {
    hide Total, Get;
    assert |a| == |multiset(a)| == |multiset(b)| == |b|;
    TotalOfAnyOrder(a, b, Red);
    TotalOfAnyOrder(a, b, Green);
    TotalOfAnyOrder(a, b, Blue);
  }

  lemma OneMoreTime(k: int, n: nat)
    ensures k * (n + 1) == k * n + k
  {
  }

  lemma TimesMonotone(a: int, b: int, n: nat)
    requires a <= b
    ensures a * n <= b * n
  {
  }

  lemma {:induction false} TotalBounds(s: seq<Color>, channel: Channel, low: int, high: int)
    requires forall c :: c in s ==> low <= Get(c, channel) <= high
    ensures low * |s| <= Total(s, channel) <= high * |s|
  {
    hide Get;
    if s != [] {
      var before, last := s[..|s| - 1], s[|s| - 1];
      TotalBounds(before, channel, low, high);
      assert last in s;
      OneMoreTime(low, |before|);
      OneMoreTime(high, |before|);
    }
  }

  /** The sums stay in 32 bits up to this many pixels, and not always beyond. */
  lemma TotalsFit(bucket: seq<Color>, channel: Channel)
    ensures |bucket| <= 8421504 ==> Total(bucket, channel) < 0x8000_0000
    ensures |bucket| > 8421504 && (forall c :: c in bucket ==> Get(c, channel) == 255) ==> Total(bucket, channel) >= 0x8000_0000
  {
    hide Get, Total;
    TotalBounds(bucket, channel, 0, 255);
    if forall c :: c in bucket ==> Get(c, channel) == 255 {
      TotalBounds(bucket, channel, 255, 255);
    }
  }

  lemma QuotientBetween(t: nat, d: nat, low: nat, high: nat)
    requires d > 0 && low * d <= t < (high + 1) * d
    ensures low <= t / d <= high
  {
    var q := t / d;
    assert q * d <= t < (q + 1) * d by {
      assert t == d * q + t % d;
    }
    if q < low {
      TimesMonotone(q + 1, low, d);
    }
    if high < q {
      TimesMonotone(high + 1, q, d);
    }
  }

  lemma QuotientBounds(total: nat, n: nat, low: nat, high: nat)
    requires n > 0 && low * n <= total <= high * n
    ensures low <= RoundedQuotient(total, n) <= high
  {
    assert low * (2 * n) == 2 * (low * n);
    assert (high + 1) * (2 * n) == 2 * (high * n) + 2 * n;
    QuotientBetween(2 * total + n, 2 * n, low, high);
  }

  /** An average lies in its bucket's box. */
  lemma AverageInBox(bucket: seq<Color>, channel: Channel)
    requires bucket != []
    ensures MinOf(bucket, channel) <= RoundedQuotient(Total(bucket, channel), |bucket|) <= MaxOf(bucket, channel)
  {
    Extremes(bucket, channel);
    TotalBounds(bucket, channel, MinOf(bucket, channel), MaxOf(bucket, channel));
    QuotientBounds(Total(bucket, channel), |bucket|, MinOf(bucket, channel), MaxOf(bucket, channel));
  }

  lemma ColorInBox(c: Color, bucket: seq<Color>, channel: Channel)
    requires IsAverage(c, bucket)
    ensures MinOf(bucket, channel) <= Get(c, channel) <= MaxOf(bucket, channel)
  {
    AverageInBox(bucket, channel);
  }

  // ---- The cut ----

  predicate SortedBy(s: seq<Color>, channel: Channel) {
    forall i, j :: 0 <= i < j < |s| ==> Get(s[i], channel) <= Get(s[j], channel)
  }

  /** How often a list of this many levels is still cut: the depth counts up to a limit that need
      not be whole. */
  function Levels(maxDepth: real, depth: nat): nat {
    var ceiling := if maxDepth.Floor as real == maxDepth then maxDepth.Floor else maxDepth.Floor + 1;
    if ceiling <= depth then 0 else ceiling - depth
  }

  /** The pixels in order along their widest channel. */
  ghost predicate Ordered(pixels: seq<Color>, s: seq<Color>, channel: Channel) {
    multiset(s) == multiset(pixels) && IsWidest(pixels, channel) && SortedBy(s, channel)
  }

  /** The buckets come from cutting ordered lists in the middle. */
  ghost predicate IsMedianCut(pixels: seq<Color>, levels: nat, buckets: seq<seq<Color>>)
    decreases levels
  {
    if pixels == [] then buckets == []
    else if levels == 0 then buckets == [pixels]
    else exists s, channel, k: nat ::
      && k <= |buckets| && Ordered(pixels, s, channel)
      && IsMedianCut(s[..|s| / 2], levels - 1, buckets[..k])
      && IsMedianCut(s[|s| / 2..], levels - 1, buckets[k..])
  }

  function Pow2(n: nat): nat { if n == 0 then 1 else 2 * Pow2(n - 1) }

  function Flatten(buckets: seq<seq<Color>>): seq<Color> {
    if buckets == [] then [] else buckets[0] + Flatten(buckets[1..])
  }

  lemma {:induction false} FlattenSplit(buckets: seq<seq<Color>>, k: nat)
    requires k <= |buckets|
    ensures multiset(Flatten(buckets)) == multiset(Flatten(buckets[..k])) + multiset(Flatten(buckets[k..]))
    decreases k
  {
    if k == 0 {
      assert buckets[..0] == [] && buckets[0..] == buckets;
    } else {
      FlattenSplit(buckets[1..], k - 1);
      assert buckets[..k][1..] == buckets[1..][..k - 1] && buckets[..k][0] == buckets[0];
      assert buckets[1..][k - 1..] == buckets[k..];
    }
  }

  /** Sizes are as even as they can be: the whole divided by the number of parts, rounded down or up. */
  predicate EvenSize(size: nat, n: nat, parts: nat) {
    size > 0 && size * parts < n + parts && n < size * parts + parts
  }

  lemma EvenSizeIs(size: nat, n: nat, parts: nat)
    requires EvenSize(size, n, parts) && parts > 0
    ensures size == n / parts || (size == n / parts + 1 && n % parts > 0)
  {
    var q, r := n / parts, n % parts;
    assert n == q * parts + r;
    assert (size + 1) * parts == size * parts + parts && (size - 1) * parts == size * parts - parts;
    assert (q + 1) * parts == q * parts + parts;
    if size < q {
      TimesMonotone(size + 1, q, parts);
    } else if size > q + 1 {
      TimesMonotone(q + 1, size - 1, parts);
    }
  }

  lemma EvenHalves(size: nat, n: nat, half: nat, parts: nat)
    requires EvenSize(size, half, parts) && (half == n / 2 || half == n - n / 2)
    ensures EvenSize(size, n, 2 * parts)
  {
    assert size * (2 * parts) == 2 * (size * parts);
  }

  /** The parts of both halves are the parts of the whole. */
  lemma HalvesCount(n: nat, half: nat, parts: nat)
    requires half == n / 2
    ensures (if half < parts then half else parts) + (if n - half < parts then n - half else parts)
      == if n < 2 * parts then n else 2 * parts
  {
  }

  lemma EvenBuckets(buckets: seq<seq<Color>>, k: nat, n: nat, parts: nat)
    requires k <= |buckets|
    requires forall i :: 0 <= i < k ==> EvenSize(|buckets[..k][i]|, n / 2, parts)
    requires forall i :: 0 <= i < |buckets| - k ==> EvenSize(|buckets[k..][i]|, n - n / 2, parts)
    ensures forall i :: 0 <= i < |buckets| ==> EvenSize(|buckets[i]|, n, 2 * parts)
  {
    hide EvenSize;
    forall i | 0 <= i < |buckets| ensures EvenSize(|buckets[i]|, n, 2 * parts) {
      if i < k {
        assert buckets[..k][i] == buckets[i];
        EvenHalves(|buckets[i]|, n, n / 2, parts);
      } else {
        assert buckets[k..][i - k] == buckets[i];
        EvenHalves(|buckets[i]|, n, n - n / 2, parts);
      }
    }
  }

  /** As many buckets as there can be, holding the pixels between them, as evenly as can be. */
  ghost predicate Balanced(pixels: seq<Color>, parts: nat, buckets: seq<seq<Color>>) {
    && |buckets| == (if |pixels| < parts then |pixels| else parts)
    && multiset(Flatten(buckets)) == multiset(pixels)
    && forall i :: 0 <= i < |buckets| ==> EvenSize(|buckets[i]|, |pixels|, parts)
  }

  lemma {:induction false} CutInHalves(pixels: seq<Color>, levels: nat, buckets: seq<seq<Color>>) returns (s: seq<Color>, k: nat)
    requires IsMedianCut(pixels, levels, buckets) && pixels != [] && levels > 0
    ensures multiset(s) == multiset(pixels) && k <= |buckets|
    ensures IsMedianCut(s[..|s| / 2], levels - 1, buckets[..k]) && IsMedianCut(s[|s| / 2..], levels - 1, buckets[k..])
  {
    hide IsWidest, SortedBy;
    var channel;
    s, channel, k :|
      && k <= |buckets| && Ordered(pixels, s, channel)
      && IsMedianCut(s[..|s| / 2], levels - 1, buckets[..k])
      && IsMedianCut(s[|s| / 2..], levels - 1, buckets[k..]);
  }

  lemma {:induction false} LeafBalanced(pixels: seq<Color>, levels: nat, buckets: seq<seq<Color>>)
    requires IsMedianCut(pixels, levels, buckets) && (pixels == [] || levels == 0)
    ensures Balanced(pixels, Pow2(levels), buckets)
  {
    Pow2Positive(levels);
    if pixels != [] {
      assert buckets[1..] == [] && Flatten(buckets) == buckets[0] + Flatten([]) == pixels;
      assert Pow2(levels) == 1 && EvenSize(|pixels|, |pixels|, 1);
    }
  }

  /** What every median cut achieves. */
  lemma {:induction false} MedianCutCounts(pixels: seq<Color>, levels: nat, buckets: seq<seq<Color>>)
    requires IsMedianCut(pixels, levels, buckets)
    ensures Balanced(pixels, Pow2(levels), buckets)
    decreases levels
  {
    hide IsMedianCut, EvenSize, Flatten;
    if pixels == [] || levels == 0 {
      LeafBalanced(pixels, levels, buckets);
    } else {
      var s, k := CutInHalves(pixels, levels, buckets);
      MedianCutCounts(s[..|s| / 2], levels - 1, buckets[..k]);
      MedianCutCounts(s[|s| / 2..], levels - 1, buckets[k..]);
      HalvesCombine(pixels, s, k, buckets, Pow2(levels - 1));
    }
  }

  lemma HalvesCombine(pixels: seq<Color>, s: seq<Color>, k: nat, buckets: seq<seq<Color>>, parts: nat)
    requires multiset(s) == multiset(pixels) && k <= |buckets|
    requires k == if |s| / 2 < parts then |s| / 2 else parts
    requires |buckets| - k == if |s| - |s| / 2 < parts then |s| - |s| / 2 else parts
    requires multiset(Flatten(buckets[..k])) == multiset(s[..|s| / 2])
    requires multiset(Flatten(buckets[k..])) == multiset(s[|s| / 2..])
    requires forall i :: 0 <= i < k ==> EvenSize(|buckets[..k][i]|, |s| / 2, parts)
    requires forall i :: 0 <= i < |buckets| - k ==> EvenSize(|buckets[k..][i]|, |s| - |s| / 2, parts)
    ensures |buckets| == if |pixels| < 2 * parts then |pixels| else 2 * parts
    ensures multiset(Flatten(buckets)) == multiset(pixels)
    ensures forall i :: 0 <= i < |buckets| ==> EvenSize(|buckets[i]|, |pixels|, 2 * parts)
  {
    hide EvenSize, Flatten;
    assert |s| == |multiset(s)| == |multiset(pixels)| == |pixels|;
    assert s == s[..|s| / 2] + s[|s| / 2..];
    FlattenSplit(buckets, k);
    EvenBuckets(buckets, k, |s|, parts);
    HalvesCount(|s|, |s| / 2, parts);
  }

  lemma Pow2Positive(n: nat)
    ensures Pow2(n) > 0
  {
  }

  // ---- The operation ----

  lemma OneMoreColor(s: seq<Color>, i: nat, channel: Channel)
    requires i < |s|
    ensures var c, low, high := Get(s[i], channel), MinOf(s[..i], channel), MaxOf(s[..i], channel);
      && MinOf(s[..i + 1], channel) == (if c < low then c else low)
      && MaxOf(s[..i + 1], channel) == (if c > high then c else high)
  {
    assert s[..i + 1][..i] == s[..i];
  }

  method FindBiggestColorRange(rgbValues: seq<Color>) returns (channel: Channel)
    ensures IsWidest(rgbValues, channel)
    ensures rgbValues == [] ==> channel == Red
  {
    if rgbValues == [] {
      return Red;
    }
    var rMin: Level, gMin: Level, bMin: Level, rMax: Level, gMax: Level, bMax: Level := 255, 255, 255, 0, 0, 0;
    for i := 0 to |rgbValues|
      invariant rMin == MinOf(rgbValues[..i], Red) && rMax == MaxOf(rgbValues[..i], Red)
      invariant gMin == MinOf(rgbValues[..i], Green) && gMax == MaxOf(rgbValues[..i], Green)
      invariant bMin == MinOf(rgbValues[..i], Blue) && bMax == MaxOf(rgbValues[..i], Blue)
    {
      hide MinOf, MaxOf;
      var color := rgbValues[i];
      OneMoreColor(rgbValues, i, Red);
      OneMoreColor(rgbValues, i, Green);
      OneMoreColor(rgbValues, i, Blue);
      rMin := if color.red < rMin then color.red else rMin;
      gMin := if color.green < gMin then color.green else gMin;
      bMin := if color.blue < bMin then color.blue else bMin;
      rMax := if color.red > rMax then color.red else rMax;
      gMax := if color.green > gMax then color.green else gMax;
      bMax := if color.blue > bMax then color.blue else bMax;
    }
    assert rgbValues[..|rgbValues|] == rgbValues;

    hide MinOf, MaxOf;
    var rRange, gRange, bRange: int := rMax - rMin, gMax - gMin, bMax - bMin;
    var larger := if gRange > bRange then gRange else bRange;
    var biggestRange := if rRange > larger then rRange else larger;
    if biggestRange == rRange {
      return Red;
    } else if biggestRange == gRange {
      return Green;
    } else {
      return Blue;
    }
  }

  /** Any sort will do: only that the result is ordered and holds the same colours is promised. */
  method SortInPlace(a: array<Color>, channel: Channel)
    modifies a
    ensures multiset(a[..]) == multiset(old(a[..])) && SortedBy(a[..], channel)
  {
    var sorted := Sorted(a[..], channel);
    assert |sorted| == |multiset(sorted)| == |multiset(a[..])| == a.Length;
    forall i | 0 <= i < a.Length {
      a[i] := sorted[i];
    }
    assert a[..] == sorted;
  }

  method Sorted(s: seq<Color>, channel: Channel) returns (sorted: seq<Color>)
    ensures multiset(sorted) == multiset(s) && SortedBy(sorted, channel)
  {
    sorted := [];
    for i := 0 to |s|
      invariant multiset(sorted) == multiset(s[..i]) && SortedBy(sorted, channel)
    {
      hide SortedBy, Get;
      var k := PlaceFor(sorted, s[i], channel);
      InsertedSorted(sorted, k, s[i], channel);
      InsertedMultiset(sorted, k, s[i]);
      assert s[..i + 1] == s[..i] + [s[i]];
      sorted := sorted[..k] + [s[i]] + sorted[k..];
    }
    assert s[..|s|] == s;
  }

  method PlaceFor(sorted: seq<Color>, c: Color, channel: Channel) returns (k: nat)
    ensures k <= |sorted| && (k < |sorted| ==> Get(c, channel) <= Get(sorted[k], channel))
    ensures forall j :: 0 <= j < k ==> Get(sorted[j], channel) <= Get(c, channel)
  {
    k := 0;
    while k < |sorted| && Get(sorted[k], channel) <= Get(c, channel)
      invariant k <= |sorted|
      invariant forall j :: 0 <= j < k ==> Get(sorted[j], channel) <= Get(c, channel)
    {
      k := k + 1;
    }
  }

  lemma InsertedSorted(sorted: seq<Color>, k: nat, c: Color, channel: Channel)
    requires SortedBy(sorted, channel) && k <= |sorted|
    requires forall j :: 0 <= j < k ==> Get(sorted[j], channel) <= Get(c, channel)
    requires k < |sorted| ==> Get(c, channel) <= Get(sorted[k], channel)
    ensures SortedBy(sorted[..k] + [c] + sorted[k..], channel)
  {
    hide Get;
    var s := sorted[..k] + [c] + sorted[k..];
    forall i, j | 0 <= i < j < |s| ensures Get(s[i], channel) <= Get(s[j], channel) {
      InsertedAt(sorted, k, c, i);
      InsertedAt(sorted, k, c, j);
      assert k < j ==> Get(c, channel) <= Get(sorted[k], channel) <= Get(sorted[j - 1], channel);
    }
  }

  lemma InsertedAt(sorted: seq<Color>, k: nat, c: Color, i: nat)
    requires k <= |sorted| && i <= |sorted|
    ensures (sorted[..k] + [c] + sorted[k..])[i] == if i < k then sorted[i] else if i == k then c else sorted[i - 1]
  {
  }

  lemma InsertedMultiset(sorted: seq<Color>, k: nat, c: Color)
    requires k <= |sorted|
    ensures multiset(sorted[..k] + [c] + sorted[k..]) == multiset(sorted) + multiset{c}
  {
    assert sorted == sorted[..k] + sorted[k..];
  }

  lemma OneLevel(maxDepth: real, depth: nat)
    ensures depth as real >= maxDepth <==> Levels(maxDepth, depth) == 0
    ensures (depth as real) < maxDepth ==> Levels(maxDepth, depth + 1) == Levels(maxDepth, depth) - 1
  {
  }

  lemma LeafCut(pixels: seq<Color>, levels: nat)
    requires pixels == [] || levels == 0
    ensures IsMedianCut(pixels, levels, if pixels == [] then [] else [pixels])
  {
  }

  lemma HalvesCut(
    pixels: seq<Color>, s: seq<Color>, channel: Channel, levels: nat, left: seq<seq<Color>>, right: seq<seq<Color>>)
    requires pixels != [] && levels > 0 && Ordered(pixels, s, channel)
    requires IsMedianCut(s[..|s| / 2], levels - 1, left) && IsMedianCut(s[|s| / 2..], levels - 1, right)
    ensures IsMedianCut(pixels, levels, left + right)
  {
    hide Ordered;
    assert (left + right)[..|left|] == left && (left + right)[|left|..] == right;
  }

  /** The colours of a list's buckets; `buckets` records the pixels behind each colour. */
  method Quantization(rgbValues: array<Color>, maxDepth: real, depth: nat)
    returns (result: seq<Color>, ghost buckets: seq<seq<Color>>)
    modifies rgbValues
    ensures IsMedianCut(old(rgbValues[..]), Levels(maxDepth, depth), buckets)
    ensures Balanced(old(rgbValues[..]), Pow2(Levels(maxDepth, depth)), buckets)
    ensures if Levels(maxDepth, depth) == 0 || rgbValues.Length == 0 then rgbValues[..] == old(rgbValues[..])
      else exists channel :: Ordered(old(rgbValues[..]), rgbValues[..], channel)
    ensures |result| == |buckets| && forall i :: 0 <= i < |result| ==> IsAverage(result[i], buckets[i])
    decreases Levels(maxDepth, depth)
  {
    hide IsAverage, SortedBy, IsWidest, IsMedianCut, Levels, Balanced, Pow2;
    ghost var pixels := rgbValues[..];
    OneLevel(maxDepth, depth);
    if depth as real >= maxDepth || rgbValues.Length == 0 {
      LeafCut(pixels, Levels(maxDepth, depth));
      MedianCutCounts(pixels, Levels(maxDepth, depth), if pixels == [] then [] else [pixels]);
      if rgbValues.Length == 0 {
        return [], [];
      }
      var color := Average(rgbValues[..]);
      return [color], [pixels];
    }

    var dominantChannel := FindBiggestColorRange(rgbValues[..]);
    SortInPlace(rgbValues, dominantChannel);
    ghost var s := rgbValues[..];

    var mid := rgbValues.Length / 2;
    var leftHalf := new Color[mid](i requires 0 <= i < mid reads rgbValues => rgbValues[i]);
    var rightHalf := new Color[rgbValues.Length - mid]
      (i requires 0 <= i < rgbValues.Length - mid reads rgbValues => rgbValues[mid + i]);
    assert leftHalf[..] == s[..mid] && rightHalf[..] == s[mid..];

    var left, leftBuckets := Quantization(leftHalf, maxDepth, depth + 1);
    var right, rightBuckets := Quantization(rightHalf, maxDepth, depth + 1);
    result, buckets := left + right, leftBuckets + rightBuckets;
    HalvesCut(pixels, s, dominantChannel, Levels(maxDepth, depth), leftBuckets, rightBuckets);
    MedianCutCounts(pixels, Levels(maxDepth, depth), buckets);
    assert rgbValues[..] == s && Ordered(pixels, s, dominantChannel);
  }

  method Average(rgbValues: seq<Color>) returns (color: Color)
    requires rgbValues != []
    ensures IsAverage(color, rgbValues)
  {
    var totalR, totalG, totalB := 0, 0, 0;
    for i := 0 to |rgbValues|
      invariant totalR == Total(rgbValues[..i], Red)
      invariant totalG == Total(rgbValues[..i], Green)
      invariant totalB == Total(rgbValues[..i], Blue)
    {
      assert rgbValues[..i + 1][..i] == rgbValues[..i];
      totalR := totalR + rgbValues[i].red;
      totalG := totalG + rgbValues[i].green;
      totalB := totalB + rgbValues[i].blue;
    }
    assert rgbValues[..|rgbValues|] == rgbValues;
    AverageInBox(rgbValues, Red);
    AverageInBox(rgbValues, Green);
    AverageInBox(rgbValues, Blue);
    color := Color(
      RoundedQuotient(totalR, |rgbValues|), RoundedQuotient(totalG, |rgbValues|), RoundedQuotient(totalB, |rgbValues|));
  }
}
