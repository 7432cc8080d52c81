/** A vector in segments: growing it never moves an element. */
module SegmentedVectors {

  class Segment<T> {
    var items: seq<T>

    constructor (items: seq<T>)
      ensures this.items == items
    {
      this.items := items;
    }

    method Resize(size: nat, filler: T)
      modifies this
      ensures items == Resized(old(items), size, filler)
    {
      items := if size <= |items| then items[..size] else items + seq(size - |items|, _ => filler);
    }
  }

  function Resized<T>(s: seq<T>, size: nat, filler: T): (r: seq<T>)
    ensures |r| == size
    ensures forall k | 0 <= k < size :: r[k] == if k < |s| then s[k] else filler
  {
    seq(size, k => if 0 <= k < |s| then s[k] else filler)
  }

  function Min(a: int, b: int): int { if a < b then a else b }

  // -------------------------------------------------------------- positions

  /** Where the k-th segment starts. */
  function Start(k: nat, segmentSize: nat): nat {
    k * segmentSize
  }

  lemma StartNext(k: nat, segmentSize: nat)
    ensures Start(k + 1, segmentSize) == Start(k, segmentSize) + segmentSize
    ensures Start(0, segmentSize) == 0
  {
  }

  lemma {:induction false} StartMonotone(a: nat, b: nat, segmentSize: nat)
    requires a <= b
    ensures Start(a, segmentSize) <= Start(b, segmentSize)
    ensures a < b ==> Start(a, segmentSize) + segmentSize <= Start(b, segmentSize)
    decreases b - a
  {
    hide Start;
    if a < b {
      StartNext(a, segmentSize);
      StartMonotone(a + 1, b, segmentSize);
    }
  }

  lemma Quotient(n: nat, q: nat, r: nat, d: nat)
    requires d > 0 && n == Start(q, d) + r && r < d
    ensures n / d == q && n % d == r
  {
    var e := n / d - q;
    assert e * d == r - n % d;
    assert e > 0 ==> e * d >= d;
    assert e < 0 ==> e * d <= 0 - d;
  }

  lemma Divided(n: nat, d: nat)
    requires d > 0
    ensures n == Start(n / d, d) + n % d && 0 <= n % d < d
  {
  }

  // ----------------------------------------------------------------- layout

  /** The elements of the k-th segment. */
  function Chunk<T>(s: seq<T>, k: nat, segmentSize: nat): seq<T>
    requires Start(k, segmentSize) <= |s|
  {
    s[Start(k, segmentSize)..Min(Start(k, segmentSize) + segmentSize, |s|)]
  }

  ghost predicate IsPart<T>(items: seq<T>, s: seq<T>, k: nat, segmentSize: nat) {
    Start(k, segmentSize) <= |s| && items == Chunk(s, k, segmentSize)
  }

  /** As many segments as the elements need, and at least one. */
  predicate Count(count: nat, size: nat, segmentSize: nat) {
    count >= 1 && size <= Start(count - 1, segmentSize) + segmentSize && (count > 1 ==> Start(count - 1, segmentSize) < size)
  }

  lemma CountIsCeiling(count: nat, size: nat, segmentSize: nat)
    requires segmentSize > 0
    ensures Count(count, size, segmentSize) <==>
      count == if size == 0 then 1 else size / segmentSize + if size % segmentSize == 0 then 0 else 1
  {
    var q := size / segmentSize;
    Divided(size, segmentSize);
    hide Start;
    StartNext(q, segmentSize);
    if q > 0 { StartNext(q - 1, segmentSize); }
    if count > 0 {
      if count - 1 < q { StartMonotone(count - 1, q, segmentSize); }
      if count - 1 > q { StartMonotone(q, count - 1, segmentSize); }
      if count < q { StartMonotone(count, q, segmentSize); StartNext(count - 1, segmentSize); }
    }
    if q > 1 { StartMonotone(1, q, segmentSize); StartMonotone(0, 1, segmentSize); }
  }

  /** The last segment is full. */
  predicate Full(count: nat, size: nat, segmentSize: nat) {
    size == Start(count, segmentSize)
  }

  /** The last segment is full exactly at a multiple of the segment size. */
  lemma FullIff(count: nat, size: nat, segmentSize: nat)
    requires segmentSize > 0 && Count(count, size, segmentSize)
    ensures size % segmentSize == 0 && size > 0 <==> Full(count, size, segmentSize)
  {
    hide Start;
    StartNext(count - 1, segmentSize);
    if size == Start(count, segmentSize) {
      Quotient(size, count, 0, segmentSize);
    } else {
      Quotient(size, count - 1, size - Start(count - 1, segmentSize), segmentSize);
    }
    if count == 1 { StartNext(0, segmentSize); }
  }

  /** The segments hold `s`, part by part. */
  ghost predicate Layout<T>(parts: seq<seq<T>>, s: seq<T>, segmentSize: nat) {
    && segmentSize > 0 && Count(|parts|, |s|, segmentSize)
    && forall k | 0 <= k < |parts| :: IsPart(parts[k], s, k, segmentSize)
  }

  lemma LayoutHas<T>(parts: seq<seq<T>>, s: seq<T>, segmentSize: nat)
    requires Layout(parts, s, segmentSize)
    ensures segmentSize > 0 && parts != [] && Count(|parts|, |s|, segmentSize)
  {
  }

  /** Two vectors that begin alike have the same whole chunks there. */
  lemma SameBefore<T>(items: seq<T>, s: seq<T>, t: seq<T>, k: nat, n: nat, segmentSize: nat)
    requires IsPart(items, s, k, segmentSize) && k < n && Start(n, segmentSize) <= |s| && Start(n, segmentSize) <= |t|
    requires forall i | 0 <= i < Start(n, segmentSize) :: s[i] == t[i]
    ensures IsPart(items, t, k, segmentSize)
  {
    hide Start;
    StartMonotone(k, n, segmentSize);
    var lo, hi := Start(k, segmentSize), Start(k, segmentSize) + segmentSize;
    assert s[lo..hi] == t[lo..hi];
  }

  lemma PartsBefore<T>(parts: seq<seq<T>>, s: seq<T>, t: seq<T>, n: nat, segmentSize: nat)
    requires n <= |parts| && Start(n, segmentSize) <= |s| && Start(n, segmentSize) <= |t|
    requires forall k | 0 <= k < |parts| :: IsPart(parts[k], s, k, segmentSize)
    requires forall i | 0 <= i < Start(n, segmentSize) :: s[i] == t[i]
    ensures forall k | 0 <= k < n :: IsPart(parts[k], t, k, segmentSize)
  {
    hide Start, IsPart;
    forall k | 0 <= k < n ensures IsPart(parts[k], t, k, segmentSize) {
      SameBefore(parts[k], s, t, k, n, segmentSize);
    }
  }

  /** The last part reaches to the end. */
  lemma LastPart<T>(parts: seq<seq<T>>, s: seq<T>, segmentSize: nat)
    requires Layout(parts, s, segmentSize)
    ensures var n := |parts| - 1;
      && n >= 0 && Start(n, segmentSize) <= |s| <= Start(n, segmentSize) + segmentSize
      && parts[n] == s[Start(n, segmentSize)..]
      && (n > 0 ==> Start(n, segmentSize) < |s|)
  {
    hide Start;
    assert IsPart(parts[|parts| - 1], s, |parts| - 1, segmentSize);
  }

  lemma LastElement<T>(parts: seq<seq<T>>, s: seq<T>, segmentSize: nat)
    requires Layout(parts, s, segmentSize) && |s| > 0
    ensures parts != [] && var last := parts[|parts| - 1]; last != [] && last[|last| - 1] == s[|s| - 1]
  {
    hide Start, Layout;
    LastPart(parts, s, segmentSize);
    StartNext(|parts| - 1, segmentSize);
  }

  /** Where an element is kept. */
  lemma ElementAt<T>(parts: seq<seq<T>>, s: seq<T>, index: nat, segmentSize: nat)
    requires Layout(parts, s, segmentSize) && index < |s|
    ensures segmentSize > 0
    ensures var k, j := index / segmentSize, index % segmentSize;
      k < |parts| && j < |parts[k]| && parts[k][j] == s[index]
    ensures index < segmentSize ==> index / segmentSize == 0 && index % segmentSize == index
  {
    var k, j := index / segmentSize, index % segmentSize;
    Divided(index, segmentSize);
    hide Start;
    if k >= |parts| { StartMonotone(|parts|, k, segmentSize); StartNext(|parts| - 1, segmentSize); }
    assert IsPart(parts[k], s, k, segmentSize);
    if index < segmentSize { StartNext(0, segmentSize); Quotient(index, 0, index, segmentSize); }
  }

  // ---------------------------------------------------------------- changes

  function Appended<T>(parts: seq<seq<T>>, full: bool, value: T): seq<seq<T>>
    requires parts != []
  {
    if full then parts + [[value]] else parts[|parts| - 1 := parts[|parts| - 1] + [value]]
  }

  lemma AppendLayout<T>(parts: seq<seq<T>>, s: seq<T>, value: T, segmentSize: nat)
    requires Layout(parts, s, segmentSize)
    ensures parts != []
    ensures Layout(Appended(parts, Full(|parts|, |s|, segmentSize), value), s + [value], segmentSize)
  {
    hide Start;
    LastPart(parts, s, segmentSize);
    var n, full := |parts| - 1, Full(|parts|, |s|, segmentSize);
    StartNext(n, segmentSize);
    StartNext(n + 1, segmentSize);
    PartsBefore(parts, s, s + [value], if full then n + 1 else n, segmentSize);
  }

  /** The segment emptied by a removal is dropped, unless it is the only one. */
  lemma RemoveLayout<T>(parts: seq<seq<T>>, s: seq<T>, segmentSize: nat)
    requires Layout(parts, s, segmentSize) && |s| > 0
    ensures parts != [] && parts[|parts| - 1] != []
    ensures var n, last := |parts| - 1, parts[|parts| - 1];
      var cut, t := parts[n := last[..|last| - 1]], s[..|s| - 1];
      Layout(if |t| % segmentSize == 0 && |t| >= segmentSize then cut[..n] else cut, t, segmentSize)
  {
    hide Start;
    LastPart(parts, s, segmentSize);
    StartNext(0, segmentSize);
    var n, last := |parts| - 1, parts[|parts| - 1];
    var cut, t := parts[n := last[..|last| - 1]], s[..|s| - 1];
    StartNext(n, segmentSize);
    Emptied(n, |t|, segmentSize);
    PartsBefore(parts, s, t, n, segmentSize);
    if n > 0 { StartNext(n - 1, segmentSize); }
  }

  lemma Emptied(n: nat, size: nat, segmentSize: nat)
    requires segmentSize > 0 && Start(n, segmentSize) <= size < Start(n, segmentSize) + segmentSize
    ensures size % segmentSize == 0 && size >= segmentSize <==> size == Start(n, segmentSize) && n > 0
  {
    Quotient(size, n, size - Start(n, segmentSize), segmentSize);
    hide Start;
    StartNext(0, segmentSize);
    if n > 0 { StartMonotone(0, n, segmentSize); }
  }

  /** `numSegments` and `extra` as shrink and grow reckon them. */
  predicate Reckoned(size: nat, numSegments: nat, extra: nat, segmentSize: nat)
    requires segmentSize > 0
  {
    extra == size % segmentSize && numSegments == size / segmentSize + if extra > 0 then 1 else 0
  }

  lemma SegmentsNeeded(size: nat, numSegments: nat, extra: nat, segmentSize: nat)
    requires segmentSize > 0 && Reckoned(size, numSegments, extra, segmentSize)
    ensures extra < segmentSize && (numSegments == 0 <==> size == 0)
    ensures size > 0 ==> Count(numSegments, size, segmentSize)
    ensures size > 0 ==> size == Start(numSegments - 1, segmentSize) + if extra > 0 then extra else segmentSize
  {
    Divided(size, segmentSize);
    hide Start;
    var q := size / segmentSize;
    StartNext(q, segmentSize);
    if q > 0 { StartNext(q - 1, segmentSize); }
  }

  lemma CountMonotone(count: nat, size: nat, count': nat, size': nat, segmentSize: nat)
    requires segmentSize > 0 && Count(count, size, segmentSize) && Count(count', size', segmentSize) && size' <= size
    ensures count' <= count
  {
    hide Start;
    if count' > count { StartMonotone(count - 1, count' - 1, segmentSize); }
  }

  function Shrunk<T>(parts: seq<seq<T>>, numSegments: nat, extra: nat, filler: T): seq<seq<T>>
    requires 0 < numSegments <= |parts|
  {
    var kept := parts[..numSegments];
    if extra > 0 then kept[numSegments - 1 := Resized(kept[numSegments - 1], extra, filler)] else kept
  }

  lemma ShrinkLayout<T>(parts: seq<seq<T>>, s: seq<T>, newSize: nat, numSegments: nat, extra: nat, segmentSize: nat, filler: T)
    requires Layout(parts, s, segmentSize) && 0 < newSize <= |s| && Reckoned(newSize, numSegments, extra, segmentSize)
    ensures 0 < numSegments <= |parts|
    ensures Layout(Shrunk(parts, numSegments, extra, filler), s[..newSize], segmentSize)
  {
    hide Start, Reckoned, Resized;
    SegmentsNeeded(newSize, numSegments, extra, segmentSize);
    CountMonotone(|parts|, |s|, numSegments, newSize, segmentSize);
    var n := numSegments - 1;
    PartsBefore(parts, s, s[..newSize], n, segmentSize);
    assert IsPart(parts[n], s, n, segmentSize);
    PartCut(parts[n], s, newSize, n, extra, segmentSize, filler);
  }

  lemma PartCut<T>(items: seq<T>, s: seq<T>, newSize: nat, n: nat, extra: nat, segmentSize: nat, filler: T)
    requires IsPart(items, s, n, segmentSize) && newSize <= |s| && extra < segmentSize
    requires newSize == Start(n, segmentSize) + if extra > 0 then extra else segmentSize
    ensures IsPart(if extra > 0 then Resized(items, extra, filler) else items, s[..newSize], n, segmentSize)
  {
    hide Start, Resized;
    var lo := Start(n, segmentSize);
    assert Chunk(s[..newSize], n, segmentSize) == s[lo..newSize];
    if extra > 0 {
      assert forall k | 0 <= k < extra :: Resized(items, extra, filler)[k] == items[k] == s[lo + k] == s[lo..newSize][k];
      assert Resized(items, extra, filler) == s[lo..newSize];
    }
  }

  /** Resizing the last segment within its capacity. */
  lemma GrowLastLayout<T>(parts: seq<seq<T>>, s: seq<T>, newSize: nat, length: nat, segmentSize: nat, filler: T)
    requires Layout(parts, s, segmentSize) && newSize >= |s| && length <= segmentSize
    requires parts != [] && newSize == Start(|parts| - 1, segmentSize) + length
    ensures Layout(parts[|parts| - 1 := Resized(parts[|parts| - 1], length, filler)], Resized(s, newSize, filler), segmentSize)
  {
    hide Start;
    LastPart(parts, s, segmentSize);
    var n, t := |parts| - 1, Resized(s, newSize, filler);
    PartsBefore(parts, s, t, n, segmentSize);
    PartGrown(parts[n], s, newSize, n, length, segmentSize, filler);
  }

  lemma PartGrown<T>(items: seq<T>, s: seq<T>, newSize: nat, n: nat, length: nat, segmentSize: nat, filler: T)
    requires Start(n, segmentSize) <= |s| <= newSize == Start(n, segmentSize) + length && length <= segmentSize
    requires items == s[Start(n, segmentSize)..]
    ensures IsPart(Resized(items, length, filler), Resized(s, newSize, filler), n, segmentSize)
  {
    hide Start, Resized;
    var lo, t := Start(n, segmentSize), Resized(s, newSize, filler);
    assert Chunk(t, n, segmentSize) == t[lo..newSize];
    assert forall k | 0 <= k < length :: Resized(items, length, filler)[k] == t[lo + k] == t[lo..newSize][k];
    assert Resized(items, length, filler) == t[lo..newSize];
  }

  /** Adding a segment, the others being full. */
  lemma AddLayout<T>(parts: seq<seq<T>>, s: seq<T>, length: nat, segmentSize: nat, filler: T)
    requires Layout(parts, s, segmentSize) && Full(|parts|, |s|, segmentSize) && 0 < length <= segmentSize
    ensures Layout(parts + [Resized([], length, filler)], Resized(s, |s| + length, filler), segmentSize)
    ensures length == segmentSize ==> Full(|parts| + 1, |s| + length, segmentSize)
  {
    hide Start;
    var n, t := |parts|, Resized(s, |s| + length, filler);
    PartsBefore(parts, s, t, n, segmentSize);
    StartNext(n, segmentSize);
    PartGrown([], s, |s| + length, n, length, segmentSize, filler);
  }

  predicate EmptiesLast(newSize: nat, segmentCount: nat, segmentSize: nat)
    requires segmentSize > 0
  {
    newSize > segmentSize && newSize % segmentSize == 0 && newSize / segmentSize == segmentCount
  }

  /** A vector of one segment, as every new one is, always grows soundly. */
  lemma OneSegmentGrows(newSize: nat, segmentSize: nat)
    requires segmentSize > 0
    ensures !EmptiesLast(newSize, 1, segmentSize)
  {
    Divided(newSize, segmentSize);
    StartNext(0, segmentSize);
  }

  lemma EmptiesIff(newSize: nat, count: nat, numSegments: nat, extra: nat, segmentSize: nat)
    requires segmentSize > 0
    ensures newSize <= segmentSize ==> !EmptiesLast(newSize, count, segmentSize)
    ensures newSize > segmentSize && Reckoned(newSize, numSegments, extra, segmentSize) ==>
      (EmptiesLast(newSize, count, segmentSize) <==> extra == 0 && numSegments == count)
  {
  }

  lemma ResizedTwice<T>(s: seq<T>, n: nat, m: nat, filler: T)
    requires |s| <= n <= m
    ensures Resized(Resized(s, n, filler), m, filler) == Resized(s, m, filler)
  {
  }

  lemma CutIsResized<T>(s: seq<T>, n: nat, filler: T)
    requires n <= |s|
    ensures Resized(s, n, filler) == s[..n]
  {
  }

  lemma ResizedToNothing<T>(s: seq<T>, filler: T)
    ensures Resized(s, 0, filler) == []
  {
  }

  /** A single segment suffices for fewer elements than one holds. */
  lemma OneSegment(count: nat, size: nat, newSize: nat, segmentSize: nat)
    requires segmentSize > 0 && Count(count, size, segmentSize) && size < newSize <= segmentSize
    ensures count == 1 && newSize == Start(0, segmentSize) + newSize
  {
    hide Start;
    StartNext(0, segmentSize);
    if count > 1 { StartMonotone(1, count - 1, segmentSize); }
  }

  // ----------------------------------------------------------------- vector

  class SegmentedVector<T> {
    const segmentSize: nat
    const filler: T                     // what resize makes new elements
    var size: nat
    var segments: seq<Segment<T>>       // the first is the inline segment
    ghost var contents: seq<T>

    ghost predicate Distinct()
      reads this`segments
    {
      forall j, k | 0 <= j < k < |segments| :: segments[j] != segments[k]
    }

    /** What the segments hold. */
    ghost function Items(): (parts: seq<seq<T>>)
      reads this, segments
      ensures |parts| == |segments| && forall k :: 0 <= k < |parts| ==> parts[k] == segments[k].items
    {
      seq(|segments|, k requires 0 <= k < |segments| reads this, segments => segments[k].items)
    }

    ghost predicate Valid()
      reads this, segments
    {
      |contents| == size && Distinct() && Layout(Items(), contents, segmentSize)
    }

    lemma CountedSegments()
      requires Valid()
      ensures segmentSize > 0 && Count(|segments|, size, segmentSize) && segments != [] && |contents| == size
    {
    }

    constructor (segmentSize: nat, filler: T)
      requires segmentSize > 0
      ensures Valid() && contents == [] && this.segmentSize == segmentSize && this.filler == filler && fresh(segments)
    {
      this.segmentSize, this.filler, size, contents := segmentSize, filler, 0, [];
      var inline := new Segment<T>([]);
      segments := [inline];
      new;
      StartNext(0, segmentSize);
    }

    method Last() returns (value: T)
      requires Valid() && size > 0
      ensures value == contents[size - 1]
    {
      hide Layout;
      LastElement(Items(), contents, segmentSize);
      var last := segments[|segments| - 1].items;
      value := last[|last| - 1];
    }

    method Append(value: T)
      requires Valid()
      modifies this, segments
      ensures Valid() && contents == old(contents) + [value]
      ensures |segments| >= |old(segments)| && segments[..|old(segments)|] == old(segments)
      ensures forall k | |old(segments)| <= k < |segments| :: fresh(segments[k])
    {
      hide Layout, Full, Count, SegmentedVector.Items;
      CountedSegments();
      ghost var parts := Items();
      FullIff(|segments|, size, segmentSize);
      AppendLayout(parts, contents, value, segmentSize);
      if size % segmentSize == 0 && size != 0 {
        var segment := new Segment<T>([]);
        segments := segments + [segment];
      }
      var last := segments[|segments| - 1];
      last.items := last.items + [value];
      size := size + 1;
      contents := contents + [value];
      assert [] + [value] == [value];
      assert Items() == Appended(parts, Full(|parts|, size - 1, segmentSize), value);
    }

    method RemoveLast()
      requires Valid() && size > 0
      modifies this, segments
      ensures Valid() && contents == old(contents)[..old(size) - 1]
      ensures segments <= old(segments)
    {
      hide Layout, SegmentedVector.Items;
      ghost var parts := Items();
      CountedSegments();
      RemoveLayout(parts, contents, segmentSize);
      var last := segments[|segments| - 1];
      last.items := last.items[..|last.items| - 1];
      size := size - 1;
      contents := contents[..size];
      ghost var cut := Items();
      assert cut == parts[|parts| - 1 := last.items];
      if size % segmentSize == 0 && size >= segmentSize {
        segments := segments[..|segments| - 1];
        assert Items() == cut[..|cut| - 1];
      }
    }

    method At(index: nat) returns (value: T)
      requires Valid() && index < size
      ensures value == contents[index]
    {
      hide Layout;
      ElementAt(Items(), contents, index, segmentSize);
      if index < segmentSize {
        value := segments[0].items[index];
      } else {
        value := segments[index / segmentSize].items[index % segmentSize];
      }
    }

    /** Drops elements.  To nothing, it forgets to record the size. */
    method Shrink(newSize: nat)
      requires Valid() && newSize < size
      modifies this, segments
      ensures segments <= old(segments)
      ensures newSize > 0 ==> Valid() && contents == old(contents)[..newSize]
      ensures newSize == 0 ==> size == old(size) && |segments| == 1 && segments[0].items == []
    {
      hide Layout, Count, Resized, Reckoned, SegmentedVector.Items;
      CountedSegments();
      ghost var parts := Items();
      var numSegments, extra := newSize / segmentSize, newSize % segmentSize;
      if extra > 0 {
        numSegments := numSegments + 1;
      }
      Reckon(newSize, numSegments, extra, segmentSize);
      SegmentsNeeded(newSize, numSegments, extra, segmentSize);
      if numSegments == 0 {
        segments := segments[..1];
        segments[0].Resize(0, filler);
        return;
      }
      ShrinkLayout(parts, contents, newSize, numSegments, extra, segmentSize, filler);
      segments := segments[..numSegments];
      if extra > 0 {
        segments[|segments| - 1].Resize(extra, filler);
      }
      size := newSize;
      contents := contents[..newSize];
      assert Items() == Shrunk(parts, numSegments, extra, filler);
    }

    /** Resizes the last segment, within its capacity. */
    method GrowLast(newSize: nat, length: nat)
      requires Valid() && segments != [] && length <= segmentSize && size <= newSize == Start(|segments| - 1, segmentSize) + length
      modifies this`size, this`contents, segments
      ensures Valid() && size == newSize && contents == Resized(old(contents), newSize, filler)
    {
      hide Layout, Resized, Start, SegmentedVector.Items;
      ghost var parts := Items();
      GrowLastLayout(parts, contents, newSize, length, segmentSize, filler);
      segments[|segments| - 1].Resize(length, filler);
      size := newSize;
      contents := Resized(contents, newSize, filler);
      assert Items() == parts[|parts| - 1 := Resized(parts[|parts| - 1], length, filler)];
    }

    /** Adds a segment, the others being full. */
    method AddSegment(length: nat)
      requires Valid() && Full(|segments|, size, segmentSize) && 0 < length <= segmentSize
      modifies this`size, this`contents, this`segments
      ensures Valid() && size == old(size) + length && contents == Resized(old(contents), size, filler)
      ensures length == segmentSize ==> Full(|segments|, size, segmentSize)
      ensures |segments| == |old(segments)| + 1 && old(segments) <= segments && fresh(segments[|old(segments)|])
    {
      hide Layout, Resized, Full, SegmentedVector.Items;
      ghost var parts := Items();
      AddLayout(parts, contents, length, segmentSize, filler);
      var segment := new Segment<T>([]);
      segment.Resize(length, filler);
      segments := segments + [segment];
      size := size + length;
      contents := Resized(contents, size, filler);
      assert Items() == parts + [Resized([], length, filler)];
    }

    /** Adds elements.  To a multiple of the segment size that needs no further segment, it
        empties the last segment instead. */
    method Grow(newSize: nat)
      requires Valid() && newSize > size
      modifies this, segments
      ensures old(segments) <= segments && forall k | |old(segments)| <= k < |segments| :: fresh(segments[k])
      ensures size == newSize
      ensures !EmptiesLast(newSize, |old(segments)|, segmentSize) ==> Valid() && contents == Resized(old(contents), newSize, filler)
      ensures EmptiesLast(newSize, |old(segments)|, segmentSize) ==> segments == old(segments) && segments[|segments| - 1].items == []
    {
      hide Layout, Count, Resized, Reckoned, Start, EmptiesLast, SegmentedVector.Valid;
      CountedSegments();
      if newSize <= segmentSize {
        OneSegment(|segments|, size, newSize, segmentSize);
        EmptiesIff(newSize, |segments|, 0, 0, segmentSize);
        GrowLast(newSize, newSize);
        return;
      }
      var numSegments, extra := newSize / segmentSize, newSize % segmentSize;
      if extra > 0 {
        numSegments := numSegments + 1;
      }
      Reckon(newSize, numSegments, extra, segmentSize);
      SegmentsNeeded(newSize, numSegments, extra, segmentSize);
      CountMonotone(numSegments, newSize, |segments|, size, segmentSize);
      EmptiesIff(newSize, |segments|, numSegments, extra, segmentSize);
      if numSegments == |segments| {
        GrowWithin(newSize, extra);
        return;
      }
      GrowThrough(newSize, numSegments, if extra > 0 then extra else segmentSize);
    }

    /** Grows within the segments there are: `extra` is the new length of the last. */
    method GrowWithin(newSize: nat, extra: nat)
      requires Valid() && newSize > size && extra < segmentSize && segments != []
      requires extra > 0 ==> newSize == Start(|segments| - 1, segmentSize) + extra
      modifies this`size, this`contents, segments
      ensures size == newSize
      ensures extra > 0 ==> Valid() && contents == Resized(old(contents), newSize, filler)
      ensures extra == 0 ==> segments[|segments| - 1].items == []
    {
      hide SegmentedVector.Valid, Resized, Start;
      if extra > 0 {
        GrowLast(newSize, extra);
      } else {
        ResizedToNothing(segments[|segments| - 1].items, filler);
        segments[|segments| - 1].Resize(extra, filler);
        size := newSize;
      }
    }

    /** Fills the last segment, then adds full ones and a last of the given length. */
    method GrowThrough(newSize: nat, numSegments: nat, length: nat)
      requires Valid() && 0 < |segments| < numSegments && 0 < length <= segmentSize
      requires newSize == Start(numSegments - 1, segmentSize) + length
      modifies this`segments, this`size, this`contents, segments
      ensures Valid() && size == newSize && contents == Resized(old(contents), newSize, filler)
      ensures old(segments) <= segments && forall k | |old(segments)| <= k < |segments| :: fresh(segments[k])
    {
      hide Layout, Count, Resized, Full, Start, SegmentedVector.Valid;
      CountedSegments();
      Reaches(|segments|, size, segmentSize);
      GrowLast(Start(|segments|, segmentSize), segmentSize);
      FullAt(|segments|, segmentSize);
      while |segments| < numSegments - 1
        invariant Valid() && |old(segments)| <= |segments| < numSegments && Full(|segments|, size, segmentSize)
        invariant |contents| == size && |old(contents)| <= size && contents == Resized(old(contents), size, filler)
        invariant old(segments) <= segments && forall k | |old(segments)| <= k < |segments| :: fresh(segments[k])
        decreases numSegments - |segments|
      {
        ghost var was := size;
        AddSegment(segmentSize);
        ResizedTwice(old(contents), was, size, filler);
      }
      ghost var was := size;
      FullSize(|segments|, size, segmentSize);
      AddSegment(length);
      ResizedTwice(old(contents), was, size, filler);
    }

    /** Resizes; sound exactly in all cases but two. */
    method Resize(newSize: nat)
      requires Valid()
      modifies this, segments
      ensures Valid() <==> !(newSize == 0 && old(size) > 0) && !(newSize > old(size) && EmptiesLast(newSize, |old(segments)|, segmentSize))
      ensures Valid() ==> contents == Resized(old(contents), newSize, filler)
      ensures segments <= old(segments) || old(segments) <= segments
      ensures newSize > old(size) && EmptiesLast(newSize, |old(segments)|, segmentSize) ==>
        size == newSize && segments == old(segments) && segments[|segments| - 1].items == []
    {
      hide Layout, EmptiesLast, Resized;
      CountedSegments();
      if newSize < size {
        Shrink(newSize);
        CutIsResized(old(contents), newSize, filler);
      } else if newSize > size {
        Grow(newSize);
      } else {
        CutIsResized(old(contents), newSize, filler);
      }
      if size > 0 && segments != [] && segments[|segments| - 1].items == [] { NotEmptied(); }
    }

    lemma NotEmptied()
      requires segments != [] && segments[|segments| - 1].items == [] && size > 0
      ensures !Valid()
    {
      hide Layout;
      if Valid() { LastElement(Items(), contents, segmentSize); }
    }
  }

  lemma Reckon(size: nat, numSegments: nat, extra: nat, segmentSize: nat)
    requires segmentSize > 0 && extra == size % segmentSize && numSegments == size / segmentSize + if extra > 0 then 1 else 0
    ensures Reckoned(size, numSegments, extra, segmentSize)
  {
  }

  lemma Reaches(count: nat, size: nat, segmentSize: nat)
    requires Count(count, size, segmentSize)
    ensures count >= 1 && size <= Start(count, segmentSize) == Start(count - 1, segmentSize) + segmentSize
  {
    hide Start;
    StartNext(count - 1, segmentSize);
  }

  lemma FullAt(count: nat, segmentSize: nat)
    ensures Full(count, Start(count, segmentSize), segmentSize)
  {
  }

  lemma FullSize(count: nat, size: nat, segmentSize: nat)
    requires Full(count, size, segmentSize)
    ensures size == Start(count, segmentSize)
  {
  }

  /** A vector of five, in segments of four, resized to eight: there is a second segment
      already, and it is emptied. */
  method EmptiedByResize() returns (v: SegmentedVector<int>)
    ensures fresh(v) && v.size == 8 && |v.segments| == 2 && v.segments[1].items == [] && !v.Valid()
  {
    hide Layout, Resized;
    v := new SegmentedVector<int>(4, 0);
    for i := 0 to 5
      invariant fresh(v) && fresh(v.segments) && v.Valid() && v.size == i && v.segmentSize == 4
    {
      v.Append(i);
    }
    v.CountedSegments();
    v.Resize(8);
  }
}
