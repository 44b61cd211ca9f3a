/**
  Binary searches over keys and intervals. The length they halve, `N`, is not the length of the window they
  search: it falls behind it, by at most one for each halving, and what is left at the end is searched
  one by one.
 */
module Searches {

  const NONE: nat := 0xFFFF_FFFF   // UINT32_MAX, and the null pointer

  /** N-- in 32 bits. */
  function Less1(n: nat): nat {
    if n == 0 then 0xFFFF_FFFF else n - 1
  }

  function Log2(n: nat): nat {
    if n <= 1 then 0 else 1 + Log2(n / 2)
  }

  lemma {:induction false} Log2Grows(a: nat, b: nat)
    requires a <= b
    ensures Log2(a) <= Log2(b)
  {
    if a > 1 { Log2Grows(a / 2, b / 2); }
  }

  /** The most entries a search looks at. */
  function Bound(size: nat): nat {
    if size < 3 then 2 else 2 * Log2(size - 2) + 3
  }

  lemma BoundIsLogarithmic(size: nat)
    ensures Bound(size) <= 2 * Log2(size) + 3
  {
    if size >= 3 { Log2Grows(size - 2, size); }
  }

  /**
    The window of `len` slots against the tracked length N after h halvings, for a table of `size`: N does
    not exceed the window and lags behind it by at most h, and the halvings are paid for by the logarithm.
   */
  ghost predicate Tracked(len: int, N: nat, h: nat, size: nat) {
    && N <= len <= N + h
    && 2 + h <= Bound(size)
    && (N > 0 ==> size > 2 && h + Log2(N) <= Log2(size - 2))
    && (N == 0 ==> len == 0)
  }

  lemma TrackedAtFirst(size: nat)
    ensures 2 <= Bound(size) && (2 <= size ==> Tracked(size - 2, size - 2, 0, size))
  {
  }

  /** Halving: whichever side is kept, the window is tracked again, and there is a middle to look at. */
  lemma TrackedHalf(len: int, N: nat, h: nat, size: nat)
    requires Tracked(len, N, h, size) && 0 < len
    ensures N / 2 < len && 0 < N
    ensures N / 2 > 0 ==> 2 + h + 1 <= Bound(size)
    ensures N / 2 > 0 ==> Tracked(len - N / 2, N / 2, h + 1, size) && Tracked(N / 2, N / 2, h + 1, size)
    ensures N < 4 ==> 2 + h + len <= Bound(size)
  {
    if N >= 2 { assert Log2(N) == 1 + Log2(N / 2); }
    if N == 2 || N == 3 { assert Log2(N) == 1; }
  }

  // ----- b_search -----

  datatype Pair = Pair(first: nat, second: nat)

  ghost predicate SortedKeys(s: seq<Pair>) {
    forall i, j :: 0 <= i < j < |s| ==> s[i].first <= s[j].first
  }

  /** The key is in the table exactly if it is in the window from beg to end. */
  ghost predicate KeyOnlyIn(s: seq<Pair>, key: nat, beg: int, end: int) {
    forall i :: 0 <= i < |s| && s[i].first == key ==> beg <= i < end
  }

  /**
    The index of an entry with the key; NONE if there is none and the keys are sorted. `probes` counts the
    entries looked at.
   */
  method BSearch(key: nat, keyVal: array<Pair>) returns (at: nat, ghost probes: nat)
    requires 1 <= keyVal.Length < NONE
    ensures at != NONE ==> at < keyVal.Length && keyVal[at].first == key
    ensures SortedKeys(keyVal[..]) ==> (at == NONE <==> forall i :: 0 <= i < keyVal.Length ==> keyVal[i].first != key)
    ensures probes <= Bound(keyVal.Length)
  {
    hide Log2, Bound, Tracked;
    var size := keyVal.Length;
    var beg: nat, end: nat, N: nat := 0, size, size;
    TrackedAtFirst(size);
    probes := 1;
    if keyVal[beg].first == key { return beg, probes; }
    beg, N := beg + 1, Less1(N);
    probes := 2;
    if keyVal[end - 1].first == key { return end - 1, probes; }
    end, N := end - 1, Less1(N);
    ghost var h: nat := 0;
    while beg < end
      invariant (size == 1 && end == 0) || Tracked(end - beg, N, h, size)
      invariant 1 <= beg && end < size && (beg <= end || size == 1) && probes == 2 + h <= Bound(size)
      invariant SortedKeys(keyVal[..]) ==> KeyOnlyIn(keyVal[..], key, beg, end)
      decreases end - beg, N
    {
      TrackedHalf(end - beg, N, h, size);
      N := N / 2;
      if N == 0 {
        at, probes := ScanKeys(key, keyVal, beg, end, probes);
        return;
      }
      var mid := beg + N;
      if mid >= end { break; }
      probes := probes + 1;
      h := h + 1;
      if key == keyVal[mid].first { return mid, probes; }
      if key > keyVal[mid].first { beg := mid; } else { end := mid; }
    }
    return NONE, probes;
  }

  method ScanKeys(key: nat, keyVal: array<Pair>, from: nat, end: nat, ghost before: nat)
    returns (at: nat, ghost probes: nat)
    requires from <= end <= keyVal.Length < NONE
    ensures at == NONE <==> forall i :: from <= i < end ==> keyVal[i].first != key
    ensures at != NONE ==> at < keyVal.Length && keyVal[at].first == key
    ensures probes <= before + (end - from)
  {
    var beg := from;
    probes := before;
    while beg < end
      invariant from <= beg <= end && probes == before + (beg - from)
      invariant forall i :: from <= i < beg ==> keyVal[i].first != key
    {
      probes := probes + 1;
      if keyVal[beg].first == key { return beg, probes; }
      beg := beg + 1;
    }
    return NONE, probes;
  }

  // ----- u32b_search -----

  ghost predicate Ascending(s: seq<nat>) {
    forall i, j :: 0 <= i < j < |s| ==> s[i] <= s[j]
  }

  /** Bucket i starts at its bound and ends before the next one's; the last has no end. */
  ghost predicate InBucket(s: seq<nat>, key: nat, i: int) {
    0 <= i < |s| && s[i] <= key && (i + 1 < |s| ==> key < s[i + 1])
  }

  /** No two buckets share a key. */
  lemma OneBucket(s: seq<nat>, key: nat)
    requires |s| > 0
    ensures Ascending(s) ==> forall i, j :: InBucket(s, key, i) && InBucket(s, key, j) ==> i == j
    ensures Ascending(s) && key < s[0] ==> forall i :: !InBucket(s, key, i)
  {
  }

  /** The bucket of the key; NONE if it is below every bucket. */
  method U32bSearch(key: nat, buckets: array<nat>) returns (at: nat, ghost probes: nat)
    requires 2 <= buckets.Length < NONE
    ensures at != NONE ==> InBucket(buckets[..], key, at)
    ensures Ascending(buckets[..]) ==> (at == NONE <==> key < buckets[0])
    ensures Ascending(buckets[..]) ==> forall i :: InBucket(buckets[..], key, i) ==> i == at
    ensures probes <= Bound(buckets.Length)
  {
    hide Log2, Bound, Tracked;
    var size := buckets.Length;
    var beg: nat, end: nat, N: nat := 0, size, size;
    TrackedAtFirst(size);
    OneBucket(buckets[..], key);
    probes := 1;
    if buckets[beg] <= key && key < buckets[beg + 1] { return 0, probes; }
    beg, N := beg + 1, Less1(N);
    probes := 2;
    if buckets[end - 1] <= key { return N, probes; }
    end, N := end - 1, Less1(N);
    ghost var h: nat := 0;
    while beg < end
      invariant Tracked(end - beg, N, h, size)
      invariant 1 <= beg && end < size && (beg <= end || size == 1) && probes == 2 + h <= Bound(size)
      invariant Ascending(buckets[..]) && buckets[0] <= key ==> buckets[beg] <= key < buckets[end]
      decreases end - beg, N
    {
      TrackedHalf(end - beg, N, h, size);
      N := N / 2;
      if N == 0 {
        at, probes := ScanBuckets(key, buckets, beg, end, probes);
        return;
      }
      var mid := beg + N;
      if mid >= end { break; }
      probes := probes + 1;
      h := h + 1;
      if buckets[mid] <= key && key < buckets[mid + 1] { return mid, probes; }
      if key >= buckets[mid + 1] { beg := mid; } else { end := mid; }
    }
    return NONE, probes;
  }

  method ScanBuckets(key: nat, buckets: array<nat>, from: nat, end: nat, ghost before: nat)
    returns (at: nat, ghost probes: nat)
    requires from <= end < buckets.Length < NONE
    ensures at != NONE ==> InBucket(buckets[..], key, at)
    ensures buckets[from] <= key < buckets[end] ==> at != NONE
    ensures at != NONE ==> from <= at < end
    ensures probes <= before + (end - from)
  {
    var beg := from;
    probes := before;
    while beg < end
      invariant from <= beg <= end && probes == before + (beg - from)
      invariant buckets[from] <= key ==> buckets[beg] <= key
    {
      probes := probes + 1;
      if buckets[beg] <= key && key < buckets[beg + 1] { return beg, probes; }
      beg := beg + 1;
    }
    return NONE, probes;
  }

  // ----- time_interval_b_search -----

  datatype TimeBucket = TimeBucket(lb: nat, ub: nat)

  predicate Covers(b: TimeBucket, t: nat) {
    b.lb <= t < b.ub
  }

  /** Intervals in ascending order, not overlapping, gaps allowed. */
  ghost predicate Disjoint(s: seq<TimeBucket>) {
    && (forall i :: 0 <= i < |s| ==> s[i].lb <= s[i].ub)
    && (forall i, j :: 0 <= i < j < |s| ==> s[i].ub <= s[j].lb)
  }

  ghost predicate TimeOnlyIn(s: seq<TimeBucket>, t: nat, beg: int, end: int) {
    forall i :: 0 <= i < |s| && Covers(s[i], t) ==> beg <= i < end
  }

  /** The interval that contains the time, the only one; NONE if no interval does. */
  method TimeIntervalBSearch(timestamp: nat, table: array<TimeBucket>) returns (at: nat, ghost probes: nat)
    requires 1 <= table.Length < NONE
    ensures at != NONE ==> at < table.Length && Covers(table[at], timestamp)
    ensures Disjoint(table[..]) ==> forall i :: 0 <= i < table.Length && Covers(table[i], timestamp) ==> i == at
    ensures probes <= Bound(table.Length)
  {
    hide Log2, Bound, Tracked;
    var size := table.Length;
    var beg: nat, end: nat, N: nat := 0, size, size;
    TrackedAtFirst(size);
    probes := 1;
    if Covers(table[beg], timestamp) { return 0, probes; }
    beg, N := beg + 1, Less1(N);
    probes := 2;
    if Covers(table[end - 1], timestamp) { return N, probes; }
    end, N := end - 1, Less1(N);
    ghost var h: nat := 0;
    while beg < end
      invariant (size == 1 && end == 0) || Tracked(end - beg, N, h, size)
      invariant 1 <= beg && end < size && (beg <= end || size == 1) && probes == 2 + h <= Bound(size)
      invariant Disjoint(table[..]) ==> TimeOnlyIn(table[..], timestamp, beg, end)
      decreases end - beg, N
    {
      TrackedHalf(end - beg, N, h, size);
      N := N / 2;
      if N <= 1 {
        at, probes := ScanIntervals(timestamp, table, beg, end, probes);
        return;
      }
      var mid := beg + N;
      if mid >= end { break; }
      probes := probes + 1;
      h := h + 1;
      if Covers(table[mid], timestamp) { return mid, probes; }
      if timestamp >= table[mid].ub { beg := mid; } else { end := mid; }
    }
    return NONE, probes;
  }

  method ScanIntervals(timestamp: nat, table: array<TimeBucket>, from: nat, end: nat, ghost before: nat)
    returns (at: nat, ghost probes: nat)
    requires from <= end <= table.Length < NONE
    ensures at == NONE <==> forall i :: from <= i < end ==> !Covers(table[i], timestamp)
    ensures at != NONE ==> at < table.Length && Covers(table[at], timestamp)
    ensures probes <= before + (end - from)
  {
    var beg := from;
    probes := before;
    while beg < end
      invariant from <= beg <= end && probes == before + (beg - from)
      invariant forall i :: from <= i < beg ==> !Covers(table[i], timestamp)
    {
      probes := probes + 1;
      if Covers(table[beg], timestamp) { return beg, probes; }
      beg := beg + 1;
    }
    return NONE, probes;
  }
}
