/**
  Lookup in the serial hopscotch table by bit scan, when its 32-bit sums are right, and the map that the occupied
  slots stand for. `_region_H` and `_region_V` are the arrays of one slice.
 */
module HopscotchTable {
  import opened Bits32
  import opened HopscotchState

  const TWO32: nat := 0x1_0000_0000

  function Low(x: u64): u32 {
    x % TWO32
  }

  function High(x: u64): u32 {
    x / TWO32
  }

  function Pack(hi: u32, lo: u32): (x: u64)
    ensures High(x) == hi && Low(x) == lo
  {
    hi * TWO32 + lo
  }

  predicate Cmp(k: u64, x: u64) {
    Low(k) == Low(x)
  }

  /** The home bucket of a hash. */
  function Home(n: nat, hash: u32): (b: nat)
    requires 0 < n
    ensures b < n
  {
    hash % n
  }

  /** Where get_val_at_hh_hash looks: the sum is a 32-bit sum of the whole hash, reduced afterwards. */
  function RawSlot(n: nat, hash: u32, i: nat): (s: nat)
    requires 0 < n
    ensures s < n
  {
    ((hash + i) % TWO32) % n
  }

  /** The 32-bit sum cannot overflow, or overflows harmlessly. */
  predicate NoWrap(n: nat, hash: u32)
    requires 0 < n
  {
    hash + (if n < 32 then n else 32) - 1 < TWO32 || TWO32 % n == 0
  }

  lemma ModSum(a: nat, i: nat, n: nat)
    requires i < n
    ensures (a + i) % n == Mod(a % n + i, n)
  {
    var q := a / n;
    assert a + i == q * n + (a % n + i);
    if a % n + i < n {
      DivUnique(a + i, n, q, a % n + i);
    } else {
      assert a + i == (q + 1) * n + (a % n + i - n);
      DivUnique(a + i, n, q + 1, a % n + i - n);
    }
  }

  lemma AtLeastOnce(a: int, n: nat)
    requires a >= 1
    ensures a * n >= n
  {
  }

  lemma DivUnique(x: int, n: nat, q: int, r: int)
    requires 0 <= r < n && x == q * n + r
    ensures x % n == r && x / n == q
  {
    var q' := x / n;
    assert x == q' * n + x % n;
    assert (q - q') * n == q * n - q' * n;
    assert (q' - q) * n == q' * n - q * n;
    if q > q' { AtLeastOnce(q - q', n); }
    if q < q' { AtLeastOnce(q' - q, n); }
  }

  lemma ShiftByMultiple(x: nat, c: nat, n: nat)
    requires 0 < n && c <= x
    ensures (x - c) % n == x % n <==> c % n == 0
  {
    if c % n == 0 {
      var k := c / n;
      assert c == k * n;
      assert x - c == (x / n - k) * n + x % n by { assert (x / n - k) * n == (x / n) * n - k * n; }
      DivUnique(x - c, n, x / n - k, x % n);
    }
    if (x - c) % n == x % n {
      var q, p := x / n, (x - c) / n;
      assert c == (q - p) * n by { assert (q - p) * n == q * n - p * n; }
      DivUnique(c, n, q - p, 0);
    }
  }

  /** A lookup under a hash reads the right slots exactly if its sums do not wrap harmfully. */
  lemma RawSlotsRightExactlyIf(n: nat, hash: u32)
    requires 0 < n
    ensures NoWrap(n, hash) <==> forall i :: 0 <= i < n && i < 32 ==> RawSlot(n, hash, i) == Slot(n, Home(n, hash), i)
  {
    forall i | 0 <= i < n && i < 32
      ensures RawSlot(n, hash, i) == Slot(n, Home(n, hash), i) <==> (hash + i < TWO32 || TWO32 % n == 0)
    {
      ModSum(hash, i, n);
      if hash + i >= TWO32 {
        assert (hash + i) % TWO32 == hash + i - TWO32;
        ShiftByMultiple(hash + i, TWO32, n);
      }
    }
    var last := (if n < 32 then n else 32) - 1;
    if !NoWrap(n, hash) {
      assert RawSlot(n, hash, last) != Slot(n, Home(n, hash), last);
    }
  }

  // ----- Looking up -----

  /** The offset of the first entry of the bucket, from i on, whose stored key is that of `key`; or NONE. */
  function FindFrom(n: nat, h: seq<Word>, v: seq<u64>, hash: u32, key: u64, i: nat): (r: nat)
    requires 0 < n && |h| == |v| == n && i <= 32
    ensures r == NONE || (i <= r < 32 && h[Home(n, hash)][r])
    decreases 32 - i
  {
    var k := FirstBit(h[Home(n, hash)], i);
    if k == NONE then NONE
    else if Cmp(key, v[RawSlot(n, hash, k)]) then k
    else FindFrom(n, h, v, hash, key, k + 1)
  }

  /** The search finds an entry of the home bucket with that key exactly if there is one. */
  lemma {:induction false} FindMeans(n: nat, h: seq<Word>, v: seq<u64>, cells: seq<Cell>, hash: u32, key: u64, i: nat)
    requires Rep(n, h, v, cells) && i <= 32 && NoWrap(n, hash)
    ensures var b := Home(n, hash);
            var r := FindFrom(n, h, v, hash, key, i);
            if r == NONE then
              forall j :: 0 <= j < n && cells[j].Held? && cells[j].home == b && Cmp(key, cells[j].v) ==>
                            Distance(n, b, j) < i
            else
              r < n && RawSlot(n, hash, r) == Slot(n, b, r) && Cmp(key, v[Slot(n, b, r)]) &&
              cells[Slot(n, b, r)] == Held(b, v[Slot(n, b, r)])
    decreases 32 - i
  {
    hide Home, RawSlot, NoWrap, Cmp;
    var b := Home(n, hash);
    var k := FirstBit(h[b], i);
    RawSlotsRightExactlyIf(n, hash);
    if k == NONE {
      forall j | 0 <= j < n && cells[j].Held? && cells[j].home == b ensures Distance(n, b, j) < i {
        assert CellOk(n, h, v, cells, j);
      }
    } else {
      assert BitOk(n, h, cells, b, k);
      assert CellOk(n, h, v, cells, Slot(n, b, k));
      if !Cmp(key, v[RawSlot(n, hash, k)]) {
        FindMeans(n, h, v, cells, hash, key, k + 1);
        if FindFrom(n, h, v, hash, key, i) == NONE {
          forall j | 0 <= j < n && cells[j].Held? && cells[j].home == b && Cmp(key, cells[j].v)
            ensures Distance(n, b, j) < i
          {
            assert CellOk(n, h, v, cells, j);
            assert Distance(n, b, j) < k + 1 && Distance(n, b, j) != k;
          }
        }
      }
    }
  }

  /** A lookup is right: it reports an entry of the home bucket with the key, and one if there is any. */
  ghost predicate LookupRight(n: nat, h: seq<Word>, v: seq<u64>, cells: seq<Cell>, hash: u32, key: u64)
    requires Rep(n, h, v, cells)
  {
    var b := Home(n, hash);
    var r := FindFrom(n, h, v, hash, key, 0);
    if r == NONE then forall x: u64 :: Cmp(key, x) ==> Held(b, x) !in cells
    else Cmp(key, v[RawSlot(n, hash, r)]) && Held(b, v[RawSlot(n, hash, r)]) in cells
  }

  /** Lookups under a hash are right in every table exactly if its slot sums do not wrap harmfully. */
  lemma LookupsRightExactlyIf(n: nat, hash: u32)
    requires 0 < n
    ensures NoWrap(n, hash) <==>
            forall h, v, cells, key :: Rep(n, h, v, cells) ==> LookupRight(n, h, v, cells, hash, key)
  {
    if NoWrap(n, hash) {
      forall h, v, cells, key | Rep(n, h, v, cells) ensures LookupRight(n, h, v, cells, hash, key) {
        LookupRightIfNoWrap(n, h, v, cells, hash, key);
      }
    } else {
      var h, v, cells, key := EntryLostByWrap(n, hash);
    }
  }

  lemma LookupRightIfNoWrap(n: nat, h: seq<Word>, v: seq<u64>, cells: seq<Cell>, hash: u32, key: u64)
    requires Rep(n, h, v, cells) && NoWrap(n, hash)
    ensures LookupRight(n, h, v, cells, hash, key)
  {
    var b := Home(n, hash);
    FindMeans(n, h, v, cells, hash, key, 0);
  }

  /** A table with one entry, which a lookup under a harmfully wrapping hash does not find. */
  lemma EntryLostByWrap(n: nat, hash: u32) returns (h: seq<Word>, v: seq<u64>, cells: seq<Cell>, key: u64)
    requires 0 < n && !NoWrap(n, hash)
    ensures Rep(n, h, v, cells) && !LookupRight(n, h, v, cells, hash, key)
  {
    hide NoWrap, Distance;
    var b := Home(n, hash);
    var last := (if n < 32 then n else 32) - 1;
    var s := Slot(n, b, last);
    var h0, v0, c0 := seq(n, _ => Zero()), seq(n, _ => 0), seq(n, _ => Free);
    key := Pack(1, 1);
    h, v, cells := h0[b := h0[b][last := true]], v0[s := key], c0[s := Held(b, key)];
    assert Rep(n, h0, v0, c0);
    InsertKeeps(n, h0, v0, c0, b, last, key);
    RawSlotsRightExactlyIf(n, hash);
    WrongLast(n, hash);
    OnlyBit(h[b], last, 0);
    assert v[RawSlot(n, hash, last)] == 0;
    assert cells[s] == Held(b, key);
  }

  lemma WrongLast(n: nat, hash: u32)
    requires 0 < n && !NoWrap(n, hash)
    ensures var last := (if n < 32 then n else 32) - 1; RawSlot(n, hash, last) != Slot(n, Home(n, hash), last)
  {
    var last := (if n < 32 then n else 32) - 1;
    ModSum(hash, last, n);
    assert (hash + last) % TWO32 == hash + last - TWO32;
    ShiftByMultiple(hash + last, TWO32, n);
  }

  lemma {:induction false} OnlyBit(w: Word, k: nat, i: nat)
    requires i <= 32 && k < 32 && w == Zero()[k := true]
    ensures FirstBit(w, i) == if i <= k then k else NONE
    decreases 32 - i
  {
    if i < 32 { OnlyBit(w, k, i + 1); }
    if i <= k && k < 31 { OnlyBit(w, k, k + 1); }
  }

  /** The first c elements of xs are the upper halves of the values at the first c offsets. */
  ghost predicate Reports(n: nat, v: seq<u64>, hash: u32, offs: seq<nat>, xs: seq<u32>, c: nat)
    requires 0 < n && |v| == n
  {
    c <= |offs| && c <= |xs| && forall t :: 0 <= t < c ==> xs[t] == v[RawSlot(n, hash, offs[t])] / 0x1_0000_0000
  }

  lemma ReportsNext(n: nat, v: seq<u64>, hash: u32, offs: seq<nat>, xs: seq<u32>, c: nat)
    requires 0 < n && |v| == n && Reports(n, v, hash, offs, xs, c) && c < |offs| && c < |xs|
    ensures Reports(n, v, hash, offs, xs[c := High(v[RawSlot(n, hash, offs[c])])], c + 1)
  {
  }

  /** The values get_bucket reports are those of the cells its bucket owns, nearest first. */
  lemma BucketMeans(n: nat, h: seq<Word>, v: seq<u64>, cells: seq<Cell>, hash: u32)
    requires Rep(n, h, v, cells) && NoWrap(n, hash)
    ensures var b := Home(n, hash);
            var offs := Offsets(h[b], 0);
            && Ascending(offs)
            && (forall t :: 0 <= t < |offs| ==>
                              && offs[t] < n && cells[Slot(n, b, offs[t])].Held? && cells[Slot(n, b, offs[t])].home == b
                              && v[RawSlot(n, hash, offs[t])] == cells[Slot(n, b, offs[t])].v)
            && (forall j :: 0 <= j < n && cells[j].Held? && cells[j].home == b ==> Distance(n, b, j) in offs)
  {
    var b := Home(n, hash);
    var offs := Offsets(h[b], 0);
    OffsetsAreTheBits(h[b], 0);
    RawSlotsRightExactlyIf(n, hash);
    forall t | 0 <= t < |offs|
      ensures && offs[t] < n && cells[Slot(n, b, offs[t])].Held? && cells[Slot(n, b, offs[t])].home == b
              && v[RawSlot(n, hash, offs[t])] == cells[Slot(n, b, offs[t])].v
    {
      assert offs[t] in offs;
      assert BitOk(n, h, cells, b, offs[t]);
      assert CellOk(n, h, v, cells, Slot(n, b, offs[t]));
    }
    forall j | 0 <= j < n && cells[j].Held? && cells[j].home == b ensures Distance(n, b, j) in offs {
      assert CellOk(n, h, v, cells, j);
    }
  }

  // ----- Cells as a map -----

  /**
    The held cells are the entries of a map keyed by home bucket and 32-bit key: a 64-bit word holds the value in its
    upper half and the key in its lower half.
   */
  ghost predicate Represents(bag: multiset<Cell>, dict: map<(nat, u32), u32>) {
    && (forall b: nat, v: u64 :: Held(b, v) in bag <==>
         (b, v % 0x1_0000_0000) in dict && dict[(b, v % 0x1_0000_0000)] == v / 0x1_0000_0000)
    && (forall b: nat, v: u64 :: bag[Held(b, v)] <= 1)
  }

  lemma PackUnpack(v: u64)
    ensures Pack(High(v), Low(v)) == v
  {
  }

  lemma RepresentsPut(bag: multiset<Cell>, dict: map<(nat, u32), u32>, b: nat, v: u64)
    requires Represents(bag, dict) && (b, Low(v)) !in dict
    ensures Represents(bag - multiset{Free} + multiset{Held(b, v)}, dict[(b, Low(v)) := High(v)])
  {
    var bag' := bag - multiset{Free} + multiset{Held(b, v)};
    var dict' := dict[(b, Low(v)) := High(v)];
    forall c: nat, w: u64
      ensures (Held(c, w) in bag' <==> (c, Low(w)) in dict' && dict'[(c, Low(w))] == High(w)) && bag'[Held(c, w)] <= 1
    {
      PackUnpack(v);
      PackUnpack(w);
      assert bag'[Held(c, w)] == bag[Held(c, w)] + (if c == b && w == v then 1 else 0);
      assert bag[Held(b, v)] == 0;
    }
  }

  lemma RepresentsRemove(bag: multiset<Cell>, dict: map<(nat, u32), u32>, b: nat, v: u64)
    requires Represents(bag, dict) && Held(b, v) in bag
    ensures Represents(bag - multiset{Held(b, v)} + multiset{Free}, dict - {(b, Low(v))})
  {
    var bag' := bag - multiset{Held(b, v)} + multiset{Free};
    var dict' := dict - {(b, Low(v))};
    forall c: nat, w: u64
      ensures (Held(c, w) in bag' <==> (c, Low(w)) in dict' && dict'[(c, Low(w))] == High(w)) && bag'[Held(c, w)] <= 1
    {
      PackUnpack(v);
      PackUnpack(w);
      assert bag[Held(b, v)] == 1;
      assert bag'[Held(c, w)] == bag[Held(c, w)] - (if c == b && w == v then 1 else 0);
    }
  }

  /** What a lookup says about the map. */
  lemma LookupMeans(n: nat, h: seq<Word>, v: seq<u64>, cells: seq<Cell>, dict: map<(nat, u32), u32>,
                    hash: u32, key: u32)
    requires Rep(n, h, v, cells) && Represents(multiset(cells), dict) && NoWrap(n, hash)
    ensures var k := (Home(n, hash), key);
            var r := FindFrom(n, h, v, hash, key, 0);
            if r == NONE then k !in dict
            else
              var x := v[RawSlot(n, hash, r)];
              x != 0 && Low(x) == key && k in dict && dict[k] == High(x) && Held(Home(n, hash), x) in multiset(cells)
  {
    hide Home, RawSlot, NoWrap, FindFrom;
    var b := Home(n, hash);
    var r := FindFrom(n, h, v, hash, key, 0);
    LookupRightIfNoWrap(n, h, v, cells, hash, key);
    if r == NONE {
      var x := Pack(if (b, key) in dict then dict[(b, key)] else 0, key);
      assert Cmp(key, x) && Held(b, x) !in cells;
      assert Held(b, x) !in multiset(cells);
    } else {
      var x := v[RawSlot(n, hash, r)];
      var j :| 0 <= j < n && cells[j] == Held(b, x);
      assert CellOk(n, h, v, cells, j);
    }
  }

  /** No slot within reach of bucket b is free. */
  ghost predicate NoneInReach(n: nat, v: seq<u64>, b: nat)
    requires b < n == |v|
  {
    forall i :: 0 <= i < 32 && i < n ==> v[Slot(n, b, i)] != 0
  }

  /** The hole hd is out of reach of bucket b, no farther than any slot that was free in `before`, and cannot hop. */
  ghost predicate StuckHole(n: nat, before: seq<u64>, h: seq<Word>, v: seq<u64>, b: nat, hd: nat)
    requires b < n == |before| == |h| == |v|
  {
    && hd < n && v[hd] == 0 && 32 <= Distance(n, b, hd) && Frozen(n, h, hd)
    && forall j :: 0 <= j < n && before[j] == 0 ==> Distance(n, b, hd) <= Distance(n, b, j)
  }

  /** Why bucket b got no further value: the table was full, or every free slot out of reach and the hole stuck. */
  ghost predicate Refused(n: nat, before: seq<u64>, h: seq<Word>, v: seq<u64>, b: nat)
    requires b < n == |before| == |h| == |v|
  {
    && NoneInReach(n, before, b)
    && ((forall j :: 0 <= j < n ==> before[j] != 0) || exists hd :: StuckHole(n, before, h, v, b, hd))
  }

  /** What the probe found is the nearest free slot. */
  lemma NearestFree(n: nat, v: seq<u64>, b: nat, d: nat)
    requires b < n == |v| && d < n && forall i :: 0 <= i < d ==> v[Slot(n, b, i)] != 0
    ensures forall j :: 0 <= j < n && v[j] == 0 ==> d <= Distance(n, b, j)
  {
    forall j | 0 <= j < n && v[j] == 0 ensures d <= Distance(n, b, j) {
      assert Slot(n, b, Distance(n, b, j)) == j;
    }
  }

  lemma NoneNear(n: nat, v: seq<u64>, b: nat, d: nat)
    requires b < n == |v| && 32 <= d && forall j :: 0 <= j < n && v[j] == 0 ==> d <= Distance(n, b, j)
    ensures NoneInReach(n, v, b)
  {
    forall i | 0 <= i < 32 && i < n ensures v[Slot(n, b, i)] != 0 {
      assert Distance(n, b, Slot(n, b, i)) == i;
    }
  }

  /** No bucket within reach of the hole hd offers a value that may hop into it. */
  ghost predicate Frozen(n: nat, h: seq<Word>, hd: nat)
    requires hd < n == |h|
  {
    32 <= n && forall i :: 1 <= i < 32 ==> NoHop(n, h, hd, i)
  }

  ghost predicate NoHop(n: nat, h: seq<Word>, hd: nat, i: nat)
    requires hd < n == |h| && 32 <= n && i < 32
  {
    var w := h[Mod(n + hd - i, n)];
    w == Zero() || Ctz(w) >= i
  }
}
