/** The table as an object: its methods change the two arrays and the count in place. */
module HopscotchMap {
  import opened Bits32
  import opened HopscotchState
  import opened HopscotchTable

  const UINT64_MAX: u64 := 0xFFFF_FFFF_FFFF_FFFF

  class HHash {
    const n: nat                 // _max_n
    const h: array<Word>         // membership words, one per home bucket
    const v: array<u64>          // values; 0 is an empty slot
    var count: nat
    ghost var cells: seq<Cell>   // who owns each slot
    ghost var dict: map<(nat, u32), u32>

    ghost predicate Valid()
      reads this, h, v
    {
      && h as object != v as object
      && h.Length == v.Length == n && 2 * n + 32 <= TWO32
      && Rep(n, h[..], v[..], cells)
      && count == n - multiset(cells)[Free]
      && count == TotalBits(h[..])
    }

    /** Every home bucket holds a key at most once, and `dict` says which values. */
    ghost predicate ValidMap()
      reads this, h, v
    {
      Valid() && Represents(multiset(cells), dict)
    }

    /** An empty table. Indices are 32-bit sums of two positions, which bounds the size. */
    constructor (n: nat)
      requires 0 < n && 2 * n + 32 <= TWO32
      ensures ValidMap() && this.n == n && dict == map[] && count == 0
      ensures fresh(h) && fresh(v)
    {
      this.n := n;
      this.h := new Word[n](i => Zero());
      this.v := new u64[n](i => 0);
      count := 0;
      cells := seq(n, i => Free);
      dict := map[];
      new;
      TotalOfZero(h[..]);
      AllFree(cells);
    }

    // ----- Searching for room -----

    /** _probe: the least circular distance from b to an empty slot, or UINT32_MAX if there is none. */
    method Probe(b: nat) returns (d: nat)
      requires Valid() && b < n
      ensures d == UINT32_MAX <==> forall j :: 0 <= j < n ==> v[j] != 0
      ensures d != UINT32_MAX ==> d < n && v[Slot(n, b, d)] == 0 && forall i :: 0 <= i < d ==> v[Slot(n, b, i)] != 0
    {
      var i := b;
      while i < n
        invariant b <= i <= n
        invariant forall j :: b <= j < i ==> v[j] != 0
      {
        if v[i] == 0 { return i - b; }
        i := i + 1;
      }
      var j := 0;
      while j < b
        invariant 0 <= j <= b
        invariant forall k :: 0 <= k < j ==> v[k] != 0
      {
        if v[j] == 0 { return n + j - b; }
        j := j + 1;
      }
      return UINT32_MAX;
    }

    /** _hop_scotch: the farthest bucket within reach behind hd whose first entry can hop into hd, or 0. */
    method HopScotch(hd: nat) returns (z: nat)
      requires h.Length == n && hd < n && 32 <= n
      ensures z == 0 ==> Frozen(n, h[..], hd)
      ensures z != 0 ==> z < 32 && !NoHop(n, h[..], hd, z) && forall i :: z < i < 32 ==> NoHop(n, h[..], hd, i)
    {
      var i := K - 1;
      while i > 0
        invariant 0 <= i < 32
        invariant forall k :: i < k < 32 ==> NoHop(n, h[..], hd, k)
      {
        var w := h[Mod(n + hd - i, n)];
        if w != Zero() && Ctz(w) < i { return i; }
        i := i - 1;
      }
      return 0;
    }

    /** _swap: the value i places after bucket z moves to the free slot j places after it. */
    method Swap(z: nat, i: nat, j: nat)
      requires Valid() && z < n && i < j < 32 && j < n && h[z][i] && cells[Slot(n, z, j)] == Free
      modifies h, v, `cells
      ensures Valid()
      ensures multiset(cells) == multiset(old(cells)) && cells[Slot(n, z, i)] == Free
      ensures cells == old(cells)[Slot(n, z, i) := Free][Slot(n, z, j) := old(cells)[Slot(n, z, i)]]
    {
      MoveKeeps(n, h[..], v[..], cells, z, i, j);
      TotalOfUpdate(h[..], z, i, false);
      TotalOfUpdate(h[..][z := h[z][i := false]], z, j, true);
      ghost var h0 := h[..];
      ghost var v0 := v[..];
      h[z] := Set(Unset(h[z], i), j);
      var si := Mod(z + i, n);
      var sj := Mod(z + j, n);
      var x := v[si];
      v[si] := 0;
      v[sj] := x;
      cells := cells[si := Free][sj := cells[si]];
      assert h[..] == h0[z := h0[z][i := false][j := true]];
      assert h0[z := h0[z][i := false]][z := h0[z][i := false][j := true]] == h[..];
      assert v[..] == v0[si := 0][sj := v0[si]];
    }

    /** _succ: the next set bit of bucket z, from i on. */
    method SuccAt(z: nat, i: nat) returns (k: nat)
      requires z < h.Length && i < 32
      ensures k == FirstBit(h[z], i)
    {
      SuccIsFirstBit(h[z], i);
      k := Succ(h[z], i);
    }

    /** _succ_hh_hash: the same for a hash, with the end of the word accounted for. */
    method SuccHash(hash: u32, i: nat) returns (k: nat)
      requires 0 < n == h.Length && i <= 32
      ensures k == FirstBit(h[Home(n, hash)], i)
    {
      if i == 32 { return UINT32_MAX; }
      k := SuccAt(Home(n, hash), i);
    }

    // ----- Inserting and deleting -----

    /**
      put_hh_hash: find a free slot and hop it backwards until it is within reach of the home bucket.
      Success adds exactly x under its home bucket. Failure leaves every bucket's contents as they were, and for a
      value that is not zero means that no free slot was in reach and none could be brought there.
     */
    method PutHash(hash: u32, x: u64) returns (ok: bool)
      requires Valid()
      modifies h, v, `cells, `count
      ensures Valid()
      ensures ok ==> x != 0 && Free in old(cells)
      ensures ok ==> multiset(cells) == multiset(old(cells)) - multiset{Free} + multiset{Held(hash % n, x)}
      ensures !ok ==> multiset(cells) == multiset(old(cells)) && count == old(count)
      ensures !ok && x != 0 ==> Refused(n, old(v[..]), h[..], v[..], hash % n)
    {
      var b: nat := Home(n, hash);
      CellsAndValues();
      if count == n || x == 0 {
        if x != 0 { NoneFree(); }
        return false;
      }
      var d: nat := Probe(b);
      if d == UINT32_MAX {
        return false;
      }
      ghost var before, d0 := v[..], d;
      NearestFree(n, before, b, d0);
      while d >= K
        invariant d <= d0 < n && Valid() && cells[Slot(n, b, d)] == Free
        invariant multiset(cells) == multiset(old(cells)) && count == old(count)
        decreases d
      {
        var d', moved := Hop(b, d);
        if !moved {
          NoneNear(n, before, b, d);
          assert StuckHole(n, before, h[..], v[..], b, Slot(n, b, d));
          return false;
        }
        d := d';
      }
      Fill(b, d, x);
      return true;
    }

    lemma NoneFree()
      requires Valid() && count == n
      ensures forall j :: 0 <= j < n ==> v[j] != 0
    {
      CellsAndValues();
      forall j | 0 <= j < n ensures v[j] != 0 { assert cells[j] in multiset(cells); }
    }

    /** One round of put_hh_hash's loop: the hole at distance d from bucket b comes strictly closer. */
    method Hop(b: nat, d: nat) returns (d': nat, moved: bool)
      requires Valid() && b < n && 32 <= d < n && cells[Slot(n, b, d)] == Free
      modifies h, v, `cells
      ensures Valid() && multiset(cells) == multiset(old(cells))
      ensures moved ==> d' < d && cells[Slot(n, b, d')] == Free
      ensures !moved ==> v[Slot(n, b, d)] == 0 && Frozen(n, h[..], Slot(n, b, d))
    {
      var hd := Mod(b + d, n);
      CellsAndValues();
      var j := HopScotch(hd);
      if j == 0 { return d, false; }
      HopTarget(n, h[..], b, d, j);
      var z := Mod(n + hd - j, n);
      var i := SuccAt(z, 0);
      d', moved := Mod(n + z + i - b, n), true;
      assert d' < d && Slot(n, b, d') == Slot(n, z, i);
      Swap(z, i, j);
    }

    /** The last lines of put_hh_hash. */
    method Fill(b: nat, d: nat, x: u64)
      requires Valid() && b < n && d < 32 && d < n && x != 0 && cells[Slot(n, b, d)] == Free
      modifies h, v, `cells, `count
      ensures Valid()
      ensures multiset(cells) == multiset(old(cells)) - multiset{Free} + multiset{Held(b, x)}
      ensures count == old(count) + 1
    {
      InsertKeeps(n, h[..], v[..], cells, b, d, x);
      TotalOfUpdate(h[..], b, d, true);
      ghost var h0 := h[..];
      ghost var v0 := v[..];
      var hd := Mod(b + d, n);
      v[hd] := x;
      h[b] := Set(h[b], d);
      count := count + 1;
      assert cells[hd] in multiset(cells);
      cells := cells[hd := Held(b, x)];
      assert h[..] == h0[b := h0[b][d := true]];
      assert v[..] == v0[hd := x];
    }

    /** del_hh_hash: the test looks only at the lower half of the slot, so an entry under key 0 stays. */
    method DelHash(hash: u32, i: nat)
      requires Valid() && i < 32 && i < n
      modifies h, v, `cells, `count
      ensures Valid()
      ensures var b := Home(n, hash);
              var s := Slot(n, b, i);
              if old(h[b][i]) && Low(old(v[s])) != 0 then
                old(cells)[s] == Held(b, old(v[s])) && cells == old(cells)[s := Free] && count + 1 == old(count)
                && multiset(cells) == multiset(old(cells)) - multiset{Held(b, old(v[s]))} + multiset{Free}
              else cells == old(cells) && count == old(count)
    {
      var b: nat := Home(n, hash);
      var x := Low(v[Mod(b + i, n)]);
      if x == 0 || !Get(h[b], i) {
        return;
      }
      Vacate(b, i);
    }

    /** The last lines of del_hh_hash. */
    method Vacate(b: nat, i: nat)
      requires Valid() && b < n && i < 32 && i < n && h[b][i]
      modifies h, v, `cells, `count
      ensures Valid()
      ensures var s := Slot(n, b, i);
              && old(cells)[s] == Held(b, old(v[s])) && cells == old(cells)[s := Free] && count + 1 == old(count)
              && multiset(cells) == multiset(old(cells)) - multiset{Held(b, old(v[s]))} + multiset{Free}
    {
      DeleteKeeps(n, h[..], v[..], cells, b, i);
      TotalOfUpdate(h[..], b, i, false);
      ghost var h0 := h[..];
      ghost var v0 := v[..];
      var j := Mod(b + i, n);
      v[j] := 0;
      h[b] := Unset(h[b], i);
      assert cells[j] in multiset(cells);
      count := count - 1;
      cells := cells[j := Free];
      assert h[..] == h0[b := h0[b][i := false]];
      assert v[..] == v0[j := 0];
    }

    // ----- Looking up -----

    /** hunt_hash_set: scan the bucket's set bits for the key; with `kill`, delete what was found. */
    method Hunt(hash: u32, key: u64, kill: bool) returns (x: u64)
      requires Valid()
      modifies h, v, `cells, `count
      ensures Valid()
      ensures var k := FindFrom(n, old(h[..]), old(v[..]), hash, key, 0);
              && x == (if k == NONE then 0 else old(v[RawSlot(n, hash, k)]))
              && (k == NONE || !kill ==> cells == old(cells) && count == old(count))
      ensures !kill ==> h[..] == old(h[..]) && v[..] == old(v[..])
      ensures var k := FindFrom(n, old(h[..]), old(v[..]), hash, key, 0);
              k != NONE && kill && NoWrap(n, hash) ==>
                if Low(x) != 0
                then multiset(cells) == multiset(old(cells)) - multiset{Held(Home(n, hash), x)} + multiset{Free}
                     && count + 1 == old(count)
                else cells == old(cells) && count == old(count)
    {
      hide Home, NoWrap, RawSlot, CellOk, BitOk, Represents;
      var b: nat := Home(n, hash);
      var i: nat := SuccHash(hash, 0);
      ghost var s: nat := 0;
      while i != NONE
        invariant h[..] == old(h[..]) && v[..] == old(v[..]) && cells == old(cells) && count == old(count)
        invariant s <= 32 && i == FirstBit(h[b], s)
        invariant FindFrom(n, h[..], v[..], hash, key, 0) == FindFrom(n, h[..], v[..], hash, key, s)
        decreases 32 - s
      {
        x := v[RawSlot(n, hash, i)];
        if Cmp(key, x) {
          BitInRange(hash, i);
          if kill { DelHash(hash, i); }
          return x;
        }
        s := i + 1;
        i := SuccHash(hash, i + 1);
      }
      return 0;
    }

    /** get_bucket: the upper halves of the bucket's values, in offset order. */
    method GetBucket(hash: u32, xs: array<u32>) returns (c: nat)
      requires 0 < n && h.Length == v.Length == n && xs.Length == 32
      requires xs as object != h as object && xs as object != v as object
      modifies xs
      ensures var offs := Offsets(h[Home(n, hash)], 0);
              c == |offs| <= 32 && Reports(n, v[..], hash, offs, xs[..], c)
    {
      var w := h[Home(n, hash)];
      ghost var offs := Offsets(w, 0);
      AtMost32(w);
      ScanHere(w, offs, 0);
      c := 0;
      var i: nat := SuccHash(hash, 0);
      while i != NONE
        invariant c <= |offs| && (i == NONE <==> c == |offs|) && (i != NONE ==> i == offs[c])
        invariant Reports(n, v[..], hash, offs, xs[..], c)
        decreases |offs| - c
      {
        var x := v[RawSlot(n, hash, i)];
        ScanNext(w, offs, c);
        ReportsNext(n, v[..], hash, offs, xs[..], c);
        xs[c] := High(x);
        c := c + 1;
        i := SuccHash(hash, i + 1);
      }
    }

    // ----- The map -----

    /** get_hh_set: the stored word, value above key, or 0. */
    method GetSet(hash: u32, key: u32) returns (x: u64)
      requires Valid()
      modifies h, v, `cells, `count
      ensures Valid() && cells == old(cells) && count == old(count) && h[..] == old(h[..]) && v[..] == old(v[..])
      ensures Represents(multiset(cells), dict) && NoWrap(n, hash) ==>
                var k := (hash % n, key);
                if k in dict then x == dict[k] * 0x1_0000_0000 + key && x != 0 else x == 0
    {
      if Represents(multiset(cells), dict) && NoWrap(n, hash) {
        LookupMeans(n, h[..], v[..], cells, dict, hash, key);
      }
      x := Hunt(hash, key, false);
    }

    /** put_hh_set: insert unless the bucket already holds the key. */
    method PutSet(hash: u32, x: u64) returns (ok: bool)
      requires Valid()
      modifies h, v, `cells, `count, `dict
      ensures Valid()
      ensures old(ValidMap()) && NoWrap(n, hash) ==>
                && ValidMap()
                && var k := (hash % n, x % 0x1_0000_0000);
                   if x == 0 || k in old(dict) then dict == old(dict) && ok == (x != 0)
                   else if ok then dict == old(dict)[k := x / 0x1_0000_0000]
                   else dict == old(dict)
      ensures !ok ==> dict == old(dict)
      ensures !ok && x != 0 ==> Refused(n, old(v[..]), h[..], v[..], hash % n)
    {
      if x == 0 { return false; }
      var found := GetSet(hash, Low(x));
      if found != 0 { return true; }
      ok := PutHash(hash, x);
      if ok {
        RepresentsPutIf(multiset(old(cells)), dict, Home(n, hash), x);
        dict := dict[(Home(n, hash), Low(x)) := High(x)];
      }
    }

    /**
      put_hh_map: insert-if-absent; the answer is the loaded key, key above bucket, or 0 for a zero value, or
      UINT64_MAX. The key is missing afterwards only if no free slot could be brought into reach of the bucket.
     */
    method PutMap(bucket: u32, key: u32, value: u32) returns (r: u64)
      requires Valid()
      modifies h, v, `cells, `count, `dict
      ensures Valid()
      ensures value == 0 ==> r == 0 && dict == old(dict)
      ensures value != 0 ==> r == key * 0x1_0000_0000 + bucket || (r == UINT64_MAX && dict == old(dict))
      ensures old(ValidMap()) && NoWrap(n, bucket) ==>
                && ValidMap()
                && var k := (bucket % n, key);
                   || dict == old(dict)
                   || (value != 0 && k !in old(dict) && dict == old(dict)[k := value])
      ensures old(ValidMap()) && NoWrap(n, bucket) && value != 0 ==>
                var k := (bucket % n, key);
                && (k in dict ==> r == key * 0x1_0000_0000 + bucket)
                && (k !in dict ==> r == UINT64_MAX && Refused(n, old(v[..]), h[..], v[..], bucket % n))
      ensures value != 0 && r != key * 0x1_0000_0000 + bucket ==> Refused(n, old(v[..]), h[..], v[..], bucket % n)
    {
      if value == 0 { return 0; }
      var ok := PutSet(bucket, Pack(value, key));
      r := if ok then Pack(key, bucket) else UINT64_MAX;
    }

    /** get_hh_map: the stored value, or 0. */
    method GetMap(loaded: u64) returns (value: u32)
      requires Valid()
      modifies h, v, `cells, `count
      ensures Valid() && cells == old(cells) && count == old(count) && h[..] == old(h[..]) && v[..] == old(v[..])
      ensures ValidMap() && NoWrap(n, loaded % 0x1_0000_0000) ==>
                var k := (loaded % 0x1_0000_0000 % n, loaded / 0x1_0000_0000);
                value == if k in dict then dict[k] else 0
    {
      var x := GetSet(Low(loaded), High(loaded));
      value := High(x);
    }

    /** del_hh_map: answers like get; removes exactly that key, except that key 0 is never removed. */
    method DelMap(loaded: u64) returns (value: u32)
      requires Valid()
      modifies h, v, `cells, `count, `dict
      ensures Valid()
      ensures old(ValidMap()) && NoWrap(n, loaded % 0x1_0000_0000) ==>
                && ValidMap()
                && var k := (loaded % 0x1_0000_0000 % n, loaded / 0x1_0000_0000);
                   && value == (if k in old(dict) then old(dict)[k] else 0)
                   && dict == (if loaded / 0x1_0000_0000 != 0 then old(dict) - {k} else old(dict))
    {
      hide NoWrap, FindFrom, RawSlot, CellOk, BitOk;
      var hash, key := Low(loaded), High(loaded);
      if ValidMap() && NoWrap(n, hash) {
        LookupMeans(n, h[..], v[..], cells, dict, hash, key);
      }
      ghost var k := FindFrom(n, h[..], v[..], hash, key, 0);
      var x := Hunt(hash, key, true);
      if k != NONE && key != 0 && old(ValidMap()) && NoWrap(n, hash) {
        RepresentsRemove(multiset(old(cells)), dict, Home(n, hash), x);
        dict := dict - {(Home(n, hash), key)};
      }
      value := High(x);
    }

    lemma BitInRange(hash: u32, i: nat)
      requires Valid() && i < 32 && h[Home(n, hash)][i]
      ensures i < n
      ensures NoWrap(n, hash) ==> RawSlot(n, hash, i) == Slot(n, Home(n, hash), i)
    {
      assert BitOk(n, h[..], cells, Home(n, hash), i);
      RawSlotsRightExactlyIf(n, hash);
    }

    lemma CellsAndValues()
      requires Valid()
      ensures forall j :: 0 <= j < n ==> (v[j] == 0 <==> cells[j] == Free)
    {
      forall j | 0 <= j < n ensures v[j] == 0 <==> cells[j] == Free {
        assert CellOk(n, h[..], v[..], cells, j);
      }
    }
  }

  lemma AtMost32(w: Word)
    ensures |Offsets(w, 0)| <= 32
  {
    OffsetsAreTheBits(w, 0);
  }

  lemma ScanHere(w: Word, offs: seq<nat>, s: nat)
    requires s <= 32 && offs == Offsets(w, s)
    ensures var k := FirstBit(w, s); (k == NONE <==> offs == []) && (k != NONE ==> k == offs[0])
  {
  }

  lemma RepresentsPutIf(bag: multiset<Cell>, dict: map<(nat, u32), u32>, b: nat, v: u64)
    ensures Represents(bag, dict) && (b, Low(v)) !in dict ==>
              Represents(bag - multiset{Free} + multiset{Held(b, v)}, dict[(b, Low(v)) := High(v)])
  {
    if Represents(bag, dict) && (b, Low(v)) !in dict { RepresentsPut(bag, dict, b, v); }
  }

  /** From one set bit the scan goes to the next. */
  lemma ScanNext(w: Word, offs: seq<nat>, c: nat)
    requires offs == Offsets(w, 0) && c < |offs|
    ensures offs[c] < 32 && w[offs[c]]
    ensures var k := FirstBit(w, offs[c] + 1); (k == NONE <==> c + 1 == |offs|) && (k != NONE ==> k == offs[c + 1])
  {
    ScanTail(w, 0, c);
    ScanHere(w, offs[c + 1..], offs[c] + 1);
  }

  lemma {:induction false} ScanTail(w: Word, s: nat, c: nat)
    requires s <= 32 && c < |Offsets(w, s)|
    ensures var offs := Offsets(w, s); offs[c] < 32 && w[offs[c]] && offs[c + 1..] == Offsets(w, offs[c] + 1)
    decreases c
  {
    var offs := Offsets(w, s);
    var k := FirstBit(w, s);
    assert offs[1..] == Offsets(w, k + 1);
    if c > 0 {
      ScanTail(w, k + 1, c - 1);
      assert offs[c + 1..] == offs[1..][c..];
    }
  }

  /** What the bucket found by _hop_scotch offers. */
  lemma HopTarget(n: nat, h: seq<Word>, b: nat, d: nat, j: nat)
    requires |h| == n && b < n && 32 <= d < n && 0 < j < 32 && !NoHop(n, h, Mod(b + d, n), j)
    ensures var hd := Mod(b + d, n);
            var z := Mod(n + hd - j, n);
            && z < n && Slot(n, z, j) == hd
            && var i := FirstBit(h[z], 0);
               && i < j && h[z][i]
               && n + z + i - b >= 0
               && Mod(n + z + i - b, n) == d - (j - i)
               && Slot(n, b, d - (j - i)) == Slot(n, z, i)
  {
    var z := Mod(n + Mod(b + d, n) - j, n);
    HopDistance(n, b, d, j, FirstBit(h[z], 0));
  }

  lemma {:induction false} AllFree(cells: seq<Cell>)
    requires forall j :: 0 <= j < |cells| ==> cells[j] == Free
    ensures multiset(cells)[Free] == |cells|
    ensures forall c :: c in multiset(cells) ==> c == Free
  {
    if cells != [] {
      AllFree(cells[1..]);
      assert cells == [Free] + cells[1..];
    }
  }
}
