/**
  The least-recently-used store in a flat region: slots 0, 1 and 2 are the header, the tail and the
  free-list control, every further slot is in use or free.
 */
module LruCache {
  import opened LruLists

  type u64 = x: nat | x < 0x1_0000_0000_0000_0000

  const UINT64_MAX: u64 := 0xFFFF_FFFF_FFFF_FFFF
  const TWO16: nat := 0x1_0000

  class LRU_cache {
    const step: nat              // _step
    const n: nat                 // number of slots: _region_size / _step
    const prev: array<nat>
    const next: array<nat>
    const hash: array<nat>
    const when: array<int>
    var countFree: nat           // _count_free
    var table: map<nat, nat>     // _local_hash_table, slots standing for offsets
    ghost var used: seq<nat>     // the used list, head first
    ghost var free: seq<nat>     // the free list, top first

    ghost predicate Valid()
      reads this, prev, next, hash, when
    {
      && 0 < step && 4 <= n && n * step < NIL
      && prev.Length == next.Length == hash.Length == when.Length == n
      && prev != next && prev != hash && next != hash
      && when as object !in {prev as object, next as object, hash as object}
      && Partition(n, used, free)
      && Linked(next[..], prev[..], Ring(used))
      && Chained(next[..], [FREE] + free)
      && prev[HEADER] == NIL && prev[FREE] == NIL && next[TAIL] == NIL
      && (forall s :: s in free ==> prev[s] == NIL && hash[s] == UINT64_MAX)
      && |used| + |free| == n - 3 && countFree < TWO16
      && (n - 3 < TWO16 ==> countFree == |free|)
    }

    /** With a clock that has not passed `now`: no element is used after one behind it in the list. */
    ghost predicate Aged(now: int)
      reads this, when
    {
      RecentFirst(when[..], used, now)
    }

    /** The hash table maps a hash to a slot exactly if that slot is in use under that hash. */
    ghost predicate Indexed()
      reads this, hash
    {
      IndexedBy(table, hash[..], used)
    }

    // ----- Setting up -----

    /**
      Everything free. In a region of exactly three slots the free list is set to start behind the region. The
      free counter is right exactly if it can count that far.
     */
    constructor (step: nat, n: nat)
      requires 0 < step && 3 <= n && n * step < NIL
      ensures this.n == n && this.step == step && Threaded(n)
      ensures n > 3 ==> Valid() && Aged(0) && Indexed()
      ensures n == 3 ==> next[FREE] == n
      ensures used == [] && table == map[] && |free| == n - 3
      ensures countFree == |free| <==> n - 3 < TWO16
      ensures fresh(prev) && fresh(next) && fresh(hash) && fresh(when)
    {
      this.step := step;
      this.n := n;
      prev := new nat[n](i => 0);
      next := new nat[n](i => 0);
      hash := new nat[n](i => 0);
      when := new int[n](i => 0);
      table := map[];
      used := [];
      free := seq(n - 3, i => i + 3);
      new;
      SetupFreeList();
      if n > 3 { AllFree(); }
    }

    /** The arrays are those of one region. */
    ghost predicate Shaped() {
      && 3 <= n
      && prev.Length == next.Length == hash.Length == when.Length == n
      && prev != next && prev != hash && next != hash
      && when as object !in {prev as object, next as object, hash as object}
    }

    /** No slot in use, and every slot from the fourth on pointing at the next. */
    ghost predicate Threaded(upTo: nat)
      reads prev, next, hash
    {
      && Shaped()
      && next[HEADER] == TAIL && prev[TAIL] == HEADER && next[FREE] == 3 && next[TAIL] == NIL
      && prev[HEADER] == NIL && prev[FREE] == NIL
      && (forall s :: 3 <= s < upTo && s < n ==> prev[s] == NIL && hash[s] == UINT64_MAX)
      && (forall s :: 3 <= s < upTo && s < n ==> next[s] == if s + 1 < n then s + 1 else NIL)
    }

    /** setup_region_free_list: its counter has 16 bits, and the free control keeps it as its hash. */
    method SetupFreeList()
      requires Shaped()
      modifies prev, next, hash, when, `countFree
      ensures Threaded(n) && countFree == (n - 3) % TWO16
      ensures hash[HEADER] == hash[TAIL] == 0 && hash[FREE] == countFree
      ensures forall s :: 0 <= s < n ==> when[s] == 0
    {
      SetupControls();
      var freeCount := 0;
      var curr := next[FREE];
      while curr < n
        invariant 3 <= curr <= n && freeCount == (curr - 3) % TWO16 && Threaded(curr)
        invariant hash[TAIL] == 0 && forall s :: 0 <= s < curr ==> when[s] == 0
      {
        freeCount := (freeCount + 1) % TWO16;
        FreeSlot(curr);
        curr := curr + 1;
      }
      hash[FREE] := freeCount;
      hash[HEADER] := 0;
      countFree := freeCount;
    }

    method FreeSlot(curr: nat)
      requires Shaped() && 3 <= curr < n && Threaded(curr)
      modifies prev, next, hash, when
      ensures Threaded(curr + 1) && hash[TAIL] == old(hash[TAIL])
      ensures when[curr] == 0 && forall s :: 0 <= s < curr ==> when[s] == old(when[s])
    {
      prev[curr] := NIL;
      next[curr] := curr + 1;
      if curr + 1 >= n { next[curr] := NIL; }
      hash[curr] := UINT64_MAX;
      when[curr] := 0;
    }

    method SetupControls()
      requires Shaped()
      modifies prev, next, hash, when
      ensures Threaded(3) && hash[TAIL] == 0 && forall s :: 0 <= s < 3 ==> when[s] == 0
    {
      prev[HEADER], next[HEADER], hash[HEADER], when[HEADER] := NIL, TAIL, 0, 0;
      prev[TAIL], next[TAIL], hash[TAIL], when[TAIL] := HEADER, NIL, 0, 0;
      prev[FREE], next[FREE], hash[FREE], when[FREE] := NIL, 3, 0, 0;
    }

    lemma AllFree()
      requires n > 3 && Threaded(n) && used == [] && free == seq(n - 3, i => i + 3)
      ensures Partition(n, used, free)
      ensures Linked(next[..], prev[..], Ring(used)) && Chained(next[..], [FREE] + free)
      ensures forall s :: s in free ==> prev[s] == NIL && hash[s] == UINT64_MAX
    {
      assert Ring(used) == [HEADER, TAIL];
      forall s | 3 <= s < n ensures s in free { assert free[s - 3] == s; }
      var full := [FREE] + free;
      assert forall i :: 1 <= i < |full| ==> full[i] == i + 2;
    }

    // ----- Using and freeing slots -----

    /** check_offset: within the region (its end included) and on an element boundary. */
    predicate CheckOffset(offset: nat)
      requires 0 < step
    {
      offset <= n * step && offset % step == 0
    }

    /**
      add_el: the top free slot becomes the first used one. The hash table is written before anything
      else; UINT32_MAX is the answer when no slot is free.
     */
    method AddEl(key: u64, now: int) returns (offset: nat)
      requires Valid()
      modifies prev, next, hash, when, `countFree, `table, `used, `free
      ensures Valid()
      ensures old(free) == [] ==> offset == NIL && used == old(used) && free == [] && table == old(table)
      ensures old(free) == [] ==> hash[..] == old(hash[..]) && when[..] == old(when[..]) && countFree == old(countFree)
      ensures old(free) != [] ==>
                var s := old(free)[0];
                && 3 <= s < n && offset == s * step < NIL && used == [s] + old(used) && free == old(free)[1..]
                && hash[..] == old(hash[..])[s := key] && when[..] == old(when[..])[s := now]
                && table == old(table)[key := s] && offset % step == 0 && offset / step == s
      ensures old(free) != [] ==> countFree == if old(countFree) > 0 then old(countFree) - 1 else 0
      ensures forall t :: t <= now && old(Aged(t)) && old(free) != [] ==> Aged(now)
      ensures old(Indexed()) && old(free) != [] ==> (Indexed() <==> key !in old(table))
    {
      FreeHead();
      if next[FREE] == NIL { return NIL; }
      var s: nat := next[FREE];
      AddOrders(s, key, now);
      OffsetsFit(s, n, step);
      OffsetSlot(s, step);
      Use(s, key, now);
      offset := s * step;
    }

    /** The body of add_el for the slot on top of the free list. */
    method Use(s: nat, key: u64, now: int)
      requires Valid() && free != [] && s == free[0]
      modifies prev, next, hash, when, `countFree, `table, `used, `free
      ensures Valid() && 3 <= s < n
      ensures used == [s] + old(used) && free == old(free)[1..] && table == old(table)[key := s]
      ensures hash[..] == old(hash[..])[s := key] && when[..] == old(when[..])[s := now]
      ensures countFree == if old(countFree) > 0 then old(countFree) - 1 else 0
    {
      hide Linked, Chained, Partition, Ring;
      assert s in free;
      PartitionTake(n, used, free);
      ghost var next0: seq<nat>, prev0: seq<nat> := next[..], prev[..];
      TakeKeeps(next0, prev0, used, free);
      table := table[key := s];
      next[FREE] := next[s];
      var first: nat := next[HEADER];
      next[s] := first;
      prev[first] := s;
      prev[s] := HEADER;
      next[HEADER] := s;
      when[s] := now;
      hash[s] := key;
      if countFree > 0 { countFree := countFree - 1; }
      used, free := [s] + used, free[1..];
      assert next[..] == next0[FREE := next0[s]][s := first][HEADER := s];
      assert prev[..] == prev0[first := s][s := HEADER];
    }

    /** touch: a used slot moves to the front with a new time; anything off the list is refused. */
    method Touch(s: nat, now: int) returns (ok: bool)
      requires Valid() && s < n && s != TAIL
      modifies prev, next, when, `used
      ensures Valid()
      ensures ok <==> s in old(used)
      ensures !ok ==> used == old(used) && when[..] == old(when[..])
      ensures ok ==> exists i :: 0 <= i < |old(used)| && old(used)[i] == s && used == [s] + Without(old(used), i)
      ensures ok ==> when[..] == old(when[..])[s := now]
      ensures forall t :: ok && t <= now && old(Aged(t)) ==> Aged(now)
      ensures old(Indexed()) ==> Indexed()
    {
      hide Linked, Chained, RecentFirst, IndexedBy;
      OffList(s);
      var p: nat := prev[s];
      if p == NIL { return false; }
      var q: nat := next[s];
      ghost var i: nat :| i < |used| && used[i] == s;
      ghost var next0: seq<nat>, prev0: seq<nat> := next[..], prev[..];
      TouchOrders(i, now);
      PartitionTouch(n, used, free, i);
      TouchKeeps(next0, prev0, used, free, i);
      next[p] := q;
      prev[q] := p;
      var first: nat := next[HEADER];
      next[s] := first;
      prev[first] := s;
      next[HEADER] := s;
      prev[s] := HEADER;
      when[s] := now;
      used := [s] + Without(used, i);
      assert next[..] == next0[p := q][s := first][HEADER := s];
      assert prev[..] == prev0[q := p][first := s][s := HEADER];
      return true;
    }

    lemma AddOrders(s: nat, key: nat, now: int)
      requires Valid() && free != [] && s == free[0]
      ensures s !in used && 3 <= s < n
      ensures forall t :: t <= now && Aged(t) ==> RecentFirst(when[..][s := now], [s] + used, now)
      ensures Indexed() ==> (IndexedBy(table[key := s], hash[..][s := key], [s] + used) <==> key !in table)
    {
      assert s in free;
      forall t | t <= now && Aged(t) ensures RecentFirst(when[..][s := now], [s] + used, now) {
        RecentFirstAdd(when[..], used, s, t, now);
      }
      if Indexed() { IndexAdd(table, hash[..], used, s, key); }
    }

    lemma TouchOrders(i: nat, now: int)
      requires Valid() && i < |used|
      ensures used[i] < n
      ensures forall t :: t <= now && Aged(t) ==>
                            RecentFirst(when[..][used[i] := now], [used[i]] + Without(used, i), now)
      ensures Indexed() ==> IndexedBy(table, hash[..], [used[i]] + Without(used, i))
    {
      assert used[i] in used;
      WithoutHas(used, i);
      forall t | t <= now && Aged(t) ensures RecentFirst(when[..][used[i] := now], [used[i]] + Without(used, i), now) {
        RecentFirstWithout(when[..], used, i, t);
        RecentFirstAdd(when[..], Without(used, i), used[i], t, now);
      }
      if Indexed() { IndexTouch(table, hash[..], used, i); }
    }

    /** A slot other than the tail has no predecessor exactly if it is not on the used list. */
    lemma OffList(s: nat)
      requires Valid() && s < n && s != TAIL
      ensures prev[s] == NIL <==> s !in used
    {
      if s in used {
        var i :| 0 <= i < |used| && used[i] == s;
        assert prev[Ring(used)[i + 1]] == Ring(used)[i];
        assert Ring(used)[i] < n;
      }
    }

    /** Only the elements in use have two neighbours; for any other the relinking would write behind the region. */
    lemma TwoLinksExactlyIfUsed(s: nat)
      requires Valid() && s < n
      ensures s in used <==> prev[s] != NIL && next[s] != NIL
    {
      hide Partition, Chained;
      if s != TAIL { OffList(s); }
      if s in used {
        var i :| 0 <= i < |used| && used[i] == s;
        assert next[Ring(used)[i + 1]] == Ring(used)[i + 2];
        assert Ring(used)[i + 2] < n;
      }
      if s == TAIL { TailUnused(); }
    }

    lemma TailUnused()
      requires Valid()
      ensures TAIL !in used
    {
    }

    /**
      del_el on an offset of a used slot: off the used list, onto the free list, out of the table. Offsets outside the
      region or between elements are refused, those of elements in use never.
     */
    method DelEl(offset: nat) returns (ok: bool)
      requires Valid()
      requires offset <= n * step && offset % step == 0 ==> offset / step in used
      modifies prev, next, hash, `countFree, `table, `used, `free
      ensures Valid()
      ensures ok <==> offset <= n * step && offset % step == 0
      ensures offset % step == 0 && offset / step in old(used) ==> ok
      ensures !ok ==> used == old(used) && free == old(free) && table == old(table) && hash[..] == old(hash[..])
      ensures ok ==> var s := offset / step; Removed(old(used), old(hash[..]), s) && free == [s] + old(free)
      ensures ok ==>
                var s := offset / step;
                table == old(table) - {old(hash[s])} && hash[..] == old(hash[..])[s := UINT64_MAX]
      ensures countFree == if ok then (old(countFree) + 1) % 0x1_0000 else old(countFree)
      ensures forall t :: old(Aged(t)) ==> Aged(t)
      ensures old(Indexed()) ==> Indexed()
    {
      UsedInRegion();
      if offset % step == 0 && offset / step in used { InRegion(offset, n, step); }
      if !CheckOffset(offset) { return false; }
      var s := offset / step;
      OffList(s);
      var p, h := prev[s], hash[s];
      if p == NIL && h == NIL { return false; }
      ghost var i: nat :| i < |used| && used[i] == s;
      Remove(s, i);
      return true;
    }

    /** The used list is that of before without slot s, which was on it. */
    ghost predicate Removed(used0: seq<nat>, hash0: seq<nat>, s: nat)
      reads this
    {
      s < |hash0| && exists i :: 0 <= i < |used0| && used0[i] == s && used == Without(used0, i)
    }

    /** The body of del_el for the slot at place i of the used list. */
    method Remove(s: nat, ghost i: nat)
      requires Valid() && i < |used| && used[i] == s
      modifies prev, next, hash, `countFree, `table, `used, `free
      ensures Valid() && 3 <= s < n
      ensures used == Without(old(used), i) && free == [s] + old(free)
      ensures table == old(table) - {old(hash[s])} && hash[..] == old(hash[..])[s := UINT64_MAX]
      ensures countFree == (old(countFree) + 1) % TWO16
      ensures forall t :: old(Aged(t)) ==> Aged(t)
      ensures old(Indexed()) ==> Indexed()
    {
      RemoveOrders(i);
      Release(s, i);
    }

    /** The writes of del_el. */
    method Release(s: nat, ghost i: nat)
      requires Valid() && i < |used| && used[i] == s
      modifies prev, next, hash, `countFree, `table, `used, `free
      ensures Valid() && 3 <= s < n
      ensures used == Without(old(used), i) && free == [s] + old(free)
      ensures table == old(table) - {old(hash[s])} && hash[..] == old(hash[..])[s := UINT64_MAX]
      ensures countFree == (old(countFree) + 1) % TWO16
    {
      hide Linked, Chained, RecentFirst, IndexedBy;
      PartitionGive(n, used, free, i);
      ghost var next0: seq<nat>, prev0: seq<nat> := next[..], prev[..];
      GiveKeeps(next0, prev0, used, free, i);
      var p: nat := prev[s];
      var key := hash[s];
      var q: nat := next[s];
      next[p] := q;
      prev[q] := p;
      hash[s] := UINT64_MAX;
      prev[s] := NIL;
      next[s] := next[FREE];
      next[FREE] := s;
      table := table - {key};
      countFree := (countFree + 1) % TWO16;
      used, free := Without(used, i), [s] + free;
      assert next[..] == next0[p := q][s := next0[FREE]][FREE := s];
      assert prev[..] == prev0[q := p][s := NIL];
    }

    lemma RemoveOrders(i: nat)
      requires Valid() && i < |used|
      ensures 3 <= used[i] < n && used[i] !in free
      ensures forall t :: Aged(t) ==> RecentFirst(when[..], Without(used, i), t)
      ensures Indexed() ==> IndexedBy(table - {hash[used[i]]}, hash[..][used[i] := UINT64_MAX], Without(used, i))
    {
      assert used[i] in used;
      forall t | Aged(t) ensures RecentFirst(when[..], Without(used, i), t) {
        RecentFirstWithout(when[..], used, i, t);
      }
      if Indexed() { IndexRemove(table, hash[..], used, i, UINT64_MAX); }
    }

    /**
      evict_least_used: the oldest elements, oldest first, at most max(1, max_evict) of them and all but
      the last of them older than the cutoff; it stops only for a reason.
     */
    method EvictLeastUsed(cutoff: int, maxEvict: nat) returns (ev: seq<nat>)
      requires Valid() && maxEvict < 256
      modifies prev, next, hash, `countFree, `table, `used, `free
      ensures Valid()
      ensures FromTheBack(ev, old(hash[..]), old(used)) && used == old(used)[..|old(used)| - |ev|]
      ensures free == old(used)[|used|..] + old(free) && table == old(table) - (set k | k in ev)
      ensures forall s :: 0 <= s < n ==> hash[s] == if s in old(used)[|used|..] then UINT64_MAX else old(hash[..])[s]
      ensures forall s :: s in used ==> s < n && hash[s] == old(hash[..])[s]
      ensures countFree == (old(countFree) + |ev|) % 0x1_0000
      ensures ev == [] <==> old(used) == []
      ensures |ev| <= if maxEvict == 0 then 1 else maxEvict
      ensures AllOlder(when[..], old(used), |ev| - 1, cutoff)
      ensures used == [] || |ev| >= maxEvict || !AllOlder(when[..], old(used), |ev|, cutoff)
      ensures forall t :: old(Aged(t)) ==> Aged(t)
      ensures forall t :: old(Aged(t)) ==> OldestGone(when[..], old(used), |used|)
      ensures old(Indexed()) ==> Indexed()
    {
      hide Partition, Linked, Chained;
      UsedInRegion();
      ghost var b0 := Now();
      ev := EvictWhile(cutoff, maxEvict);
      WhatStays(b0.used);
      KeptMarks(ev, b0, Now(), UINT64_MAX);
    }

    ghost function Now(): Book
      reads this, hash
    {
      Book(hash[..], table, used, free)
    }

    method EvictWhile(cutoff: int, maxEvict: nat) returns (ev: seq<nat>)
      requires Valid()
      modifies prev, next, hash, `countFree, `table, `used, `free
      ensures Valid() && Evicting(ev, old(Now()), Now(), UINT64_MAX)
      ensures Counted(old(countFree), |ev|, countFree)
      ensures ev == [] <==> old(used) == []
      ensures |ev| <= if maxEvict == 0 then 1 else maxEvict
      ensures AllOlder(when[..], old(used), |ev| - 1, cutoff)
      ensures used == [] || |ev| >= maxEvict || !AllOlder(when[..], old(used), |ev|, cutoff)
      ensures old(Indexed()) ==> Indexed()
    {
      hide Valid, Indexed, Evicting, AllOlder, Back, Now, Counted;
      ghost var b0, indexed, times, c0 := Now(), Indexed(), when[..], countFree;
      ev := [];
      NothingEvicted(cutoff);
      while true
        invariant Valid() && Evicting(ev, b0, Now(), UINT64_MAX) && |ev| + |used| == |b0.used|
        invariant Counted(c0, |ev|, countFree)
        invariant AllOlder(times, b0.used, |ev|, cutoff) && AllOlder(times, b0.used, |ev| - 1, cutoff)
        invariant |ev| == 0 || |ev| < maxEvict
        invariant indexed ==> Indexed()
        decreases |used|
      {
        TailIsLast();
        if prev[TAIL] == HEADER { break; }
        var key, testTime := EvictLast(ev, b0);
        AllOlderStep(times, b0.used, |ev|, cutoff);
        CountNext(c0, |ev|);
        ev := ev + [key];
        if !(testTime < cutoff && |ev| < maxEvict) { break; }
      }
    }

    /** The 16-bit counter went up k times. */
    ghost predicate Counted(before: nat, k: nat, after: nat) {
      after == (before + k) % 0x1_0000
    }

    lemma CountNext(c: nat, k: nat)
      ensures forall x: nat, y: nat :: Counted(c, k, x) && Counted(x, 1, y) ==> Counted(c, k + 1, y)
    {
    }

    lemma NothingEvicted(cutoff: int)
      requires Valid()
      ensures Evicting([], Now(), Now(), UINT64_MAX) && Now().used == used && Counted(countFree, 0, countFree)
      ensures AllOlder(when[..], used, 0, cutoff) && AllOlder(when[..], used, -1, cutoff)
    {
      UsedInRegion();
      EvictingNone(Now(), UINT64_MAX);
    }

    lemma UsedInRegion()
      requires Valid()
      ensures forall i :: 0 <= i < |used| ==> used[i] < n
      ensures forall s :: s in used ==> 3 <= s < n
      ensures Distinct(used)
    {
      assert forall i :: 0 <= i < |used| ==> used[i] in used;
    }

    /** One round of the eviction loop. */
    method EvictLast(ghost ev: seq<nat>, ghost b0: Book) returns (key: nat, testTime: int)
      requires Valid() && used != [] && Evicting(ev, b0, Now(), UINT64_MAX)
      modifies prev, next, hash, `countFree, `table, `used, `free
      ensures Valid() && Evicting(ev + [key], b0, Now(), UINT64_MAX) && |used| + 1 == |old(used)|
      ensures Counted(old(countFree), 1, countFree)
      ensures Back(b0.used, |ev|) < when.Length && testTime == when[Back(b0.used, |ev|)]
      ensures old(Indexed()) ==> Indexed()
    {
      hide Partition, Linked, Chained, Indexed, Evicting;
      TailIsLast();
      UsedInRegion();
      var s: nat := prev[TAIL];
      EvictingStep(ev, b0, Now(), UINT64_MAX);
      key, testTime := hash[s], when[s];
      Remove(s, |used| - 1);
    }

    lemma WhatStays(used0: seq<nat>)
      requires |used| <= |used0| && used == used0[..|used|]
      ensures forall t :: RecentFirst(when[..], used0, t) ==> Aged(t) && OldestGone(when[..], used0, |used|)
    {
      forall t | RecentFirst(when[..], used0, t) ensures Aged(t) && OldestGone(when[..], used0, |used|) {
        BackIsOldest(when[..], used0, t, |used|);
      }
    }

    lemma TailIsLast()
      requires Valid()
      ensures TAIL < prev.Length && (prev[TAIL] == HEADER <==> used == [])
      ensures used != [] ==> prev[TAIL] == used[|used| - 1] && Without(used, |used| - 1) == used[..|used| - 1]
    {
      var full := Ring(used);
      assert full[|full| - 1] == TAIL && prev[full[|full| - 1]] == full[|full| - 2];
      if used != [] { assert full[|full| - 2] == used[|used| - 1] && used[|used| - 1] in used; }
    }

    /** check_for_hash on the local table. */
    method CheckForHash(key: u64) returns (offset: nat)
      requires Valid()
      ensures offset == if key in table then table[key] * step else NIL
      ensures Indexed() && offset != NIL ==> offset % step == 0 && offset / step in used && hash[offset / step] == key
      ensures Indexed() ==> (offset == NIL <==> forall s :: s in used ==> s < n && hash[s] != key)
    {
      if key in table {
        offset := table[key] * step;
        if Indexed() {
          assert table[key] in used;
          OffsetsFit(table[key], n, step);
          OffsetSlot(table[key], step);
        }
        return;
      }
      return NIL;
    }

    /** The test for "already deleted" compares with a 32-bit constant and is false on every free slot. */
    lemma DeletedNeverNoticed(s: nat)
      requires Valid() && s in free
      ensures s < n && prev[s] == NIL && !(prev[s] == NIL && hash[s] == NIL)
    {
    }

    lemma FreeHead()
      requires Valid()
      ensures next[FREE] == NIL <==> free == []
      ensures free != [] ==> next[FREE] == free[0]
    {
      var full := [FREE] + free;
      assert full[0] == FREE;
      if free != [] {
        assert next[full[0]] == full[1];
        assert free[0] in free;
      }
    }
  }

  /** The offset of a slot of the region is below the answer for "none". */
  lemma OffsetsFit(s: nat, n: nat, step: nat)
    requires 0 < step && s < n
    ensures s * step < n * step
  {
  }

  lemma InRegion(offset: nat, n: nat, step: nat)
    requires 0 < step && offset % step == 0 && offset / step < n
    ensures offset <= n * step
  {
    assert offset == (offset / step) * step;
    Monotone(offset / step, n, step);
  }

  lemma OffsetSlot(s: nat, step: nat)
    requires 0 < step
    ensures (s * step) / step == s && (s * step) % step == 0
  {
    var q := (s * step) / step;
    if q < s { Monotone(q + 1, s, step); }
    if s < q { Monotone(s + 1, q, step); }
  }

  lemma Monotone(a: int, b: int, c: int)
    requires 0 <= c && a <= b
    ensures a * c <= b * c
  {
  }

  /** Moving the top of the free list to the front of the used list, as link writes. */
  lemma TakeKeeps(next: seq<nat>, prev: seq<nat>, used: seq<nat>, free: seq<nat>)
    requires Linked(next, prev, Ring(used)) && Chained(next, [FREE] + free) && free != []
    requires Partition(|next|, used, free)
    ensures var s := free[0];
            && 3 <= s < |next| && next[FREE] == s && s !in Ring(used) && FREE !in Ring(used)
            && var first := next[HEADER];
            && first < |next| && first != s && first != FREE && first !in free
            && var next' := next[FREE := next[s]][s := first][HEADER := s];
            && var prev' := prev[first := s][s := HEADER];
            && Linked(next', prev', Ring([s] + used)) && Chained(next', [FREE] + free[1..])
            && prev'[FREE] == prev[FREE] && next'[TAIL] == next[TAIL] && prev'[HEADER] == prev[HEADER]
            && forall x :: x in free[1..] ==> x < |prev| && x != s && prev'[x] == prev[x]
  {
    var s := free[0];
    PartitionRings(|next|, used, free);
    PopKeeps(next, free);
    assert s in free;
    forall x | x in Ring(used) ensures x != FREE && x !in free {
      if x != HEADER && x != TAIL { assert x in used; }
    }
    var next1 := next[FREE := next[s]];
    forall k | 0 <= k < |Ring(used)| ensures Ring(used)[k] != FREE { assert Ring(used)[k] in Ring(used); }
    RingUndisturbed(next, next1, prev, prev, Ring(used));
    LinkKeeps(next1, prev, used, s);
    var full := Ring(used);
    assert full[0] == HEADER && next[full[0]] == full[1] && full[1] in full;
    var first := next[HEADER];
    var next' := next1[s := first][HEADER := s];
    var rest := [FREE] + free[1..];
    forall k | 0 <= k < |rest| ensures next'[rest[k]] == next1[rest[k]] {
      if k > 0 { assert rest[k] == free[k] && free[k] in free; }
    }
    ChainUndisturbed(next1, next', rest);
    forall x | x in free[1..] ensures x in free && x != s { }
  }

  /** Moving slot used[i] to the front, as link writes. */
  lemma TouchKeeps(next: seq<nat>, prev: seq<nat>, used: seq<nat>, free: seq<nat>, i: nat)
    requires Linked(next, prev, Ring(used)) && Chained(next, [FREE] + free)
    requires Partition(|next|, used, free) && i < |used|
    ensures var s := used[i];
            && 3 <= s < |next|
            && var p, q := prev[s], next[s];
            && p < |next| && q < |next|
            && var next1, prev1 := next[p := q], prev[q := p];
            && var first := next1[HEADER];
            && first < |next|
            && var next' := next1[s := first][HEADER := s];
            && var prev' := prev1[first := s][s := HEADER];
            && Linked(next', prev', Ring([s] + Without(used, i))) && Chained(next', [FREE] + free)
            && prev'[FREE] == prev[FREE] && next'[TAIL] == next[TAIL] && prev'[HEADER] == prev[HEADER]
            && forall x :: x in free ==> x < |prev| && prev'[x] == prev[x]
  {
    var s := used[i];
    var p, q := UnlinkedAt(next, prev, used, free, i);
    var next1, prev1 := next[p := q], prev[q := p];
    var rest := Without(used, i);
    WithoutHas(used, i);
    PartitionRings(|next|, rest, [s] + free) by { PartitionGive(|next|, used, free, i); }
    forall x | x in Ring(rest) ensures x != s && x != FREE && x !in free {
      if x != HEADER && x != TAIL { assert x in rest; }
    }
    LinkKeeps(next1, prev1, rest, s);
    var full := Ring(rest);
    assert full[0] == HEADER && next1[full[0]] == full[1] && full[1] in full;
    var first := next1[HEADER];
    var next' := next1[s := first][HEADER := s];
    FreeChainKept(next, next', free, {p, s, HEADER});
  }

  /** Moving slot used[i] to the top of the free list, as link writes. */
  lemma GiveKeeps(next: seq<nat>, prev: seq<nat>, used: seq<nat>, free: seq<nat>, i: nat)
    requires Linked(next, prev, Ring(used)) && Chained(next, [FREE] + free)
    requires Partition(|next|, used, free) && i < |used|
    ensures var s := used[i];
            && 3 <= s < |next|
            && var p, q := prev[s], next[s];
            && p < |next| && q < |next| && p != s && q != s && p != FREE
            && var next' := next[p := q][s := next[FREE]][FREE := s];
            && var prev' := prev[q := p][s := NIL];
            && Linked(next', prev', Ring(Without(used, i))) && Chained(next', [FREE] + ([s] + free))
            && prev'[FREE] == prev[FREE] && next'[TAIL] == next[TAIL] && prev'[HEADER] == prev[HEADER]
            && forall x :: x in free ==> x < |prev| && prev'[x] == prev[x]
  {
    var s := used[i];
    var p, q := UnlinkedAt(next, prev, used, free, i);
    var next1, prev1 := next[p := q], prev[q := p];
    var rest := Without(used, i);
    WithoutHas(used, i);
    assert s in used;
    FreeChainKept(next, next1, free, {p});
    PartitionRings(|next|, used, free);
    PushKeeps(next1, free, s);
    var next', prev' := next1[s := next1[FREE]][FREE := s], prev1[s := NIL];
    forall x | x in Ring(rest) ensures x != s && x != FREE {
      if x != HEADER && x != TAIL { assert x in rest; }
    }
    forall k | 0 <= k < |Ring(rest)| ensures Ring(rest)[k] != s && Ring(rest)[k] != FREE {
      assert Ring(rest)[k] in Ring(rest);
    }
    RingUndisturbed(next1, next', prev1, prev', Ring(rest));
  }

  /** Unlinking used[i]: its neighbours, and the links without it. */
  lemma UnlinkedAt(next: seq<nat>, prev: seq<nat>, used: seq<nat>, free: seq<nat>, i: nat) returns (p: nat, q: nat)
    requires Linked(next, prev, Ring(used)) && Partition(|next|, used, free) && i < |used|
    ensures 3 <= used[i] < |next| && prev[used[i]] == p && next[used[i]] == q && p < |next| && q < |next|
    ensures p != used[i] && q != used[i] && p != TAIL && q != HEADER
    ensures p != FREE && q != FREE && p !in free && q !in free
    ensures Linked(next[p := q], prev[q := p], Ring(Without(used, i)))
  {
    var full := Ring(used);
    PartitionRings(|next|, used, free);
    assert used[i] in used;
    assert full[i + 1] == used[i];
    p, q := full[i], full[i + 2];
    assert next[full[i + 1]] == full[i + 2] && prev[full[i + 1]] == full[i];
    forall x | x in full ensures x != FREE && x !in free {
      if x != HEADER && x != TAIL { assert x in used; }
    }
    assert p in full && q in full;
    assert full[0] == HEADER && full[|full| - 1] == TAIL;
    UnlinkKeeps(next, prev, full, i + 1);
    RingWithout(used, i);
  }

  /** Writes outside the free list leave its chain alone. */
  lemma FreeChainKept(next: seq<nat>, next': seq<nat>, free: seq<nat>, touched: set<nat>)
    requires Chained(next, [FREE] + free) && |next'| == |next|
    requires forall x :: 0 <= x < |next| && x !in touched ==> next'[x] == next[x]
    requires FREE !in touched && forall x :: x in free ==> x !in touched
    ensures Chained(next', [FREE] + free)
  {
    var full := [FREE] + free;
    forall k | 0 <= k < |full| ensures next'[full[k]] == next[full[k]] {
      if k > 0 { assert full[k] in free; }
    }
    ChainUndisturbed(next, next', full);
  }
}
