/**
  Chains of slots inside a flat region: a doubly linked one between a header and a tail, and a singly
  linked free list. Slots are offsets divided by the step.
 */
module LruLists {

  const NIL: nat := 0xFFFF_FFFF
  const HEADER: nat := 0
  const TAIL: nat := 1
  const FREE: nat := 2

  ghost predicate Distinct(s: seq<nat>) {
    forall i, j :: 0 <= i < j < |s| ==> s[i] != s[j]
  }

  /** Neighbours along `full` point at each other. */
  ghost predicate Linked(next: seq<nat>, prev: seq<nat>, full: seq<nat>) {
    && |next| == |prev|
    && (forall i :: 0 <= i < |full| ==> full[i] < |next|)
    && (forall i :: 0 <= i < |full| - 1 ==> next[full[i]] == full[i + 1])
    && (forall i :: 0 < i < |full| ==> prev[full[i]] == full[i - 1])
  }

  /** Each slot of `full` points at the next, the last at nothing. */
  ghost predicate Chained(next: seq<nat>, full: seq<nat>) {
    && (forall i :: 0 <= i < |full| ==> full[i] < |next|)
    && (forall i :: 0 <= i < |full| - 1 ==> next[full[i]] == full[i + 1])
    && (full != [] ==> next[full[|full| - 1]] == NIL)
  }

  function Without(s: seq<nat>, i: nat): seq<nat>
    requires i < |s|
  {
    s[..i] + s[i + 1..]
  }

  /** The used list with its two sentinels. */
  function Ring(used: seq<nat>): seq<nat> {
    [HEADER] + used + [TAIL]
  }

  lemma RingWithout(used: seq<nat>, i: nat)
    requires i < |used|
    ensures Ring(Without(used, i)) == Without(Ring(used), i + 1)
    ensures Ring(used)[i + 1] == used[i]
  {
  }

  /** Taking slot full[i] out by joining its neighbours. */
  lemma UnlinkKeeps(next: seq<nat>, prev: seq<nat>, full: seq<nat>, i: nat)
    requires Linked(next, prev, full) && Distinct(full) && 0 < i < |full| - 1
    ensures Linked(next[full[i - 1] := full[i + 1]], prev[full[i + 1] := full[i - 1]], Without(full, i))
  {
    var s := Without(full, i);
    var next' := next[full[i - 1] := full[i + 1]];
    var prev' := prev[full[i + 1] := full[i - 1]];
    forall k | 0 <= k < |s| - 1 ensures next'[s[k]] == s[k + 1] {
      if k >= i { assert s[k] == full[k + 1] && s[k + 1] == full[k + 2]; }
    }
    forall k | 0 < k < |s| ensures prev'[s[k]] == s[k - 1] {
      if k > i { assert s[k] == full[k + 1] && s[k - 1] == full[k]; }
    }
  }

  /** Putting a new slot x behind the header. */
  lemma LinkKeeps(next: seq<nat>, prev: seq<nat>, used: seq<nat>, x: nat)
    requires Linked(next, prev, Ring(used)) && Distinct(Ring(used)) && x < |next| && x !in Ring(used)
    ensures var first := next[HEADER];
            && first < |next| && first != x
            && Linked(next[x := first][HEADER := x], prev[first := x][x := HEADER], Ring([x] + used))
  {
    var full := Ring(used);
    var s := Ring([x] + used);
    assert full[0] == HEADER && next[full[0]] == full[1];
    var first := next[HEADER];
    assert first in full;
    var next' := next[x := first][HEADER := x];
    var prev' := prev[first := x][x := HEADER];
    assert s[0] == HEADER && s[1] == x;
    assert forall k :: 2 <= k < |s| ==> s[k] == full[k - 1];
    forall k | 0 <= k < |s| - 1 ensures next'[s[k]] == s[k + 1] {
      if k >= 2 { assert next[full[k - 1]] == full[k]; assert full[k - 1] in full; }
    }
    forall k | 0 < k < |s| ensures prev'[s[k]] == s[k - 1] {
      if k >= 3 { assert prev[full[k - 1]] == full[k - 2]; assert full[k - 1] in full; assert full[k - 1] != full[1]; }
    }
    forall k | 0 <= k < |s| ensures s[k] < |next'| {
      if k >= 2 { assert full[k - 1] < |next|; }
    }
  }

  /** Changing links of slots outside a chain does not disturb it. */
  lemma ChainUndisturbed(next: seq<nat>, next': seq<nat>, full: seq<nat>)
    requires Chained(next, full) && |next'| == |next| && forall k :: 0 <= k < |full| ==> next'[full[k]] == next[full[k]]
    ensures Chained(next', full)
  {
  }

  lemma RingUndisturbed(next: seq<nat>, next': seq<nat>, prev: seq<nat>, prev': seq<nat>, full: seq<nat>)
    requires Linked(next, prev, full) && |next'| == |next| && |prev'| == |prev|
    requires forall k :: 0 <= k < |full| ==> next'[full[k]] == next[full[k]] && prev'[full[k]] == prev[full[k]]
    ensures Linked(next', prev', full)
  {
  }

  lemma PopKeeps(next: seq<nat>, free: seq<nat>)
    requires Chained(next, [FREE] + free) && free != [] && Distinct([FREE] + free)
    ensures FREE < |next| && free[0] < |next| && next[FREE] == free[0]
    ensures Chained(next[FREE := next[free[0]]], [FREE] + free[1..])
  {
    var full := [FREE] + free;
    assert full[0] == FREE && full[1] == free[0] && full[0] < |next| && full[1] < |next|;
    assert next[full[0]] == full[1];
    var s := [FREE] + free[1..];
    var next' := next[FREE := next[free[0]]];
    assert forall k :: 1 <= k < |s| ==> s[k] == full[k + 1];
    if |free| > 1 { assert next[full[1]] == full[2]; }
    forall k | 0 <= k < |s| - 1 ensures next'[s[k]] == s[k + 1] {
      if k >= 1 { assert next[full[k + 1]] == full[k + 2]; }
    }
  }

  lemma PushKeeps(next: seq<nat>, free: seq<nat>, x: nat)
    requires Chained(next, [FREE] + free) && x < |next| && x != FREE && x !in free && Distinct([FREE] + free)
    ensures FREE < |next|
    ensures Chained(next[x := next[FREE]][FREE := x], [FREE] + ([x] + free))
  {
    var full := [FREE] + free;
    var s := [FREE] + ([x] + free);
    assert full[0] == FREE;
    var next' := next[x := next[FREE]][FREE := x];
    assert s[1] == x && forall k :: 2 <= k < |s| ==> s[k] == full[k - 1] && s[k] in free;
    if free != [] { assert next[full[0]] == full[1]; }
    forall k | 0 <= k < |s| - 1 ensures next'[s[k]] == s[k + 1] {
      if k >= 2 { assert next[full[k - 1]] == full[k]; }
    }
    forall k | 0 <= k < |s| ensures s[k] < |next'| {
      if k >= 2 { assert full[k - 1] < |next|; }
    }
  }

  /** Along `used` the times do not increase, and none is after `now`. */
  ghost predicate RecentFirst(when: seq<int>, used: seq<nat>, now: int) {
    && (forall i :: 0 <= i < |used| ==> used[i] < |when| && when[used[i]] <= now)
    && (forall i, j :: 0 <= i < j < |used| ==> when[used[i]] >= when[used[j]])
  }

  lemma RecentFirstAdd(when: seq<int>, used: seq<nat>, s: nat, t: int, now: int)
    requires RecentFirst(when, used, t) && t <= now && s < |when| && s !in used
    ensures RecentFirst(when[s := now], [s] + used, now)
  {
    assert forall i :: 0 <= i < |used| ==> used[i] in used;
  }

  lemma RecentFirstWithout(when: seq<int>, used: seq<nat>, i: nat, t: int)
    requires RecentFirst(when, used, t) && i < |used|
    ensures RecentFirst(when, Without(used, i), t)
  {
    var w := Without(used, i);
    forall k | 0 <= k < |w| ensures w[k] == used[if k < i then k else k + 1] { }
  }

  /** The j-th slot from the end. */
  function Back(s: seq<nat>, j: int): nat {
    if 0 <= j < |s| then s[|s| - 1 - j] else NIL
  }

  /** The eviction list `ev` names the slots from the back of the used list on, last first. */
  ghost predicate FromTheBack(ev: seq<nat>, hash: seq<nat>, used: seq<nat>) {
    && |ev| <= |used|
    && forall j {:trigger ev[j]} :: 0 <= j < |ev| ==> Back(used, j) < |hash| && ev[j] == hash[Back(used, j)]
  }

  /** The last k slots are all older than the cutoff. */
  ghost predicate AllOlder(when: seq<int>, used: seq<nat>, k: int, cutoff: int) {
    forall j {:trigger Back(used, j)} :: 0 <= j < k ==> Back(used, j) < |when| && when[Back(used, j)] < cutoff
  }

  lemma AllOlderStep(when: seq<int>, used: seq<nat>, k: nat, cutoff: int)
    requires Back(used, k) < |when|
    ensures AllOlder(when, used, k + 1, cutoff) <==> AllOlder(when, used, k, cutoff) && when[Back(used, k)] < cutoff
  {
  }

  /** What the lists and the hash table say, besides links and times. */
  datatype Book = Book(hash: seq<nat>, table: map<nat, nat>, used: seq<nat>, free: seq<nat>)

  /**
    From `b0` to `b` the slots at the back were evicted, and reported in `ev`, last first: each is marked with x and
    pushed onto the free list, and its key is gone from the table. Nothing else changed.
   */
  ghost predicate Evicting(ev: seq<nat>, b0: Book, b: Book, x: nat) {
    && Distinct(b0.used) && |ev| + |b.used| == |b0.used| && b.used == b0.used[..|b.used|]
    && FromTheBack(ev, b0.hash, b0.used)
    && Marked(b0.hash, b.hash, b0.used[|b.used|..], x)
    && b.free == b0.used[|b.used|..] + b0.free
    && b.table == b0.table - (set k | k in ev)
  }

  /** The marks of the slots in `gone` are x, all others what they were. */
  ghost predicate Marked(hash0: seq<nat>, hash: seq<nat>, gone: seq<nat>, x: nat) {
    |hash| == |hash0| && forall s :: 0 <= s < |hash0| ==> hash[s] == if s in gone then x else hash0[s]
  }

  lemma EvictingNone(b: Book, x: nat)
    requires Distinct(b.used)
    ensures Evicting([], b, b, x)
  {
    var none: seq<nat> := [];
    assert b.used[|b.used|..] == none && (set k | k in none) == {};
    assert b.table - (set k | k in none) == b.table;
  }

  lemma FromTheBackStep(ev: seq<nat>, hash: seq<nat>, used: seq<nat>)
    requires FromTheBack(ev, hash, used) && |ev| < |used| && Back(used, |ev|) < |hash|
    ensures FromTheBack(ev + [hash[Back(used, |ev|)]], hash, used)
  {
    var ev' := ev + [hash[Back(used, |ev|)]];
    forall j | 0 <= j < |ev'| ensures Back(used, j) < |hash| && ev'[j] == hash[Back(used, j)] {
      if j < |ev| { assert ev'[j] == ev[j]; }
    }
  }

  lemma MarkedStep(hash0: seq<nat>, hash: seq<nat>, gone: seq<nat>, x: nat, s: nat)
    requires Marked(hash0, hash, gone, x) && s < |hash0| && s !in gone
    ensures hash[s] == hash0[s] && Marked(hash0, hash[s := x], [s] + gone, x)
  {
  }

  lemma WithoutOneMore(table: map<nat, nat>, ev: seq<nat>, key: nat)
    ensures table - (set k | k in ev + [key]) == table - (set k | k in ev) - {key}
  {
    assert (set k | k in ev + [key]) == (set k | k in ev) + {key};
  }

  lemma EvictingStep(ev: seq<nat>, b0: Book, b: Book, x: nat)
    requires Evicting(ev, b0, b, x) && b.used != [] && b.used[|b.used| - 1] < |b.hash|
    ensures var s := b.used[|b.used| - 1];
            && s == Back(b0.used, |ev|)
            && Evicting(ev + [b.hash[s]], b0,
                        Book(b.hash[s := x], b.table - {b.hash[s]}, b.used[..|b.used| - 1], [s] + b.free), x)
  {
    hide FromTheBack, Marked, Distinct;
    var m, s := |b.used| - 1, b.used[|b.used| - 1];
    assert b0.used[m] == s && b0.used[m..] == [s] + b0.used[m + 1..];
    StillThere(b0.used, m);
    MarkedSize(b0.hash, b.hash, b0.used[m + 1..], x);
    MarkedStep(b0.hash, b.hash, b0.used[m + 1..], x, s);
    FromTheBackStep(ev, b0.hash, b0.used);
    WithoutOneMore(b0.table, ev, b.hash[s]);
  }

  lemma MarkedSize(hash0: seq<nat>, hash: seq<nat>, gone: seq<nat>, x: nat)
    requires Marked(hash0, hash, gone, x)
    ensures |hash| == |hash0|
  {
  }

  lemma StillThere(used: seq<nat>, m: nat)
    requires Distinct(used) && m < |used|
    ensures used[m] !in used[m + 1..]
  {
  }

  /** What was not evicted keeps its mark. */
  lemma KeptMarks(ev: seq<nat>, b0: Book, b: Book, x: nat)
    requires Evicting(ev, b0, b, x) && forall s :: s in b0.used ==> s < |b0.hash|
    ensures forall s :: s in b.used ==> s < |b.hash| && s < |b0.hash| && b.hash[s] == b0.hash[s]
  {
    forall s | s in b.used ensures s in b0.used && s !in b0.used[|b.used|..] {
      var i :| 0 <= i < |b.used| && b.used[i] == s;
      assert b0.used[i] == s;
    }
  }

  /** What was at place m and behind is no younger than anything before it. */
  ghost predicate OldestGone(when: seq<int>, used: seq<nat>, m: nat) {
    && m <= |used|
    && forall x, y :: x in used[..m] && y in used[m..] ==> x < |when| && y < |when| && when[x] >= when[y]
  }

  /** With the most recent in front, what is taken from the back is no younger than what stays, oldest first. */
  lemma BackIsOldest(when: seq<int>, used: seq<nat>, t: int, m: nat)
    requires RecentFirst(when, used, t) && m <= |used|
    ensures OldestGone(when, used, m) && RecentFirst(when, used[..m], t) && RecentFirst(when, used[m..], t)
  {
    var stay, go := used[..m], used[m..];
    forall x, y | x in stay && y in go ensures x < |when| && y < |when| && when[x] >= when[y] {
      var i :| 0 <= i < m && used[i] == x;
      var j :| 0 <= j < |go| && go[j] == y;
      assert used[m + j] == y;
    }
    assert forall k :: 0 <= k < |go| ==> go[k] == used[m + k];
  }

  // ----- The hash index -----

  /** The table maps a hash to a slot exactly if that slot is in use under that hash. */
  ghost predicate IndexedBy(table: map<nat, nat>, hash: seq<nat>, used: seq<nat>) {
    && (forall s :: s in used ==> s < |hash|)
    && (forall k, s :: (k in table && table[k] == s) <==> (s in used && s < |hash| && hash[s] == k))
  }

  /** Adding a slot keeps the index right exactly if its key was not in the table. */
  lemma IndexAdd(table: map<nat, nat>, hash: seq<nat>, used: seq<nat>, s: nat, key: nat)
    requires IndexedBy(table, hash, used) && s < |hash| && s !in used
    ensures IndexedBy(table[key := s], hash[s := key], [s] + used) <==> key !in table
  {
    hide IndexedBy;
    if key in table { IndexAddTaken(table, hash, used, s, key); } else { IndexAddNew(table, hash, used, s, key); }
  }

  lemma IndexAddNew(table: map<nat, nat>, hash: seq<nat>, used: seq<nat>, s: nat, key: nat)
    requires IndexedBy(table, hash, used) && s < |hash| && s !in used && key !in table
    ensures IndexedBy(table[key := s], hash[s := key], [s] + used)
  {
    var table', hash', used' := table[key := s], hash[s := key], [s] + used;
    assert forall x :: x in used' <==> x == s || x in used;
    forall k, x ensures (k in table' && table'[k] == x) <==> (x in used' && x < |hash'| && hash'[x] == k) {
      assert (k in table && table[k] == x) <==> (x in used && x < |hash| && hash[x] == k);
    }
  }

  /** A second slot under the same key: the first is in use, and no longer found. */
  lemma IndexAddTaken(table: map<nat, nat>, hash: seq<nat>, used: seq<nat>, s: nat, key: nat)
    requires IndexedBy(table, hash, used) && s < |hash| && s !in used && key in table
    ensures !IndexedBy(table[key := s], hash[s := key], [s] + used)
  {
    var x := table[key];
    assert x in used && hash[x] == key;
    assert x in [s] + used && hash[s := key][x] == key && table[key := s][key] != x;
  }

  lemma IndexRemove(table: map<nat, nat>, hash: seq<nat>, used: seq<nat>, i: nat, x: nat)
    requires IndexedBy(table, hash, used) && i < |used| && Distinct(used)
    ensures used[i] < |hash| && IndexedBy(table - {hash[used[i]]}, hash[used[i] := x], Without(used, i))
  {
    assert used[i] in used;
    WithoutHas(used, i);
    var s := used[i];
    assert table[hash[s]] == s;
    forall y | y in used && hash[y] == hash[s] ensures y == s { assert table[hash[y]] == y; }
  }

  lemma IndexTouch(table: map<nat, nat>, hash: seq<nat>, used: seq<nat>, i: nat)
    requires IndexedBy(table, hash, used) && i < |used| && Distinct(used)
    ensures IndexedBy(table, hash, [used[i]] + Without(used, i))
  {
    WithoutHas(used, i);
    assert used[i] in used;
    assert forall x :: x in [used[i]] + Without(used, i) <==> x in used;
  }

  // ----- Every slot from the fourth on is on exactly one list -----

  ghost predicate Partition(n: nat, used: seq<nat>, free: seq<nat>) {
    && Distinct(used) && Distinct(free)
    && (forall s :: s in used ==> 3 <= s < n && s !in free)
    && (forall s :: s in free ==> 3 <= s < n)
    && (forall s :: 3 <= s < n ==> s in used || s in free)
  }

  lemma PartitionRings(n: nat, used: seq<nat>, free: seq<nat>)
    requires Partition(n, used, free)
    ensures Distinct(Ring(used)) && Distinct([FREE] + free)
  {
    forall i, j | 0 <= i < j < |Ring(used)| ensures Ring(used)[i] != Ring(used)[j] {
      if 0 < i < |used| + 1 { assert used[i - 1] in used; }
      if 0 < j < |used| + 1 { assert used[j - 1] in used; }
    }
    forall i, j | 0 <= i < j < |[FREE] + free| ensures ([FREE] + free)[i] != ([FREE] + free)[j] {
      assert free[j - 1] in free;
    }
  }

  lemma PartitionTake(n: nat, used: seq<nat>, free: seq<nat>)
    requires Partition(n, used, free) && free != []
    ensures Partition(n, [free[0]] + used, free[1..])
  {
    var x := free[0];
    var used', free' := [x] + used, free[1..];
    assert x in free && free == [x] + free';
    forall s ensures s in used' <==> s == x || s in used { }
    forall s ensures s in free <==> s == x || s in free' { }
    forall s | s in free' ensures s != x && s in free {
      var k :| 0 <= k < |free'| && free'[k] == s;
      assert free[k + 1] == s;
    }
  }

  lemma PartitionGive(n: nat, used: seq<nat>, free: seq<nat>, i: nat)
    requires Partition(n, used, free) && i < |used|
    ensures Partition(n, Without(used, i), [used[i]] + free)
  {
    WithoutHas(used, i);
    assert used[i] in used;
  }

  lemma PartitionTouch(n: nat, used: seq<nat>, free: seq<nat>, i: nat)
    requires Partition(n, used, free) && i < |used|
    ensures Partition(n, [used[i]] + Without(used, i), free)
  {
    WithoutHas(used, i);
    assert used[i] in used;
  }

  lemma WithoutHas(s: seq<nat>, i: nat)
    requires Distinct(s) && i < |s|
    ensures forall x :: x in Without(s, i) <==> x in s && x != s[i]
    ensures Distinct(Without(s, i))
  {
    var t := Without(s, i);
    forall k | 0 <= k < |t| ensures t[k] == s[if k < i then k else k + 1] { }
    forall x | x in s && x != s[i] ensures x in t {
      var k :| 0 <= k < |s| && s[k] == x;
      assert t[if k < i then k else k - 1] == x;
    }
  }
}
