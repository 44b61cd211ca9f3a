/**
  The state of a serial hopscotch table: a value array (0 is empty) and one membership word per home
  bucket, tied to a history-free reading of the slots as cells, each free or held by one home bucket.
 */
module HopscotchState {
  import opened Bits32

  type u32 = x: nat | x < 0x1_0000_0000
  type u64 = x: nat | x < 0x1_0000_0000_0000_0000

  const UINT32_MAX: nat := 0xFFFF_FFFF

  /** Size of a neighbourhood (_neighbor): the width of a membership word. */
  const K: nat := 32

  /** A slot, seen from outside: free, or holding a value that belongs to a home bucket. */
  datatype Cell = Free | Held(home: nat, v: u64)

  /** The macro MOD: one conditional subtraction. */
  function Mod(x: nat, n: nat): nat
    requires 0 < n
  {
    if x < n then x else x - n
  }

  /** The slot i places after bucket b. */
  function Slot(n: nat, b: nat, i: nat): (s: nat)
    requires b < n && i < n
    ensures s < n
  {
    Mod(b + i, n)
  }

  /** The conditional subtraction is the remainder, for what is added here. */
  lemma SlotIsRemainder(n: nat, b: nat, i: nat)
    requires b < n && i < n
    ensures Slot(n, b, i) == (b + i) % n
  {
    var q, r := (b + i) / n, (b + i) % n;
    assert b + i == q * n + r;
    Twice(q, n);
  }

  lemma Twice(q: nat, n: nat)
    ensures q == 0 ==> q * n == 0
    ensures q == 1 ==> q * n == n
    ensures q >= 2 ==> q * n >= 2 * n
  {
  }

  /** How far slot j lies after bucket b, going round. */
  function Distance(n: nat, b: nat, j: nat): (d: nat)
    requires b < n && j < n
    ensures d < n && Slot(n, b, d) == j
    ensures forall i :: 0 <= i < n && Slot(n, b, i) == j ==> i == d
  {
    if j >= b then j - b else j + n - b
  }

  ghost predicate CellOk(n: nat, h: seq<Word>, v: seq<u64>, cells: seq<Cell>, j: nat)
    requires j < n && |h| == |v| == |cells| == n
  {
    match cells[j]
    case Free => v[j] == 0
    case Held(b, x) => x == v[j] && x != 0 && b < n && Distance(n, b, j) < 32 && h[b][Distance(n, b, j)]
  }

  ghost predicate BitOk(n: nat, h: seq<Word>, cells: seq<Cell>, b: nat, i: nat)
    requires b < n && i < 32 && |h| == |cells| == n
  {
    h[b][i] ==> i < n && cells[Slot(n, b, i)].Held? && cells[Slot(n, b, i)].home == b
  }

  /** Bit i of bucket b is set exactly if the slot i places after b is occupied and owned by b. */
  ghost predicate Rep(n: nat, h: seq<Word>, v: seq<u64>, cells: seq<Cell>) {
    && 0 < n && |h| == |v| == |cells| == n
    && (forall j :: 0 <= j < n ==> CellOk(n, h, v, cells, j))
    && (forall b, i :: 0 <= b < n && 0 <= i < 32 ==> BitOk(n, h, cells, b, i))
  }

  lemma BitMeansOwned(n: nat, h: seq<Word>, v: seq<u64>, cells: seq<Cell>, b: nat, i: nat)
    requires Rep(n, h, v, cells) && b < n && i < 32 && i < n
    ensures h[b][i] <==> var s := (b + i) % n; v[s] != 0 && cells[s] == Held(b, v[s])
  {
    hide Rep, CellOk, BitOk;
    SlotIsRemainder(n, b, i);
    BitOwned(n, h, v, cells, b, i);
    HeldIsValue(n, h, v, cells, Slot(n, b, i));
  }

  lemma HeldIsValue(n: nat, h: seq<Word>, v: seq<u64>, cells: seq<Cell>, j: nat)
    requires Rep(n, h, v, cells) && j < n
    ensures |cells| == |v| == n && (cells[j].Held? ==> cells[j].v == v[j] != 0)
  {
    assert CellOk(n, h, v, cells, j);
  }

  lemma BitOwned(n: nat, h: seq<Word>, v: seq<u64>, cells: seq<Cell>, b: nat, i: nat)
    requires Rep(n, h, v, cells) && b < n && i < 32 && i < n
    ensures h[b][i] <==> cells[Slot(n, b, i)].Held? && cells[Slot(n, b, i)].home == b
  {
    assert BitOk(n, h, cells, b, i);
    assert CellOk(n, h, v, cells, Slot(n, b, i));
  }

  // ----- Arithmetic of hopping -----

  /**
    A hop from distance d over bucket z: the hole moves from j to i places after z, and its new
    distance from h, computed with wrap-around, is exactly j - i less.
   */
  lemma HopDistance(n: nat, h: nat, d: nat, j: nat, i: nat)
    requires h < n && 32 <= d < n && i < j < 32
    ensures var hd := Mod(h + d, n);
            var z := Mod(n + hd - j, n);
            && z < n && Slot(n, z, j) == hd
            && n + z + i - h >= 0
            && Mod(n + z + i - h, n) == d - (j - i)
            && Mod(h + (d - (j - i)), n) == Slot(n, z, i)
  {
  }

  // ----- Counting -----

  function TotalBits(h: seq<Word>): nat {
    if h == [] then 0 else Pop(h[0], 0) + TotalBits(h[1..])
  }

  lemma {:induction false} TotalOfUpdate(h: seq<Word>, b: nat, i: nat, x: bool)
    requires b < |h| && i < 32
    ensures TotalBits(h[b := h[b][i := x]]) == TotalBits(h) + (if h[b][i] == x then 0 else if x then 1 else -1)
  {
    var h' := h[b := h[b][i := x]];
    if b == 0 {
      PopOfUpdate(h[0], i, x, 0);
      assert h'[1..] == h[1..];
    } else {
      TotalOfUpdate(h[1..], b - 1, i, x);
      assert h'[1..] == h[1..][b - 1 := h[1..][b - 1][i := x]];
    }
  }

  lemma {:induction false} TotalOfZero(h: seq<Word>)
    requires forall b :: 0 <= b < |h| ==> h[b] == Zero()
    ensures TotalBits(h) == 0
  {
    if h != [] { PopOfZero(0); TotalOfZero(h[1..]); }
  }

  lemma {:induction false} PopOfZero(i: nat)
    requires i <= 32
    ensures Pop(Zero(), i) == 0
    decreases 32 - i
  {
    if i < 32 { PopOfZero(i + 1); }
  }

  // ----- The three changes -----

  /** Moving the value of slot (z + i) to the free slot (z + j), with its bit. */
  lemma MoveKeeps(n: nat, h: seq<Word>, v: seq<u64>, cells: seq<Cell>, z: nat, i: nat, j: nat)
    requires Rep(n, h, v, cells) && z < n && i < 32 && j < 32 && i < n && j < n && i != j
    requires h[z][i] && cells[Slot(n, z, j)] == Free
    ensures var si, sj := Slot(n, z, i), Slot(n, z, j);
            && si != sj && !h[z][j]
            && Rep(n, h[z := h[z][i := false][j := true]], v[si := 0][sj := v[si]], cells[si := Free][sj := cells[si]])
            && multiset(cells[si := Free][sj := cells[si]]) == multiset(cells)
  {
    var si, sj := Slot(n, z, i), Slot(n, z, j);
    BitOwned(n, h, v, cells, z, i);
    BitOwned(n, h, v, cells, z, j);
    var h' := h[z := h[z][i := false][j := true]];
    var v' := v[si := 0][sj := v[si]];
    var cells' := cells[si := Free][sj := cells[si]];
    forall x | 0 <= x < n ensures CellOk(n, h', v', cells', x) {
      assert CellOk(n, h, v, cells, x);
      assert CellOk(n, h, v, cells, si);
    }
    forall b, k | 0 <= b < n && 0 <= k < 32 ensures BitOk(n, h', cells', b, k) {
      assert BitOk(n, h, cells, b, k);
      if b == z && k != i && k != j && h[b][k] {
        assert Slot(n, z, k) != si && Slot(n, z, k) != sj;
      }
    }
    MultisetMove(cells, si, sj);
  }

  lemma MultisetMove(s: seq<Cell>, a: nat, b: nat)
    requires a < |s| && b < |s| && a != b && s[b] == Free
    ensures multiset(s[a := Free][b := s[a]]) == multiset(s)
  {
    assert multiset(s[a := Free]) == multiset(s) - multiset{s[a]} + multiset{Free};
    assert multiset(s[a := Free][b := s[a]]) == multiset(s[a := Free]) - multiset{Free} + multiset{s[a]};
    assert s[a] in multiset(s);
  }

  /** Storing x in the free slot d places after bucket b. */
  lemma InsertKeeps(n: nat, h: seq<Word>, v: seq<u64>, cells: seq<Cell>, b: nat, d: nat, x: u64)
    requires Rep(n, h, v, cells) && b < n && d < 32 && d < n && x != 0 && cells[Slot(n, b, d)] == Free
    ensures var s := Slot(n, b, d);
            && !h[b][d]
            && Rep(n, h[b := h[b][d := true]], v[s := x], cells[s := Held(b, x)])
            && multiset(cells[s := Held(b, x)]) == multiset(cells) - multiset{Free} + multiset{Held(b, x)}
  {
    var s := Slot(n, b, d);
    BitOwned(n, h, v, cells, b, d);
    var h' := h[b := h[b][d := true]];
    var v' := v[s := x];
    var cells' := cells[s := Held(b, x)];
    forall j | 0 <= j < n ensures CellOk(n, h', v', cells', j) {
      assert CellOk(n, h, v, cells, j);
    }
    forall c, k | 0 <= c < n && 0 <= k < 32 ensures BitOk(n, h', cells', c, k) {
      assert BitOk(n, h, cells, c, k);
    }
  }

  /** Emptying the slot i places after bucket b, which owns it. */
  lemma DeleteKeeps(n: nat, h: seq<Word>, v: seq<u64>, cells: seq<Cell>, b: nat, i: nat)
    requires Rep(n, h, v, cells) && b < n && i < 32 && h[b][i]
    ensures i < n
    ensures var s := Slot(n, b, i);
            && cells[s] == Held(b, v[s])
            && Rep(n, h[b := h[b][i := false]], v[s := 0], cells[s := Free])
            && multiset(cells[s := Free]) == multiset(cells) - multiset{Held(b, v[s])} + multiset{Free}
  {
    assert BitOk(n, h, cells, b, i);
    var s := Slot(n, b, i);
    assert CellOk(n, h, v, cells, s);
    var h' := h[b := h[b][i := false]];
    var v' := v[s := 0];
    var cells' := cells[s := Free];
    forall j | 0 <= j < n ensures CellOk(n, h', v', cells', j) {
      assert CellOk(n, h, v, cells, j);
    }
    forall c, k | 0 <= c < n && 0 <= k < 32 ensures BitOk(n, h', cells', c, k) {
      assert BitOk(n, h, cells, c, k);
      if h'[c][k] { assert h[c][k] && Slot(n, c, k) != s; }
    }
  }
}
