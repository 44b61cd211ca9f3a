/**
  The 32-bit membership words of the hopscotch table. A word is the sequence of its bits, lowest
  first, and the operators are those of the macros GET, SET, UNSET and FFS, bit by bit.
 */
module Bits32 {

  const NONE: nat := 0xFFFF_FFFF

  type Word = w: seq<bool> | |w| == 32 witness seq(32, i => false)

  function Zero(): Word {
    seq(32, i => false)
  }

  function And(a: Word, b: Word): Word {
    seq(32, i requires 0 <= i < 32 => a[i] && b[i])
  }

  function Or(a: Word, b: Word): Word {
    seq(32, i requires 0 <= i < 32 => a[i] || b[i])
  }

  function Not(a: Word): Word {
    seq(32, i requires 0 <= i < 32 => !a[i])
  }

  /** a << k: bits pushed over the top are lost. */
  function ShiftLeft(a: Word, k: nat): Word {
    seq(32, i requires 0 <= i < 32 => i >= k && a[i - k])
  }

  function One(): Word {
    seq(32, i => i == 0)
  }

  function Get(w: Word, i: nat): (r: bool)
    requires i < 32
    ensures r == w[i]
  {
    var m := ShiftLeft(One(), i);
    assert And(w, m)[i] == w[i];
    assert And(w, m) == Zero() || exists k :: 0 <= k < 32 && And(w, m)[k] != Zero()[k];
    And(w, m) != Zero()
  }

  function Set(w: Word, i: nat): (r: Word)
    requires i < 32
    ensures r == w[i := true]
  {
    Or(w, ShiftLeft(One(), i))
  }

  function Unset(w: Word, i: nat): (r: Word)
    requires i < 32
    ensures r == w[i := false]
  {
    And(w, Not(ShiftLeft(One(), i)))
  }

  // ----- Scanning -----

  /** The first set bit at or after i, or NONE. */
  function FirstBit(w: Word, i: nat): (r: nat)
    requires i <= 32
    ensures r == NONE || (i <= r < 32 && w[r])
    ensures forall j :: i <= j < 32 && w[j] ==> r <= j
    decreases 32 - i
  {
    if i == 32 then NONE else if w[i] then i else FirstBit(w, i + 1)
  }

  /** The built-in count of trailing zeros, for a word that is not zero. */
  function Ctz(w: Word): (r: nat)
    ensures w != Zero() ==> r < 32 && w[r] && forall j :: 0 <= j < r ==> !w[j]
  {
    assert w != Zero() ==> exists k :: 0 <= k < 32 && w[k] != Zero()[k];
    FirstBit(w, 0)
  }

  function Next(w: Word, i: nat): nat
    requires i < 32
  {
    var h := And(w, ShiftLeft(Not(Zero()), i));
    if h == Zero() then NONE else Ctz(h)
  }

  function Succ(w: Word, i: nat): nat
    requires i < 32
  {
    if Get(w, i) then i else Next(w, i)
  }

  function SuccOrEnd(w: Word, i: nat): nat
    requires i <= 32
  {
    if i == 32 then NONE else Succ(w, i)
  }

  /** Masking off the low bits and counting trailing zeros finds the next set bit, if there is one. */
  lemma SuccIsFirstBit(w: Word, i: nat)
    requires i <= 32
    ensures SuccOrEnd(w, i) == FirstBit(w, i)
  {
    if i < 32 && !w[i] {
      var h := And(w, ShiftLeft(Not(Zero()), i));
      assert forall j :: 0 <= j < 32 ==> h[j] == (i <= j && w[j]);
      if h == Zero() {
        assert forall j :: i <= j < 32 ==> h[j] == w[j];
      }
    }
  }

  /** The set bits from i on, as a scan from one to the next meets them. */
  function Offsets(w: Word, i: nat): seq<nat>
    requires i <= 32
    decreases 32 - i
  {
    var k := FirstBit(w, i);
    if k == NONE then [] else [k] + Offsets(w, k + 1)
  }

  /** The scan meets every set bit, in increasing order and so exactly once. */
  lemma {:induction false} OffsetsAreTheBits(w: Word, i: nat)
    requires i <= 32
    ensures forall b :: b in Offsets(w, i) <==> i <= b < 32 && w[b]
    ensures Ascending(Offsets(w, i)) && |Offsets(w, i)| <= 32 - i
    decreases 32 - i
  {
    var k := FirstBit(w, i);
    if k != NONE {
      var rest := Offsets(w, k + 1);
      OffsetsAreTheBits(w, k + 1);
      assert Offsets(w, i) == [k] + rest;
      forall b ensures b in Offsets(w, i) <==> i <= b < 32 && w[b] {
        assert b in Offsets(w, i) <==> b == k || b in rest;
      }
      forall y | 0 <= y < |rest| ensures k < rest[y] { assert rest[y] in rest; }
    }
  }

  predicate Ascending(s: seq<nat>) {
    forall x, y :: 0 <= x < y < |s| ==> s[x] < s[y]
  }

  // ----- Counting -----

  /** How many of the bits from i on are set. */
  function Pop(w: Word, i: nat): nat
    requires i <= 32
    decreases 32 - i
  {
    if i == 32 then 0 else (if w[i] then 1 else 0) + Pop(w, i + 1)
  }

  lemma {:induction false} PopOfUpdate(w: Word, b: nat, v: bool, i: nat)
    requires b < 32 && i <= 32
    ensures Pop(w[b := v], i) == Pop(w, i) + (if i > b || w[b] == v then 0 else if v then 1 else -1)
    decreases 32 - i
  {
    if i < 32 { PopOfUpdate(w, b, v, i + 1); }
  }
}
