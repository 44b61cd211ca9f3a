/**
  One thread's frame taking steps while nobody else does: how an entry is tagged, met with another value or
  waited for, when the loop over the entries ends, and that a `cas` left alone finishes with the exact answer.
 */
module KcasSolo {
  import opened KcasState
  import opened KcasEvents
  import opened KcasThreads
  import opened Options

  /** Shared memory and the frame that moves. */
  datatype Local = Local(g: Shared, f: Frame)

  /** The frame moves from a to b in one step, without calling or returning. */
  ghost predicate Step(q: Tid, a: Local, b: Local) {
    FrameStep(a.g, q, a.f) == (b.g, Stay(b.f))
  }

  ghost function After(q: Tid, a: Local, n: nat): Option<Local> {
    if n == 0 then Some(a)
    else
      match After(q, a, n - 1)
      case None => None
      case Some(b) =>
        match FrameStep(b.g, q, b.f)
        case (g', Stay(f')) => Some(Local(g', f'))
        case _ => None
  }

  ghost predicate Goes(q: Tid, a: Local, b: Local) {
    exists n :: After(q, a, n) == Some(b)
  }

  lemma Here(q: Tid, a: Local)
    ensures Goes(q, a, a)
  {
    assert After(q, a, 0) == Some(a);
  }

  lemma Then(q: Tid, a: Local, b: Local, c: Local)
    requires Goes(q, a, b) && Step(q, b, c)
    ensures Goes(q, a, c)
  {
    var n: nat :| After(q, a, n) == Some(b);
    assert After(q, a, n + 1) == Some(c);
  }

  lemma {:induction false} AfterPlus(q: Tid, a: Local, b: Local, m: nat, n: nat)
    requires After(q, a, m) == Some(b)
    ensures After(q, a, m + n) == After(q, b, n)
  {
    if n > 0 { AfterPlus(q, a, b, m, n - 1); }
  }

  lemma GoesOn(q: Tid, a: Local, b: Local, c: Local)
    requires Goes(q, a, b) && Goes(q, b, c)
    ensures Goes(q, a, c)
  {
    var m: nat :| After(q, a, m) == Some(b);
    var n: nat :| After(q, b, n) == Some(c);
    AfterPlus(q, a, b, m, n);
  }

  // ----- One entry -----

  /** Nothing an operation depends on has changed, apart from memory and thread q's RDCSS descriptor. */
  ghost predicate Same(q: Tid, g: Shared, g': Shared) {
    && g'.st == g.st && g'.kd == g.kd && g'.hist == g.hist && g'.fate == g.fate && g'.post == g.post
    && forall x :: x != q ==> g'.rd(x) == g.rd(x)
  }

  ghost predicate Looping(f: Frame) {
    f.Run? && f.pc.RLoop? && f.ok
  }

  /** From the head of the loop to the first look at the location of entry i. */
  lemma Fill(q: Tid, a: Local) returns (b: Local)
    requires Looping(a.f) && a.f.i < |a.f.es|
    ensures Goes(q, a, b) && b.f.Run? && b.f == a.f.(pc := b.f.pc) && b.f.pc.RLoad?
    ensures Same(q, a.g, b.g) && b.g.mem == a.g.mem
    ensures var e := a.f.es[a.f.i]; b.g.rd(q) == RDesc(e.loc, e.before, a.f.id, a.f.id.t)
  {
    hide Goes, After;
    var f, e := a.f, a.f.es[a.f.i];
    var b1 := Local(a.g, f.(pc := RBegin));
    var b2 := Local(BeginRound(b1.g, q), f.(pc := RWriteLoc));
    var b3 := Local(WriteRdcss(b2.g, q, b2.g.rd(q).(loc := e.loc)), f.(pc := RWriteBefore));
    var b4 := Local(WriteRdcss(b3.g, q, b3.g.rd(q).(before := e.before)), f.(pc := RWriteTag));
    var b5 := Local(WriteRdcss(b4.g, q, b4.g.rd(q).(tag := f.id)), f.(pc := RWriteStatusOf));
    var b6 := Local(WriteRdcss(b5.g, q, b5.g.rd(q).(statusOf := f.id.t)), f.(pc := REnd));
    b := Local(EndRound(b6.g, q, f.i), f.(pc := RLoad(RoundName(b6.g, q).k)));
    Here(q, a);
    Then(q, a, a, b1);
    Then(q, a, b1, b2);
    Then(q, a, b2, b3);
    Then(q, a, b3, b4);
    Then(q, a, b4, b5);
    Then(q, a, b5, b6);
    Then(q, a, b6, b);
  }

  /** The expected value is there: the thread's RDCSS word takes its place, and the status reads UNDECIDED. */
  lemma Place(q: Tid, a: Local) returns (b: Local)
    requires Looping(a.f) && a.f.i < |a.f.es|
    requires a.g.mem(a.f.es[a.f.i].loc) == Bits(a.f.es[a.f.i].before)
    requires a.g.st(a.f.id.t) == StatusWord(Undecided, a.f.id.s)
    ensures Goes(q, a, b) && Same(q, a.g, b.g)
    ensures b.f.Run? && b.f == a.f.(pc := b.f.pc) && b.f.pc.RSwap? && b.f.pc.undecided
    ensures var e := a.f.es[a.f.i];
            && b.g.rd(q) == RDesc(e.loc, e.before, a.f.id, a.f.id.t)
            && forall l :: b.g.mem(l) == if l == e.loc then Rdcss(RId(q, b.f.pc.k)) else a.g.mem(l)
  {
    hide Goes, After;
    var f, e := a.f, a.f.es[a.f.i];
    var b1 := Fill(q, a);
    var k := b1.f.pc.k;
    var b2 := Local(b1.g, f.(pc := RPlace(k)));
    var b3 := Local(Store(b1.g, e.loc, Rdcss(RId(q, k))), f.(pc := RLoadStatus(k)));
    b := Local(NoteLive(b3.g, RId(q, k), e.loc, true), f.(pc := RSwap(k, true)));
    Then(q, a, b1, b2);
    Then(q, a, b2, b3);
    assert StillUndecided(b3.g, b3.g.rd(q));
    Then(q, a, b3, b);
  }

  /** The expected value is there: the tag takes its place. */
  lemma Tag(q: Tid, a: Local) returns (b: Local)
    requires Looping(a.f) && a.f.i < |a.f.es|
    requires a.g.mem(a.f.es[a.f.i].loc) == Bits(a.f.es[a.f.i].before)
    requires a.g.st(a.f.id.t) == StatusWord(Undecided, a.f.id.s)
    ensures Goes(q, a, b) && b.f == a.f.(i := a.f.i + 1) && Same(q, a.g, b.g)
    ensures forall l :: b.g.mem(l) == if l == a.f.es[a.f.i].loc then Kcas(a.f.id) else a.g.mem(l)
  {
    hide Goes, After;
    var b1 := Place(q, a);
    var d := b1.g.rd(q);
    b := Local(Store(b1.g, d.loc, Kcas(d.tag)), a.f.(i := a.f.i + 1));
    Then(q, a, b1, b);
  }

  /** Another value is there: the run gives up. */
  lemma Miss(q: Tid, a: Local) returns (b: Local)
    requires Looping(a.f) && a.f.i < |a.f.es|
    requires a.g.mem(a.f.es[a.f.i].loc).Bits? && a.g.mem(a.f.es[a.f.i].loc).v != a.f.es[a.f.i].before
    ensures Goes(q, a, b) && b.f == a.f.(i := a.f.i + 1, ok := false) && Same(q, a.g, b.g) && b.g.mem == a.g.mem
  {
    hide Goes, After;
    var b1 := Fill(q, a);
    b := Local(NoteMismatch(b1.g, a.f.id), a.f.(i := a.f.i + 1, ok := false));
    Then(q, a, b1, b);
  }

  // ----- The loop over the entries -----

  ghost predicate Within(es: seq<Entry>, from: nat, to: nat, l: Loc) {
    exists i :: from <= i < to && i < |es| && es[i].loc == l
  }

  /** Entries `from` to `n` each find their `before`, at a location that no earlier entry is about. */
  ghost predicate Clean(mem: Loc -> Word, es: seq<Entry>, from: nat, n: nat) {
    n <= |es| && forall i :: from <= i < n ==> mem(es[i].loc) == Bits(es[i].before) && Fresh(es, i)
  }

  /** While entries are clean each is tagged. */
  lemma {:induction false} TagAll(q: Tid, a: Local, n: nat) returns (b: Local)
    requires Looping(a.f) && a.f.i <= n && Clean(a.g.mem, a.f.es, a.f.i, n)
    requires a.g.st(a.f.id.t) == StatusWord(Undecided, a.f.id.s)
    ensures Goes(q, a, b) && b.f == a.f.(i := n) && Same(q, a.g, b.g)
    ensures forall l :: b.g.mem(l) == if Within(a.f.es, a.f.i, n, l) then Kcas(a.f.id) else a.g.mem(l)
    decreases n
  {
    if n == a.f.i {
      b := a;
      Here(q, a);
    } else {
      var c := TagAll(q, a, n - 1);
      var e := a.f.es[n - 1];
      assert Fresh(a.f.es, n - 1);
      assert !Within(a.f.es, a.f.i, n - 1, e.loc);
      b := Tag(q, c);
      GoesOn(q, a, c, b);
      forall l ensures Within(a.f.es, a.f.i, n, l) <==> Within(a.f.es, a.f.i, n - 1, l) || l == e.loc {
        if l == e.loc { assert a.f.es[n - 1].loc == l; }
      }
    }
  }

  ghost predicate Left(f: Frame) {
    f.Run? && (f.pc.RCheckStatus? || f.pc.RDecide? || f.pc.RPhase2? || f.pc.RUpdate?)
  }

  lemma {:induction false} LeftForGood(q: Tid, a: Local, b: Local, n: nat)
    requires Left(a.f) && After(q, a, n) == Some(b)
    ensures Left(b.f)
    decreases n
  {
    if n > 0 { LeftForGood(q, a, After(q, a, n - 1).value, n - 1); }
  }

  /** The run is at an entry whose location holds its own tag. */
  ghost predicate Stuck(q: Tid, a: Local) {
    && a.f.Run? && a.f.ok && a.f.i < |a.f.es| && a.g.mem(a.f.es[a.f.i].loc) == Kcas(a.f.id)
    && var l := a.f.es[a.f.i].loc;
       match a.f.pc
       case RLoop => true
       case RBegin => true
       case RWriteLoc => true
       case RWriteBefore => a.g.rd(q).loc == l
       case RWriteTag => a.g.rd(q).loc == l
       case RWriteStatusOf => a.g.rd(q).loc == l
       case REnd => a.g.rd(q).loc == l
       case RLoad(k) => a.g.rd(q).loc == l
       case _ => false
  }

  lemma {:induction false} StuckForGood(q: Tid, a: Local, b: Local, n: nat)
    requires Stuck(q, a) && After(q, a, n) == Some(b)
    ensures Stuck(q, b)
    decreases n
  {
    if n > 0 { StuckForGood(q, a, After(q, a, n - 1).value, n - 1); }
  }

  lemma NeverLeft(q: Tid, a: Local, b: Local, c: Local)
    requires Goes(q, a, b) && Stuck(q, b) && b.f.pc.RLoop? && Goes(q, a, c)
    ensures !Left(c.f)
  {
    hide After, Stuck;
    var m: nat :| After(q, a, m) == Some(b);
    var n: nat :| After(q, a, n) == Some(c);
    if m <= n {
      AfterPlus(q, a, b, m, n - m);
      StuckForGood(q, b, c, n - m);
      StuckIsIn(q, c);
    } else if Left(c.f) {
      AfterPlus(q, a, c, n, m - n);
      LeftForGood(q, c, b, m - n);
    }
  }

  lemma StuckIsIn(q: Tid, a: Local)
    requires Stuck(q, a)
    ensures !Left(a.f)
  {
  }

  /** How far the entries are clean. */
  lemma {:induction false} CleanUpTo(mem: Loc -> Word, es: seq<Entry>, m: nat) returns (n: nat)
    requires m <= |es|
    ensures Clean(mem, es, 0, n) && n <= m
    ensures n < m ==> mem(es[n].loc) != Bits(es[n].before) || !Fresh(es, n)
  {
    if m == 0 { return 0; }
    n := CleanUpTo(mem, es, m - 1);
    if n == m - 1 && mem(es[n].loc) == Bits(es[n].before) && Fresh(es, n) { n := m; }
  }

  /** Entry j is about a location that an earlier one is about. */
  ghost predicate Repeats(es: seq<Entry>, j: nat) {
    j < |es| && !Fresh(es, j)
  }

  /** Each entry that repeats a location comes after one that does not find its `before`. */
  ghost predicate StopsFirst(mem: Loc -> Word, es: seq<Entry>) {
    forall j :: Repeats(es, j) ==> exists m :: 0 <= m < j && mem(es[m].loc) != Bits(es[m].before)
  }

  /** Nobody else's operation is on the locations. */
  ghost predicate Plain(mem: Loc -> Word, es: seq<Entry>) {
    forall i :: 0 <= i < |es| ==> mem(es[i].loc).Bits?
  }

  /** The head of the loop before entry 0. */
  ghost predicate AtFirst(a: Local) {
    && Looping(a.f) && a.f.i == 0 && Plain(a.g.mem, a.f.es)
    && a.g.st(a.f.id.t) == StatusWord(Undecided, a.f.id.s)
  }

  /**
    Left alone, the run gets to the end of the loop: every location is tagged, or a mismatch was met. `n` is
    how many were tagged.
   */
  lemma Leaves(q: Tid, a: Local) returns (b: Local, n: nat)
    requires AtFirst(a) && StopsFirst(a.g.mem, a.f.es)
    ensures Goes(q, a, b) && Same(q, a.g, b.g) && Clean(a.g.mem, a.f.es, 0, n)
    ensures b.f.Run? && b.f == a.f.(i := b.f.i, ok := n == |a.f.es|, pc := RLoop)
    ensures n == |a.f.es| ==> b.f.i == n
    ensures n < |a.f.es| ==> a.g.mem(a.f.es[n].loc) != Bits(a.f.es[n].before) && Fresh(a.f.es, n)
    ensures forall l :: b.g.mem(l) == if Within(a.f.es, 0, n, l) then Kcas(a.f.id) else a.g.mem(l)
  {
    var es := a.f.es;
    n := CleanUpTo(a.g.mem, es, |es|);
    var c := TagAll(q, a, n);
    b := c;
    if n < |es| {
      assert !Repeats(es, n);
      assert !Within(es, 0, n, es[n].loc);
      b := Miss(q, c);
      GoesOn(q, a, c, b);
    }
  }

  /**
    Left alone, the loop ends exactly if every entry about an already named location comes after one that does
    not find its `before`: otherwise the run waits for its own tag to go away.
   */
  lemma LockEndsExactlyIf(q: Tid, a: Local)
    requires AtFirst(a)
    ensures (exists b :: Goes(q, a, b) && Left(b.f)) <==> StopsFirst(a.g.mem, a.f.es)
  {
    var es := a.f.es;
    if StopsFirst(a.g.mem, es) {
      var b, n := Leaves(q, a);
      var c := Local(b.g, b.f.(pc := RCheckStatus));
      Then(q, a, b, c);
    } else {
      WaitsForever(q, a);
    }
  }

  lemma WaitsForever(q: Tid, a: Local)
    requires AtFirst(a) && !StopsFirst(a.g.mem, a.f.es)
    ensures forall c :: Goes(q, a, c) ==> !Left(c.f)
  {
    hide Goes, Left;
    var es := a.f.es;
    var j: nat :| Repeats(es, j) && forall m :: 0 <= m < j ==> a.g.mem(es[m].loc) == Bits(es[m].before);
    var n := CleanUpTo(a.g.mem, es, |es|);
    assert n <= j;
    var b := TagAll(q, a, n);
    var k :| 0 <= k < n && es[k].loc == es[n].loc;
    assert Within(es, 0, n, es[n].loc);
    forall c | Goes(q, a, c) ensures !Left(c.f) { NeverLeft(q, a, b, c); }
  }

  // ----- Deciding and updating -----

  /** The decision, by a run that has left the loop of an operation still undecided. */
  lemma Rule(q: Tid, a: Local) returns (b: Local)
    requires a.f.Run? && a.f.pc.RLoop? && (a.f.i >= |a.f.es| || !a.f.ok)
    requires a.g.st(a.f.id.t) == StatusWord(Undecided, a.f.id.s)
    ensures b == Local(Decide(a.g, a.f.id, if a.f.ok then Succeeded else Failed), a.f.(pc := RUpdate(0, a.f.ok)))
    ensures Goes(q, a, b)
  {
    hide Goes, After;
    var f, id := a.f, a.f.id;
    var b1, b2 := Local(a.g, f.(pc := RCheckStatus)), Local(a.g, f.(pc := RDecide));
    var b3 := Local(Decide(a.g, id, if f.ok then Succeeded else Failed), f.(pc := RPhase2));
    b := Local(b3.g, f.(pc := RUpdate(0, f.ok)));
    Here(q, a);
    Then(q, a, a, b1);
    Then(q, a, b1, b2);
    Then(q, a, b2, b3);
    Then(q, a, b3, b);
  }

  ghost function Final(e: Entry, succ: bool): Word {
    Bits(if succ then e.desired else e.before)
  }

  /** What the locations hold after the first m entries were updated. */
  ghost function Updated(mem: Loc -> Word, id: KId, es: seq<Entry>, m: nat, succ: bool, l: Loc): Word {
    if mem(l) == Kcas(id) && HasLoc(es, l) && FirstIndex(es, l) < m then Final(EntryAt(es, l), succ) else mem(l)
  }

  /** update_entries changes only locations that hold the tag, by the first entry about each. */
  lemma {:induction false} Sweep(q: Tid, a: Local, m: nat) returns (b: Local)
    requires a.f.Run? && a.f.pc.RUpdate? && a.f.pc.j == 0 && m <= |a.f.es|
    ensures Goes(q, a, b) && b.f == a.f.(pc := RUpdate(m, a.f.pc.succ)) && Same(q, a.g, b.g) && b.g.rd == a.g.rd
    ensures forall l :: b.g.mem(l) == Updated(a.g.mem, a.f.id, a.f.es, m, a.f.pc.succ, l)
    decreases m
  {
    hide Goes, After;
    if m == 0 {
      b := a;
      Here(q, a);
    } else {
      var c := Sweep(q, a, m - 1);
      var e := a.f.es[m - 1];
      b := Local(Cas(c.g, e.loc, Kcas(a.f.id), Final(e, a.f.pc.succ)), a.f.(pc := RUpdate(m, a.f.pc.succ)));
      Then(q, a, c, b);
      SweptOne(a.g.mem, a.f.id, a.f.es, m, a.f.pc.succ);
    }
  }

  lemma SweptOne(mem: Loc -> Word, id: KId, es: seq<Entry>, m: nat, succ: bool)
    requires 0 < m <= |es|
    ensures forall l :: Updated(mem, id, es, m, succ, l) ==
              if l == es[m - 1].loc && Updated(mem, id, es, m - 1, succ, l) == Kcas(id)
              then Final(es[m - 1], succ) else Updated(mem, id, es, m - 1, succ, l)
  {
    forall l | HasLoc(es, l) && (l == es[m - 1].loc || FirstIndex(es, l) == m - 1)
      ensures l == es[m - 1].loc && FirstIndex(es, l) <= m - 1
    {
    }
  }

  ghost predicate AllBefore(mem: Loc -> Word, es: seq<Entry>) {
    forall i :: 0 <= i < |es| ==> mem(es[i].loc) == Bits(es[i].before)
  }

  /** Nothing of other threads or other operations has changed. */
  ghost predicate OthersSame(q: Tid, id: KId, g: Shared, g': Shared) {
    && g'.kd == g.kd && g'.hist == g.hist && g'.post == g.post
    && (forall t :: t != id.t ==> g'.st(t) == g.st(t)) && (forall x :: x != id ==> g'.fate(x) == g.fate(x))
    && (forall x :: x != q ==> g'.rd(x) == g.rd(x))
  }

  /**
    A `cas` left alone, started where nobody else's operation is on its locations, is about to return after
    finitely many steps, if entries that repeat a location come after a mismatch: true exactly if every
    location held its `before`, with all of them changed to `desired`, and otherwise with memory as it was.
   */
  lemma Alone(q: Tid, a: Local) returns (b: Local)
    requires a.f.Run? && a.f.pc.RStart? && AtFirst(a.(f := a.f.(pc := RLoop)))
    requires StopsFirst(a.g.mem, a.f.es)
    ensures var ok := AllBefore(a.g.mem, a.f.es);
            && Goes(q, a, b) && FrameStep(b.g, q, b.f) == (b.g, Return(Answer(ok))) && OthersSame(q, a.f.id, a.g, b.g)
            && b.g.st(a.f.id.t) == StatusWord(if ok then Succeeded else Failed, a.f.id.s)
            && forall l :: b.g.mem(l) ==
                 if ok && HasLoc(a.f.es, l) then Bits(EntryAt(a.f.es, l).desired) else a.g.mem(l)
  {
    hide Goes, After, Within, Clean;
    var es := a.f.es;
    var a1 := Local(a.g, a.f.(pc := RLoop));
    Here(q, a);
    Then(q, a, a, a1);
    var c, n := Leaves(q, a1);
    GoesOn(q, a, a1, c);
    var d := Rule(q, c);
    GoesOn(q, a, c, d);
    b := Sweep(q, d, |es|);
    GoesOn(q, a, d, b);
    Settled(a.g.mem, c.g.mem, a.f.id, es, n);
  }

  /** Tags on the first n locations, all clean, give way to the final values. */
  lemma Settled(was: Loc -> Word, mem: Loc -> Word, id: KId, es: seq<Entry>, n: nat)
    requires Clean(was, es, 0, n) && Plain(was, es)
    requires n < |es| ==> was(es[n].loc) != Bits(es[n].before)
    requires forall l :: mem(l) == if Within(es, 0, n, l) then Kcas(id) else was(l)
    requires forall l :: was(l) == Kcas(id) ==> !HasLoc(es, l)
    ensures n == |es| <==> AllBefore(was, es)
    ensures forall l :: Updated(mem, id, es, |es|, n == |es|, l) ==
              if n == |es| && HasLoc(es, l) then Bits(EntryAt(es, l).desired) else was(l)
  {
    forall l ensures Updated(mem, id, es, |es|, n == |es|, l) ==
                       if n == |es| && HasLoc(es, l) then Bits(EntryAt(es, l).desired) else was(l)
    {
      assert HasLoc(es, l) <==> Within(es, 0, |es|, l);
      if Within(es, 0, n, l) {
        var i :| 0 <= i < n && es[i].loc == l;
        assert Fresh(es, i) && FirstIndex(es, l) == i;
      }
    }
  }

  // ----- Helping an RDCSS -----

  /** Memory and the helper after n steps of helping word r; None when it was through earlier. */
  ghost function HelpAfter(g: Shared, r: RId, n: nat): (Shared, Option<HelpPc>) {
    if n == 0 then (g, Some(HSequence))
    else
      var (g1, h) := HelpAfter(g, r, n - 1);
      if h.Some? then HelpStep(g1, r, h.value) else (g1, None)
  }

  /**
    A helper whose first test succeeds, left alone, completes the RDCSS in eight steps: the word gives way to the tag
    if the operation is undecided, and to the value it hides otherwise.
   */
  lemma HelpsAlone(g: Shared, r: RId) returns (g': Shared)
    requires g.rseq(r.p) == r.k
    ensures HelpAfter(g, r, 8) == (g', None)
    ensures var d := g.rd(r.p);
            var word := if g.st(d.statusOf) == StatusWord(Undecided, d.tag.s) then Kcas(d.tag) else Bits(d.before);
            forall l :: g'.mem(l) == if l == d.loc && g.mem(l) == Rdcss(r) then word else g.mem(l)
  {
    var d := g.rd(r.p);
    var undecided := StillUndecided(g, d);
    assert HelpAfter(g, r, 1) == (g, Some(HLocation));
    assert HelpAfter(g, r, 2) == (g, Some(HBefore(d.loc)));
    assert HelpAfter(g, r, 3) == (g, Some(HTag(d.loc, d.before)));
    assert HelpAfter(g, r, 4) == (g, Some(HStatusOf(d.loc, d.before, d.tag)));
    assert HelpAfter(g, r, 5) == (g, Some(HCheck(d)));
    assert HelpAfter(g, r, 6) == (g, Some(HLoadStatus(d)));
    assert HelpAfter(g, r, 7) == (NoteLive(g, r, d.loc, undecided), Some(HSwap(d, undecided)));
    g' := Complete(NoteLive(g, r, d.loc, undecided), r, d, undecided);
    assert HelpAfter(g, r, 8) == (g', None);
  }
}
