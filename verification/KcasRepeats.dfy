/**
  Repeated locations in one operation. Whatever the entries are, if they are not harmless there is a run from the
  initial state in which a failed operation changes what applications see: so the protocol is atomic exactly for
  harmless operations.
 */
module KcasRepeats {
  import opened KcasState
  import opened KcasEvents
  import KcasInvariant
  import opened KcasThreads
  import opened KcasReach
  import opened KcasSafety
  import opened KcasTheorems
  import opened KcasSolo
  import opened Options

  // ----- The run -----

  /** Entry f, not entry 0, is the first about its location; entry j is about it too and expects another value. */
  ghost predicate Clash(es: seq<Entry>, f: nat, j: nat) {
    1 <= f < j < |es| && es[f].loc == es[j].loc && DistinctTo(es, f + 1) && es[f].before != es[j].before
  }

  lemma NotHarmless(es: seq<Entry>) returns (f: nat, j: nat)
    requires !Harmless(es)
    ensures Clash(es, f, j)
  {
    f, j :| 1 <= f < j < |es| && es[f].loc == es[j].loc && DistinctTo(es, f + 1) && es[f].before != es[j].before;
  }

  /** The operation on entry 1's location alone that makes the mismatch disappear. */
  ghost function Mender(es: seq<Entry>): seq<Entry>
    requires |es| > 1
  {
    [Entry(es[1].loc, es[1].before + 1, es[1].before)]
  }

  ghost function Big(): KId { KId(0, 2) }

  ghost function Small(): KId { KId(1, 2) }

  /** Memory: every location as its first entry expects it, but that of entry 1 one more. */
  ghost function AtStart(es: seq<Entry>, l: Loc): Word
    requires |es| > 1
  {
    if l == es[1].loc then Bits(es[1].before + 1) else if HasLoc(es, l) then Bits(EntryAt(es, l).before) else Bits(0)
  }

  lemma Begin(es: seq<Entry>) returns (s: Sys)
    requires |es| > 1
    ensures Reachable(s) && s.th(0) == Thread(Idle, []) && s.th(1) == Thread(Idle, []) && s.g.hist == map[]
    ensures (forall l :: s.g.mem(l) == AtStart(es, l)) && (forall t :: s.g.st(t) == StatusWord(Undecided, 0))
    ensures (forall i :: 0 <= i < |es| ==> s.g.kd(0).slots(i) == es[i]) && s.g.kd(1).slots(0) == Mender(es)[0]
  {
    var slots0 := i => if 0 <= i < |es| then es[i] else es[0];
    var slots1 := (i: int) => Mender(es)[0];
    var g := Shared(l => AtStart(es, l), t => StatusWord(Undecided, 0),
                    t => KDesc(0, if t == 0 then slots0 else slots1), p => 0, p => RDesc(0, 0, Big(), 0), false,
                    map[], _ => Undecided, map[], {}, {}, {});
    s := Sys(g, q => Thread(Idle, []));
    var run := [s];
    assert IsRun(run) && run[|run| - 1] == s;
  }

  /** Thread 0 has published the operation, tagged entry 0 and met another value at entry 1. */
  ghost predicate Failing(s: Sys, es: seq<Entry>) {
    && |es| > 1 && s.th(0) == Thread(InCas(2), [Run(Big(), es, false, 2, false, RDecide)])
    && s.g.st(0) == StatusWord(Undecided, 2) && Spells(s.g.kd(0), es) && s.g.fate(Big()) == Undecided
  }

  /** A run that tags entry 0, meets another value at entry 1 and is about to decide FAILED. */
  lemma Giving(q: Tid, a: Local) returns (b: Local)
    requires a.f.Run? && a.f.pc.RStart? && a.f.ok && a.f.i == 0 && |a.f.es| > 1
    requires a.g.st(a.f.id.t) == StatusWord(Undecided, a.f.id.s) && a.f.es[0].loc != a.f.es[1].loc
    requires a.g.mem(a.f.es[0].loc) == Bits(a.f.es[0].before) && a.g.mem(a.f.es[1].loc) == Bits(a.f.es[1].before + 1)
    ensures Goes(q, a, b) && b.f == a.f.(i := 2, ok := false, pc := RDecide) && Same(q, a.g, b.g)
    ensures forall l :: b.g.mem(l) == if l == a.f.es[0].loc then Kcas(a.f.id) else a.g.mem(l)
  {
    var a1 := Local(a.g, a.f.(pc := RLoop));
    Here(q, a);
    Then(q, a, a, a1);
    var a2 := Tag(q, a1);
    GoesOn(q, a, a1, a2);
    var a3 := Miss(q, a2);
    GoesOn(q, a, a2, a3);
    var a4 := Local(a3.g, a3.f.(pc := RCheckStatus));
    b := Local(a3.g, a3.f.(pc := RDecide));
    Then(q, a, a3, a4);
    Then(q, a, a4, b);
  }

  lemma Phase1(es: seq<Entry>, f: nat, j: nat) returns (s: Sys)
    requires Clash(es, f, j)
    ensures Reachable(s) && Failing(s, es) && s.g.hist == map[Big() := es]
    ensures s.th(1) == Thread(Idle, []) && s.g.st(1).seqno == 0 && s.g.kd(1).slots(0) == Mender(es)[0]
    ensures forall l :: s.g.mem(l) == if l == es[0].loc then Kcas(Big()) else AtStart(es, l)
  {
    hide Goes, FrameStep, Reachable;
    assert Fresh(es, 0) && Fresh(es, 1);
    assert FirstIndex(es, es[0].loc) == 0;
    var s0 := Begin(es);
    var s1 := PublishNext(s0, 0, es);
    var b := Giving(0, Local(s1.g, Top(s1.th(0))));
    s := GoTo(s1, 0, b);
  }

  /** With the mismatch gone, entries 1 to f find what they expect. */
  lemma Mended(mem: Loc -> Word, es: seq<Entry>, f: nat)
    requires 1 <= f < |es| && DistinctTo(es, f + 1)
    requires forall l :: l != es[0].loc ==> mem(l) == if l == es[1].loc then Bits(es[1].before) else AtStart(es, l)
    ensures Clean(mem, es, 1, f + 1)
  {
    forall i | 1 <= i < f + 1 ensures mem(es[i].loc) == Bits(es[i].before) && Fresh(es, i) {
      assert Fresh(es, i) && FirstIndex(es, es[i].loc) == i;
      assert es[0].loc != es[i].loc;
      if i > 1 { assert es[1].loc != es[i].loc; }
    }
  }

  /** An operation on one location, whose expected value is there, goes through. */
  lemma Single(s: Sys, q: Tid, e: Entry) returns (s': Sys)
    requires Reachable(s) && s.th(q) == Thread(Idle, []) && s.g.kd(q).slots(0) == e && s.g.mem(e.loc) == Bits(e.before)
    ensures var id := KId(q, s.g.st(q).seqno + 2);
            && Reachable(s') && Moved(s, s', q, s'.g, Thread(Done(id.s, true), [])) && s'.g.hist == s.g.hist[id := [e]]
            && (forall t :: t != q ==> s'.g.st(t) == s.g.st(t) && s'.g.kd(t) == s.g.kd(t))
            && (forall x :: x != id ==> s'.g.fate(x) == s.g.fate(x))
            && (forall l :: s'.g.mem(l) == if l == e.loc then Bits(e.desired) else s.g.mem(l))
  {
    hide Reachable;
    var es := [e];
    assert Fresh(es, 0);
    assert HasLoc(es, e.loc) by { assert es[0].loc == e.loc; }
    s' := Undisturbed(s, q, es);
  }

  /** Thread 1 makes the mismatch disappear. */
  lemma Phase2(s: Sys, es: seq<Entry>, f: nat, j: nat) returns (s': Sys)
    requires Clash(es, f, j) && Reachable(s) && Failing(s, es) && s.g.hist == map[Big() := es]
    requires s.th(1) == Thread(Idle, []) && s.g.st(1).seqno == 0 && s.g.kd(1).slots(0) == Mender(es)[0]
    requires forall l :: s.g.mem(l) == if l == es[0].loc then Kcas(Big()) else AtStart(es, l)
    ensures Reachable(s') && Failing(s', es) && s'.g.hist == map[Big() := es, Small() := Mender(es)]
    ensures s'.th(1) == Thread(Done(2, true), [])
    ensures s'.g.mem(es[0].loc) == Kcas(Big()) && Clean(s'.g.mem, es, 1, f + 1)
  {
    hide Reachable;
    assert Fresh(es, 1);
    assert es[1].loc != es[0].loc;
    s' := Single(s, 1, Mender(es)[0]);
    Mended(s'.g.mem, es, f);
  }

  /** Thread 1 has placed its word for entry f and read UNDECIDED. */
  ghost predicate Pending(s: Sys, es: seq<Entry>, f: nat, k: int) {
    && f < |es| && s.th(1).frames != [] && Top(s.th(1)) == Run(Big(), es, true, f, true, RSwap(k, true))
    && s.g.rd(1) == RDesc(es[f].loc, es[f].before, Big(), 0) && s.g.mem(es[f].loc) == Rdcss(RId(1, k))
  }

  lemma Phase3(s: Sys, es: seq<Entry>, f: nat, j: nat) returns (s': Sys, k: int)
    requires Clash(es, f, j) && Reachable(s) && Failing(s, es) && s.th(1) == Thread(Done(2, true), [])
    requires s.g.mem(es[0].loc) == Kcas(Big()) && Clean(s.g.mem, es, 1, f + 1)
    ensures Reachable(s') && Failing(s', es) && s'.g.hist == s.g.hist && Pending(s', es, f, k)
  {
    var rd := Read(es[0].loc, RdLoad);
    var s1 := Act(s, 1, StartRead(es[0].loc), s.g, Thread(Done(2, true), [rd]));
    var s2 := Move(s1, 1);
    assert s2.th(1).frames == [rd, Snap(Big(), SStatus)];
    var a := Local(s2.g, Snap(Big(), SStatus));
    var a0 := Copy(1, a, es);
    var a1 := Local(a0.g, a0.f.(pc := RLoop));
    Then(1, a, a0, a1);
    var a2 := TagAll(1, a1, f);
    GoesOn(1, a, a1, a2);
    assert Fresh(es, f);
    assert !Within(es, 1, f, es[f].loc);
    var a3 := Place(1, a2);
    GoesOn(1, a, a2, a3);
    k := a3.f.pc.k;
    s' := GoTo(s2, 1, a3);
  }

  /** Thread 0 decides FAILED and updates the entries before the j-th. */
  lemma Phase4(s: Sys, es: seq<Entry>, f: nat, j: nat, k: int) returns (s': Sys)
    requires Clash(es, f, j) && Reachable(s) && Failing(s, es) && Pending(s, es, f, k)
    ensures Reachable(s') && s'.g.hist == s.g.hist && Pending(s', es, f, k) && s'.g.fate(Big()) == Failed
    ensures s'.th(0) == Thread(InCas(2), [Run(Big(), es, false, 2, false, RUpdate(j, false))])
  {
    hide Reachable, Goes, Within;
    var a := Local(s.g, Top(s.th(0)));
    var a1 := Local(Decide(a.g, Big(), Failed), a.f.(pc := RPhase2));
    var a2 := Local(a1.g, a.f.(pc := RUpdate(0, false)));
    Here(0, a);
    Then(0, a, a, a1);
    Then(0, a, a1, a2);
    var a3 := Sweep(0, a2, j);
    GoesOn(0, a, a2, a3);
    s' := GoTo(s, 0, a3);
  }

  /** A step that neither leaves what applications see alone nor is one operation's success. */
  ghost predicate Broken(s: Sys, s': Sys) {
    Reachable(s) && ThreadStep(s, s', 0) && !SameLogical(s.g, s'.g) && NobodySucceeds(s.g, s'.g)
  }

  /** Thread 1 installs its tag, and thread 0 replaces it by what entry j expects. */
  lemma Phase5(s: Sys, es: seq<Entry>, f: nat, j: nat, k: int) returns (s1: Sys, s': Sys)
    requires Clash(es, f, j) && Reachable(s) && Pending(s, es, f, k) && s.g.fate(Big()) == Failed
    requires s.th(0) == Thread(InCas(2), [Run(Big(), es, false, 2, false, RUpdate(j, false))])
    requires Big() in s.g.hist && s.g.hist[Big()] == es
    ensures Broken(s1, s') && s'.g.hist == s.g.hist
  {
    hide Reachable, Harmless;
    s1 := Move(s, 1);
    var l := es[f].loc;
    assert s1.g.mem(l) == Kcas(Big());
    var (g, o) := FrameStep(s1.g, 0, Top(s1.th(0)));
    s' := Sys(g, Upd(s1.th, 0, Advance(s1.th(0), o)));
    assert s'.g.mem(l) == Bits(es[j].before);
    assert Fresh(es, f) && HasLoc(es, l) && FirstIndex(es, l) == f;
    assert Logical(s1.g, l) == es[f].before;
  }

  lemma Breaking(es: seq<Entry>) returns (s: Sys, s': Sys)
    requires !Harmless(es)
    ensures |es| > 1 && Broken(s, s') && s'.g.hist == map[Big() := es, Small() := Mender(es)]
  {
    var f, j := NotHarmless(es);
    var s1 := Phase1(es, f, j);
    var s2 := Phase2(s1, es, f, j);
    var s3, k := Phase3(s2, es, f, j);
    var s4 := Phase4(s3, es, f, j, k);
    s, s' := Phase5(s4, es, f, j, k);
  }

  // ----- Exactly when the protocol is atomic -----

  /** Everything published in the run is allowed. */
  ghost predicate Published(run: seq<Sys>, allowed: seq<Entry> -> bool)
    requires run != []
  {
    var g := run[|run| - 1].g;
    forall id :: id in g.hist ==> allowed(g.hist[id])
  }

  /** At step n what applications see stays as it is, or one operation succeeds and changes it all at once. */
  ghost predicate AtomicAt(run: seq<Sys>, n: nat)
    requires n + 1 < |run|
  {
    var g, g' := run[n].g, run[n + 1].g;
    (SameLogical(g, g') && NobodySucceeds(g, g')) || SomeSwitch(g, g')
  }

  ghost predicate AtomicRun(run: seq<Sys>) {
    forall n :: 0 <= n < |run| - 1 ==> AtomicAt(run, n)
  }

  lemma {:induction false} StayCareful(run: seq<Sys>, n: nat)
    requires IsRun(run) && n < |run| && Careful(run[|run| - 1].g)
    ensures Careful(run[n].g)
    decreases |run| - n
  {
    hide Careful, KcasInvariant.Inv, ThreadStep, Grows, TagsKept, CopiesKept, OthersKept, Init, Linked;
    if n + 1 < |run| {
      StayCareful(run, n + 1);
      var q := StepEvolves(run, n);
      CarefulBefore(run[n].g, run[n + 1].g);
    }
  }

  lemma HarmlessIsAtomic(run: seq<Sys>)
    requires IsRun(run) && Careful(run[|run| - 1].g)
    ensures AtomicRun(run)
  {
    hide Init, Linked, Careful, SameLogical, NobodySucceeds, SomeSwitch;
    forall n | 0 <= n < |run| - 1 ensures AtomicAt(run, n) {
      StayCareful(run, n);
      StepsAreAtomic(run, n);
    }
  }

  lemma NobodySwitches(g: Shared, g': Shared)
    requires NobodySucceeds(g, g')
    ensures !SomeSwitch(g, g')
  {
  }

  lemma BrokenRun(s: Sys, s': Sys) returns (run: seq<Sys>)
    requires Broken(s, s')
    ensures IsRun(run) && run[|run| - 1] == s' && !AtomicRun(run)
  {
    hide Init, ThreadStep, Linked, SameLogical, NobodySucceeds, SomeSwitch;
    var before :| IsRun(before) && before[|before| - 1] == s;
    run := before + [s'];
    Extend(before, s', 0);
    assert run[|run| - 2] == s && run[|run| - 1] == s';
    NobodySwitches(s.g, s'.g);
    assert !AtomicAt(run, |run| - 2);
  }

  /** If an operation is not harmless, a run with it and one operation on one location is not atomic. */
  lemma FailureChangesMemory(es: seq<Entry>) returns (run: seq<Sys>)
    requires !Harmless(es)
    ensures IsRun(run) && !AtomicRun(run)
    ensures |es| > 1 && run[|run| - 1].g.hist == map[Big() := es, Small() := Mender(es)]
  {
    hide Init, Linked, AtomicRun;
    var s, s' := Breaking(es);
    run := BrokenRun(s, s');
  }

  ghost predicate EveryRunAtomic(allowed: seq<Entry> -> bool) {
    forall run :: IsRun(run) && Published(run, allowed) ==> AtomicRun(run)
  }

  /**
    Let applications publish certain operations, at least all those on one location. Every run is atomic, step by
    step, exactly if all those operations are harmless.
   */
  lemma AtomicExactlyIf(allowed: seq<Entry> -> bool)
    requires forall e: Entry :: allowed([e])
    ensures EveryRunAtomic(allowed) <==> forall es :: allowed(es) ==> Harmless(es)
  {
    hide Init, Linked, AtomicRun, Harmless;
    if forall es :: allowed(es) ==> Harmless(es) {
      forall run | IsRun(run) && Published(run, allowed) ensures AtomicRun(run) { HarmlessIsAtomic(run); }
    } else {
      var es :| allowed(es) && !Harmless(es);
      var run := FailureChangesMemory(es);
      assert allowed([Mender(es)[0]]) && Mender(es) == [Mender(es)[0]];
      assert Published(run, allowed);
    }
  }
}
