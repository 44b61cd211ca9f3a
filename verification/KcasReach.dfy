/**
  Reachable states of the system, step by step: how a thread gets from one to the next, and what it achieves when
  nobody disturbs it.
 */
module KcasReach {
  import opened KcasState
  import opened KcasEvents
  import opened KcasThreads
  import opened KcasSafety
  import opened KcasTheorems
  import opened KcasSolo
  import opened Options

  // ----- Reachable states -----

  ghost predicate Reachable(s: Sys) {
    exists run :: IsRun(run) && run[|run| - 1] == s
  }

  lemma Extend(run: seq<Sys>, s': Sys, q: Tid)
    requires IsRun(run) && ThreadStep(run[|run| - 1], s', q)
    ensures IsRun(run + [s'])
  {
    hide Init, ThreadStep;
    var run' := run + [s'];
    assert Next(run[|run| - 1], s');
    forall n | 0 <= n < |run'| - 1 ensures Linked(run', n) {
      if n < |run| - 1 { assert Linked(run, n); }
    }
  }

  lemma ReachNext(s: Sys, s': Sys, q: Tid)
    requires Reachable(s) && ThreadStep(s, s', q)
    ensures Reachable(s')
  {
    hide Init, ThreadStep, Linked;
    var run :| IsRun(run) && run[|run| - 1] == s;
    Extend(run, s', q);
    assert (run + [s'])[|run|] == s';
  }

  /** Thread q has got to th and memory to g, the other threads are where they were. */
  ghost predicate Moved(s: Sys, s': Sys, q: Tid, g: Shared, th: Thread) {
    s'.g == g && s'.th(q) == th && forall x :: x != q ==> s'.th(x) == s.th(x)
  }

  /** What an idle thread does next. */
  lemma Act(s: Sys, q: Tid, c: Choice, g: Shared, th: Thread) returns (s': Sys)
    requires Reachable(s) && BaseStep(s.g, q, s.th(q), c, g, th)
    ensures Reachable(s') && Moved(s, s', q, g, th)
  {
    s' := Sys(g, Upd(s.th, q, th));
    assert BaseStep(s.g, q, s.th(q), c, s'.g, s'.th(q));
    ReachNext(s, s', q);
  }

  ghost function Top(th: Thread): Frame
    requires th.frames != []
  {
    th.frames[|th.frames| - 1]
  }

  ghost function OnTop(th: Thread, f: Frame): Thread
    requires th.frames != []
  {
    th.(frames := th.frames[..|th.frames| - 1] + [f])
  }

  /** One step of the top frame. */
  lemma Move(s: Sys, q: Tid) returns (s': Sys)
    requires Reachable(s) && s.th(q).frames != []
    ensures var (g, o) := FrameStep(s.g, q, Top(s.th(q))); Reachable(s') && Moved(s, s', q, g, Advance(s.th(q), o))
  {
    var (g, o) := FrameStep(s.g, q, Top(s.th(q)));
    s' := Sys(g, Upd(s.th, q, Advance(s.th(q), o)));
    ReachNext(s, s', q);
  }

  /** Many steps of the top frame. */
  lemma {:induction false} MoveMany(s: Sys, q: Tid, b: Local, n: nat) returns (s': Sys)
    requires Reachable(s) && s.th(q).frames != [] && After(q, Local(s.g, Top(s.th(q))), n) == Some(b)
    ensures Reachable(s') && Moved(s, s', q, b.g, OnTop(s.th(q), b.f))
    decreases n
  {
    if n == 0 {
      s' := s;
      assert OnTop(s.th(q), b.f).frames == s.th(q).frames;
    } else {
      var c := After(q, Local(s.g, Top(s.th(q))), n - 1).value;
      var s1 := MoveMany(s, q, c, n - 1);
      s' := Move(s1, q);
      assert OnTop(s1.th(q), b.f) == OnTop(s.th(q), b.f);
    }
  }

  lemma GoTo(s: Sys, q: Tid, b: Local) returns (s': Sys)
    requires Reachable(s) && s.th(q).frames != [] && Goes(q, Local(s.g, Top(s.th(q))), b)
    ensures Reachable(s') && Moved(s, s', q, b.g, OnTop(s.th(q), b.f))
  {
    var n: nat :| After(q, Local(s.g, Top(s.th(q))), n) == Some(b);
    s' := MoveMany(s, q, b, n);
  }

  // ----- Publishing, and taking a snapshot -----

  /** An operation whose entries are in place in the descriptor is published and its run starts. */
  lemma PublishNext(s: Sys, q: Tid, es: seq<Entry>) returns (s': Sys)
    requires Reachable(s) && s.th(q) == Thread(Idle, [])
    requires forall i :: 0 <= i < |es| ==> s.g.kd(q).slots(i) == es[i]
    ensures var id := KId(q, s.g.st(q).seqno + 2);
            && Reachable(s')
            && Moved(s, s', q, s'.g, Thread(InCas(id.s), [Run(id, es, false, 0, true, RStart)]))
            && s'.g.mem == s.g.mem && s'.g.rd == s.g.rd && s'.g.hist == s.g.hist[id := es] && Spells(s'.g.kd(q), es)
            && s'.g.st(q) == StatusWord(Undecided, id.s) && s'.g.fate(id) == Undecided
            && (forall t :: t != q ==> s'.g.st(t) == s.g.st(t) && s'.g.kd(t) == s.g.kd(t))
            && (forall x :: x != id ==> s'.g.fate(x) == s.g.fate(x))
  {
    hide Reachable;
    var n := s.g.st(q).seqno;
    var s1 := Act(s, q, Proceed, s.g, Thread(Reusing(s.g.st(q)), []));
    var s2 := Act(s1, q, Proceed, Reopen(s1.g, q, n + 1), Thread(Emptying, []));
    var s3 := Act(s2, q, Proceed, WriteDesc(s2.g, q, s2.g.kd(q).(num := 0)), Thread(Filling, []));
    var s4 := Act(s3, q, WriteNum(|es|), WriteDesc(s3.g, q, s3.g.kd(q).(num := |es|)), Thread(Filling, []));
    var s5 := Act(s4, q, Proceed, s4.g, Thread(Publishing(s4.g.st(q)), []));
    var s6 := Act(s5, q, Proceed, Publish(s5.g, q, n + 2), Thread(Naming, []));
    assert Spelled(s5.g.kd(q)) == es;
    s' := Act(s6, q, Proceed, s6.g, Thread(InCas(n + 2), [Run(KId(q, n + 2), es, false, 0, true, RStart)]));
  }

  /** Copying the entries of an operation that is still the one published under its name. */
  lemma {:induction false} CopyMost(q: Tid, a: Local, es: seq<Entry>, m: nat) returns (b: Local)
    requires a.f.Snap? && a.f.spc == NextCopy(|es|, []) && Spells(a.g.kd(a.f.id.t), es) && m <= |es|
    ensures Goes(q, a, b) && b == Local(a.g, Snap(a.f.id, NextCopy(|es|, es[..m])))
    decreases m
  {
    if m == 0 {
      b := a;
      Here(q, a);
    } else {
      var c := CopyMost(q, a, es, m - 1);
      var g, id, n, got, e := a.g, a.f.id, |es|, es[..m - 1], es[m - 1];
      var c1, c2 := Local(g, Snap(id, SBefore(n, got, e.loc))), Local(g, Snap(id, SDesired(n, got, e.loc, e.before)));
      b := Local(g, Snap(id, NextCopy(n, es[..m])));
      assert es[..m] == got + [e];
      Then(q, a, c, c1);
      Then(q, a, c1, c2);
      Then(q, a, c2, b);
    }
  }

  lemma Copy(q: Tid, a: Local, es: seq<Entry>) returns (b: Local)
    requires a.f.Snap? && a.f.spc == SStatus && Spells(a.g.kd(a.f.id.t), es) && a.g.st(a.f.id.t).seqno == a.f.id.s
    ensures Goes(q, a, b) && b == Local(a.g, Run(a.f.id, es, true, 1, true, RStart))
  {
    var g, id := a.g, a.f.id;
    var a1, a2 := Local(g, Snap(id, SNum)), Local(g, Snap(id, NextCopy(|es|, [])));
    Here(q, a);
    Then(q, a, a, a1);
    Then(q, a, a1, a2);
    var a3 := CopyMost(q, a2, es, |es|);
    assert es[..|es|] == es;
    GoesOn(q, a, a2, a3);
    b := Local(g, Run(id, es, true, 1, true, RStart));
    Then(q, a, a3, b);
  }

  // ----- What an undisturbed thread achieves -----

  /**
    A cas on entries in place in the descriptor, left alone where it ends: it returns, true exactly if every location
    held its `before`, and exactly then those locations change, to `desired`.
   */
  lemma Undisturbed(s: Sys, q: Tid, es: seq<Entry>) returns (s': Sys)
    requires Reachable(s) && s.th(q) == Thread(Idle, [])
    requires forall i :: 0 <= i < |es| ==> s.g.kd(q).slots(i) == es[i]
    requires Plain(s.g.mem, es) && StopsFirst(s.g.mem, es)
    ensures var id, ok := KId(q, s.g.st(q).seqno + 2), AllBefore(s.g.mem, es);
            && Reachable(s') && Moved(s, s', q, s'.g, Thread(Done(id.s, ok), [])) && s'.g.hist == s.g.hist[id := es]
            && (forall t :: t != q ==> s'.g.st(t) == s.g.st(t) && s'.g.kd(t) == s.g.kd(t))
            && (forall x :: x != id ==> s'.g.fate(x) == s.g.fate(x))
            && (forall l :: s'.g.mem(l) ==
                              if ok && HasLoc(es, l) then Bits(EntryAt(es, l).desired) else s.g.mem(l))
  {
    hide Goes, Reachable, Plain, StopsFirst, AllBefore;
    var s1 := PublishNext(s, q, es);
    var b := Alone(q, Local(s1.g, Top(s1.th(q))));
    var s2 := GoTo(s1, q, b);
    s' := Move(s2, q);
  }

  /** A read of a plain word returns it. */
  lemma ReadPlain(s: Sys, q: Tid, l: Loc) returns (s': Sys)
    requires Reachable(s) && s.th(q) == Thread(Idle, []) && s.g.mem(l).Bits?
    ensures Reachable(s') && Moved(s, s', q, s.g, Thread(Idle, [Read(l, RdLoad)]))
    ensures FrameStep(s'.g, q, Read(l, RdLoad)) == (s'.g, Return(Found(s.g.mem(l).v)))
  {
    s' := Act(s, q, StartRead(l), s.g, Thread(Idle, [Read(l, RdLoad)]));
  }

  /** The help of such a read: the descriptor is copied and the tag of the operation removed. */
  lemma FinishDecided(q: Tid, a: Local, es: seq<Entry>) returns (b: Local)
    requires a.f.Snap? && a.f.spc == SStatus && Spells(a.g.kd(a.f.id.t), es) && a.g.st(a.f.id.t).seqno == a.f.id.s
    requires a.g.st(a.f.id.t).stat != Undecided
    ensures var succ := a.g.st(a.f.id.t).stat == Succeeded;
            && Goes(q, a, b) && FrameStep(b.g, q, b.f) == (b.g, Return(Answer(succ)))
            && forall l :: b.g.mem(l) == Updated(a.g.mem, a.f.id, es, |es|, succ, l)
  {
    hide Goes, After, Spells, Updated;
    var a1 := Copy(q, a, es);
    var succ := a.g.st(a.f.id.t).stat == Succeeded;
    var a2, a3 := Local(a1.g, a1.f.(pc := RPhase2)), Local(a1.g, a1.f.(pc := RUpdate(0, succ)));
    Then(q, a, a1, a2);
    Then(q, a, a2, a3);
    b := Sweep(q, a3, |es|);
    GoesOn(q, a, a3, b);
  }

  /** A thread in a read that has seen a tag starts to help. */
  lemma ReadCalls(s: Sys, q: Tid, l: Loc) returns (s': Sys)
    requires Reachable(s) && s.th(q) == Thread(Idle, []) && s.g.mem(l).Kcas?
    ensures Reachable(s') && Moved(s, s', q, s.g, Thread(Idle, [Read(l, RdLoad), Snap(s.g.mem(l).id, SStatus)]))
  {
    hide Reachable;
    var s1 := Act(s, q, StartRead(l), s.g, Thread(Idle, [Read(l, RdLoad)]));
    s' := Move(s1, q);
  }

  /** The helper, left alone, removes the tag and returns to the frames below it. */
  lemma HelpReturns(s: Sys, q: Tid, rest: seq<Frame>, id: KId, es: seq<Entry>) returns (s': Sys)
    requires Reachable(s) && rest != [] && s.th(q).frames == rest + [Snap(id, SStatus)]
    requires Spells(s.g.kd(id.t), es) && s.g.st(id.t).seqno == id.s && s.g.st(id.t).stat != Undecided
    ensures Reachable(s') && Moved(s, s', q, s'.g, s.th(q).(frames := rest))
    ensures forall l :: s'.g.mem(l) == Updated(s.g.mem, id, es, |es|, s.g.st(id.t).stat == Succeeded, l)
  {
    hide Goes, After, Reachable, Spells, Updated;
    var b := FinishDecided(q, Local(s.g, Snap(id, SStatus)), es);
    var s3 := GoTo(s, q, b);
    assert s.th(q).frames[..|rest|] == rest;
    assert s3.th(q).frames == rest + [b.f];
    assert s3.th(q).frames[..|rest|] == rest;
    s' := Move(s3, q);
  }

  /**
    A read of a word tagged by a decided operation whose descriptor was not reused, left alone, returns the value the
    word stood for, having put logical values in the place of that tag everywhere.
   */
  lemma ReadFinishes(s: Sys, q: Tid, l: Loc) returns (s': Sys)
    requires Reachable(s) && s.th(q) == Thread(Idle, []) && s.g.mem(l).Kcas?
    requires var id := s.g.mem(l).id; Decided(s.g, id) && s.g.st(id.t).seqno == id.s
    ensures Reachable(s') && Moved(s, s', q, s'.g, Thread(Idle, [Read(l, RdLoad)]))
    ensures FrameStep(s'.g, q, Read(l, RdLoad)) == (s'.g, Return(Found(Logical(s.g, l))))
    ensures var id := s.g.mem(l).id;
            forall x :: s'.g.mem(x) == if s.g.mem(x) == Kcas(id) then Bits(Logical(s.g, x)) else s.g.mem(x)
  {
    hide Reachable, Spells;
    var id := s.g.mem(l).id;
    var es := CurrentEntries(s, l);
    TagsAreListed(s, id);
    var s2 := ReadCalls(s, q, l);
    s' := HelpReturns(s2, q, [Read(l, RdLoad)], id, es);
  }

  /**
    A run that meets the tag of another operation, decided and not reused, takes it off every location, puts the
    logical values in its place, and begins its round again.
   */
  lemma RunFinishes(s: Sys, q: Tid) returns (s': Sys)
    requires Reachable(s) && s.th(q).frames != []
    requires var f := Top(s.th(q)); f.Run? && f.pc.RLoad? && s.g.mem(s.g.rd(q).loc).Kcas?
    requires var id := s.g.mem(s.g.rd(q).loc).id;
             id != Top(s.th(q)).id && Decided(s.g, id) && s.g.st(id.t).seqno == id.s
    ensures Reachable(s') && Moved(s, s', q, s'.g, OnTop(s.th(q), Top(s.th(q)).(pc := RBegin)))
    ensures var id := s.g.mem(s.g.rd(q).loc).id;
            forall l :: s'.g.mem(l) == if s.g.mem(l) == Kcas(id) then Bits(Logical(s.g, l)) else s.g.mem(l)
  {
    hide Reachable, Spells;
    var id := s.g.mem(s.g.rd(q).loc).id;
    var es := CurrentEntries(s, s.g.rd(q).loc);
    TagsAreListed(s, id);
    var s1 := Move(s, q);
    var rest := OnTop(s.th(q), Top(s.th(q)).(pc := RBegin)).frames;
    assert s1.th(q).frames == rest + [Snap(id, SStatus)];
    s' := HelpReturns(s1, q, rest, id, es);
  }

  /** The entries of the operation whose tag is on l, as its descriptor still spells them. */
  lemma CurrentEntries(s: Sys, l: Loc) returns (es: seq<Entry>)
    requires Reachable(s) && s.g.mem(l).Kcas?
    requires var id := s.g.mem(l).id; Decided(s.g, id) && s.g.st(id.t).seqno == id.s
    ensures var id := s.g.mem(l).id;
            && id in s.g.hist && es == s.g.hist[id] && HasLoc(es, l) && Spells(s.g.kd(id.t), es)
            && s.g.st(id.t).stat == s.g.fate(id)
  {
    InvOf(s);
    es := s.g.hist[s.g.mem(l).id];
  }

  /** Every location that holds the tag is one of the operation's. */
  lemma TagsAreListed(s: Sys, id: KId)
    requires Reachable(s)
    ensures forall l :: s.g.mem(l) == Kcas(id) ==> id in s.g.hist && HasLoc(s.g.hist[id], l)
  {
    InvOf(s);
  }

  lemma InvOf(s: Sys)
    requires Reachable(s)
    ensures GInv(s.g)
  {
    var run :| IsRun(run) && run[|run| - 1] == s;
    RunInvariant(run, |run| - 1);
  }
}
