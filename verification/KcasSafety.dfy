/** The invariant holds in every reachable state of the whole system. */
module KcasSafety {
  import opened KcasState
  import opened KcasEvents
  import opened KcasThreads
  import opened KcasInvariant
  import opened KcasSteps

  // ----- A step of a frame -----

  lemma FrameStepShape(q: Tid, g: Shared, f: Frame)
    ensures var (g', o) := FrameStep(g, q, f); KindKept(f, o) && (o.Return? ==> g' == g)
  {
  }

  lemma FrameStepSeen(q: Tid, g: Shared, f: Frame)
    requires SeenInv(g) && FrameInv(g, q, f)
    requires g.seen <= FrameStep(g, q, f).0.seen && FrameStep(g, q, f).0.hist == g.hist
    ensures SeenInv(FrameStep(g, q, f).0)
  {
    var g' := FrameStep(g, q, f).0;
    if f.Run? && f.pc.RDecide? {
      assert g' == Decide(g, f.id, if f.ok then Succeeded else Failed);
    } else {
      assert g'.fate == g.fate;
    }
  }

  lemma AdvanceOk(q: Tid, g: Shared, th: Thread, g': Shared, o: Out)
    requires GInv(g) && ThreadInv(g, q, th) && th.frames != []
    requires var f := th.frames[|th.frames| - 1]; StepOk(g, q, f, g', o) && Truthful(g, f, o) && KindKept(f, o)
    requires o.Return? ==> g' == g
    ensures ThreadInv(g', q, Advance(th, o))
  {
    hide DescInv, TagInv, WordInv, RecordInv, PlacedInv, LiveInv, Evolves, Careful, SameLogical, RunInv, SnapInv,
      HelpInv;
    var n := |th.frames| - 1;
    var th' := Advance(th, o);
    BaseStable(q, g, g', q, th.base);
    forall m | 0 <= m < n ensures FrameInv(g', q, th.frames[m]) {
      FrameStable(q, g, g', q, th.frames[m]);
    }
    assert forall m :: 0 <= m < n ==> (m < |th'.frames| ==> th'.frames[m] == th.frames[m]);
  }

  // ----- A step of the owner -----

  lemma ProceedKeeps(q: Tid, g: Shared, th: Thread, g': Shared, th': Thread)
    requires GInv(g) && BaseInv(g, q, th.base) && BaseStep(g, q, th, Proceed, g', th')
    ensures Kept(q, g, g')
  {
    hide DescInv, TagInv, WordInv, RecordInv, PlacedInv, LiveInv, Evolves, Careful, SameLogical;
    match th.base
    case Reusing(w) => ReopenKeeps(g, q);
    case Emptying => WriteDescKeeps(g, q, g.kd(q).(num := 0));
    case Publishing(w) => PublishKeeps(g, q);
    case _ => NothingChanged(q, g);
  }

  lemma ProceedNext(q: Tid, g: Shared, th: Thread, g': Shared, th': Thread)
    requires GInv(g) && BaseInv(g, q, th.base) && BaseStep(g, q, th, Proceed, g', th')
    ensures ThreadInv(g', q, th')
  {
    hide TagInv, WordInv, RecordInv, PlacedInv, LiveInv, Evolves, Careful, SameLogical;
    match th.base
    case Reusing(w) => ReopenKeeps(g, q);
    case Publishing(w) => PublishKeeps(g, q);
    case Naming => StartRun(q, g);
    case _ =>
  }

  lemma BaseStepOk(q: Tid, g: Shared, th: Thread, c: Choice, g': Shared, th': Thread)
    requires GInv(g) && ThreadInv(g, q, th) && BaseStep(g, q, th, c, g', th')
    ensures Kept(q, g, g') && ThreadInv(g', q, th')
  {
    match c
    case StartRead(l) => NothingChanged(q, g);
    case WriteNum(n) => WriteDescKeeps(g, q, g.kd(q).(num := n));
    case WriteSlot(n, e) => WriteDescKeeps(g, q, g.kd(q).(slots := Upd(g.kd(q).slots, n, e)));
    case Proceed =>
      ProceedKeeps(q, g, th, g', th');
      ProceedNext(q, g, th, g', th');
  }

  lemma StartRun(q: Tid, g: Shared)
    requires GInv(g) && KId(q, g.st(q).seqno) in g.hist && NonePlaced(g, KId(q, g.st(q).seqno))
    ensures RunInv(g, q, Run(KId(q, g.st(q).seqno), Spelled(g.kd(q)), false, 0, true, RStart))
  {
    var id := KId(q, g.st(q).seqno);
    assert Spelled(g.kd(q)) == g.hist[id];
  }

  lemma BaseStepSeen(q: Tid, g: Shared, th: Thread, c: Choice, g': Shared, th': Thread)
    requires SeenInv(g) && BaseStep(g, q, th, c, g', th')
    ensures SeenInv(g')
  {
  }

  // ----- A step of the system -----

  /** The step from g to g' is the successful decision of id. */
  ghost predicate Switches(g: Shared, g': Shared, id: KId) {
    && id in g.hist && !Decided(g, id) && g'.fate(id) == Succeeded
    && (forall i :: 0 <= i < |g.hist[id]| ==>
                      && g.mem(g.hist[id][i].loc) == Kcas(id)
                      && Logical(g, g.hist[id][i].loc) == g.hist[id][i].before
                      && Logical(g', g.hist[id][i].loc) == g.hist[id][i].desired)
    && (forall l :: !HasLoc(g.hist[id], l) ==> Logical(g', l) == Logical(g, l))
  }

  ghost predicate NobodySucceeds(g: Shared, g': Shared) {
    forall id :: id in g.hist && g'.fate(id) == Succeeded ==> g.fate(id) == Succeeded
  }

  lemma FrameStepFate(q: Tid, g: Shared, f: Frame)
    requires !Deciding(g, f)
    ensures NobodySucceeds(g, FrameStep(g, q, f).0)
  {
    var g' := FrameStep(g, q, f).0;
    if f.Run? && f.pc.RDecide? {
      assert g' == Decide(g, f.id, if f.ok then Succeeded else Failed);
    } else {
      assert g'.fate == g.fate;
    }
  }

  lemma FrameStepEffect(q: Tid, g: Shared, f: Frame)
    requires GInv(g) && FrameInv(g, q, f)
    requires var (g', o) := FrameStep(g, q, f); StepOk(g, q, f, g', o)
    ensures var g' := FrameStep(g, q, f).0;
            || ((Careful(g) ==> SameLogical(g, g')) && NobodySucceeds(g, g'))
            || (Deciding(g, f) && Switches(g, g', f.id) && g' == Decide(g, f.id, Succeeded))
  {
    hide TagInv, WordInv, RecordInv, PlacedInv, LiveInv, Evolves, Careful, SameLogical;
    var g' := FrameStep(g, q, f).0;
    if Deciding(g, f) {
      assert g' == Decide(g, f.id, Succeeded);
      assert !Decided(g, f.id);
      DecideSwitches(g, f.id);
    } else {
      FrameStepFate(q, g, f);
    }
  }

  lemma NextInv(s: Sys, s': Sys, q: Tid)
    requires Inv(s) && ThreadStep(s, s', q)
    ensures Inv(s') && Evolves(q, s.g, s'.g)
    ensures || ((Careful(s.g) ==> SameLogical(s.g, s'.g)) && NobodySucceeds(s.g, s'.g))
            || exists id :: Switches(s.g, s'.g, id) && s'.g == Decide(s.g, id, Succeeded)
  {
    var g, g', th := s.g, s'.g, s.th(q);
    if th.frames == [] {
      var c :| BaseStep(g, q, th, c, g', s'.th(q));
      BaseStepOk(q, g, th, c, g', s'.th(q));
      BaseStepSeen(q, g, th, c, g', s'.th(q));
      BaseStepQuiet(q, g, th, c, g', s'.th(q));
    } else {
      var f := th.frames[|th.frames| - 1];
      var (g1, o) := FrameStep(g, q, f);
      FrameStepOk(q, g, f);
      FrameStepShape(q, g, f);
      FrameStepSeen(q, g, f);
      FrameStepEffect(q, g, f);
      AdvanceOk(q, g, th, g', o);
    }
    OthersOk(s, s', q);
  }

  lemma BaseStepQuiet(q: Tid, g: Shared, th: Thread, c: Choice, g': Shared, th': Thread)
    requires BaseStep(g, q, th, c, g', th')
    ensures NobodySucceeds(g, g')
  {
  }

  lemma OthersOk(s: Sys, s': Sys, q: Tid)
    requires Inv(s) && Evolves(q, s.g, s'.g)
    requires forall x :: x != q ==> s'.th(x) == s.th(x)
    ensures forall x :: x != q ==> ThreadInv(s'.g, x, s'.th(x))
  {
    forall x | x != q ensures ThreadInv(s'.g, x, s'.th(x)) {
      ThreadStable(q, s.g, s'.g, x, s.th(x));
    }
  }

  lemma InitInv(s: Sys)
    requires Init(s)
    ensures Inv(s)
  {
  }

  lemma {:induction false} RunInvariant(run: seq<Sys>, n: nat)
    requires IsRun(run) && n < |run|
    ensures Inv(run[n])
  {
    if n == 0 {
      InitInv(run[0]);
    } else {
      RunInvariant(run, n - 1);
      assert Linked(run, n - 1);
      var q :| ThreadStep(run[n - 1], run[n], q);
      NextInv(run[n - 1], run[n], q);
    }
  }
}
