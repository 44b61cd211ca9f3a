/**
  Every step of every thread keeps the invariant, and is harmless to the application's view of memory
  unless it is the successful decision of a K-CAS.
 */
module KcasSteps {
  import opened KcasState
  import opened KcasEvents
  import opened Options
  import opened KcasThreads
  import opened KcasInvariant

  /** The one kind of step that may change what the application sees. */
  ghost predicate Deciding(g: Shared, f: Frame) {
    f.Run? && f.pc.RDecide? && f.ok && g.st(f.id.t) == StatusWord(Undecided, f.id.s)
  }

  /** A frame step neither publishes nor moves the thread's own K-CAS descriptor. */
  ghost predicate OwnKept(g: Shared, g': Shared) {
    (forall t :: g'.st(t).seqno == g.st(t).seqno) && g'.kd == g.kd && g'.hist == g.hist
  }

  ghost predicate OutInv(g: Shared, q: Tid, o: Out) {
    match o
    case Stay(f) => FrameInv(g, q, f)
    case Call(f, child) => FrameInv(g, q, f) && Waiting(f) && FrameInv(g, q, child)
    case Return(_) => true
  }

  ghost predicate StepOk(g: Shared, q: Tid, f: Frame, g': Shared, o: Out) {
    && GInv(g') && Evolves(q, g, g') && OwnKept(g, g') && OutInv(g', q, o)
    && (ForOthers(f) ==> FirstsKept(g, g'))
    && (!Deciding(g, f) && Careful(g) ==> SameLogical(g, g'))
  }

  /** A frame that moves keeps its kind and its purpose. */
  ghost predicate SameKind(f: Frame, f': Frame) {
    && (f.Run? ==> f'.Run? && f'.id == f.id && f'.helper == f.helper) && (f.Read? ==> f'.Read?)
    && (ForOthers(f) ==> ForOthers(f'))
  }

  ghost predicate KindKept(f: Frame, o: Out) {
    ((o.Stay? || o.Call?) ==> SameKind(f, o.f)) && (o.Call? ==> ForOthers(o.child))
  }

  /** The answer of a run whose descriptor is still the one it was started for. */
  ghost predicate Truthful(g: Shared, f: Frame, o: Out) {
    f.Run? && o.Return? && g.st(f.id.t).seqno == f.id.s ==>
      && Decided(g, f.id)
      && o.v.Answer? && o.v.ok == (g.fate(f.id) == Succeeded)
      && (o.v.ok ==> Clear(g, f.id))
  }

  lemma NothingChanged(q: Tid, g: Shared)
    requires GInv(g)
    ensures Kept(q, g, g) && OwnKept(g, g) && FirstsKept(g, g)
  {
  }

  /** Finishing an RDCSS, by whoever does it. */
  lemma CompleteOk(q: Tid, g: Shared, r: RId, d: RDesc, undecided: bool)
    requires GInv(g) && Licensed(g, r, d, undecided)
    ensures var g' := Complete(g, r, d, undecided);
            && Kept(q, g, g') && OwnKept(g, g')
            && g'.placed == g.placed && g'.rhist == g.rhist && g'.rd == g.rd && g'.seen == g.seen
            && g'.mem(d.loc) != Rdcss(r)
  {
    hide DescInv, TagInv, WordInv, RecordInv, PlacedInv, LiveInv, Evolves, SameLogical, Careful;
    if undecided { InstallKeeps(q, g, r); } else { RollbackKeeps(q, g, r); }
  }

  /** Reading the status on behalf of a word that has been placed. */
  lemma UndecidedNow(q: Tid, g: Shared, r: RId)
    requires GInv(g) && r in g.placed && r in g.rhist
    ensures var d := g.rhist[r].desc;
            var g' := NoteLive(g, r, d.loc, StillUndecided(g, d));
            Kept(q, g, g') && OwnKept(g, g') && Licensed(g', r, d, StillUndecided(g, d))
  {
    hide TagInv, WordInv, PlacedInv, LiveInv, Evolves, SameLogical, Careful;
    assert RecordOk(g, r);
    NoteLiveKeeps(q, g, r, StillUndecided(g, g.rhist[r].desc));
  }

  /** What a step of helping word r leaves as it was, and what the helper knows after it. */
  ghost predicate Helped(g: Shared, r: RId, g': Shared, h': Option<HelpPc>) {
    && OwnKept(g, g') && (h'.Some? ==> HelpInv(g', r, h'.value))
    && g'.placed == g.placed && g'.rhist == g.rhist && g'.rd == g.rd && g'.seen == g.seen
  }

  lemma HelpCopies(g: Shared, r: RId, h: HelpPc)
    requires RecordInv(g) && HelpInv(g, r, h) && !h.HLoadStatus? && !h.HSwap?
    ensures var (g', h') := HelpStep(g, r, h); g' == g && Helped(g, r, g', h')
  {
    assert RecordOk(g, r);
  }

  lemma HelpOk(q: Tid, g: Shared, r: RId, h: HelpPc)
    requires GInv(g) && HelpInv(g, r, h)
    ensures var (g', h') := HelpStep(g, r, h); Kept(q, g, g') && Helped(g, r, g', h')
  {
    hide DescInv, TagInv, WordInv, RecordInv, PlacedInv, LiveInv, Evolves, Careful, SameLogical;
    match h
    case HLoadStatus(d) => UndecidedNow(q, g, r);
    case HSwap(d, undecided) => CompleteOk(q, g, r, d, undecided);
    case _ =>
      HelpCopies(g, r, h);
      NothingChanged(q, g);
  }

  lemma ReadNext(q: Tid, g: Shared, f: Frame)
    requires f.Read? && FrameInv(g, q, f) && WordInv(g) && TagInv(g)
    requires f.rpc.RdHelp? ==>
               var (g', h') := HelpStep(g, f.rpc.rid, f.rpc.h); h'.Some? ==> HelpInv(g', f.rpc.rid, h'.value)
    ensures var (g', o) := ReadStep(g, f); OutInv(g', q, o)
  {
  }

  lemma ReadOk(q: Tid, g: Shared, f: Frame)
    requires GInv(g) && f.Read? && FrameInv(g, q, f)
    ensures var (g', o) := ReadStep(g, f); StepOk(g, q, f, g', o)
  {
    NothingChanged(q, g);
    if f.rpc.RdHelp? { HelpOk(q, g, f.rpc.rid, f.rpc.h); }
    ReadNext(q, g, f);
  }

  lemma SnapOk(q: Tid, g: Shared, f: Frame)
    requires GInv(g) && f.Snap? && FrameInv(g, q, f)
    ensures var (g', o) := SnapStep(g, f); StepOk(g, q, f, g', o)
  {
    hide TagInv, WordInv, RecordInv, PlacedInv, LiveInv, Evolves, SameLogical, Careful;
    NothingChanged(q, g);
    var es := g.hist[f.id];
    match f.spc
    case SDesired(n, got, l, b) =>
      if g.st(f.id.t).seqno == f.id.s { assert es[..|got| + 1] == es[..|got|] + [es[|got|]]; }
    case _ =>
  }

  // ----- A run -----

  lemma BegunKept(q: Tid, g: Shared, g': Shared, id: KId)
    requires GInv(g) && Evolves(q, g, g') && FirstsKept(g, g') && id in g.hist && Begun(g, id)
    ensures Begun(g', id)
  {
    if Prefix(g, id, 1) { PrefixStable(g, g', id, 1); }
  }

  /** What a run knows apart from its program point carries over from frame f to frame f'. */
  lemma GoOn(q: Tid, g: Shared, g': Shared, f: Frame, f': Frame)
    requires GInv(g) && Evolves(q, g, g') && f.Run? && RunInv(g, q, f)
    requires f'.Run? && f'.id == f.id && f'.es == f.es && f'.helper == f.helper && f.i <= f'.i
    requires f'.ok ==> f.ok && (f'.i == f.i || Prefix(g', f.id, f'.i))
    requires !f'.ok ==> f.id in g'.seen
    requires Placing(f') || FirstsKept(g, g') || (f'.ok && f'.i >= 1)
    requires Placing(f) ==> Placing(f') || (f'.ok && f'.i >= 1)
    ensures f.id in g'.hist && f'.es == g'.hist[f.id]
    ensures PointInv(g', q, f') ==> RunInv(g', q, f')
  {
    if f'.ok && f'.i == f.i { PrefixStable(g, g', f.id, f.i); }
    if f.helper {
      PrefixStable(g, g', f.id, 1);
    } else if f'.ok && f'.i >= 1 {
      PrefixLess(g', f.id, f'.i, 1);
    } else if !Placing(f') {
      BegunKept(q, g, g', f.id);
    }
  }

  lemma FillPoint(q: Tid, g: Shared, f: Frame)
    requires f.Run? && RunInv(g, q, f) && f.i < |f.es| && IsFill(f.pc)
    requires var g' := FillStep(g, q, f).0;
             (f.pc.RBegin? ==> Drafting(g', q)) && (f.pc.REnd? ==> RoundName(g, q) !in g.placed)
    ensures var (g', o) := FillStep(g, q, f);
            o.Stay? && o.f == f.(pc := o.f.pc) && g'.hist == g.hist && g'.seen == g.seen && PointInv(g', q, o.f)
  {
  }

  lemma FillKeeps(q: Tid, g: Shared, f: Frame)
    requires GInv(g) && f.Run? && RunInv(g, q, f) && f.i < |f.es| && IsFill(f.pc)
    ensures var g' := FillStep(g, q, f).0;
            && Kept(q, g, g')
            && (f.pc.RBegin? ==> Drafting(g', q)) && (f.pc.REnd? ==> RoundName(g, q) !in g.placed)
  {
    match f.pc {
      case RBegin => BeginRoundKeeps(g, q);
      case REnd => EndRoundKeeps(g, q, f.id, f.i);
      case RWriteLoc => WriteRdcssKeeps(g, q, g.rd(q).(loc := f.es[f.i].loc));
      case RWriteBefore => WriteRdcssKeeps(g, q, g.rd(q).(before := f.es[f.i].before));
      case RWriteTag => WriteRdcssKeeps(g, q, g.rd(q).(tag := f.id));
      case RWriteStatusOf => WriteRdcssKeeps(g, q, g.rd(q).(statusOf := f.id.t));
    }
  }

  lemma FillFirsts(q: Tid, g: Shared, f: Frame)
    requires PlacedInv(g) && f.Run? && f.i < |f.es| && Grows(g, FillStep(g, q, f).0)
    ensures FirstsKept(g, FillStep(g, q, f).0) && OwnKept(g, FillStep(g, q, f).0)
  {
    assert FillStep(g, q, f).0.placed == g.placed;
  }

  lemma FillOk(q: Tid, g: Shared, f: Frame)
    requires GInv(g) && f.Run? && RunInv(g, q, f) && f.i < |f.es| && IsFill(f.pc)
    ensures var (g', o) := FillStep(g, q, f); StepOk(g, q, f, g', o)
  {
    hide DescInv, TagInv, WordInv, RecordInv, PlacedInv, LiveInv, Grows, TagsKept, CopiesKept, OthersKept, Careful,
      SameLogical, PointInv, Opened, Prefix;
    var (g', o) := FillStep(g, q, f);
    FillKeeps(q, g, f);
    FillFirsts(q, g, f);
    FillPoint(q, g, f);
    GoOn(q, g, g', f, o.f);
  }

  lemma LoadPoint(q: Tid, g: Shared, f: Frame)
    requires f.Run? && RunInv(g, q, f) && f.pc.RLoad? && WordInv(g) && TagInv(g)
    ensures var (g', o) := RdcssStep(g, q, f);
            && (g' == g || (g' == NoteMismatch(g, f.id) && o.Stay? && !o.f.ok)) && !o.Return? && SameKind(f, o.f)
            && (o.f == f.(pc := o.f.pc) || o.f == f.(i := f.i + 1, ok := false, pc := RLoop))
            && o.f.es == f.es && PointInv(g', q, o.f) && (o.Call? ==> Waiting(o.f) && FrameInv(g', q, o.child))
            && (!o.f.ok ==> f.id in g'.seen) && !Placing(o.f)
  {
  }

  lemma LoadOk(q: Tid, g: Shared, f: Frame)
    requires GInv(g) && f.Run? && RunInv(g, q, f) && f.pc.RLoad?
    ensures var (g', o) := RdcssStep(g, q, f); StepOk(g, q, f, g', o)
  {
    hide DescInv, RecordInv, PlacedInv, LiveInv, Evolves, Careful, SameLogical;
    var (g', o) := RdcssStep(g, q, f);
    LoadPoint(q, g, f);
    if g' == g { NothingChanged(q, g); } else { NoteKeeps(q, g, f.id); }
    GoOn(q, g, g', f, o.f);
  }

  lemma HelpingPoint(q: Tid, g: Shared, f: Frame)
    requires f.Run? && RunInv(g, q, f) && f.pc.RHelp?
    requires var (g', h') := HelpStep(g, f.pc.rid, f.pc.h);
             && g'.hist == g.hist && g'.placed == g.placed && g'.rhist == g.rhist && g'.rd == g.rd
             && (h'.Some? ==> HelpInv(g', f.pc.rid, h'.value))
    ensures var (g', o) := RdcssStep(g, q, f); o.Stay? && o.f == f.(pc := o.f.pc) && PointInv(g', q, o.f)
  {
  }

  lemma HelpingOk(q: Tid, g: Shared, f: Frame)
    requires GInv(g) && f.Run? && RunInv(g, q, f) && f.pc.RHelp?
    ensures var (g', o) := RdcssStep(g, q, f); StepOk(g, q, f, g', o)
  {
    hide DescInv, TagInv, WordInv, RecordInv, PlacedInv, LiveInv, Evolves, Careful, SameLogical;
    var (g', o) := RdcssStep(g, q, f);
    HelpOk(q, g, f.pc.rid, f.pc.h);
    HelpingPoint(q, g, f);
    GoOn(q, g, g', f, o.f);
  }

  lemma PlacingPoint(q: Tid, g: Shared, f: Frame)
    requires f.Run? && RunInv(g, q, f) && f.pc.RPlace?
    ensures var (g', o) := RdcssStep(g, q, f);
            && o.Stay? && o.f == f.(pc := o.f.pc) && PointInv(g', q, o.f) && OwnKept(g, g') && g'.seen == g.seen
            && g.rhist[RId(q, f.pc.k)].idx == f.i
            && (f.i == 0 ==> Placing(o.f) || g' == g) && (f.i > 0 ==> FirstsKept(g, g'))
  {
  }

  lemma PlacingOk(q: Tid, g: Shared, f: Frame)
    requires GInv(g) && f.Run? && RunInv(g, q, f) && f.pc.RPlace?
    ensures var (g', o) := RdcssStep(g, q, f); StepOk(g, q, f, g', o)
  {
    hide DescInv, TagInv, WordInv, RecordInv, PlacedInv, LiveInv, Evolves, Careful, SameLogical;
    var (g', o) := RdcssStep(g, q, f);
    PlacingPoint(q, g, f);
    PlaceKeeps(g, RId(q, f.pc.k));
    GoOn(q, g, g', f, o.f);
  }

  lemma StatusPoint(q: Tid, g: Shared, f: Frame)
    requires f.Run? && RunInv(g, q, f) && f.pc.RLoadStatus?
    requires var undecided := StillUndecided(g, g.rd(q));
             Licensed(NoteLive(g, RId(q, f.pc.k), g.rd(q).loc, undecided), RId(q, f.pc.k), g.rd(q), undecided)
    ensures var (g', o) := RdcssStep(g, q, f);
            && o.Stay? && o.f == f.(pc := o.f.pc) && PointInv(g', q, o.f) && g'.seen == g.seen
            && (Placing(f) ==> Placing(o.f))
            && FirstsKept(g, g')
  {
  }

  lemma StatusReadOk(q: Tid, g: Shared, f: Frame)
    requires GInv(g) && f.Run? && RunInv(g, q, f) && f.pc.RLoadStatus?
    ensures var (g', o) := RdcssStep(g, q, f); StepOk(g, q, f, g', o)
  {
    hide DescInv, TagInv, WordInv, RecordInv, PlacedInv, LiveInv, Evolves, Careful, SameLogical;
    var (g', o) := RdcssStep(g, q, f);
    UndecidedNow(q, g, RId(q, f.pc.k));
    StatusPoint(q, g, f);
    GoOn(q, g, g', f, o.f);
  }

  lemma SwapOk(q: Tid, g: Shared, f: Frame)
    requires GInv(g) && f.Run? && RunInv(g, q, f) && f.pc.RSwap?
    ensures var (g', o) := RdcssStep(g, q, f); StepOk(g, q, f, g', o)
  {
    hide DescInv, TagInv, WordInv, RecordInv, PlacedInv, LiveInv, Evolves, Careful, SameLogical;
    var (g', o) := RdcssStep(g, q, f);
    PassOk(q, g, f);
    GoOn(q, g, g', f, o.f);
  }

  lemma RdcssOk(q: Tid, g: Shared, f: Frame)
    requires GInv(g) && f.Run? && RunInv(g, q, f) && IsRdcss(f.pc)
    ensures var (g', o) := RdcssStep(g, q, f); StepOk(g, q, f, g', o)
  {
    hide DescInv, TagInv, WordInv, RecordInv, PlacedInv, LiveInv, Evolves, Careful, SameLogical, StepOk;
    match f.pc {
      case RLoad(k) => LoadOk(q, g, f);
      case RHelp(k, r, h) => HelpingOk(q, g, f);
      case RPlace(k) => PlacingOk(q, g, f);
      case RLoadStatus(k) => StatusReadOk(q, g, f);
      case RSwap(k, undecided) => SwapOk(q, g, f);
    }
  }

  /** Leaving entry i after an RDCSS that placed its word: the tag is there, or all is decided. */
  lemma PassOk(q: Tid, g: Shared, f: Frame)
    requires GInv(g) && f.Run? && RunInv(g, q, f) && f.pc.RSwap?
    ensures var g' := Complete(g, RId(q, f.pc.k), g.rd(q), f.pc.undecided);
            && Kept(q, g, g') && OwnKept(g, g') && FirstsKept(g, g') && Prefix(g', f.id, f.i + 1)
  {
    hide DescInv, TagInv, WordInv, RecordInv, LiveInv, SameLogical, Careful;
    var r := RId(q, f.pc.k);
    var g' := Complete(g, r, g.rd(q), f.pc.undecided);
    CompleteOk(q, g, r, g.rd(q), f.pc.undecided);
    PrefixStable(g, g', f.id, f.i);
    OneMore(g', r, f.id, f.i);
  }

  lemma OneMore(g: Shared, r: RId, id: KId, i: nat)
    requires PlacedInv(g) && r in g.placed && id in g.hist && i < |g.hist[id]| && Prefix(g, id, i)
    requires g.rhist[r].desc.tag == id && g.rhist[r].idx == i && g.rhist[r].desc.loc == g.hist[id][i].loc
    requires g.mem(g.hist[id][i].loc) != Rdcss(r)
    ensures Prefix(g, id, i + 1)
  {
  }

  lemma DecidingPoint(q: Tid, g: Shared, f: Frame)
    requires f.Run? && RunInv(g, q, f) && f.pc.RDecide? && Decided(ControlStep(g, f).0, f.id)
    ensures var (g', o) := ControlStep(g, f);
            && o == Stay(f.(pc := RPhase2)) && PointInv(g', q, o.f) && OwnKept(g, g') && FirstsKept(g, g')
            && g'.seen == g.seen && (!Deciding(g, f) && f.ok ==> g' == g)
  {
  }

  lemma DecidingOk(q: Tid, g: Shared, f: Frame)
    requires GInv(g) && f.Run? && RunInv(g, q, f) && f.pc.RDecide?
    ensures var (g', o) := ControlStep(g, f); StepOk(g, q, f, g', o) && Truthful(g, f, o)
  {
    hide DescInv, TagInv, WordInv, RecordInv, PlacedInv, LiveInv, Evolves, Careful;
    var (g', o) := ControlStep(g, f);
    DecideKeeps(q, g, f.id, if f.ok then Succeeded else Failed);
    DecidingPoint(q, g, f);
    GoOn(q, g, g', f, o.f);
  }

  lemma SweepingPoint(q: Tid, g: Shared, f: Frame)
    requires f.Run? && RunInv(g, q, f) && f.pc.RUpdate? && f.pc.j < |f.es|
    requires var g' := ControlStep(g, f).0;
             && Swept(g', f.id, f.es, f.pc.j) && g'.mem(f.es[f.pc.j].loc) != Kcas(f.id)
             && (f.pc.j > 0 ==> Gone(g', f.id))
    ensures var (g', o) := ControlStep(g, f);
            && o == Stay(f.(pc := RUpdate(f.pc.j + 1, f.pc.succ))) && PointInv(g', q, o.f) && OwnKept(g, g')
            && FirstsKept(g, g') && g'.seen == g.seen
  {
  }

  lemma SweepingOk(q: Tid, g: Shared, f: Frame)
    requires GInv(g) && f.Run? && RunInv(g, q, f) && f.pc.RUpdate? && f.pc.j < |f.es|
    ensures var (g', o) := ControlStep(g, f); StepOk(g, q, f, g', o) && Truthful(g, f, o)
  {
    hide DescInv, TagInv, WordInv, RecordInv, PlacedInv, LiveInv, Evolves, Careful, SameLogical;
    var (g', o) := ControlStep(g, f);
    SweepingKeeps(q, g, f);
    SweepingPoint(q, g, f);
    GoOn(q, g, g', f, o.f);
  }

  lemma SweepingKeeps(q: Tid, g: Shared, f: Frame)
    requires GInv(g) && f.Run? && RunInv(g, q, f) && f.pc.RUpdate? && f.pc.j < |f.es|
    ensures var g' := ControlStep(g, f).0;
            && Kept(q, g, g') && Swept(g', f.id, f.es, f.pc.j) && g'.mem(f.es[f.pc.j].loc) != Kcas(f.id)
            && (f.pc.j > 0 ==> Gone(g', f.id))
  {
    hide DescInv, TagInv, WordInv, RecordInv, PlacedInv, LiveInv, SameLogical, Careful;
    var g' := ControlStep(g, f).0;
    RemoveKeeps(q, g, f.id, f.pc.j);
    SweptStable(q, g, g', f.id, f.es, f.pc.j);
  }

  /** Control steps that do not write. */
  lemma LocalNext(q: Tid, g: Shared, f: Frame)
    requires DescInv(g) && TagInv(g) && f.Run? && RunInv(g, q, f)
    requires f.pc.RStart? || f.pc.RLoop? || f.pc.RCheckStatus? || f.pc.RPhase2? || (f.pc.RUpdate? && f.pc.j >= |f.es|)
    ensures var (g', o) := ControlStep(g, f); g' == g && OutInv(g, q, o) && Truthful(g, f, o)
  {
    hide Spells, Harmless, DistinctTo;
    if f.pc.RUpdate? && f.pc.succ { SweptClear(g, f); }
  }

  lemma LocalOk(q: Tid, g: Shared, f: Frame)
    requires GInv(g) && f.Run? && RunInv(g, q, f)
    requires f.pc.RStart? || f.pc.RLoop? || f.pc.RCheckStatus? || f.pc.RPhase2? || (f.pc.RUpdate? && f.pc.j >= |f.es|)
    ensures var (g', o) := ControlStep(g, f); StepOk(g, q, f, g', o) && Truthful(g, f, o)
  {
    hide DescInv, TagInv, WordInv, RecordInv, PlacedInv, LiveInv, Evolves, Careful, SameLogical;
    NothingChanged(q, g);
    LocalNext(q, g, f);
  }

  lemma ControlOk(q: Tid, g: Shared, f: Frame)
    requires GInv(g) && f.Run? && RunInv(g, q, f) && !IsFill(f.pc) && !IsRdcss(f.pc)
    ensures var (g', o) := ControlStep(g, f); StepOk(g, q, f, g', o) && Truthful(g, f, o)
  {
    hide DescInv, TagInv, WordInv, RecordInv, PlacedInv, LiveInv, Evolves, Careful, SameLogical, StepOk, Truthful;
    if f.pc.RDecide? {
      DecidingOk(q, g, f);
    } else if f.pc.RUpdate? && f.pc.j < |f.es| {
      SweepingOk(q, g, f);
    } else {
      LocalOk(q, g, f);
    }
  }

  lemma SweptClear(g: Shared, f: Frame)
    requires TagInv(g) && f.Run? && f.id in g.hist && f.es == g.hist[f.id]
    requires g.fate(f.id) == Succeeded && Swept(g, f.id, f.es, |f.es|)
    ensures Clear(g, f.id)
  {
  }

  lemma FrameStepOk(q: Tid, g: Shared, f: Frame)
    requires GInv(g) && FrameInv(g, q, f)
    ensures var (g', o) := FrameStep(g, q, f); StepOk(g, q, f, g', o) && Truthful(g, f, o)
  {
    hide DescInv, TagInv, WordInv, RecordInv, PlacedInv, LiveInv, Evolves, Careful, SameLogical, StepOk;
    match f
    case Read(_, _) => ReadOk(q, g, f);
    case Snap(_, _) => SnapOk(q, g, f);
    case Run(_, _, _, _, _, _) =>
      if IsFill(f.pc) { FillOk(q, g, f); } else if IsRdcss(f.pc) { RdcssOk(q, g, f); } else { ControlOk(q, g, f); }
  }
}
