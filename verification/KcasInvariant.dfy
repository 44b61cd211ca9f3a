/**
  What a thread knows at each point of its program, why other threads' steps cannot falsify it, and
  why every step of a thread establishes what it needs next.
 */
module KcasInvariant {
  import opened KcasState
  import opened KcasEvents
  import opened KcasThreads

  // ----- Knowledge -----

  /** If the word is still there, the status was read while it was, and its K-CAS has not succeeded. */
  ghost predicate NotLate(g: Shared, r: RId)
    requires r in g.rhist
  {
    g.mem(g.rhist[r].desc.loc) == Rdcss(r) ==> r in g.live && g.fate(g.rhist[r].desc.tag) != Succeeded
  }

  /** What licenses the final compare-and-swap of an RDCSS. */
  ghost predicate Licensed(g: Shared, r: RId, d: RDesc, undecided: bool) {
    && r in g.placed && r in g.rhist && g.rhist[r].desc == d
    && (if undecided then NotLate(g, r) else Decided(g, d.tag))
  }

  /** A copy of fields is right as long as the sequence number has not moved. */
  ghost predicate HelpInv(g: Shared, r: RId, h: HelpPc) {
    && r in g.placed && r in g.rhist
    && (!g.post ==> h.HSequence?)
    && var d := g.rhist[r].desc;
    && var same := g.rseq(r.p) == r.k;
    match h
    case HSequence => true
    case HLocation => true
    case HBefore(l) => same ==> l == d.loc
    case HTag(l, b) => same ==> l == d.loc && b == d.before
    case HStatusOf(l, b, tag) => same ==> l == d.loc && b == d.before && tag == d.tag
    case HCheck(e) => same ==> e == d
    case HLoadStatus(e) => e == d
    case HSwap(e, undecided) => Licensed(g, r, e, undecided)
  }

  ghost predicate SnapInv(g: Shared, id: KId, pc: SnapPc) {
    && id in g.hist && Prefix(g, id, 1)
    && var es := g.hist[id];
    && (g.st(id.t).seqno == id.s ==>
          match pc
          case SStatus => true
          case SNum => true
          case SLocation(n, got) => n == |es| && |got| < n && got == es[..|got|]
          case SBefore(n, got, l) => n == |es| && |got| < n && got == es[..|got|] && l == es[|got|].loc
          case SDesired(n, got, l, b) =>
            n == |es| && |got| < n && got == es[..|got|] && l == es[|got|].loc && b == es[|got|].before
          case SCheck(n, got) => got == es)
  }

  /** The thread's own RDCSS descriptor is unpublished. */
  ghost predicate Drafting(g: Shared, q: Tid) {
    forall r :: r in g.rhist && r.p == q ==> r.k < g.rseq(q)
  }

  /** The thread's own RDCSS descriptor holds entry i of id and is named k. */
  ghost predicate Named(g: Shared, q: Tid, id: KId, i: nat, k: int)
    requires id in g.hist && i < |g.hist[id]|
  {
    && RId(q, k) in g.rhist
    && g.rhist[RId(q, k)] == RRec(g.rd(q), i)
    && g.rd(q) == RDesc(g.hist[id][i].loc, g.hist[id][i].before, id, id.t)
  }

  ghost predicate Swept(g: Shared, id: KId, es: seq<Entry>, j: nat) {
    g.fate(id) == Succeeded ==> forall m :: 0 <= m < j && m < |es| ==> g.mem(es[m].loc) != Kcas(id)
  }

  /** The owner's run has placed its word for entry 0 and has not got past it. */
  ghost predicate Placing(f: Frame)
    requires f.Run?
  {
    f.i == 0 && (f.pc.RLoadStatus? || f.pc.RSwap?)
  }

  /** A helper starts at entry 1, because entry 0 was installed; only the owner's run works on entry 0. */
  ghost predicate Opened(g: Shared, q: Tid, f: Frame)
    requires f.Run?
  {
    if f.helper then f.i >= 1 && Prefix(g, f.id, 1) else f.id.t == q && (Placing(f) || Begun(g, f.id))
  }

  ghost predicate RunInv(g: Shared, q: Tid, f: Frame)
    requires f.Run?
  {
    && f.id in g.hist && f.es == g.hist[f.id]
    && (f.ok ==> Prefix(g, f.id, f.i))
    && (!f.ok ==> f.id in g.seen)
    && Opened(g, q, f)
    && PointInv(g, q, f)
  }

  /** What a run knows at its program point. */
  ghost predicate PointInv(g: Shared, q: Tid, f: Frame)
    requires f.Run? && f.id in g.hist && f.es == g.hist[f.id]
  {
    match f.pc
    case RStart => true
    case RLoop => true
    case RBegin => f.ok && f.i < |f.es|
    case RWriteLoc => f.ok && f.i < |f.es| && Drafting(g, q)
    case RWriteBefore => f.ok && f.i < |f.es| && Drafting(g, q) && g.rd(q).loc == f.es[f.i].loc
    case RWriteTag =>
      f.ok && f.i < |f.es| && Drafting(g, q) && g.rd(q).loc == f.es[f.i].loc && g.rd(q).before == f.es[f.i].before
    case RWriteStatusOf =>
      f.ok && f.i < |f.es| && Drafting(g, q) && g.rd(q).loc == f.es[f.i].loc && g.rd(q).before == f.es[f.i].before &&
      g.rd(q).tag == f.id
    case REnd =>
      f.ok && f.i < |f.es| && Drafting(g, q) &&
      g.rd(q) == RDesc(f.es[f.i].loc, f.es[f.i].before, f.id, f.id.t)
    case RLoad(k) => f.ok && f.i < |f.es| && Named(g, q, f.id, f.i, k) && RId(q, k) !in g.placed
    case RHelp(k, r, h) =>
      f.ok && f.i < |f.es| && Named(g, q, f.id, f.i, k) && RId(q, k) !in g.placed && HelpInv(g, r, h)
    case RPlace(k) => f.ok && f.i < |f.es| && Named(g, q, f.id, f.i, k) && RId(q, k) !in g.placed
    case RLoadStatus(k) => f.ok && f.i < |f.es| && Named(g, q, f.id, f.i, k) && RId(q, k) in g.placed
    case RSwap(k, undecided) =>
      f.ok && f.i < |f.es| && Named(g, q, f.id, f.i, k) && Licensed(g, RId(q, k), g.rd(q), undecided)
    case RCheckStatus => f.ok ==> Prefix(g, f.id, |f.es|)
    case RDecide => f.ok ==> Prefix(g, f.id, |f.es|)
    case RPhase2 => Decided(g, f.id)
    case RUpdate(j, succ) =>
      Decided(g, f.id) && succ == (g.fate(f.id) == Succeeded) && Swept(g, f.id, f.es, j) && (j > 0 ==> Gone(g, f.id))
  }

  ghost predicate FrameInv(g: Shared, q: Tid, f: Frame) {
    match f
    case Read(_, RdLoad) => true
    case Read(_, RdHelp(r, h)) => HelpInv(g, r, h)
    case Snap(id, pc) => SnapInv(g, id, pc)
    case Run(_, _, _, _, _, _) => RunInv(g, q, f)
  }

  /** A frame that waits for the one above it to return. */
  ghost predicate Waiting(f: Frame) {
    (f.Read? && f.rpc.RdLoad?) || (f.Run? && f.pc.RBegin?)
  }

  ghost predicate BaseInv(g: Shared, q: Tid, b: Base) {
    match b
    case Idle => Quiet(g, q)
    case Reusing(w) => w.seqno == g.st(q).seqno && Quiet(g, q)
    case Emptying => Private(g, q)
    case Filling => Private(g, q)
    case Publishing(w) => w.seqno == g.st(q).seqno && Private(g, q)
    case Naming => KId(q, g.st(q).seqno) in g.hist && NonePlaced(g, KId(q, g.st(q).seqno))
    case InCas(s) => s == g.st(q).seqno && KId(q, s) in g.hist
    case Done(s, ok) =>
      && s == g.st(q).seqno && KId(q, s) in g.hist && Decided(g, KId(q, s))
      && ok == (g.fate(KId(q, s)) == Succeeded)
      && (ok ==> Clear(g, KId(q, s)))
  }

  /** Everything on a stack but the owner's own run. */
  ghost predicate ForOthers(f: Frame) {
    f.Run? ==> f.helper
  }

  /** The stack fits the base: only a read may stand on an idle base, only the owner's run on a `cas`. */
  ghost predicate Shape(q: Tid, th: Thread) {
    && (forall n :: 0 <= n < |th.frames| - 1 ==> Waiting(th.frames[n]))
    && (forall n :: 1 <= n < |th.frames| ==> ForOthers(th.frames[n]))
    && match th.base
       case InCas(s) => th.frames != [] && th.frames[0].Run? && th.frames[0].id == KId(q, s) && !th.frames[0].helper
       case Idle => th.frames == [] || th.frames[0].Read?
       case Filling => th.frames == [] || th.frames[0].Read?
       case Done(_, _) => th.frames == [] || th.frames[0].Read?
       case _ => th.frames == []
  }

  ghost predicate ThreadInv(g: Shared, q: Tid, th: Thread) {
    BaseInv(g, q, th.base) && Shape(q, th) && forall n :: 0 <= n < |th.frames| ==> FrameInv(g, q, th.frames[n])
  }

  /** Nobody declares a failure without having met a mismatch. */
  ghost predicate SeenInv(g: Shared) {
    forall id :: id in g.hist && g.fate(id) == Failed ==> id in g.seen
  }

  ghost predicate Inv(s: Sys) {
    GInv(s.g) && SeenInv(s.g) && forall q :: ThreadInv(s.g, q, s.th(q))
  }

  ghost predicate FirstsKept(g: Shared, g': Shared) {
    forall id :: NonePlaced(g, id) ==> NonePlaced(g', id)
  }

  // ----- Stability: a step by thread a leaves intact what the others know -----

  lemma NotLateStable(a: Tid, g: Shared, g': Shared, r: RId)
    requires GInv(g) && Evolves(a, g, g') && r in g.placed && r in g.rhist && NotLate(g, r)
    ensures NotLate(g', r)
  {
    var d := g.rhist[r].desc;
    assert RecordOk(g, r);
    if g'.mem(d.loc) == Rdcss(r) {
      assert g.mem(d.loc) == Rdcss(r);
      assert g.hist[d.tag][g.rhist[r].idx].loc == d.loc;
    }
  }

  lemma LicensedStable(a: Tid, g: Shared, g': Shared, r: RId, d: RDesc, undecided: bool)
    requires GInv(g) && Evolves(a, g, g') && Licensed(g, r, d, undecided)
    ensures Licensed(g', r, d, undecided)
  {
    assert RecordOk(g, r);
    if undecided { NotLateStable(a, g, g', r); }
  }

  lemma HelpStable(a: Tid, g: Shared, g': Shared, r: RId, h: HelpPc)
    requires GInv(g) && Evolves(a, g, g') && HelpInv(g, r, h)
    ensures HelpInv(g', r, h)
  {
    assert RecordOk(g, r);
    if h.HSwap? { LicensedStable(a, g, g', r, h.d, h.undecided); }
  }

  lemma SnapStable(a: Tid, g: Shared, g': Shared, id: KId, pc: SnapPc)
    requires GInv(g) && Evolves(a, g, g') && SnapInv(g, id, pc)
    ensures SnapInv(g', id, pc)
  {
    PrefixStable(g, g', id, 1);
  }

  lemma SweptStable(a: Tid, g: Shared, g': Shared, id: KId, es: seq<Entry>, j: nat)
    requires Evolves(a, g, g') && id in g.hist && Decided(g, id) && Swept(g, id, es, j)
    ensures Swept(g', id, es, j)
  {
  }

  lemma NonePlacedStable(a: Tid, g: Shared, g': Shared, id: KId)
    requires PlacedInv(g) && Grows(g, g') && FirstOwn(a, g, g') && id.t != a && NonePlaced(g, id)
    ensures NonePlaced(g', id)
  {
  }

  lemma OpenedStable(a: Tid, g: Shared, g': Shared, q: Tid, f: Frame)
    requires GInv(g) && Evolves(a, g, g') && f.Run? && f.id in g.hist && Opened(g, q, f)
    requires a != q || FirstsKept(g, g')
    ensures Opened(g', q, f)
  {
    if Prefix(g, f.id, 1) {
      PrefixStable(g, g', f.id, 1);
    } else if NonePlaced(g, f.id) && a != q && !f.helper {
      NonePlacedStable(a, g, g', f.id);
    }
  }

  lemma RunStable(a: Tid, g: Shared, g': Shared, q: Tid, f: Frame)
    requires GInv(g) && Evolves(a, g, g') && f.Run? && RunInv(g, q, f) && (a != q || (Waiting(f) && FirstsKept(g, g')))
    ensures RunInv(g', q, f)
  {
    OpenedStable(a, g, g', q, f);
    if f.ok { PrefixStable(g, g', f.id, f.i); }
    PointStable(a, g, g', q, f);
  }

  lemma PointStable(a: Tid, g: Shared, g': Shared, q: Tid, f: Frame)
    requires GInv(g) && Evolves(a, g, g') && f.Run? && f.id in g.hist && f.es == g.hist[f.id] && PointInv(g, q, f)
    requires a != q || Waiting(f)
    ensures f.id in g'.hist && f.es == g'.hist[f.id] && PointInv(g', q, f)
  {
    match f.pc
    case RHelp(k, r, h) => HelpStable(a, g, g', r, h);
    case RSwap(k, undecided) => LicensedStable(a, g, g', RId(q, k), g.rd(q), undecided);
    case RCheckStatus => if f.ok { PrefixStable(g, g', f.id, |f.es|); }
    case RDecide => if f.ok { PrefixStable(g, g', f.id, |f.es|); }
    case RUpdate(j, succ) => SweptStable(a, g, g', f.id, f.es, j);
    case _ =>
  }

  lemma FrameStable(a: Tid, g: Shared, g': Shared, q: Tid, f: Frame)
    requires GInv(g) && Evolves(a, g, g') && FrameInv(g, q, f) && (a != q || (Waiting(f) && FirstsKept(g, g')))
    ensures FrameInv(g', q, f)
  {
    match f
    case Read(_, RdLoad) =>
    case Read(_, RdHelp(r, h)) => HelpStable(a, g, g', r, h);
    case Snap(id, pc) => SnapStable(a, g, g', id, pc);
    case Run(_, _, _, _, _, _) => RunStable(a, g, g', q, f);
  }

  lemma ClearStable(a: Tid, g: Shared, g': Shared, id: KId)
    requires Evolves(a, g, g') && id in g.hist && g.fate(id) == Succeeded && Clear(g, id)
    ensures Clear(g', id)
  {
  }

  lemma BaseStable(a: Tid, g: Shared, g': Shared, q: Tid, b: Base)
    requires GInv(g) && Evolves(a, g, g') && BaseInv(g, q, b)
    requires a != q || (g'.st(q).seqno == g.st(q).seqno && g'.kd(q) == g.kd(q) && (Private(g, q) ==> Private(g', q)))
    requires a != q || !b.Naming?
    ensures BaseInv(g', q, b)
  {
    var id := KId(q, g.st(q).seqno);
    if b.Naming? { NonePlacedStable(a, g, g', id); }
    if id in g.hist && g.fate(id) == Succeeded && Clear(g, id) { ClearStable(a, g, g', id); }
    if !Private(g', q) { assert id in g'.hist; }
  }

  lemma ThreadStable(a: Tid, g: Shared, g': Shared, q: Tid, th: Thread)
    requires GInv(g) && Evolves(a, g, g') && ThreadInv(g, q, th) && a != q
    ensures ThreadInv(g', q, th)
  {
    BaseStable(a, g, g', q, th.base);
    forall n | 0 <= n < |th.frames| ensures FrameInv(g', q, th.frames[n]) {
      FrameStable(a, g, g', q, th.frames[n]);
    }
  }
}
