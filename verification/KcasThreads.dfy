/**
  The program each thread runs, one atomic access to shared memory per step.

  A thread is busy with its own operation (the base) under a stack of frames: reads, snapshots of
  other threads' descriptors, and runs of the K-CAS algorithm on behalf of the owner or of another
  thread. Only the top frame moves; helping may nest to any depth.
 */
module KcasThreads {
  import opened KcasState
  import opened KcasEvents
  import opened Options

  /** Copying and completing the RDCSS operation behind a word that somebody else placed. */
  datatype HelpPc =
    | HSequence
    | HLocation
    | HBefore(l: Loc)
    | HTag(l: Loc, b: int)
    | HStatusOf(l: Loc, b: int, tag: KId)
    | HCheck(d: RDesc)
    | HLoadStatus(d: RDesc)
    | HSwap(d: RDesc, undecided: bool)

  datatype ReadPc = RdLoad | RdHelp(rid: RId, h: HelpPc)

  datatype SnapPc =
    | SStatus
    | SNum
    | SLocation(n: nat, got: seq<Entry>)
    | SBefore(n: nat, got: seq<Entry>, l: Loc)
    | SDesired(n: nat, got: seq<Entry>, l: Loc, b: int)
    | SCheck(n: nat, got: seq<Entry>)

  datatype RunPc =
    | RStart
    | RLoop
    | RBegin | RWriteLoc | RWriteBefore | RWriteTag | RWriteStatusOf | REnd
    | RLoad(k: int)
    | RHelp(k: int, rid: RId, h: HelpPc)
    | RPlace(k: int)
    | RLoadStatus(k: int)
    | RSwap(k: int, undecided: bool)
    | RCheckStatus
    | RDecide
    | RPhase2
    | RUpdate(j: nat, succ: bool)

  datatype Frame =
    | Read(loc: Loc, rpc: ReadPc)
    | Snap(id: KId, spc: SnapPc)
    | Run(id: KId, es: seq<Entry>, helper: bool, i: nat, ok: bool, pc: RunPc)

  /** Where the thread is in using its own descriptor. */
  datatype Base =
    | Idle
    | Reusing(c: StatusWord)
    | Emptying
    | Filling
    | Publishing(c: StatusWord)
    | Naming
    | InCas(s: int)
    | Done(s: int, ok: bool)

  datatype Thread = Thread(base: Base, frames: seq<Frame>)

  datatype Value = Nothing | Answer(ok: bool) | Found(v: int)

  datatype Out = Stay(f: Frame) | Call(f: Frame, child: Frame) | Return(v: Value)

  // ----- Helping an RDCSS (rdcss_try_snapshot, try_snapshot, _rdcss_complete) -----

  ghost function StillUndecided(g: Shared, d: RDesc): bool {
    g.st(d.statusOf).seqno == d.tag.s && g.st(d.statusOf).stat == Undecided
  }

  /** The compare-and-swap of _rdcss_complete. */
  ghost function Complete(g: Shared, r: RId, d: RDesc, undecided: bool): Shared {
    Cas(g, d.loc, Rdcss(r), if undecided then Kcas(d.tag) else Bits(d.before))
  }

  /** One step of helping word r; None when the helper is through. */
  ghost function HelpStep(g: Shared, r: RId, h: HelpPc): (Shared, Option<HelpPc>) {
    match h
    case HSequence => (g, if g.rseq(r.p) == r.k then Some(HLocation) else None)
    case HLocation => (g, Some(HBefore(g.rd(r.p).loc)))
    case HBefore(l) => (g, Some(HTag(l, g.rd(r.p).before)))
    case HTag(l, b) => (g, Some(HStatusOf(l, b, g.rd(r.p).tag)))
    case HStatusOf(l, b, tag) => (g, Some(HCheck(RDesc(l, b, tag, g.rd(r.p).statusOf))))
    case HCheck(d) => (g, if g.rseq(r.p) == r.k then Some(HLoadStatus(d)) else None)
    case HLoadStatus(d) =>
      var undecided := StillUndecided(g, d);
      (NoteLive(g, r, d.loc, undecided), Some(HSwap(d, undecided)))
    case HSwap(d, undecided) => (Complete(g, r, d, undecided), None)
  }

  // ----- Reading (read_value, rdcss_read) -----

  ghost function ReadStep(g: Shared, f: Frame): (Shared, Out)
    requires f.Read?
  {
    match f.rpc
    case RdLoad =>
      (match g.mem(f.loc)
       case Bits(v) => (g, Return(Found(v)))
       case Rdcss(r) => (g, Stay(f.(rpc := RdHelp(r, HSequence))))
       case Kcas(id) => (g, Call(f, Snap(id, SStatus))))
    case RdHelp(r, h) =>
      var (g', h') := HelpStep(g, r, h);
      (g', Stay(f.(rpc := if h'.Some? then RdHelp(r, h'.value) else RdLoad)))
  }

  // ----- Taking a snapshot of a K-CAS descriptor (try_snapshot, _copy_entries_from) -----

  ghost function NextCopy(n: nat, got: seq<Entry>): SnapPc {
    if |got| < n then SLocation(n, got) else SCheck(n, got)
  }

  ghost function SnapStep(g: Shared, f: Frame): (Shared, Out)
    requires f.Snap?
  {
    var id := f.id;
    match f.spc
    case SStatus => (g, if g.st(id.t).seqno == id.s then Stay(Snap(id, SNum)) else Return(Nothing))
    case SNum => (g, Stay(Snap(id, NextCopy(g.kd(id.t).num, []))))
    case SLocation(n, got) => (g, Stay(Snap(id, SBefore(n, got, g.kd(id.t).slots(|got|).loc))))
    case SBefore(n, got, l) => (g, Stay(Snap(id, SDesired(n, got, l, g.kd(id.t).slots(|got|).before))))
    case SDesired(n, got, l, b) =>
      var e := Entry(l, b, g.kd(id.t).slots(|got|).desired);
      (g, Stay(Snap(id, NextCopy(n, got + [e]))))
    case SCheck(n, got) =>
      (g, if g.st(id.t).seqno == id.s then Stay(Run(id, got, true, 1, true, RStart)) else Return(Nothing))
  }

  // ----- Running a K-CAS (_cas_internal, _rdcss, update_entries) -----

  /** Up to the first compare-and-swap of entry i: filling the thread's own RDCSS descriptor. */
  ghost function FillStep(g: Shared, q: Tid, f: Frame): (Shared, Out)
    requires f.Run? && f.i < |f.es|
  {
    var e := f.es[f.i];
    match f.pc
    case RBegin => (BeginRound(g, q), Stay(f.(pc := RWriteLoc)))
    case RWriteLoc => (WriteRdcss(g, q, g.rd(q).(loc := e.loc)), Stay(f.(pc := RWriteBefore)))
    case RWriteBefore => (WriteRdcss(g, q, g.rd(q).(before := e.before)), Stay(f.(pc := RWriteTag)))
    case RWriteTag => (WriteRdcss(g, q, g.rd(q).(tag := f.id)), Stay(f.(pc := RWriteStatusOf)))
    case RWriteStatusOf => (WriteRdcss(g, q, g.rd(q).(statusOf := f.id.t)), Stay(f.(pc := REnd)))
    case REnd => (EndRound(g, q, f.i), Stay(f.(pc := RLoad(RoundName(g, q).k))))
    case _ => (g, Stay(f))
  }

  /** The loop of _rdcss, and the test that follows it in _cas_internal. */
  ghost function RdcssStep(g: Shared, q: Tid, f: Frame): (Shared, Out)
    requires f.Run?
  {
    var d := g.rd(q);
    match f.pc
    case RLoad(k) =>
      (match g.mem(d.loc)
       case Rdcss(r) => (g, Stay(f.(pc := RHelp(k, r, HSequence))))
       case Kcas(id) => (g, if id == f.id then Stay(f.(pc := RBegin)) else Call(f.(pc := RBegin), Snap(id, SStatus)))
       case Bits(v) =>
         if v == d.before then (g, Stay(f.(pc := RPlace(k))))
         else (NoteMismatch(g, f.id), Stay(f.(i := f.i + 1, ok := false, pc := RLoop))))
    case RHelp(k, r, h) =>
      var (g', h') := HelpStep(g, r, h);
      (g', Stay(f.(pc := if h'.Some? then RHelp(k, r, h'.value) else RLoad(k))))
    case RPlace(k) =>
      (Cas(g, d.loc, Bits(d.before), Rdcss(RId(q, k))),
       Stay(f.(pc := if g.mem(d.loc) == Bits(d.before) then RLoadStatus(k) else RLoad(k))))
    case RLoadStatus(k) =>
      var undecided := StillUndecided(g, d);
      (NoteLive(g, RId(q, k), d.loc, undecided), Stay(f.(pc := RSwap(k, undecided))))
    case RSwap(k, undecided) => (Complete(g, RId(q, k), d, undecided), Stay(f.(i := f.i + 1, pc := RLoop)))
    case _ => (g, Stay(f))
  }

  /** Everything in _cas_internal outside the work on one entry. */
  ghost function ControlStep(g: Shared, f: Frame): (Shared, Out)
    requires f.Run?
  {
    var w := g.st(f.id.t);
    match f.pc
    case RStart =>
      (g, if w.seqno != f.id.s then Return(Answer(false))
          else if w.stat == Undecided then Stay(f.(pc := RLoop))
          else Stay(f.(pc := RPhase2)))
    case RLoop => (g, Stay(f.(pc := if f.i < |f.es| && f.ok then RBegin else RCheckStatus)))
    case RCheckStatus => (g, Stay(f.(pc := if w.seqno == f.id.s && w.stat == Undecided then RDecide else RPhase2)))
    case RDecide => (Decide(g, f.id, if f.ok then Succeeded else Failed), Stay(f.(pc := RPhase2)))
    case RPhase2 =>
      (g, if w.seqno == f.id.s then Stay(f.(pc := RUpdate(0, w.stat == Succeeded))) else Return(Answer(false)))
    case RUpdate(j, succ) =>
      if j < |f.es| then
        (Cas(g, f.es[j].loc, Kcas(f.id), Bits(if succ then f.es[j].desired else f.es[j].before)),
         Stay(f.(pc := RUpdate(j + 1, succ))))
      else (g, Return(Answer(succ)))
    case _ => (g, Stay(f))
  }

  ghost predicate IsFill(pc: RunPc) {
    pc.RBegin? || pc.RWriteLoc? || pc.RWriteBefore? || pc.RWriteTag? || pc.RWriteStatusOf? || pc.REnd?
  }

  ghost predicate IsRdcss(pc: RunPc) {
    pc.RLoad? || pc.RHelp? || pc.RPlace? || pc.RLoadStatus? || pc.RSwap?
  }

  ghost function FrameStep(g: Shared, q: Tid, f: Frame): (Shared, Out) {
    match f
    case Read(_, _) => ReadStep(g, f)
    case Snap(_, _) => SnapStep(g, f)
    case Run(_, es, _, i, _, pc) =>
      if IsFill(pc) then (if i < |es| then FillStep(g, q, f) else (g, Stay(f)))
      else if IsRdcss(pc) then RdcssStep(g, q, f)
      else ControlStep(g, f)
  }

  /** The thread after its top frame moved. */
  ghost function Advance(th: Thread, o: Out): Thread
    requires th.frames != []
  {
    var n := |th.frames| - 1;
    match o
    case Stay(f) => th.(frames := th.frames[..n] + [f])
    case Call(f, child) => th.(frames := th.frames[..n] + [f, child])
    case Return(v) =>
      if n == 0 && th.base.InCas? && v.Answer? then Thread(Done(th.base.s, v.ok), [])
      else th.(frames := th.frames[..n])
  }

  // ----- The owner's use of its descriptor (reuse_descriptor, add_*, cas) -----

  /** What an idle or filling thread may decide to do next. */
  datatype Choice =
    | Proceed                          // go on with reuse_descriptor or cas
    | StartRead(l: Loc)                // read_value
    | WriteNum(n: nat)                 // any store by _adder or sort_kcas_entries:
    | WriteSlot(n: nat, e: Entry)      //   one word of one slot changes

  ghost predicate OneWord(a: Entry, b: Entry) {
    || (a.before == b.before && a.desired == b.desired)
    || (a.loc == b.loc && a.desired == b.desired)
    || (a.loc == b.loc && a.before == b.before)
  }

  ghost predicate BaseStep(g: Shared, q: Tid, th: Thread, c: Choice, g': Shared, th': Thread)
  {
    && th.frames == []
    && match c
       case StartRead(l) =>
         (th.base.Idle? || th.base.Filling? || th.base.Done?) && g' == g && th' == th.(frames := [Read(l, RdLoad)])
       case WriteNum(n) =>
         th.base.Filling? && th' == th && g' == WriteDesc(g, q, g.kd(q).(num := n))
       case WriteSlot(n, e) =>
         th.base.Filling? && th' == th && OneWord(g.kd(q).slots(n), e) &&
         g' == WriteDesc(g, q, g.kd(q).(slots := Upd(g.kd(q).slots, n, e)))
       case Proceed =>
         match th.base
         case Idle => g' == g && th' == th.(base := Reusing(g.st(q)))
         case Reusing(w) => g' == Reopen(g, q, w.seqno + 1) && th' == th.(base := Emptying)
         case Emptying => g' == WriteDesc(g, q, g.kd(q).(num := 0)) && th' == th.(base := Filling)
         case Filling => g' == g && th' == th.(base := Publishing(g.st(q)))
         case Publishing(w) => g' == Publish(g, q, w.seqno + 1) && th' == th.(base := Naming)
         case Naming =>
           g' == g && th' == Thread(InCas(g.st(q).seqno),
                                    [Run(KId(q, g.st(q).seqno), Spelled(g.kd(q)), false, 0, true, RStart)])
         case InCas(_) => false
         case Done(_, _) => g' == g && th' == th.(base := Idle)
  }

  // ----- The system -----

  datatype Sys = Sys(g: Shared, th: Tid -> Thread)

  ghost predicate ThreadStep(s: Sys, s': Sys, q: Tid) {
    && (forall x :: x != q ==> s'.th(x) == s.th(x))
    && if s.th(q).frames == [] then exists c :: BaseStep(s.g, q, s.th(q), c, s'.g, s'.th(q))
       else var (g', o) := FrameStep(s.g, q, s.th(q).frames[|s.th(q).frames| - 1]);
            s'.g == g' && s'.th(q) == Advance(s.th(q), o)
  }

  ghost predicate Next(s: Sys, s': Sys) {
    exists q :: ThreadStep(s, s', q)
  }

  ghost predicate Init(s: Sys) {
    && (forall l :: s.g.mem(l).Bits?)
    && (forall t :: s.g.st(t) == StatusWord(Undecided, 0))
    && s.g.hist == map[] && s.g.rhist == map[] && s.g.placed == {} && s.g.live == {} && s.g.seen == {}
    && (forall q :: s.th(q) == Thread(Idle, []))
  }

  ghost predicate Linked(run: seq<Sys>, n: nat)
    requires n + 1 < |run|
  {
    Next(run[n], run[n + 1])
  }

  ghost predicate IsRun(run: seq<Sys>) {
    && run != []
    && Init(run[0])
    && forall n :: 0 <= n < |run| - 1 ==> Linked(run, n)
  }
}
