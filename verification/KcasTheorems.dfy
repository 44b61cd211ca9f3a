/**
  The promises of the K-CAS protocol, for every run with any number of threads helping one another.
 */
module KcasTheorems {
  import opened KcasState
  import opened KcasEvents
  import opened KcasThreads
  import opened KcasInvariant
  import opened KcasSteps
  import opened KcasSafety
  import opened Options

  // ----- What applications see: an atomic multi-word compare-and-swap -----

  ghost predicate Matches(m: Loc -> int, es: seq<Entry>) {
    forall i :: 0 <= i < |es| ==> m(es[i].loc) == es[i].before
  }

  ghost function MultiCas(m: Loc -> int, es: seq<Entry>): Loc -> int {
    l => if HasLoc(es, l) then EntryAt(es, l).desired else m(l)
  }

  /** The memory after the operations of the log, one after the other. */
  ghost function Replay(m: Loc -> int, hist: map<KId, seq<Entry>>, log: seq<KId>): Loc -> int {
    if log == [] then m
    else
      var id := log[|log| - 1];
      MultiCas(Replay(m, hist, log[..|log| - 1]), if id in hist then hist[id] else [])
  }

  ghost predicate Ready(m: Loc -> int, hist: map<KId, seq<Entry>>, log: seq<KId>, n: nat)
    requires n < |log|
  {
    log[n] in hist && Matches(Replay(m, hist, log[..n]), hist[log[n]])
  }

  /** Each operation of the log finds all its expected values when its turn comes. */
  ghost predicate Legal(m: Loc -> int, hist: map<KId, seq<Entry>>, log: seq<KId>) {
    forall n {:trigger log[n]} :: 0 <= n < |log| ==> Ready(m, hist, log, n)
  }

  ghost predicate NoRepeats(log: seq<KId>) {
    forall i, j :: 0 <= i < j < |log| ==> log[i] != log[j]
  }

  ghost predicate SomeSwitch(g: Shared, g': Shared) {
    exists id :: Switches(g, g', id)
  }

  ghost function TheSwitch(g: Shared, g': Shared): (id: KId)
    requires SomeSwitch(g, g')
    ensures Switches(g, g', id)
  {
    var id :| Switches(g, g', id);
    id
  }

  /** The operations decided successfully in a run, in the order of their decisions. */
  ghost function Log(run: seq<Sys>): seq<KId> {
    if |run| <= 1 then []
    else
      var n := |run| - 1;
      var g, g' := run[n - 1].g, run[n].g;
      Log(run[..n]) + if SomeSwitch(g, g') then [TheSwitch(g, g')] else []
  }

  ghost function Start(run: seq<Sys>): Loc -> int
    requires run != []
  {
    var g := run[0].g; l => Logical(g, l)
  }

  lemma LastStep(run: seq<Sys>)
    requires IsRun(run) && |run| >= 2
    ensures IsRun(run[..|run| - 1])
  {
    var r := run[..|run| - 1];
    forall n | 0 <= n < |r| - 1 ensures Linked(r, n) { assert Linked(run, n); }
  }

  /**
    A step either leaves the application's memory alone, as long as only harmless operations are about, or
    switches exactly one operation's locations.
   */
  lemma StepsAreAtomic(run: seq<Sys>, n: nat)
    requires IsRun(run) && n + 1 < |run|
    ensures var g, g' := run[n].g, run[n + 1].g;
            || (NobodySucceeds(g, g') && (Careful(g) ==> SameLogical(g, g')))
            || (SomeSwitch(g, g') && g' == Decide(g, TheSwitch(g, g'), Succeeded))
  {
    RunInvariant(run, n);
    assert Linked(run, n);
    var q :| ThreadStep(run[n], run[n + 1], q);
    NextInv(run[n], run[n + 1], q);
    var g, g' := run[n].g, run[n + 1].g;
    if exists id :: Switches(g, g', id) && g' == Decide(g, id, Succeeded) { OneSwitch(g, g'); }
  }

  lemma OneSwitch(g: Shared, g': Shared)
    requires exists id :: Switches(g, g', id) && g' == Decide(g, id, Succeeded)
    ensures SomeSwitch(g, g') && g' == Decide(g, TheSwitch(g, g'), Succeeded)
  {
    var id :| Switches(g, g', id) && g' == Decide(g, id, Succeeded);
    assert forall x :: Switches(g, g', x) ==> x == id;
  }

  lemma StepEvolves(run: seq<Sys>, n: nat) returns (q: Tid)
    requires IsRun(run) && n + 1 < |run|
    ensures Inv(run[n]) && Inv(run[n + 1]) && Evolves(q, run[n].g, run[n + 1].g) && ThreadStep(run[n], run[n + 1], q)
  {
    RunInvariant(run, n);
    assert Linked(run, n);
    q :| ThreadStep(run[n], run[n + 1], q);
    NextInv(run[n], run[n + 1], q);
  }

  lemma {:induction false} ReplayGrows(m: Loc -> int, h: map<KId, seq<Entry>>, h': map<KId, seq<Entry>>, log: seq<KId>)
    requires forall id :: id in h ==> id in h' && h'[id] == h[id]
    requires forall id :: id in log ==> id in h
    ensures Replay(m, h', log) == Replay(m, h, log)
  {
    if log != [] { ReplayGrows(m, h, h', log[..|log| - 1]); }
  }

  lemma LegalGrows(m: Loc -> int, h: map<KId, seq<Entry>>, h': map<KId, seq<Entry>>, log: seq<KId>)
    requires forall id :: id in h ==> id in h' && h'[id] == h[id]
    requires forall id :: id in log ==> id in h
    requires Legal(m, h, log)
    ensures Legal(m, h', log)
  {
    forall n | 0 <= n < |log| ensures Ready(m, h', log, n) {
      assert Ready(m, h, log, n);
      ReplayGrows(m, h, h', log[..n]);
    }
  }

  /** The run's log explains its memory, and lists exactly the operations that succeeded. */
  ghost predicate Explains(run: seq<Sys>, log: seq<KId>)
    requires run != []
  {
    Tells(Start(run), run[|run| - 1].g, log)
  }

  /** A name enters the history undecided. */
  lemma NewIsUndecided(run: seq<Sys>, n: nat, id: KId)
    requires IsRun(run) && n + 1 < |run| && id in run[n + 1].g.hist && id !in run[n].g.hist
    ensures !Decided(run[n + 1].g, id)
  {
    var q := StepEvolves(run, n);
    NewNameStep(run[n], run[n + 1], q, id);
  }

  lemma NewNameStep(s: Sys, s': Sys, q: Tid, id: KId)
    requires ThreadStep(s, s', q) && id in s'.g.hist && id !in s.g.hist
    ensures !Decided(s'.g, id)
  {
    if s.th(q).frames != [] {
      FrameStepHist(s.g, q, s.th(q).frames[|s.th(q).frames| - 1]);
    }
  }

  lemma FrameStepHist(g: Shared, q: Tid, f: Frame)
    ensures FrameStep(g, q, f).0.hist == g.hist
  {
  }

  lemma SwitchReplays(m: Loc -> int, g: Shared, g': Shared, log: seq<KId>, id: KId)
    requires Switches(g, g', id) && g'.hist == g.hist
    requires forall l :: Logical(g, l) == Replay(m, g.hist, log)(l)
    ensures Matches(Replay(m, g.hist, log), g.hist[id])
    ensures forall l :: Logical(g', l) == Replay(m, g.hist, log + [id])(l)
  {
    assert (log + [id])[..|log|] == log;
    forall l ensures Logical(g', l) == MultiCas(Replay(m, g.hist, log), g.hist[id])(l) {
      if HasLoc(g.hist[id], l) {
        var e := EntryAt(g.hist[id], l);
        var i :| 0 <= i < |g.hist[id]| && g.hist[id][i] == e;
      }
    }
  }

  lemma LegalStep(m: Loc -> int, hist: map<KId, seq<Entry>>, log: seq<KId>, id: KId)
    requires Legal(m, hist, log) && id in hist && Matches(Replay(m, hist, log), hist[id])
    ensures Legal(m, hist, log + [id])
  {
    var log' := log + [id];
    forall k | 0 <= k < |log'| ensures Ready(m, hist, log', k) {
      if k < |log| { assert Ready(m, hist, log, k); }
      assert log'[..k] == log[..k];
      assert log[..|log|] == log;
    }
  }

  /**
    Outcomes as the log tells them; with only harmless operations about, memory too, and every operation
    of the log found all its expected values.
   */
  ghost predicate Tells(m: Loc -> int, g: Shared, log: seq<KId>) {
    && NoRepeats(log)
    && (forall id :: id in log <==> id in g.hist && g.fate(id) == Succeeded)
    && (Careful(g) ==> Remembers(m, g, log))
  }

  ghost predicate Remembers(m: Loc -> int, g: Shared, log: seq<KId>) {
    && Legal(m, g.hist, log)
    && (forall l :: Logical(g, l) == Replay(m, g.hist, log)(l))
  }

  lemma SwitchTold(m: Loc -> int, g: Shared, log: seq<KId>, id: KId)
    requires Tells(m, g, log) && Switches(g, Decide(g, id, Succeeded), id)
    ensures Tells(m, Decide(g, id, Succeeded), log + [id])
  {
    assert id !in log;
    if Careful(g) {
      SwitchReplays(m, g, Decide(g, id, Succeeded), log, id);
      LegalStep(m, g.hist, log, id);
    }
  }

  lemma QuietTold(m: Loc -> int, g: Shared, g': Shared, log: seq<KId>)
    requires Tells(m, g, log) && NobodySucceeds(g, g') && (Careful(g) ==> SameLogical(g, g'))
    requires Grows(g, g') && TagsKept(g, g')
    requires forall id :: id in g'.hist && id !in g.hist ==> !Decided(g', id)
    ensures Tells(m, g', log)
  {
    if Careful(g') {
      assert Careful(g) by { CarefulBefore(g, g'); }
      ReplayGrows(m, g.hist, g'.hist, log);
      LegalGrows(m, g.hist, g'.hist, log);
    }
  }

  lemma CarefulBefore(g: Shared, g': Shared)
    requires Grows(g, g') && Careful(g')
    ensures Careful(g)
  {
  }

  /**
    The protocol is linearizable. In every run the log lists exactly the operations that succeeded; if only
    harmless operations were published, the application's memory is at every moment the result of applying
    those of the log one at a time, each finding all its expected values.
   */
  lemma {:induction false} Linearizable(run: seq<Sys>)
    requires IsRun(run)
    ensures Explains(run, Log(run))
  {
    if |run| == 1 {
      assert run[0].g.hist == map[];
    } else {
      var n := |run| - 2;
      LastStep(run);
      Linearizable(run[..|run| - 1]);
      assert run[..|run| - 1][n] == run[n];
      assert Start(run[..|run| - 1]) == Start(run);
      LogStep(run, n, Start(run), Log(run[..|run| - 1]));
    }
  }

  lemma LogStep(run: seq<Sys>, n: nat, m: Loc -> int, log: seq<KId>)
    requires IsRun(run) && n + 1 < |run| && Tells(m, run[n].g, log)
    ensures var g, g' := run[n].g, run[n + 1].g;
            Tells(m, g', log + if SomeSwitch(g, g') then [TheSwitch(g, g')] else [])
  {
    var g, g' := run[n].g, run[n + 1].g;
    StepsAreAtomic(run, n);
    if SomeSwitch(g, g') {
      assert !NobodySucceeds(g, g');
      SwitchTold(m, g, log, TheSwitch(g, g'));
    } else {
      assert log + [] == log;
      forall id | id in g'.hist && id !in g.hist ensures !Decided(g', id) { NewIsUndecided(run, n, id); }
      var q := StepEvolves(run, n);
      QuietTold(m, g, g', log);
    }
  }

  lemma {:induction false} LogIsPrefix(run: seq<Sys>, n: nat)
    requires IsRun(run) && 1 <= n <= |run|
    ensures IsRun(run[..n]) && Log(run[..n]) <= Log(run)
  {
    if n < |run| {
      LastStep(run);
      LogIsPrefix(run[..|run| - 1], n);
      assert run[..|run| - 1][..n] == run[..n];
    } else {
      assert run[..n] == run;
    }
  }

  /** The log of a moment lists the operations that have succeeded by then. */
  lemma LoggedByThen(run: seq<Sys>, n: nat, id: KId)
    requires IsRun(run) && n < |run|
    ensures IsRun(run[..n + 1]) && Log(run[..n + 1]) <= Log(run)
    ensures id in Log(run[..n + 1]) <==> id in run[n].g.hist && run[n].g.fate(id) == Succeeded
  {
    hide Tells, Log, Legal, Remembers;
    LogIsPrefix(run, n + 1);
    Linearizable(run[..n + 1]);
    ToldOutcome(run[..n + 1], id);
  }

  lemma ToldOutcome(run: seq<Sys>, id: KId)
    requires run != [] && Explains(run, Log(run))
    ensures var g := run[|run| - 1].g; id in Log(run) <==> id in g.hist && g.fate(id) == Succeeded
  {
  }

  lemma NoRepeatsInLog(run: seq<Sys>)
    requires IsRun(run)
    ensures NoRepeats(Log(run))
  {
    Linearizable(run);
  }

  /** The log respects real time: what returned successfully comes before what was published later. */
  lemma RealTimeOrder(run: seq<Sys>, n: nat, q: Tid, s: int, i: nat, j: nat)
    requires IsRun(run) && n < |run| && run[n].th(q).base == Done(s, true)
    requires i < |Log(run)| && j < |Log(run)|
    requires Log(run)[i] == KId(q, s) && Log(run)[j] !in run[n].g.hist
    ensures i < j
  {
    hide IsRun, Log;
    var id, early := KId(q, s), Log(run[..n + 1]);
    AnswerMeans(run, n, q, s, true);
    LoggedByThen(run, n, id);
    LoggedByThen(run, n, Log(run)[j]);
    NoRepeatsInLog(run);
    Before(early, Log(run), i, j);
  }

  /** In a list without repetitions, what is in a prefix comes before what is not. */
  lemma Before(early: seq<KId>, log: seq<KId>, i: nat, j: nat)
    requires early <= log && NoRepeats(log) && i < |log| && j < |log| && log[i] in early && log[j] !in early
    ensures i < j
  {
    var k :| 0 <= k < |early| && early[k] == log[i];
    assert log[k] == log[i] && k == i;
    forall x | 0 <= x < |early| ensures log[x] in early { assert early[x] == log[x]; }
  }

  // ----- The answers of cas -----

  /** cas returns true exactly when its operation is in the log, and by then it is decided for good. */
  lemma AnswersAreTruthful(run: seq<Sys>, q: Tid, s: int, ok: bool)
    requires IsRun(run) && run[|run| - 1].th(q).base == Done(s, ok)
    ensures ok <==> KId(q, s) in Log(run)
    ensures Decided(run[|run| - 1].g, KId(q, s))
  {
    AnswerMeans(run, |run| - 1, q, s, ok);
    ToldOutcome(run, KId(q, s)) by { Linearizable(run); }
  }

  lemma AnswerMeans(run: seq<Sys>, n: nat, q: Tid, s: int, ok: bool)
    requires IsRun(run) && n < |run| && run[n].th(q).base == Done(s, ok)
    ensures var g := run[n].g;
            KId(q, s) in g.hist && Decided(g, KId(q, s)) && ok == (g.fate(KId(q, s)) == Succeeded)
  {
    RunInvariant(run, n);
    assert ThreadInv(run[n].g, q, run[n].th(q));
  }

  ghost predicate Mismatch(g: Shared, id: KId) {
    id in g.hist && exists i :: 0 <= i < |g.hist[id]| && Logical(g, g.hist[id][i].loc) != g.hist[id][i].before
  }

  lemma NotedMismatch(run: seq<Sys>, n: nat, id: KId)
    requires IsRun(run) && n + 1 < |run| && id in run[n + 1].g.seen && id !in run[n].g.seen
    ensures Mismatch(run[n].g, id)
  {
    var q := StepEvolves(run, n);
    NotingStep(run[n], run[n + 1], q, id);
  }

  lemma NotingStep(s: Sys, s': Sys, q: Tid, id: KId)
    requires ThreadStep(s, s', q) && ThreadInv(s.g, q, s.th(q)) && id in s'.g.seen && id !in s.g.seen
    ensures Mismatch(s.g, id)
  {
    var th := s.th(q);
    if th.frames != [] { NotingReads(q, s.g, th.frames[|th.frames| - 1], id); }
  }

  lemma NotingReads(q: Tid, g: Shared, f: Frame, id: KId)
    requires FrameInv(g, q, f) && id in FrameStep(g, q, f).0.seen && id !in g.seen
    ensures Mismatch(g, id)
  {
    hide Opened, Prefix;
    assert f.Run? && f.pc.RLoad? && f.id == id;
    assert g.hist[id][f.i].loc == g.rd(q).loc;
  }

  lemma {:induction false} SeenHasWitness(run: seq<Sys>, n: nat, id: KId) returns (m: nat)
    requires IsRun(run) && n < |run| && id in run[n].g.seen
    ensures m < n && Mismatch(run[m].g, id)
  {
    assert n != 0;
    if id in run[n - 1].g.seen {
      m := SeenHasWitness(run, n - 1, id);
    } else {
      m := n - 1;
      NotedMismatch(run, n - 1, id);
    }
  }

  lemma {:induction false} StaysDecided(run: seq<Sys>, a: nat, b: nat, id: KId)
    requires IsRun(run) && a <= b < |run| && id in run[a].g.hist
    ensures id in run[b].g.hist && run[b].g.hist[id] == run[a].g.hist[id]
    ensures Decided(run[a].g, id) ==> run[b].g.fate(id) == run[a].g.fate(id)
  {
    if a < b {
      StaysDecided(run, a, b - 1, id);
      StepKeepsFate(run, b - 1, id);
    }
  }

  lemma StepKeepsFate(run: seq<Sys>, n: nat, id: KId)
    requires IsRun(run) && n + 1 < |run| && id in run[n].g.hist
    ensures id in run[n + 1].g.hist && run[n + 1].g.hist[id] == run[n].g.hist[id]
    ensures Decided(run[n].g, id) ==> run[n + 1].g.fate(id) == run[n].g.fate(id)
  {
    var q := StepEvolves(run, n);
    FateKept(q, run[n].g, run[n + 1].g, id);
  }

  lemma StepKeepsTag(run: seq<Sys>, n: nat, l: Loc)
    requires IsRun(run) && n + 1 < |run| && run[n].g.mem(l).Kcas? && !Decided(run[n + 1].g, run[n].g.mem(l).id)
    ensures run[n + 1].g.mem(l) == run[n].g.mem(l) && !Decided(run[n].g, run[n].g.mem(l).id)
  {
    var q := StepEvolves(run, n);
    TagKept(q, run[n].g, run[n + 1].g, l);
  }

  lemma TagInHistory(run: seq<Sys>, n: nat, l: Loc)
    requires IsRun(run) && n < |run| && run[n].g.mem(l).Kcas?
    ensures run[n].g.mem(l).id in run[n].g.hist
  {
    RunInvariant(run, n);
  }

  lemma FateKept(a: Tid, g: Shared, g': Shared, id: KId)
    requires Evolves(a, g, g') && id in g.hist
    ensures id in g'.hist && g'.hist[id] == g.hist[id] && (Decided(g, id) ==> g'.fate(id) == g.fate(id))
  {
  }

  lemma TagKept(a: Tid, g: Shared, g': Shared, l: Loc)
    requires GInv(g) && Evolves(a, g, g') && g.mem(l).Kcas? && !Decided(g', g.mem(l).id)
    ensures g'.mem(l) == g.mem(l) && !Decided(g, g.mem(l).id)
  {
  }

  /** A failure is never invented: while the operation was published and open, some location differed. */
  lemma FailureHasWitness(run: seq<Sys>, n: nat, id: KId) returns (m: nat)
    requires IsRun(run) && n + 1 < |run| && id in run[n].g.hist
    requires !Decided(run[n].g, id) && run[n + 1].g.fate(id) == Failed
    ensures m <= n && Mismatch(run[m].g, id) && !Decided(run[m].g, id)
  {
    var q := StepEvolves(run, n);
    m := SeenHasWitness(run, n + 1, id);
    StaysDecided(run, m, n, id);
  }

  // ----- Tags -----

  /** An installed tag stays put until its operation is decided. */
  lemma {:induction false} TagStays(run: seq<Sys>, a: nat, b: nat, l: Loc, id: KId)
    requires IsRun(run) && a <= b < |run| && run[a].g.mem(l) == Kcas(id) && !Decided(run[b].g, id)
    ensures run[b].g.mem(l) == Kcas(id)
  {
    if a < b {
      TagInHistory(run, a, l);
      StaysDecided(run, a, b - 1, id);
      StepKeepsFate(run, b - 1, id);
      TagStays(run, a, b - 1, l, id);
      StepKeepsTag(run, b - 1, l);
    }
  }

  /** A helper may start at entry 1: seeing the tag anywhere means entry 0 was installed, or all is decided. */
  lemma VisibleTagMeansFirstInstalled(run: seq<Sys>, n: nat, l: Loc, id: KId)
    requires IsRun(run) && n < |run| && run[n].g.mem(l) == Kcas(id)
    ensures var g := run[n].g;
            id in g.hist && HasLoc(g.hist[id], l) && (Decided(g, id) || g.mem(g.hist[id][0].loc) == Kcas(id))
  {
    RunInvariant(run, n);
  }

  /** Once a successful cas has returned, its tag is nowhere, for ever: no slow helper can bring it back. */
  lemma {:induction false} NoTagAfterSuccess(run: seq<Sys>, a: nat, b: nat, q: Tid, s: int)
    requires IsRun(run) && a <= b < |run| && run[a].th(q).base == Done(s, true)
    ensures KId(q, s) in run[b].g.hist && run[b].g.fate(KId(q, s)) == Succeeded && Clear(run[b].g, KId(q, s))
  {
    if a == b {
      SuccessIsClear(run, a, q, s);
    } else {
      NoTagAfterSuccess(run, a, b - 1, q, s);
      StepKeepsFate(run, b - 1, KId(q, s));
      StepKeepsClear(run, b - 1, KId(q, s));
    }
  }

  lemma SuccessIsClear(run: seq<Sys>, n: nat, q: Tid, s: int)
    requires IsRun(run) && n < |run| && run[n].th(q).base == Done(s, true)
    ensures KId(q, s) in run[n].g.hist && run[n].g.fate(KId(q, s)) == Succeeded && Clear(run[n].g, KId(q, s))
  {
    RunInvariant(run, n);
    assert ThreadInv(run[n].g, q, run[n].th(q));
  }

  lemma StepKeepsClear(run: seq<Sys>, n: nat, id: KId)
    requires IsRun(run) && n + 1 < |run| && id in run[n].g.hist && run[n].g.fate(id) == Succeeded && Clear(run[n].g, id)
    ensures Clear(run[n + 1].g, id)
  {
    var q := StepEvolves(run, n);
    ClearStable(q, run[n].g, run[n + 1].g, id);
  }

  /** The word is in its place while the status of its operation reads UNDECIDED. */
  ghost predicate InTime(g: Shared, r: RId, rec: RRec) {
    && r in g.rhist && g.rhist[r] == rec && g.mem(rec.desc.loc) == Rdcss(r)
    && g.st(rec.desc.tag.t) == StatusWord(Undecided, rec.desc.tag.s) && !Decided(g, rec.desc.tag)
  }

  /**
    An RDCSS word gives way only to its tag, if the status was read UNDECIDED while the word was in place and
    the operation has not succeeded since, or to the value it hides, once all is decided.
   */
  lemma RdcssWordResolved(run: seq<Sys>, n: nat, l: Loc, r: RId) returns (m: nat)
    requires IsRun(run) && n + 1 < |run| && run[n].g.mem(l) == Rdcss(r) && run[n + 1].g.mem(l) != Rdcss(r)
    ensures Resolved(run[n].g, run[n + 1].g, l, r)
    ensures run[n + 1].g.mem(l).Kcas? ==> m <= n && InTime(run[m].g, r, run[n].g.rhist[r])
  {
    var q := StepEvolves(run, n);
    ResolvingStep(run[n], run[n + 1], q, l, r);
    m := 0;
    if run[n + 1].g.mem(l).Kcas? { m := LiveHasWitness(run, n, r); }
  }

  lemma NothingLiveAtFirst(run: seq<Sys>)
    requires IsRun(run)
    ensures run[0].g.live == {}
  {
  }

  lemma {:induction false} LiveHasWitness(run: seq<Sys>, n: nat, r: RId) returns (m: nat)
    requires IsRun(run) && n < |run| && r in run[n].g.live
    ensures r in run[n].g.rhist && m < n && InTime(run[m].g, r, run[n].g.rhist[r])
  {
    hide GInv, Evolves, ThreadInv, InTime, ThreadStep, IsRun;
    NothingLiveAtFirst(run);
    var q := StepEvolves(run, n - 1);
    if r in run[n - 1].g.live {
      m := LiveHasWitness(run, n - 1, r);
    } else {
      m := n - 1;
      NotingLive(run[n - 1], run[n], q, r);
    }
    RecordKept(q, run[n - 1].g, run[n].g, r);
  }

  lemma RecordKept(q: Tid, g: Shared, g': Shared, r: RId)
    requires Evolves(q, g, g') && r in g.rhist
    ensures r in g'.rhist && g'.rhist[r] == g.rhist[r]
  {
  }

  lemma NotingLive(s: Sys, s': Sys, q: Tid, r: RId)
    requires ThreadStep(s, s', q) && GInv(s.g) && ThreadInv(s.g, q, s.th(q)) && r in s'.g.live && r !in s.g.live
    ensures r in s.g.rhist && InTime(s.g, r, s.g.rhist[r])
  {
    var th := s.th(q);
    if th.frames != [] { LiveReads(q, s.g, th.frames[|th.frames| - 1], r); }
  }

  lemma LiveReads(q: Tid, g: Shared, f: Frame, r: RId)
    requires GInv(g) && FrameInv(g, q, f) && r in FrameStep(g, q, f).0.live && r !in g.live
    ensures r in g.rhist && InTime(g, r, g.rhist[r])
  {
    hide DescInv, TagInv, WordInv, RecordInv, PlacedInv, LiveInv, InTime, HelpInv;
    match f
    case Read(_, RdHelp(r', h)) => LiveHelps(g, r', h, r);
    case Run(_, _, _, _, _, pc) =>
      if pc.RHelp? { LiveHelps(g, pc.rid, pc.h, r); } else { LiveOwn(q, g, f, r); }
    case _ =>
  }

  lemma LiveOwn(q: Tid, g: Shared, f: Frame, r: RId)
    requires GInv(g) && f.Run? && RunInv(g, q, f) && !f.pc.RHelp? && r in FrameStep(g, q, f).0.live && r !in g.live
    ensures r in g.rhist && InTime(g, r, g.rhist[r])
  {
    hide TagInv, WordInv, PlacedInv, LiveInv, Opened, Prefix;
    assert f.pc.RLoadStatus? && r == RId(q, f.pc.k);
    assert RecordOk(g, r);
  }

  lemma LiveHelps(g: Shared, r': RId, h: HelpPc, r: RId)
    requires GInv(g) && HelpInv(g, r', h) && r in HelpStep(g, r', h).0.live && r !in g.live
    ensures r in g.rhist && InTime(g, r, g.rhist[r])
  {
    assert h.HLoadStatus? && r == r';
    assert RecordOk(g, r);
  }

  ghost predicate Resolved(g: Shared, g': Shared, l: Loc, r: RId) {
    && r in g.rhist && g.rhist[r].desc.loc == l
    && var d := g.rhist[r].desc;
    || (g'.mem(l) == Kcas(d.tag) && g'.fate(d.tag) != Succeeded && r in g.live)
    || (g'.mem(l) == Bits(d.before) && Decided(g, d.tag))
  }

  lemma ResolvingStep(s: Sys, s': Sys, q: Tid, l: Loc, r: RId)
    requires WordInv(s.g) && ThreadInv(s.g, q, s.th(q)) && ThreadStep(s, s', q)
    requires s.g.mem(l) == Rdcss(r) && s'.g.mem(l) != Rdcss(r)
    ensures Resolved(s.g, s'.g, l, r)
  {
    var th := s.th(q);
    if th.frames != [] { CompletionOnly(q, s.g, th.frames[|th.frames| - 1], l, r); }
  }

  lemma CompletionOnly(q: Tid, g: Shared, f: Frame, l: Loc, r: RId)
    requires WordInv(g) && FrameInv(g, q, f) && g.mem(l) == Rdcss(r) && FrameStep(g, q, f).0.mem(l) != Rdcss(r)
    ensures Resolved(g, FrameStep(g, q, f).0, l, r)
  {
    hide WordInv, Resolved, HelpInv;
    match f
    case Read(_, RdHelp(r', h)) => HelpCompletes(g, r', h, l, r);
    case Run(_, _, _, _, _, pc) =>
      if pc.RHelp? { HelpCompletes(g, pc.rid, pc.h, l, r); } else { OwnCompletes(q, g, f, l, r); }
    case _ =>
  }

  lemma OwnCompletes(q: Tid, g: Shared, f: Frame, l: Loc, r: RId)
    requires WordInv(g) && f.Run? && RunInv(g, q, f) && !f.pc.RHelp?
    requires g.mem(l) == Rdcss(r) && FrameStep(g, q, f).0.mem(l) != Rdcss(r)
    ensures Resolved(g, FrameStep(g, q, f).0, l, r)
  {
    assert f.pc.RSwap?;
  }

  lemma HelpCompletes(g: Shared, r': RId, h: HelpPc, l: Loc, r: RId)
    requires WordInv(g) && HelpInv(g, r', h) && g.mem(l) == Rdcss(r) && HelpStep(g, r', h).0.mem(l) != Rdcss(r)
    ensures Resolved(g, HelpStep(g, r', h).0, l, r)
  {
  }

  // ----- Snapshots and reads -----

  /** Every run of the algorithm, by owner or helper, works on exactly the entries published under its tag. */
  lemma SnapshotsAreExact(run: seq<Sys>, n: nat, q: Tid, k: nat)
    requires IsRun(run) && n < |run| && k < |run[n].th(q).frames| && run[n].th(q).frames[k].Run?
    ensures var f := run[n].th(q).frames[k]; f.id in run[n].g.hist && f.es == run[n].g.hist[f.id]
  {
    RunInvariant(run, n);
    assert ThreadInv(run[n].g, q, run[n].th(q));
    assert FrameInv(run[n].g, q, run[n].th(q).frames[k]);
  }

  /**
    A read that ends returns a value, the one its location stands for at the instant of its last load; if only
    harmless operations were published, that is what the log of operations makes of the location.
   */
  lemma ReadsAreCurrent(run: seq<Sys>, q: Tid)
    requires IsRun(run) && run[|run| - 1].th(q).frames != []
    requires var s := run[|run| - 1];
             var f := s.th(q).frames[|s.th(q).frames| - 1];
             f.Read? && FrameStep(s.g, q, f).1.Return?
    ensures var s := run[|run| - 1];
            var f := s.th(q).frames[|s.th(q).frames| - 1];
            && FrameStep(s.g, q, f) == (s.g, Return(Found(Logical(s.g, f.loc))))
            && (Careful(s.g) ==> Logical(s.g, f.loc) == Replay(Start(run), s.g.hist, Log(run))(f.loc))
  {
    var s := run[|run| - 1];
    ReadAnswers(s.g, q, s.th(q).frames[|s.th(q).frames| - 1]);
    Linearizable(run);
  }

  lemma ReadAnswers(g: Shared, q: Tid, f: Frame)
    requires f.Read? && FrameStep(g, q, f).1.Return?
    ensures FrameStep(g, q, f) == (g, Return(Found(Logical(g, f.loc))))
  {
  }

  ghost predicate Helping(f: Frame) {
    (f.Read? && f.rpc.RdHelp?) || (f.Run? && f.pc.RHelp?)
  }

  /**
    As long as RDCSS words carry the number before the second increment, nobody ever gets past the
    first test when helping an RDCSS: only the placing thread completes its own word.
   */
  lemma RdcssHelpIsDead(run: seq<Sys>, n: nat, q: Tid, k: nat)
    requires IsRun(run) && n < |run| && !run[n].g.post && k < |run[n].th(q).frames| && Helping(run[n].th(q).frames[k])
    ensures var f := run[n].th(q).frames[k];
            var r := if f.Read? then f.rpc.rid else f.pc.rid;
            var h := if f.Read? then f.rpc.h else f.pc.h;
            h == HSequence && HelpStep(run[n].g, r, h) == (run[n].g, None)
  {
    var g := run[n].g;
    RunInvariant(run, n);
    assert ThreadInv(g, q, run[n].th(q));
    var f := run[n].th(q).frames[k];
    assert FrameInv(g, q, f);
    assert RecordOk(g, if f.Read? then f.rpc.rid else f.pc.rid);
  }
}
