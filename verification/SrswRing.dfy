/**
  The single-reader, single-writer ring: one reader and one writer, each step of the interleaving one
  load, one store or one slot access. Indices stand for the pointers into the entry buffer.
 */
module SrswRing {
  import opened Options

  /** How far the writer is in `push`: before loading w, before loading r, before the slot, before storing w. */
  datatype Writer<T> =
    | Away
    | LoadW(entry: T)
    | LoadR(entry: T, wrt: nat, next: nat)
    | Write(entry: T, wrt: nat, next: nat)
    | Publish(entry: T, wrt: nat, next: nat)

  /** How far the reader is in `pop`: before loading r, before loading w, before the slot, before storing r. */
  datatype Reader<T> =
    | Gone
    | LoadOwn
    | LoadOther(rr: nat)
    | Take(rr: nat)
    | Release(entry: T, next: nat)

  /** What a call answered. */
  datatype Answer<T> = Pushed(entry: T) | WasFull | Popped(entry: T) | WasEmpty

  /**
    The buffer, the two shared indices, and each side's cached copy of the other's. The last five fields
    are the history: what was pushed and popped, the answers in the order they were settled, and how many
    pops (pushes) there had been when the index now cached was loaded. No step reads them.
   */
  datatype State<T> = State(
    slots: seq<T>, r: nat, w: nat, rCached: nat, wCached: nat,
    writer: Writer<T>, reader: Reader<T>,
    pushed: seq<T>, popped: seq<T>, answers: seq<Answer<T>>, rSeen: nat, wSeen: nat)

  function After(i: nat, n: nat): nat {
    if i + 1 == n then 0 else i + 1
  }

  function Start<T>(slots: seq<T>): State<T> {
    State(slots, 0, 0, 0, 0, Away, Gone, [], [], [], 0, 0)
  }

  /** full: loads its own index and compares with the cached one of the reader. */
  function LoadOwnW<T>(s: State<T>, e: T): State<T> {
    var next := After(s.w, |s.slots|);
    s.(writer := if s.rCached == next then LoadR(e, s.w, next) else Write(e, s.w, next))
  }

  /** full: loads r, which settles a refusal. */
  function RefreshR<T>(s: State<T>, e: T, wrt: nat, next: nat): State<T> {
    var seen := s.(rCached := s.r, rSeen := |s.popped|);
    if s.r == next then seen.(writer := Away, answers := s.answers + [WasFull])
    else seen.(writer := Write(e, wrt, next))
  }

  function WriteSlot<T>(s: State<T>, e: T, wrt: nat, next: nat): State<T> {
    if wrt < |s.slots| then s.(slots := s.slots[wrt := e], writer := Publish(e, wrt, next)) else s
  }

  function StoreW<T>(s: State<T>, e: T, next: nat): State<T> {
    s.(w := next, writer := Away, pushed := s.pushed + [e], answers := s.answers + [Pushed(e)])
  }

  /** One step of the writer; `entry` is what it pushes if it is about to start a push. */
  function WriterStep<T>(s: State<T>, entry: T): State<T> {
    match s.writer
    case Away => s.(writer := LoadW(entry))
    case LoadW(e) => LoadOwnW(s, e)
    case LoadR(e, wrt, next) => RefreshR(s, e, wrt, next)
    case Write(e, wrt, next) => WriteSlot(s, e, wrt, next)
    case Publish(e, wrt, next) => StoreW(s, e, next)
  }

  /** emptiness: loads its own index and compares with the cached one of the writer. */
  function LoadOwnR<T>(s: State<T>): State<T> {
    s.(reader := if s.r == s.wCached then LoadOther(s.r) else Take(s.r))
  }

  /** emptiness: loads w, which settles that nothing is there. */
  function RefreshW<T>(s: State<T>, rr: nat): State<T> {
    var seen := s.(wCached := s.w, wSeen := |s.pushed|);
    if rr == s.w then seen.(reader := Gone, answers := s.answers + [WasEmpty])
    else seen.(reader := Take(rr))
  }

  function ReadSlot<T>(s: State<T>, rr: nat): State<T> {
    if rr < |s.slots| then s.(reader := Release(s.slots[rr], After(rr, |s.slots|))) else s
  }

  function StoreR<T>(s: State<T>, e: T, next: nat): State<T> {
    s.(r := next, reader := Gone, popped := s.popped + [e], answers := s.answers + [Popped(e)])
  }

  /** One step of the reader. */
  function ReaderStep<T>(s: State<T>): State<T> {
    match s.reader
    case Gone => s.(reader := LoadOwn)
    case LoadOwn => LoadOwnR(s)
    case LoadOther(rr) => RefreshW(s, rr)
    case Take(rr) => ReadSlot(s, rr)
    case Release(e, next) => StoreR(s, e, next)
  }

  ghost predicate Next<T(!new)>(s: State<T>, s': State<T>) {
    s' == ReaderStep(s) || exists e: T :: s' == WriterStep(s, e)
  }

  ghost predicate IsRun<T(!new)>(run: seq<State<T>>) {
    && run != [] && run[0].slots != [] && run[0] == Start(run[0].slots)
    && forall i :: 0 <= i < |run| - 1 ==> Next(run[i], run[i + 1])
  }

  // ----- The invariant -----

  /** Where an index is after k advances. */
  function Slot(k: nat, n: nat): nat
    requires 0 < n
  {
    if k == 0 then 0 else After(Slot(k - 1, n), n)
  }

  lemma {:induction false} SlotFits(k: nat, n: nat)
    requires 0 < n
    ensures Slot(k, n) < n && Slot(k + 1, n) == After(Slot(k, n), n)
  {
    if k > 0 { SlotFits(k - 1, n); }
  }

  lemma {:induction false} SlotLater(a: nat, d: nat, n: nat)
    requires 0 < n && d <= n
    ensures Slot(a, n) < n && Slot(a + d, n) == if Slot(a, n) + d < n then Slot(a, n) + d else Slot(a, n) + d - n
  {
    SlotFits(a, n);
    if d > 0 { SlotLater(a, d - 1, n); }
  }

  /** Two counts at most n apart name the same slot exactly if they are equal or n apart. */
  lemma SameSlot(a: nat, b: nat, n: nat)
    requires 0 < n && a <= b <= a + n
    ensures Slot(a, n) == Slot(b, n) <==> a == b || b == a + n
  {
    SlotLater(a, b - a, n);
  }

  ghost predicate WriterOk<T>(writer: Writer<T>, slots: seq<T>, t: nat, rSeen: nat)
    requires slots != []
  {
    var n := |slots|;
    match writer
    case Away => true
    case LoadW(e) => true
    case LoadR(e, wrt, next) => wrt == Slot(t, n) && next == Slot(t + 1, n)
    case Write(e, wrt, next) => wrt == Slot(t, n) && next == Slot(t + 1, n) && t + 1 - rSeen < n
    case Publish(e, wrt, next) =>
      wrt == Slot(t, n) && next == Slot(t + 1, n) && t + 1 - rSeen < n && wrt < n && slots[wrt] == e
  }

  ghost predicate ReaderOk<T>(reader: Reader<T>, n: nat, pushed: seq<T>, h: nat, wSeen: nat)
    requires 0 < n
  {
    match reader
    case Gone => true
    case LoadOwn => true
    case LoadOther(rr) => rr == Slot(h, n)
    case Take(rr) => rr == Slot(h, n) && h < wSeen
    case Release(e, next) => next == Slot(h + 1, n) && h < wSeen && h < |pushed| && e == pushed[h]
  }

  /** From the h-th on, the slots hold what was pushed there. */
  ghost predicate Holds<T>(slots: seq<T>, pushed: seq<T>, h: nat)
    requires slots != []
  {
    forall k :: h <= k < |pushed| ==> Slot(k, |slots|) < |slots| && slots[Slot(k, |slots|)] == pushed[k]
  }

  /** With room, the slot the writer fills is none of the unread ones. */
  lemma HoldsPut<T>(slots: seq<T>, pushed: seq<T>, h: nat, e: T)
    requires slots != [] && Holds(slots, pushed, h) && h <= |pushed| < h + |slots|
    ensures var wrt := Slot(|pushed|, |slots|);
            && wrt < |slots| && Holds(slots[wrt := e], pushed, h)
            && forall k :: h <= k < |pushed| ==> Slot(k, |slots|) != wrt
  {
    SlotFits(|pushed|, |slots|);
    forall k | h <= k < |pushed| ensures Slot(k, |slots|) != Slot(|pushed|, |slots|) { SameSlot(k, |pushed|, |slots|); }
  }

  lemma HoldsPushed<T>(slots: seq<T>, pushed: seq<T>, h: nat, e: T)
    requires slots != [] && Holds(slots, pushed, h)
    requires Slot(|pushed|, |slots|) < |slots| && slots[Slot(|pushed|, |slots|)] == e
    ensures Holds(slots, pushed + [e], h)
  {
  }

  /**
    With h popped, t pushed, and the counts c and d the caches were loaded at: c <= h <= d <= t < c + n, every
    index is the slot of its count, and the slots between h and t hold what was pushed there.
   */
  ghost predicate Counted<T>(s: State<T>)
    requires s.slots != []
  {
    var n, h, t := |s.slots|, |s.popped|, |s.pushed|;
    && s.rSeen <= h <= s.wSeen <= t < s.rSeen + n
    && s.r == Slot(h, n) && s.w == Slot(t, n) && s.rCached == Slot(s.rSeen, n) && s.wCached == Slot(s.wSeen, n)
    && s.popped == s.pushed[..h]
    && Holds(s.slots, s.pushed, h)
  }

  ghost predicate Inv<T>(s: State<T>) {
    && s.slots != [] && Counted(s)
    && WriterOk(s.writer, s.slots, |s.pushed|, s.rSeen)
    && ReaderOk(s.reader, |s.slots|, s.pushed, |s.popped|, s.wSeen)
  }

  /** What is in the queue: pushed and not popped. */
  function Contents<T>(s: State<T>): seq<T> {
    if |s.popped| <= |s.pushed| then s.pushed[|s.popped|..] else []
  }

  /** What a queue that holds q, and at most `most` entries, holds after answering `a`; None if it would not. */
  function Answered<T(==)>(q: seq<T>, a: Answer<T>, most: nat): Option<seq<T>> {
    match a
    case Pushed(e) => if |q| < most then Some(q + [e]) else None
    case WasFull => if |q| == most then Some(q) else None
    case Popped(e) => if q != [] && q[0] == e then Some(q[1..]) else None
    case WasEmpty => if q == [] then Some(q) else None
  }

  function Replay<T(==)>(answers: seq<Answer<T>>, most: nat): Option<seq<T>> {
    if answers == [] then Some([])
    else
      match Replay(answers[..|answers| - 1], most)
      case None => None
      case Some(q) => Answered(q, answers[|answers| - 1], most)
  }

  /** The invariant, and that the answers so far are those of a bounded queue. */
  ghost predicate Good<T>(s: State<T>) {
    Inv(s) && Replay(s.answers, |s.slots| - 1) == Some(Contents(s))
  }

  lemma LoadOwnWKeeps<T>(s: State<T>, e: T)
    requires Good(s) && s.writer == LoadW(e)
    ensures Good(LoadOwnW(s, e))
  {
    hide Holds, Replay;
    SlotFits(|s.pushed|, |s.slots|);
    SameSlot(s.rSeen, |s.pushed| + 1, |s.slots|);
  }

  lemma RefreshRKeeps<T>(s: State<T>, e: T, wrt: nat, next: nat)
    requires Good(s) && s.writer == LoadR(e, wrt, next)
    ensures Good(RefreshR(s, e, wrt, next))
  {
    RefreshRInv(s, e, wrt, next);
    if s.r == next { ReplayMore(s.answers, WasFull, |s.slots| - 1); }
  }

  lemma RefreshRInv<T>(s: State<T>, e: T, wrt: nat, next: nat)
    requires Inv(s) && s.writer == LoadR(e, wrt, next)
    ensures Inv(RefreshR(s, e, wrt, next))
    ensures s.r == next <==> |Contents(s)| == |s.slots| - 1
  {
    hide Slot, After, Holds;
    SameSlot(|s.popped|, |s.pushed| + 1, |s.slots|);
  }

  lemma WriteSlotKeeps<T>(s: State<T>, e: T, wrt: nat, next: nat)
    requires Good(s) && s.writer == Write(e, wrt, next)
    ensures Good(WriteSlot(s, e, wrt, next))
  {
    HoldsPut(s.slots, s.pushed, |s.popped|, e);
  }

  lemma StoreWKeeps<T>(s: State<T>, e: T, wrt: nat, next: nat)
    requires Good(s) && s.writer == Publish(e, wrt, next)
    ensures Good(StoreW(s, e, next))
  {
    StoreWInv(s, e, wrt, next);
    ReplayMore(s.answers, Pushed(e), |s.slots| - 1);
  }

  lemma StoreWInv<T>(s: State<T>, e: T, wrt: nat, next: nat)
    requires Inv(s) && s.writer == Publish(e, wrt, next)
    ensures Inv(StoreW(s, e, next))
    ensures |Contents(s)| < |s.slots| - 1 && Contents(StoreW(s, e, next)) == Contents(s) + [e]
  {
    hide Slot, After, Holds;
    HoldsPushed(s.slots, s.pushed, |s.popped|, e);
    assert (s.pushed + [e])[..|s.popped|] == s.pushed[..|s.popped|];
  }

  lemma LoadOwnRKeeps<T>(s: State<T>)
    requires Good(s) && s.reader == LoadOwn
    ensures Good(LoadOwnR(s))
  {
    SameSlot(|s.popped|, s.wSeen, |s.slots|);
  }

  lemma RefreshWKeeps<T>(s: State<T>, rr: nat)
    requires Good(s) && s.reader == LoadOther(rr)
    ensures Good(RefreshW(s, rr))
  {
    RefreshWInv(s, rr);
    if rr == s.w { ReplayMore(s.answers, WasEmpty, |s.slots| - 1); }
  }

  lemma RefreshWInv<T>(s: State<T>, rr: nat)
    requires Inv(s) && s.reader == LoadOther(rr)
    ensures Inv(RefreshW(s, rr))
    ensures rr == s.w <==> Contents(s) == []
  {
    hide Slot, After, Holds;
    SameSlot(|s.popped|, |s.pushed|, |s.slots|);
  }

  lemma ReadSlotKeeps<T>(s: State<T>, rr: nat)
    requires Good(s) && s.reader == Take(rr)
    ensures Good(ReadSlot(s, rr))
  {
    SlotFits(|s.popped|, |s.slots|);
  }

  lemma StoreRKeeps<T>(s: State<T>, e: T, next: nat)
    requires Good(s) && s.reader == Release(e, next)
    ensures Good(StoreR(s, e, next))
  {
    StoreRInv(s, e, next);
    ReplayMore(s.answers, Popped(e), |s.slots| - 1);
  }

  lemma StoreRInv<T>(s: State<T>, e: T, next: nat)
    requires Inv(s) && s.reader == Release(e, next)
    ensures Inv(StoreR(s, e, next))
    ensures Contents(s) != [] && Contents(s)[0] == e && Contents(StoreR(s, e, next)) == Contents(s)[1..]
  {
    var h := |s.popped|;
    assert s.pushed[..h + 1] == s.pushed[..h] + [s.pushed[h]];
  }

  lemma ReplayMore<T>(answers: seq<Answer<T>>, a: Answer<T>, most: nat)
    ensures Replay(answers + [a], most) ==
              match Replay(answers, most) case None => None case Some(q) => Answered(q, a, most)
  {
    assert (answers + [a])[..|answers|] == answers;
  }

  lemma WriterKeeps<T>(s: State<T>, entry: T)
    requires Good(s)
    ensures Good(WriterStep(s, entry)) && |WriterStep(s, entry).slots| == |s.slots|
  {
    match s.writer
    case Away =>
    case LoadW(e) => LoadOwnWKeeps(s, e);
    case LoadR(e, wrt, next) => RefreshRKeeps(s, e, wrt, next);
    case Write(e, wrt, next) => WriteSlotKeeps(s, e, wrt, next);
    case Publish(e, wrt, next) => StoreWKeeps(s, e, wrt, next);
  }

  lemma ReaderKeeps<T>(s: State<T>)
    requires Good(s)
    ensures Good(ReaderStep(s)) && |ReaderStep(s).slots| == |s.slots|
  {
    match s.reader
    case Gone =>
    case LoadOwn => LoadOwnRKeeps(s);
    case LoadOther(rr) => RefreshWKeeps(s, rr);
    case Take(rr) => ReadSlotKeeps(s, rr);
    case Release(e, next) => StoreRKeeps(s, e, next);
  }

  // ----- Over every run -----

  lemma StepKeeps<T(!new)>(s: State<T>, s': State<T>)
    requires Good(s) && Next(s, s')
    ensures Good(s') && |s'.slots| == |s.slots|
  {
    ReaderKeeps(s);
    if s' != ReaderStep(s) {
      var e: T :| s' == WriterStep(s, e);
      WriterKeeps(s, e);
    }
  }

  lemma {:induction false} RunKeeps<T(!new)>(run: seq<State<T>>, i: nat)
    requires IsRun(run) && i < |run|
    ensures Good(run[i]) && |run[i].slots| == |run[0].slots|
  {
    if i > 0 {
      RunKeeps(run, i - 1);
      assert Next(run[i - 1], run[i - 1 + 1]);
      StepKeeps(run[i - 1], run[i]);
    }
  }

  /** Entries come out in the order they went in, and at most ExpectedMax - 1 are inside. */
  lemma Fifo<T(!new)>(run: seq<State<T>>, i: nat)
    requires IsRun(run) && i < |run|
    ensures var s := run[i];
            && |s.popped| <= |s.pushed| && s.popped == s.pushed[..|s.popped|]
            && |s.pushed| - |s.popped| <= |s.slots| - 1
            && |s.slots| == |run[0].slots|
  {
    RunKeeps(run, i);
  }

  /**
    The answers, in the order they were settled, are those of one bounded queue used by one caller at a
    time: a push is refused exactly if ExpectedMax - 1 entries are inside at that instant, a pop finds
    nothing exactly if none is, and otherwise takes the oldest.
   */
  lemma AnswersOfAQueue<T(!new)>(run: seq<State<T>>, i: nat)
    requires IsRun(run) && i < |run|
    ensures Replay(run[i].answers, |run[0].slots| - 1) == Some(Contents(run[i]))
  {
    RunKeeps(run, i);
  }

  /** The writer never writes an unread slot, and never the one the reader is about to read. */
  lemma UnreadSlotsAreSafe<T(!new)>(run: seq<State<T>>, i: nat)
    requires IsRun(run) && i < |run| && run[i].writer.Write?
    ensures var s := run[i];
            var wrt := s.writer.wrt;
            && wrt < |s.slots|
            && (forall k :: |s.popped| <= k < |s.pushed| ==> Slot(k, |s.slots|) != wrt)
            && (s.reader.Take? ==> s.reader.rr != wrt)
  {
    RunKeeps(run, i);
    var s := run[i];
    HoldsPut(s.slots, s.pushed, |s.popped|, s.writer.entry);
  }

  /**
    The two index comparisons against the true indices are exact; against a cached one they can only see
    too little room, or too few entries.
   */
  ghost predicate ComparisonsMean<T>(s: State<T>) {
    && (s.r == After(s.w, |s.slots|) <==> |Contents(s)| == |s.slots| - 1)
    && (s.r == s.w <==> Contents(s) == [])
    && (s.rCached != After(s.w, |s.slots|) ==> |Contents(s)| < |s.slots| - 1)
    && (s.r != s.wCached ==> Contents(s) != [])
  }

  lemma Comparisons<T>(s: State<T>)
    requires Good(s)
    ensures s.w < |s.slots| && s.r < |s.slots| && ComparisonsMean(s)
  {
    var n, h, t := |s.slots|, |s.popped|, |s.pushed|;
    SlotFits(t, n);
    SlotFits(h, n);
    SameSlot(h, t, n);
    SameSlot(h, t + 1, n);
    SameSlot(s.rSeen, t + 1, n);
    SameSlot(h, s.wSeen, n);
  }

  lemma CachesErrSafely<T(!new)>(run: seq<State<T>>, i: nat)
    requires IsRun(run) && i < |run|
    ensures ComparisonsMean(run[i])
  {
    RunKeeps(run, i);
    Comparisons(run[i]);
  }
}
