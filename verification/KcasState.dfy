/**
  Shared memory of the multi-word compare-and-swap (K-CAS over RDCSS) protocol.

  Every thread owns one K-CAS descriptor and one RDCSS descriptor, which it reuses for ever;
  a word of application memory is a plain value or a tagged pointer naming one use of a descriptor.
  Beside the real words the state carries a history: what was published under each name, how each
  K-CAS ended, which RDCSS words were ever placed, and which K-CAS met a mismatching location.
  No step ever branches on the history.
 */
module KcasState {

  type Tid = int
  type Loc = int

  /** One use of thread t's K-CAS descriptor. */
  datatype KId = KId(t: Tid, s: int)

  /** One use of thread p's RDCSS descriptor. */
  datatype RId = RId(p: Tid, k: int)

  datatype Word = Bits(v: int) | Kcas(id: KId) | Rdcss(rid: RId)

  datatype Outcome = Undecided | Succeeded | Failed

  datatype StatusWord = StatusWord(stat: Outcome, seqno: int)

  datatype Entry = Entry(loc: Loc, before: int, desired: int)

  /** The part of a K-CAS descriptor that its owner fills in, word by word. */
  datatype KDesc = KDesc(num: nat, slots: int -> Entry)

  /** An RDCSS descriptor; `statusOf` stands for the address of that thread's status word. */
  datatype RDesc = RDesc(loc: Loc, before: int, tag: KId, statusOf: Tid)

  /** What was published under an RDCSS name: the descriptor, and the entry it was made from. */
  datatype RRec = RRec(desc: RDesc, idx: nat)

  datatype Shared = Shared(
    mem: Loc -> Word,               // application memory
    st: Tid -> StatusWord,          // status word of each K-CAS descriptor
    kd: Tid -> KDesc,               // entries of each K-CAS descriptor
    rseq: Tid -> int,               // sequence number of each RDCSS descriptor
    rd: Tid -> RDesc,               // fields of each RDCSS descriptor
    post: bool,                     // is the number in an RDCSS word the one after the second increment?
    hist: map<KId, seq<Entry>>,     // history: entries published under each K-CAS name
    fate: KId -> Outcome,           // history: how each K-CAS ended
    rhist: map<RId, RRec>,          // history: what each RDCSS name stands for
    placed: set<RId>,               // history: RDCSS words that have been in memory
    live: set<RId>,                 // history: those in whose time there the status was read UNDECIDED
    seen: set<KId>)                 // history: K-CAS for which a mismatch was read

  ghost function Upd<A, B>(f: A -> B, a: A, b: B): A -> B {
    x => if x == a then b else f(x)
  }

  /** No entry before the i-th is about its location. */
  ghost predicate Fresh(es: seq<Entry>, i: nat)
    requires i < |es|
  {
    forall k :: 0 <= k < i ==> es[k].loc != es[i].loc
  }

  /** The first n entries are about different locations. */
  ghost predicate DistinctTo(es: seq<Entry>, n: nat) {
    forall i :: 0 <= i < n && i < |es| ==> Fresh(es, i)
  }

  ghost predicate Distinct(es: seq<Entry>) {
    DistinctTo(es, |es|)
  }

  /**
    What makes repeated locations harmless: where a location is first named, other than in entry 0 and
    before any repetition, every later entry about it expects the same value.
   */
  ghost predicate Harmless(es: seq<Entry>) {
    forall f, j :: 1 <= f < j < |es| && es[f].loc == es[j].loc && DistinctTo(es, f + 1) ==> es[f].before == es[j].before
  }

  ghost predicate HasLoc(es: seq<Entry>, l: Loc) {
    exists i :: 0 <= i < |es| && es[i].loc == l
  }

  /** The first entry about location l. */
  ghost function FirstIndex(es: seq<Entry>, l: Loc): (i: nat)
    requires HasLoc(es, l)
    ensures i < |es| && es[i].loc == l && Fresh(es, i)
  {
    if es[0].loc == l then 0
    else
      var i :| 0 <= i < |es| && es[i].loc == l;
      assert es[1..][i - 1].loc == l;
      1 + FirstIndex(es[1..], l)
  }

  ghost function EntryAt(es: seq<Entry>, l: Loc): (e: Entry)
    requires HasLoc(es, l)
    ensures e in es && e.loc == l
  {
    es[FirstIndex(es, l)]
  }

  ghost predicate Decided(g: Shared, id: KId) {
    g.fate(id) != Undecided
  }

  ghost function Locs(g: Shared, id: KId): seq<Entry> {
    if id in g.hist then g.hist[id] else []
  }

  /** The operation is over, or its first n entries are about different locations, which hold its tag. */
  ghost predicate Prefix(g: Shared, id: KId, n: nat) {
    Decided(g, id) || Tagged(g, id, Locs(g, id), n)
  }

  ghost predicate Tagged(g: Shared, id: KId, es: seq<Entry>, n: nat) {
    forall i :: 0 <= i < n && i < |es| ==> g.mem(es[i].loc) == Kcas(id) && Fresh(es, i)
  }

  /** No location holds the tag. */
  ghost predicate Clear(g: Shared, id: KId) {
    forall l :: g.mem(l) != Kcas(id)
  }

  /** The value an application sees at location l. */
  ghost function Logical(g: Shared, l: Loc): int {
    match g.mem(l)
    case Bits(v) => v
    case Rdcss(r) => if r in g.rhist then g.rhist[r].desc.before else 0
    case Kcas(id) =>
      if !HasLoc(Locs(g, id), l) then 0
      else if g.fate(id) == Succeeded then EntryAt(Locs(g, id), l).desired
      else EntryAt(Locs(g, id), l).before
  }

  /** Only harmless operations have been published. */
  ghost predicate Careful(g: Shared) {
    forall id :: id in g.hist ==> Harmless(g.hist[id])
  }

  /** The operation is over and its tag is not on its first location. */
  ghost predicate Gone(g: Shared, id: KId) {
    Decided(g, id) && (Locs(g, id) != [] ==> g.mem(Locs(g, id)[0].loc) != Kcas(id))
  }

  /** No RDCSS word made from entry 0 of the operation has ever been in memory. */
  ghost predicate NonePlaced(g: Shared, id: KId) {
    forall r :: r in g.placed && r in g.rhist && g.rhist[r].desc.tag == id ==> g.rhist[r].idx != 0
  }

  ghost predicate SameLogical(g: Shared, g': Shared) {
    forall l :: Logical(g', l) == Logical(g, l)
  }

  /** Descriptor contents d spell out exactly the entries es. */
  ghost predicate Spells(d: KDesc, es: seq<Entry>) {
    d.num == |es| && forall i :: 0 <= i < |es| ==> d.slots(i) == es[i]
  }

  // ----- The invariant of shared memory -----

  ghost predicate DescInv(g: Shared) {
    forall id :: id in g.hist ==>
                   && (g.fate(id) == Succeeded ==> Distinct(g.hist[id]))
                   && id.s <= g.st(id.t).seqno
                   && (id.s == g.st(id.t).seqno ==> g.fate(id) == g.st(id.t).stat && Spells(g.kd(id.t), g.hist[id]))
                   && (id.s < g.st(id.t).seqno ==> Decided(g, id) && (g.fate(id) == Succeeded ==> Clear(g, id)))
  }

  ghost predicate TagInv(g: Shared) {
    forall l :: g.mem(l).Kcas? ==>
                  && g.mem(l).id in g.hist
                  && HasLoc(g.hist[g.mem(l).id], l)
                  && DistinctTo(g.hist[g.mem(l).id], FirstIndex(g.hist[g.mem(l).id], l) + 1)
                  && Prefix(g, g.mem(l).id, 1)
  }

  ghost predicate WordInv(g: Shared) {
    forall l :: g.mem(l).Rdcss? ==>
                  g.mem(l).rid in g.placed && g.mem(l).rid in g.rhist && g.rhist[g.mem(l).rid].desc.loc == l
  }

  /** The record under RDCSS name r is a faithful copy of one entry, and earlier entries were taken first. */
  ghost predicate RecordOk(g: Shared, r: RId)
    requires r in g.rhist
  {
    var rec := g.rhist[r];
    && rec.desc.tag in g.hist
    && rec.desc.statusOf == rec.desc.tag.t
    && rec.idx < |g.hist[rec.desc.tag]|
    && g.hist[rec.desc.tag][rec.idx].loc == rec.desc.loc
    && g.hist[rec.desc.tag][rec.idx].before == rec.desc.before
    && Prefix(g, rec.desc.tag, rec.idx)
    && r.k <= g.rseq(r.p)
    && (!g.post ==> r.k < g.rseq(r.p))
    && (r.k == g.rseq(r.p) ==> g.rd(r.p) == rec.desc)
  }

  ghost predicate RecordInv(g: Shared) {
    forall r :: r in g.rhist ==> RecordOk(g, r)
  }

  /** The operation is over, or entry i is the first about its location. */
  ghost predicate FreshOrOver(g: Shared, id: KId, i: nat) {
    Decided(g, id) || (id in g.hist && i < |g.hist[id]| && Fresh(g.hist[id], i))
  }

  /**
    An RDCSS word that left memory left its K-CAS decided or its tag in place. It was placed for the first
    entry about its location, if not for an operation that was over.
   */
  ghost predicate PlacedInv(g: Shared) {
    forall r :: r in g.placed ==>
                  && r in g.rhist
                  && FreshOrOver(g, g.rhist[r].desc.tag, g.rhist[r].idx)
                  && (|| g.mem(g.rhist[r].desc.loc) == Rdcss(r)
                      || Decided(g, g.rhist[r].desc.tag)
                      || g.mem(g.rhist[r].desc.loc) == Kcas(g.rhist[r].desc.tag))
  }

  /**
    A word in whose time the status was read UNDECIDED was made from the first entry about its location; made
    from entry 0, it is gone by the time of the decision.
   */
  ghost predicate LiveInv(g: Shared) {
    forall r :: r in g.live ==>
                  && r in g.placed && r in g.rhist && g.rhist[r].desc.tag in g.hist
                  && DistinctTo(g.hist[g.rhist[r].desc.tag], g.rhist[r].idx + 1)
                  && (g.rhist[r].idx == 0 && Decided(g, g.rhist[r].desc.tag) ==> g.mem(g.rhist[r].desc.loc) != Rdcss(r))
  }

  ghost predicate GInv(g: Shared) {
    DescInv(g) && TagInv(g) && WordInv(g) && RecordInv(g) && PlacedInv(g) && LiveInv(g)
  }

  // ----- What any step by thread a may do to what the others know -----

  ghost predicate Grows(g: Shared, g': Shared) {
    && (forall id :: id in g.hist ==> id in g'.hist && g'.hist[id] == g.hist[id])
    && (forall r :: r in g.rhist ==> r in g'.rhist && g'.rhist[r] == g.rhist[r])
    && g.placed <= g'.placed
    && g.live <= g'.live
    && g.seen <= g'.seen
    && g'.post == g.post
    && (forall t :: g.st(t).seqno <= g'.st(t).seqno)
    && (forall t :: g.rseq(t) <= g'.rseq(t))
  }

  ghost predicate TagsKept(g: Shared, g': Shared) {
    && (forall id :: id in g.hist && Decided(g, id) ==> g'.fate(id) == g.fate(id))
    && (forall id :: id in g.hist && Gone(g, id) ==> Gone(g', id))
    && (forall l :: g.mem(l).Kcas? && g.mem(l).id in g.hist && !Decided(g', g.mem(l).id) ==> g'.mem(l) == g.mem(l))
    && (forall l :: g'.mem(l).Kcas? && g'.mem(l).id in g.hist && g.fate(g'.mem(l).id) == Succeeded ==>
                      g.mem(l) == g'.mem(l))
    && (forall l :: g'.mem(l).Rdcss? && g'.mem(l).rid in g.placed ==> g.mem(l) == g'.mem(l))
    && (forall id, i :: id in g.hist && g.fate(id) != Succeeded && g'.fate(id) == Succeeded && 0 <= i < |g.hist[id]| ==>
                       g'.mem(g.hist[id][i].loc) == Kcas(id))
  }

  ghost predicate CopiesKept(g: Shared, g': Shared) {
    && (forall id :: id in g.hist && g'.st(id.t).seqno == id.s ==> g'.kd(id.t) == g.kd(id.t))
    && (forall r :: r in g.rhist && g'.rseq(r.p) == r.k ==> g'.rd(r.p) == g.rd(r.p))
  }

  /** A word made from entry 0 that appears is one of thread a's own operation. */
  ghost predicate FirstOwn(a: Tid, g: Shared, g': Shared) {
    forall r :: r in g'.placed && r !in g.placed && r in g'.rhist && g'.rhist[r].idx == 0 ==>
                  g'.rhist[r].desc.tag.t == a
  }

  /** Thread a touches nobody else's descriptors and publishes under nobody else's names. */
  ghost predicate OthersKept(a: Tid, g: Shared, g': Shared) {
    && (forall q :: q != a ==>
                      g'.kd(q) == g.kd(q) && g'.rd(q) == g.rd(q) && g'.rseq(q) == g.rseq(q) &&
                      g'.st(q).seqno == g.st(q).seqno)
    && (forall id :: id in g'.hist && id.t != a ==> id in g.hist)
    && (forall r :: r in g'.rhist && r.p != a ==> r in g.rhist)
    && (forall r :: r in g'.placed && r.p != a ==> r in g.placed)
    && FirstOwn(a, g, g')
  }

  ghost predicate Evolves(a: Tid, g: Shared, g': Shared) {
    Grows(g, g') && TagsKept(g, g') && CopiesKept(g, g') && OthersKept(a, g, g')
  }
}
