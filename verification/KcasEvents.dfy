/**
  The atomic actions by which threads change shared memory, one function each, and what each of
  them keeps: the invariant, what other threads rely on, and the values the application sees.
 */
module KcasEvents {
  import opened KcasState

  /** increment_sequence of a K-CAS descriptor whose entries are going to be refilled. */
  ghost function Reopen(g: Shared, t: Tid, seqno: int): Shared {
    g.(st := Upd(g.st, t, StatusWord(Undecided, seqno)))
  }

  /** One store of the owner into its K-CAS descriptor. */
  ghost function WriteDesc(g: Shared, t: Tid, d: KDesc): Shared {
    g.(kd := Upd(g.kd, t, d))
  }

  ghost function Spelled(d: KDesc): seq<Entry> {
    seq(d.num, i requires 0 <= i => d.slots(i))
  }

  /** increment_sequence of a filled descriptor: its entries become visible under a new name. */
  ghost function Publish(g: Shared, t: Tid, seqno: int): Shared {
    g.(st := Upd(g.st, t, StatusWord(Undecided, seqno)),
       hist := g.hist[KId(t, seqno) := Spelled(g.kd(t))],
       fate := Upd(g.fate, KId(t, seqno), Undecided))
  }

  /** First fetch_add of an RDCSS round: the descriptor is about to be rewritten. */
  ghost function BeginRound(g: Shared, p: Tid): Shared {
    g.(rseq := Upd(g.rseq, p, g.rseq(p) + 1))
  }

  ghost function WriteRdcss(g: Shared, p: Tid, d: RDesc): Shared {
    g.(rd := Upd(g.rd, p, d))
  }

  /** The number that the second fetch_add of a round puts into the RDCSS word. */
  ghost function RoundName(g: Shared, p: Tid): RId {
    RId(p, if g.post then g.rseq(p) + 1 else g.rseq(p))
  }

  /** Second fetch_add of an RDCSS round. */
  ghost function EndRound(g: Shared, p: Tid, idx: nat): Shared {
    g.(rseq := Upd(g.rseq, p, g.rseq(p) + 1),
       rhist := g.rhist[RoundName(g, p) := RRec(g.rd(p), idx)])
  }

  /** A memory word changes; an RDCSS word that appears is noted as placed. */
  ghost function Store(g: Shared, l: Loc, w: Word): Shared {
    g.(mem := Upd(g.mem, l, w), placed := if w.Rdcss? then g.placed + {w.rid} else g.placed)
  }

  /** Compare-and-swap of a memory word. */
  ghost function Cas(g: Shared, l: Loc, expected: Word, desired: Word): Shared {
    if g.mem(l) == expected then Store(g, l, desired) else g
  }

  /** The compare-and-swap of a status word that was undecided under sequence number s. */
  ghost function Decide(g: Shared, id: KId, o: Outcome): Shared {
    if g.st(id.t) == StatusWord(Undecided, id.s)
    then g.(st := Upd(g.st, id.t, StatusWord(o, id.s)), fate := Upd(g.fate, id, o))
    else g
  }

  /** A status was read UNDECIDED; noted if the RDCSS word in whose behalf it was read was in place. */
  ghost function NoteLive(g: Shared, r: RId, l: Loc, undecided: bool): Shared {
    if undecided && g.mem(l) == Rdcss(r) then g.(live := g.live + {r}) else g
  }

  ghost function NoteMismatch(g: Shared, id: KId): Shared {
    g.(seen := g.seen + {id})
  }

  // ----- Preservation -----

  /** The descriptor of t is not published under its current number. */
  ghost predicate Private(g: Shared, t: Tid) {
    KId(t, g.st(t).seqno) !in g.hist
  }

  /** The K-CAS under the current number of t, if there is one, is over. */
  ghost predicate Quiet(g: Shared, t: Tid) {
    var id := KId(t, g.st(t).seqno);
    id in g.hist ==> Decided(g, id) && (g.fate(id) == Succeeded ==> Clear(g, id))
  }

  /** All that others rely on is kept and, if only harmless operations are about, what applications see. */
  ghost predicate Kept(a: Tid, g: Shared, g': Shared) {
    GInv(g') && Evolves(a, g, g') && (Careful(g) ==> SameLogical(g, g'))
  }

  lemma Unchanged(a: Tid, g: Shared)
    requires GInv(g)
    ensures Kept(a, g, g)
  {
  }

  lemma PrefixStable(g: Shared, g': Shared, id: KId, n: nat)
    requires id in g.hist && id in g'.hist && g'.hist[id] == g.hist[id] && TagsKept(g, g') && Prefix(g, id, n)
    ensures Prefix(g', id, n)
  {
    if !Decided(g', id) {
      var es := g.hist[id];
      forall i | 0 <= i < n && i < |es| ensures g'.mem(es[i].loc) == Kcas(id) && Fresh(es, i) {
        assert g.mem(es[i].loc) == Kcas(id);
      }
    }
  }

  lemma RecordStable(g: Shared, g': Shared, r: RId)
    requires r in g.rhist && RecordOk(g, r)
    requires Grows(g, g') && TagsKept(g, g') && CopiesKept(g, g')
    ensures RecordOk(g', r)
  {
    PrefixStable(g, g', g.rhist[r].desc.tag, g.rhist[r].idx);
  }

  lemma RecordsStable(g: Shared, g': Shared)
    requires RecordInv(g) && Grows(g, g') && TagsKept(g, g') && CopiesKept(g, g')
    requires g'.rhist == g.rhist
    ensures RecordInv(g')
  {
    forall r | r in g'.rhist ensures RecordOk(g', r) { RecordStable(g, g', r); }
  }

  lemma LivesStable(g: Shared, g': Shared)
    requires LiveInv(g) && Grows(g, g') && g'.live == g.live && g'.mem == g.mem
    requires forall id :: id in g.hist && Decided(g', id) ==> Decided(g, id)
    ensures LiveInv(g')
  {
  }

  lemma ReopenEvolves(g: Shared, t: Tid)
    ensures Evolves(t, g, Reopen(g, t, g.st(t).seqno + 1)) && SameLogical(g, Reopen(g, t, g.st(t).seqno + 1))
  {
  }

  lemma ReopenKeeps(g: Shared, t: Tid)
    requires GInv(g) && Quiet(g, t)
    ensures Kept(t, g, Reopen(g, t, g.st(t).seqno + 1))
    ensures Private(Reopen(g, t, g.st(t).seqno + 1), t)
  {
    hide Grows, TagsKept, CopiesKept, OthersKept, SameLogical, Careful;
    var g' := Reopen(g, t, g.st(t).seqno + 1);
    ReopenEvolves(g, t);
    forall id | id in g.hist && id.t == t && id.s == g.st(t).seqno
      ensures Decided(g, id) && (g.fate(id) == Succeeded ==> Clear(g, id))
    {
      assert id == KId(t, g.st(t).seqno);
    }
    RecordsStable(g, g');
    LivesStable(g, g');
  }

  lemma WriteDescEvolves(g: Shared, t: Tid, d: KDesc)
    requires GInv(g) && Private(g, t)
    ensures Evolves(t, g, WriteDesc(g, t, d)) && SameLogical(g, WriteDesc(g, t, d)) && DescInv(WriteDesc(g, t, d))
  {
    hide TagInv, WordInv, RecordInv, PlacedInv, LiveInv, Distinct, DistinctTo;
    forall id | id in g.hist && id.t == t ensures id.s != g.st(t).seqno {
      assert id == KId(t, id.s);
    }
  }

  lemma WriteDescKeeps(g: Shared, t: Tid, d: KDesc)
    requires GInv(g) && Private(g, t)
    ensures Kept(t, g, WriteDesc(g, t, d)) && Private(WriteDesc(g, t, d), t)
  {
    hide Grows, TagsKept, CopiesKept, OthersKept, SameLogical, Careful;
    WriteDescEvolves(g, t, d);
    RecordsStable(g, WriteDesc(g, t, d));
    LivesStable(g, WriteDesc(g, t, d));
  }

  lemma BeginRoundEvolves(g: Shared, p: Tid)
    requires forall r :: r in g.rhist ==> r.k <= g.rseq(r.p)
    ensures Evolves(p, g, BeginRound(g, p)) && SameLogical(g, BeginRound(g, p))
  {
  }

  lemma BeginRoundKeeps(g: Shared, p: Tid)
    requires GInv(g)
    ensures Kept(p, g, BeginRound(g, p))
    ensures forall r :: r in g.rhist && r.p == p ==> r.k < BeginRound(g, p).rseq(p)
  {
    hide Grows, TagsKept, CopiesKept, OthersKept, SameLogical, Careful;
    var g' := BeginRound(g, p);
    forall r | r in g.rhist ensures r.k <= g.rseq(r.p) { assert RecordOk(g, r); }
    BeginRoundEvolves(g, p);
    RecordsStable(g, g');
    LivesStable(g, g');
  }

  lemma WriteRdcssEvolves(g: Shared, p: Tid, d: RDesc)
    requires forall r :: r in g.rhist && r.p == p ==> r.k < g.rseq(p)
    ensures Evolves(p, g, WriteRdcss(g, p, d)) && SameLogical(g, WriteRdcss(g, p, d))
  {
  }

  lemma WriteRdcssKeeps(g: Shared, p: Tid, d: RDesc)
    requires GInv(g)
    requires forall r :: r in g.rhist && r.p == p ==> r.k < g.rseq(p)
    ensures Kept(p, g, WriteRdcss(g, p, d))
  {
    hide Grows, TagsKept, CopiesKept, OthersKept, SameLogical, Careful;
    WriteRdcssEvolves(g, p, d);
    RecordsStable(g, WriteRdcss(g, p, d));
    LivesStable(g, WriteRdcss(g, p, d));
  }

  /** Only the notes about mismatches and about statuses read differ. */
  ghost predicate Noted(g: Shared, g': Shared) {
    g' == g.(live := g'.live, seen := g'.seen) && g.live <= g'.live && g.seen <= g'.seen
  }

  lemma NotedEvolves(a: Tid, g: Shared, g': Shared)
    requires Noted(g, g')
    ensures Evolves(a, g, g') && SameLogical(g, g')
  {
  }

  lemma NotedInv(g: Shared, g': Shared)
    requires GInv(g) && Noted(g, g')
    ensures DescInv(g') && WordInv(g') && PlacedInv(g')
  {
  }

  lemma NotedTags(g: Shared, g': Shared)
    requires TagInv(g) && Noted(g, g')
    ensures TagInv(g')
  {
  }

  lemma NotedKeeps(a: Tid, g: Shared, g': Shared)
    requires GInv(g) && Noted(g, g') && LiveInv(g')
    ensures Kept(a, g, g')
  {
    hide Grows, TagsKept, CopiesKept, OthersKept, SameLogical, Careful;
    NotedEvolves(a, g, g');
    NotedInv(g, g');
    NotedTags(g, g');
    RecordsStable(g, g');
  }

  lemma NoteKeeps(a: Tid, g: Shared, id: KId)
    requires GInv(g)
    ensures Kept(a, g, NoteMismatch(g, id))
  {
    LivesStable(g, NoteMismatch(g, id));
    NotedKeeps(a, g, NoteMismatch(g, id));
  }

  /** With no tag on its location, an entry of an undecided operation is the first about it. */
  lemma NoTagFresh(g: Shared, r: RId)
    requires GInv(g) && r in g.rhist && !g.mem(g.rhist[r].desc.loc).Kcas?
    ensures var rec := g.rhist[r];
            && rec.desc.tag in g.hist && FreshOrOver(g, rec.desc.tag, rec.idx)
            && (!Decided(g, rec.desc.tag) ==> DistinctTo(g.hist[rec.desc.tag], rec.idx + 1))
  {
    var rec := g.rhist[r];
    assert RecordOk(g, r);
    if !Decided(g, rec.desc.tag) {
      var es := g.hist[rec.desc.tag];
      assert Tagged(g, rec.desc.tag, es, rec.idx);
      forall k | 0 <= k < rec.idx ensures es[k].loc != es[rec.idx].loc { assert g.mem(es[k].loc).Kcas?; }
    }
  }

  lemma NoteLiveKeeps(a: Tid, g: Shared, r: RId, undecided: bool)
    requires GInv(g) && r in g.placed && r in g.rhist
    requires var d := g.rhist[r].desc; undecided ==> g.st(d.statusOf) == StatusWord(Undecided, d.tag.s)
    ensures Kept(a, g, NoteLive(g, r, g.rhist[r].desc.loc, undecided))
  {
    NoteLiveInv(g, r, undecided);
    NotedKeeps(a, g, NoteLive(g, r, g.rhist[r].desc.loc, undecided));
  }

  lemma NoteLiveInv(g: Shared, r: RId, undecided: bool)
    requires GInv(g) && r in g.placed && r in g.rhist
    requires var d := g.rhist[r].desc; undecided ==> g.st(d.statusOf) == StatusWord(Undecided, d.tag.s)
    ensures LiveInv(NoteLive(g, r, g.rhist[r].desc.loc, undecided))
  {
    if undecided && g.mem(g.rhist[r].desc.loc) == Rdcss(r) {
      NoTagFresh(g, r);
      assert RecordOk(g, r);
    }
  }

  // Publishing.

  lemma FreshName(g: Shared, t: Tid)
    requires GInv(g) && Private(g, t)
    ensures KId(t, g.st(t).seqno + 1) !in g.hist
    ensures forall id :: id in g.hist && id.t == t ==> id.s < g.st(t).seqno
    ensures forall l :: g.mem(l) != Kcas(KId(t, g.st(t).seqno + 1))
    ensures forall r :: r in g.rhist ==> g.rhist[r].desc.tag != KId(t, g.st(t).seqno + 1)
  {
    forall id | id in g.hist && id.t == t ensures id.s < g.st(t).seqno {
      assert id == KId(t, id.s);
    }
    forall r | r in g.rhist ensures g.rhist[r].desc.tag in g.hist { assert RecordOk(g, r); }
  }

  lemma PublishFrame(g: Shared, t: Tid)
    requires KId(t, g.st(t).seqno + 1) !in g.hist
    ensures var g' := Publish(g, t, g.st(t).seqno + 1); Grows(g, g') && CopiesKept(g, g') && OthersKept(t, g, g')
  {
  }

  lemma PublishEvolves(g: Shared, t: Tid)
    requires GInv(g) && Private(g, t)
    ensures Evolves(t, g, Publish(g, t, g.st(t).seqno + 1))
  {
    FreshName(g, t);
    PublishFrame(g, t);
  }

  lemma PublishMemory(g: Shared, t: Tid)
    requires GInv(g) && Private(g, t)
    ensures var g' := Publish(g, t, g.st(t).seqno + 1); SameLogical(g, g') && TagInv(g')
  {
    var g' := Publish(g, t, g.st(t).seqno + 1);
    FreshName(g, t);
    PublishEvolves(g, t);
    forall l | g.mem(l).Kcas?
      ensures Locs(g', g.mem(l).id) == Locs(g, g.mem(l).id) && Prefix(g', g.mem(l).id, 1)
    {
      PrefixStable(g, g', g.mem(l).id, 1);
    }
  }

  lemma PublishOthers(g: Shared, t: Tid)
    requires GInv(g) && Private(g, t)
    ensures var g' := Publish(g, t, g.st(t).seqno + 1);
            DescInv(g') && WordInv(g') && PlacedInv(g') && NonePlaced(g', KId(t, g.st(t).seqno + 1))
  {
    FreshName(g, t);
  }

  lemma PublishKeeps(g: Shared, t: Tid)
    requires GInv(g) && Private(g, t)
    ensures var s := g.st(t).seqno + 1;
            var g' := Publish(g, t, s);
            && Kept(t, g, g') && KId(t, s) in g'.hist && !Decided(g', KId(t, s))
            && g'.hist[KId(t, s)] == Spelled(g.kd(t)) && NonePlaced(g', KId(t, s))
  {
    hide Grows, TagsKept, CopiesKept, OthersKept, SameLogical, Careful;
    var g' := Publish(g, t, g.st(t).seqno + 1);
    FreshName(g, t);
    PublishEvolves(g, t);
    PublishMemory(g, t);
    PublishOthers(g, t);
    RecordsStable(g, g');
    LivesStable(g, g');
  }

  // Naming an RDCSS word.

  lemma EndRoundEvolves(g: Shared, p: Tid, i: nat)
    requires GInv(g)
    requires forall r :: r in g.rhist && r.p == p ==> r.k < g.rseq(p)
    ensures Evolves(p, g, EndRound(g, p, i))
    ensures RoundName(g, p) !in g.rhist && RoundName(g, p) !in g.placed
    ensures forall l :: g.mem(l) != Rdcss(RoundName(g, p))
  {
  }

  lemma EndRoundKeeps(g: Shared, p: Tid, id: KId, i: nat)
    requires GInv(g)
    requires forall r :: r in g.rhist && r.p == p ==> r.k < g.rseq(p)
    requires id in g.hist && i < |g.hist[id]| && Prefix(g, id, i)
    requires g.rd(p) == RDesc(g.hist[id][i].loc, g.hist[id][i].before, id, id.t)
    ensures Kept(p, g, EndRound(g, p, i))
    ensures RoundName(g, p) !in g.rhist && RoundName(g, p) !in g.placed
  {
    var g' := EndRound(g, p, i);
    EndRoundEvolves(g, p, i);
    assert RecordInv(g') by {
      forall r | r in g'.rhist ensures RecordOk(g', r) {
        if r in g.rhist { RecordStable(g, g', r); } else { PrefixStable(g, g', id, i); }
      }
    }
    EndRoundMemory(g, p, i);
  }

  lemma EndRoundMemory(g: Shared, p: Tid, i: nat)
    requires GInv(g) && RoundName(g, p) !in g.rhist
    ensures var g' := EndRound(g, p, i); SameLogical(g, g') && DescInv(g') && TagInv(g') && WordInv(g') && PlacedInv(g')
  {
  }

  // Changing one word of memory.

  /** When the tag of id may appear on location l. */
  ghost predicate MayTag(g: Shared, l: Loc, id: KId) {
    && id in g.hist && HasLoc(g.hist[id], l) && g.fate(id) != Succeeded
    && DistinctTo(g.hist[id], FirstIndex(g.hist[id], l) + 1)
    && (g.hist[id][0].loc == l || Prefix(g, id, 1))
    && (g.hist[id][0].loc == l ==> !Decided(g, id))
  }

  /** When location l may go from its present word to w. */
  ghost predicate MayStore(g: Shared, l: Loc, w: Word) {
    && (g.mem(l).Kcas? ==> Decided(g, g.mem(l).id))
    && (g.mem(l).Rdcss? && g.mem(l).rid in g.rhist ==>
          var tag := g.rhist[g.mem(l).rid].desc.tag; Decided(g, tag) || w == Kcas(tag))
    && (w.Kcas? ==> MayTag(g, l, w.id))
    && (w.Rdcss? ==>
          && w.rid in g.rhist && w.rid !in g.placed && g.rhist[w.rid].desc.loc == l
          && FreshOrOver(g, g.rhist[w.rid].desc.tag, g.rhist[w.rid].idx))
    && (Careful(g) ==> Logical(Store(g, l, w), l) == Logical(g, l))
  }

  /** Whose word may appear: the thread's own, and made from entry 0 only if the operation is its own. */
  ghost predicate OwnWord(a: Tid, g: Shared, w: Word) {
    w.Rdcss? ==> w.rid.p == a && (w.rid in g.rhist && g.rhist[w.rid].idx == 0 ==> g.rhist[w.rid].desc.tag.t == a)
  }

  lemma StoreGone(g: Shared, l: Loc, w: Word, id: KId)
    requires MayStore(g, l, w) && id in g.hist && Gone(g, id)
    ensures Gone(Store(g, l, w), id)
  {
  }

  lemma StoreTagsKept(g: Shared, l: Loc, w: Word)
    requires GInv(g) && MayStore(g, l, w)
    ensures TagsKept(g, Store(g, l, w))
  {
    var g' := Store(g, l, w);
    assert forall x :: x != l ==> g'.mem(x) == g.mem(x);
    assert g'.mem(l) == w && g'.fate == g.fate;
    forall id | id in g.hist && Gone(g, id) ensures Gone(g', id) { StoreGone(g, l, w, id); }
  }

  lemma StoreEvolves(a: Tid, g: Shared, l: Loc, w: Word)
    requires GInv(g) && MayStore(g, l, w) && OwnWord(a, g, w)
    ensures Evolves(a, g, Store(g, l, w))
  {
    StoreTagsKept(g, l, w);
    StoreFrame(a, g, l, w);
  }

  lemma StoreFrame(a: Tid, g: Shared, l: Loc, w: Word)
    requires OwnWord(a, g, w)
    ensures var g' := Store(g, l, w); Grows(g, g') && CopiesKept(g, g') && OthersKept(a, g, g')
  {
  }

  lemma StoreLogical(g: Shared, l: Loc, w: Word)
    requires MayStore(g, l, w)
    ensures Careful(g) ==> SameLogical(g, Store(g, l, w))
  {
  }

  lemma StoreDesc(g: Shared, l: Loc, w: Word)
    requires GInv(g) && MayStore(g, l, w)
    ensures DescInv(Store(g, l, w)) && WordInv(Store(g, l, w))
  {
    hide RecordInv, PlacedInv, LiveInv;
  }

  lemma StoreTag(g: Shared, l: Loc, w: Word)
    requires GInv(g) && MayStore(g, l, w) && TagsKept(g, Store(g, l, w))
    ensures TagInv(Store(g, l, w))
  {
    var g' := Store(g, l, w);
    forall x | g'.mem(x).Kcas?
      ensures var id := g'.mem(x).id;
              && id in g'.hist && HasLoc(g'.hist[id], x)
              && DistinctTo(g'.hist[id], FirstIndex(g'.hist[id], x) + 1) && Prefix(g', id, 1)
    {
      var id := g'.mem(x).id;
      if Prefix(g, id, 1) { PrefixStable(g, g', id, 1); }
    }
  }

  lemma StorePlaced(g: Shared, l: Loc, w: Word)
    requires GInv(g) && MayStore(g, l, w)
    ensures PlacedInv(Store(g, l, w)) && LiveInv(Store(g, l, w))
  {
    hide DescInv, TagInv, WordInv, RecordInv;
  }

  lemma StoreKeeps(a: Tid, g: Shared, l: Loc, w: Word)
    requires GInv(g) && MayStore(g, l, w) && OwnWord(a, g, w)
    ensures Kept(a, g, Store(g, l, w))
  {
    hide DescInv, TagInv, WordInv, RecordInv, PlacedInv, LiveInv, Grows, TagsKept, CopiesKept, OthersKept, SameLogical,
      Careful, MayStore, OwnWord;
    StoreEvolves(a, g, l, w);
    StoreLogical(g, l, w);
    StoreDesc(g, l, w);
    StoreTag(g, l, w);
    StorePlaced(g, l, w);
    RecordsStable(g, Store(g, l, w));
  }

  lemma PlaceKeeps(g: Shared, r: RId)
    requires GInv(g) && r in g.rhist && r !in g.placed
    requires g.rhist[r].idx == 0 ==> g.rhist[r].desc.tag.t == r.p
    ensures var d := g.rhist[r].desc; Kept(r.p, g, Cas(g, d.loc, Bits(d.before), Rdcss(r)))
  {
    var d := g.rhist[r].desc;
    if g.mem(d.loc) == Bits(d.before) {
      NoTagFresh(g, r);
      StoreKeeps(r.p, g, d.loc, Rdcss(r));
    }
  }

  lemma InstallKeeps(a: Tid, g: Shared, r: RId)
    requires GInv(g) && r in g.placed && r in g.rhist
    requires g.mem(g.rhist[r].desc.loc) == Rdcss(r) ==> r in g.live && g.fate(g.rhist[r].desc.tag) != Succeeded
    ensures var d := g.rhist[r].desc; Kept(a, g, Cas(g, d.loc, Rdcss(r), Kcas(d.tag)))
  {
    hide DescInv, TagInv, WordInv, RecordInv, PlacedInv, LiveInv, Grows, TagsKept, CopiesKept, OthersKept, SameLogical,
      Careful, MayStore;
    var d := g.rhist[r].desc;
    if g.mem(d.loc) == Rdcss(r) {
      InstallMay(g, r);
      StoreKeeps(a, g, d.loc, Kcas(d.tag));
    } else {
      Unchanged(a, g);
    }
  }

  lemma InstallMay(g: Shared, r: RId)
    requires GInv(g) && r in g.live && r in g.rhist
    requires g.mem(g.rhist[r].desc.loc) == Rdcss(r) && g.fate(g.rhist[r].desc.tag) != Succeeded
    ensures var d := g.rhist[r].desc; MayStore(g, d.loc, Kcas(d.tag))
  {
    var rec := g.rhist[r];
    var d := rec.desc;
    assert RecordOk(g, r);
    var es := g.hist[d.tag];
    assert Fresh(es, rec.idx) && es[rec.idx].loc == d.loc;
    var i := FirstIndex(es, d.loc);
    assert i == rec.idx;
    if rec.idx > 0 { assert es[0].loc != d.loc; PrefixLess(g, d.tag, rec.idx, 1); }
  }

  lemma PrefixLess(g: Shared, id: KId, n: nat, m: nat)
    requires Prefix(g, id, n) && m <= n
    ensures Prefix(g, id, m)
  {
  }

  lemma RollbackKeeps(a: Tid, g: Shared, r: RId)
    requires GInv(g) && r in g.placed && r in g.rhist && Decided(g, g.rhist[r].desc.tag)
    ensures var d := g.rhist[r].desc; Kept(a, g, Cas(g, d.loc, Rdcss(r), Bits(d.before)))
  {
    hide DescInv, TagInv, LiveInv, Grows, TagsKept, CopiesKept, OthersKept, SameLogical, Careful;
    var d := g.rhist[r].desc;
    if g.mem(d.loc) == Rdcss(r) { StoreKeeps(a, g, d.loc, Bits(d.before)); } else { Unchanged(a, g); }
  }

  lemma RemoveKeeps(a: Tid, g: Shared, id: KId, j: nat)
    requires GInv(g) && id in g.hist && j < |g.hist[id]| && Decided(g, id) && (j > 0 ==> Gone(g, id))
    ensures var e := g.hist[id][j];
            var g' := Cas(g, e.loc, Kcas(id), Bits(if g.fate(id) == Succeeded then e.desired else e.before));
            Kept(a, g, g') && g'.mem(e.loc) != Kcas(id)
  {
    var e := g.hist[id][j];
    if g.mem(e.loc) == Kcas(id) {
      if Careful(g) { RemovedValue(g, id, j); }
      StoreKeeps(a, g, e.loc, Bits(if g.fate(id) == Succeeded then e.desired else e.before));
    }
  }

  /** A tag on the location of entry j of a harmless operation stands for the values of that entry. */
  lemma RemovedValue(g: Shared, id: KId, j: nat)
    requires GInv(g) && id in g.hist && j < |g.hist[id]| && Decided(g, id) && (j > 0 ==> Gone(g, id))
    requires g.mem(g.hist[id][j].loc) == Kcas(id) && Harmless(g.hist[id])
    ensures var e := g.hist[id][j];
            Logical(g, e.loc) == if g.fate(id) == Succeeded then e.desired else e.before
  {
    var es := g.hist[id];
    var f := FirstIndex(es, es[j].loc);
    if g.fate(id) == Succeeded {
      assert Fresh(es, j);
    } else if f != j {
      assert 0 < f < j;
    }
  }

  // Deciding.

  /** Whoever decides has seen entry 0 installed, or knows that it never was. */
  ghost predicate Begun(g: Shared, id: KId) {
    Prefix(g, id, 1) || NonePlaced(g, id)
  }

  lemma DecideTags(g: Shared, id: KId, o: Outcome)
    requires GInv(g) && id in g.hist && o != Undecided
    requires o == Succeeded ==> Prefix(g, id, |g.hist[id]|)
    ensures TagsKept(g, Decide(g, id, o)) && Decided(Decide(g, id, o), id)
  {
    hide TagInv, WordInv, RecordInv, PlacedInv, LiveInv;
    if g.st(id.t) == StatusWord(Undecided, id.s) { assert !Decided(g, id); }
  }

  lemma DecideEvolves(a: Tid, g: Shared, id: KId, o: Outcome)
    requires GInv(g) && id in g.hist && o != Undecided
    requires o == Succeeded ==> Prefix(g, id, |g.hist[id]|)
    ensures Evolves(a, g, Decide(g, id, o)) && Decided(Decide(g, id, o), id)
  {
    hide DescInv, TagInv, WordInv, RecordInv, PlacedInv, LiveInv, TagsKept;
    DecideTags(g, id, o);
  }

  lemma DecideMemory(a: Tid, g: Shared, id: KId, o: Outcome)
    requires GInv(g) && id in g.hist && o != Undecided && Evolves(a, g, Decide(g, id, o))
    ensures TagInv(Decide(g, id, o)) && WordInv(Decide(g, id, o)) && PlacedInv(Decide(g, id, o))
    ensures o == Failed ==> SameLogical(g, Decide(g, id, o))
  {
    hide RecordInv, LiveInv, Grows, CopiesKept, OthersKept;
    var g' := Decide(g, id, o);
    forall l | g.mem(l).Kcas? ensures Prefix(g', g.mem(l).id, 1) { PrefixStable(g, g', g.mem(l).id, 1); }
    if g.st(id.t) == StatusWord(Undecided, id.s) { assert !Decided(g, id); }
  }

  lemma DecideDesc(g: Shared, id: KId, o: Outcome)
    requires DescInv(g) && id in g.hist && o != Undecided
    requires o == Succeeded ==> Prefix(g, id, |g.hist[id]|)
    ensures DescInv(Decide(g, id, o))
  {
    var g' := Decide(g, id, o);
    forall q | q in g.hist && q != id ensures q.t != id.t || q.s != id.s {}
    assert g'.kd == g.kd && g'.mem == g.mem;
    if o == Succeeded && g.st(id.t) == StatusWord(Undecided, id.s) {
      assert !Decided(g, id);
      assert Tagged(g, id, g.hist[id], |g.hist[id]|);
    }
  }

  lemma DecideLive(g: Shared, id: KId, o: Outcome)
    requires GInv(g) && id in g.hist && Begun(g, id)
    ensures LiveInv(Decide(g, id, o))
  {
    var g' := Decide(g, id, o);
    forall r | r in g'.live && g.rhist[r].idx == 0 && Decided(g', g.rhist[r].desc.tag)
      ensures g'.mem(g.rhist[r].desc.loc) != Rdcss(r)
    {
      assert RecordOk(g, r);
      if !Decided(g, g.rhist[r].desc.tag) {
        assert g.rhist[r].desc.tag == id && Tagged(g, id, g.hist[id], 1);
        assert g.mem(g.hist[id][0].loc) == Kcas(id);
      }
    }
  }

  /** Before a successful decision every location of the operation holds its tag. */
  lemma DecideKeeps(a: Tid, g: Shared, id: KId, o: Outcome)
    requires GInv(g) && id in g.hist && o != Undecided && Begun(g, id)
    requires o == Succeeded ==> Prefix(g, id, |g.hist[id]|)
    ensures var g' := Decide(g, id, o);
            GInv(g') && Evolves(a, g, g') && Decided(g', id) && (o == Failed ==> SameLogical(g, g'))
  {
    hide DescInv, TagInv, WordInv, RecordInv, PlacedInv, LiveInv, Grows, TagsKept, CopiesKept, OthersKept, SameLogical;
    var g' := Decide(g, id, o);
    DecideEvolves(a, g, id, o);
    DecideMemory(a, g, id, o);
    DecideDesc(g, id, o);
    DecideLive(g, id, o);
    RecordsStable(g, g');
  }

  /** Deciding success switches exactly the operation's locations, all of them, from before to desired. */
  lemma DecideSwitches(g: Shared, id: KId)
    requires GInv(g) && id in g.hist && Prefix(g, id, |g.hist[id]|) && !Decided(g, id)
    requires g.st(id.t) == StatusWord(Undecided, id.s)
    ensures var g' := Decide(g, id, Succeeded);
            && (forall i :: 0 <= i < |g.hist[id]| ==>
                              && Logical(g, g.hist[id][i].loc) == g.hist[id][i].before
                              && Logical(g', g.hist[id][i].loc) == g.hist[id][i].desired)
            && (forall l :: !HasLoc(g.hist[id], l) ==> Logical(g', l) == Logical(g, l))
  {
    var g' := Decide(g, id, Succeeded);
    var es := g.hist[id];
    forall i | 0 <= i < |es|
      ensures Logical(g, es[i].loc) == es[i].before && Logical(g', es[i].loc) == es[i].desired
    {
      assert g.mem(es[i].loc) == Kcas(id);
      assert EntryAt(es, es[i].loc) == es[i];
    }
  }
}
