/**
  K-CAS as a program: the descriptors and the words one thread works on when no other thread takes a step. It does
  what the steps of that thread do.
 */
module KcasAlone {
  import opened KcasState
  import opened KcasThreads
  import opened KcasSolo

  /** The words of an array as locations from 0 on. */
  ghost function View(mem: seq<Word>): Loc -> Word {
    l => if 0 <= l < |mem| then mem[l] else Bits(0)
  }

  ghost predicate InRange(mem: seq<Word>, es: seq<Entry>) {
    forall i :: 0 <= i < |es| ==> 0 <= es[i].loc < |mem|
  }

  /** A cas on these entries, alone, has nobody else's operation to wait for, nor its own. */
  ghost predicate Ready(mem: seq<Word>, es: seq<Entry>) {
    InRange(mem, es) && Plain(View(mem), es) && StopsFirst(View(mem), es)
  }

  /**
    What a cas on words `was` leaves: it succeeds exactly if every location held its `before`, and then those
    locations change to `desired`; nothing else changes.
   */
  ghost predicate CasResult(was: seq<Word>, now: seq<Word>, es: seq<Entry>, ok: bool) {
    && |now| == |was| && (ok <==> AllBefore(View(was), es))
    && forall l :: 0 <= l < |was| ==> now[l] == if ok && HasLoc(es, l) then Bits(EntryAt(es, l).desired) else was[l]
  }

  /** The first n entries' locations hold the tag, the others what they held in `was`. */
  ghost predicate TagsOn(mem: seq<Word>, was: seq<Word>, es: seq<Entry>, n: nat, id: KId) {
    |mem| == |was| && forall l :: 0 <= l < |mem| ==> mem[l] == if Within(es, 0, n, l) then Kcas(id) else was[l]
  }

  /** With the first n entries clean, the next is about a location not yet tagged. */
  lemma NextUntouched(mem: seq<Word>, was: seq<Word>, es: seq<Entry>, n: nat, id: KId)
    requires Ready(was, es) && Clean(View(was), es, 0, n) && TagsOn(mem, was, es, n, id) && n < |es|
    ensures Fresh(es, n) && 0 <= es[n].loc < |mem| && mem[es[n].loc] == was[es[n].loc] && was[es[n].loc].Bits?
    ensures TagsOn(mem[es[n].loc := Kcas(id)], was, es, n + 1, id)
  {
    assert !Repeats(es, n);
    assert View(was)(es[n].loc).Bits?;
    assert !Within(es, 0, n, es[n].loc);
    forall l ensures Within(es, 0, n + 1, l) <==> Within(es, 0, n, l) || l == es[n].loc {
      if l == es[n].loc { assert es[n].loc == l; }
    }
  }

  /** The loop over the entries goes on past place i, or it failed at place n. */
  ghost predicate Stopped(outcome: Outcome, n: nat, i: nat, was: seq<Word>, es: seq<Entry>) {
    && Clean(View(was), es, 0, n)
    && if outcome == Succeeded then n == i
       else outcome == Failed && n < |es| && View(was)(es[n].loc) != Bits(es[n].before)
  }

  /** Memory after the first m entries were updated. */
  ghost predicate UpdatedTo(mem: seq<Word>, from: seq<Word>, id: KId, es: seq<Entry>, m: nat, succ: bool) {
    |mem| == |from| && forall l :: 0 <= l < |mem| ==> mem[l] == Updated(View(from), id, es, m, succ, l)
  }

  lemma UpdatedNone(mem: seq<Word>, id: KId, es: seq<Entry>, succ: bool)
    ensures UpdatedTo(mem, mem, id, es, 0, succ)
  {
  }

  lemma UpdatedOne(mem: seq<Word>, from: seq<Word>, id: KId, es: seq<Entry>, m: nat, succ: bool)
    requires InRange(from, es) && UpdatedTo(mem, from, id, es, m, succ) && m < |es|
    ensures 0 <= es[m].loc < |mem|
    ensures var l := es[m].loc;
            UpdatedTo(if mem[l] == Kcas(id) then mem[l := Final(es[m], succ)] else mem, from, id, es, m + 1, succ)
  {
    SweptOne(View(from), id, es, m + 1, succ);
  }

  /** Tagging, deciding and updating together. */
  lemma Together(was: seq<Word>, mid: seq<Word>, now: seq<Word>, id: KId, es: seq<Entry>, n: nat, outcome: Outcome)
    requires Ready(was, es) && TagsOn(mid, was, es, n, id) && Stopped(outcome, n, |es|, was, es)
    requires UpdatedTo(now, mid, id, es, |es|, outcome == Succeeded)
    ensures CasResult(was, now, es, outcome == Succeeded)
  {
    forall l ensures View(mid)(l) == if Within(es, 0, n, l) then Kcas(id) else View(was)(l) { }
    assert (outcome == Succeeded) <==> n == |es|;
    Settled(View(was), View(mid), id, es, n);
  }

  /** What a program leaves that fits CasResult is what the steps of the thread leave. */
  lemma SameAsSteps(q: Tid, a: Local, was: seq<Word>, now: seq<Word>, ok: bool) returns (b: Local)
    requires a.f.Run? && a.f.pc.RStart? && AtFirst(a.(f := a.f.(pc := RLoop)))
    requires Ready(was, a.f.es) && CasResult(was, now, a.f.es, ok)
    requires forall l :: 0 <= l < |was| ==> a.g.mem(l) == was[l]
    ensures Goes(q, a, b) && FrameStep(b.g, q, b.f) == (b.g, Return(Answer(ok)))
    ensures forall l :: b.g.mem(l) == if 0 <= l < |was| then now[l] else a.g.mem(l)
    ensures b.g.st(a.f.id.t) == StatusWord(if ok then Succeeded else Failed, a.f.id.s)
  {
    hide Goes, After, FrameStep;
    var es := a.f.es;
    forall i | 0 <= i < |es| ensures a.g.mem(es[i].loc) == View(was)(es[i].loc) { }
    forall j: nat | Repeats(es, j) ensures exists m :: 0 <= m < j && a.g.mem(es[m].loc) != Bits(es[m].before) {
      var m :| 0 <= m < j && View(was)(es[m].loc) != Bits(es[m].before);
      assert a.g.mem(es[m].loc) != Bits(es[m].before);
    }
    b := Alone(q, a);
  }

  class Brown_KCAS {
    const t: Tid                    // _thread_id
    const mem: array<Word>          // the words the entries point at
    const entries: array<Entry>     // _entries
    var numEntries: nat             // _num_entries
    var status: StatusWord          // _status
    var rseq: int                   // _sequence_bits
    var rd: RDesc                   // the RDCSS descriptor

    constructor (t: Tid, mem: array<Word>, capacity: nat)
      ensures this.t == t && this.mem == mem && fresh(entries) && entries.Length == capacity
      ensures numEntries == 0 && status == StatusWord(Undecided, 0)
    {
      this.t, this.mem := t, mem;
      entries := new Entry[capacity](i => Entry(0, 0, 0));
      numEntries, status, rseq := 0, StatusWord(Undecided, 0), 0;
      rd := RDesc(0, 0, KId(t, 0), t);
    }

    ghost predicate Valid()
      reads this
    {
      numEntries <= entries.Length
    }

    ghost function Es(): seq<Entry>
      requires Valid()
      reads this, entries
    {
      entries[..numEntries]
    }

    /** reuse_descriptor: a new sequence number, and no entries. */
    method ReuseDescriptor()
      modifies this
      ensures Valid() && Es() == []
      ensures status == StatusWord(Undecided, old(status).seqno + 1) && rseq == old(rseq) && rd == old(rd)
    {
      status := StatusWord(Undecided, status.seqno + 1);
      numEntries := 0;
    }

    /** add_value: one more entry. */
    method Adder(location: Loc, before: int, desired: int)
      requires Valid() && numEntries < entries.Length
      modifies `numEntries, entries
      ensures Valid() && Es() == old(Es()) + [Entry(location, before, desired)]
    {
      var cur := numEntries;
      numEntries := numEntries + 1;
      entries[cur] := Entry(location, before, desired);
    }

    /**
      cas, alone: true exactly if every location holds its `before`; then all of them change to `desired` and
      nothing else does, and otherwise nothing does. It is asked only where it ends.
     */
    method DoCas() returns (ok: bool)
      requires Valid() && Ready(mem[..], Es())
      modifies `status, `rseq, `rd, mem
      ensures CasResult(old(mem[..]), mem[..], Es(), ok)
      ensures status == StatusWord(if ok then Succeeded else Failed, old(status).seqno + 1)
    {
      status := StatusWord(Undecided, status.seqno + 1);
      ok := CasInternal(KId(t, status.seqno));
    }

    /** _cas_internal: of another number nothing happens, if decided only phase two is left. */
    method CasInternal(tag: KId) returns (succeeded: bool)
      requires Valid() && InRange(mem[..], Es()) && tag.t == t
      requires status == StatusWord(Undecided, tag.s) ==> Ready(mem[..], Es())
      modifies `status, `rseq, `rd, mem
      ensures old(status.seqno) != tag.s ==> !succeeded && status == old(status) && mem[..] == old(mem[..])
      ensures old(status.seqno) == tag.s && old(status.stat) != Undecided ==>
                && succeeded == (old(status.stat) == Succeeded) && status == old(status)
                && UpdatedTo(mem[..], old(mem[..]), tag, Es(), |Es()|, succeeded)
      ensures old(status) == StatusWord(Undecided, tag.s) ==>
                && CasResult(old(mem[..]), mem[..], Es(), succeeded)
                && status == StatusWord(if succeeded then Succeeded else Failed, tag.s)
    {
      var current := status;
      if current.seqno != tag.s { return false; }
      ghost var n: nat;
      if current.stat == Undecided {
        var outcome;
        outcome, n := Lock(tag);
        if status.seqno == current.seqno && status.stat == Undecided {
          if status == current { status := StatusWord(outcome, current.seqno); }
        }
      }
      if status.seqno == tag.s {
        succeeded := status.stat == Succeeded;
        ghost var mid := mem[..];
        UpdateEntries(tag, succeeded);
        if current.stat == Undecided { Together(old(mem[..]), mid, mem[..], tag, Es(), n, status.stat); }
      }
    }

    /** The first phase: tags on the locations, in order, up to the first that does not hold its `before`. */
    method Lock(tag: KId) returns (outcome: Outcome, ghost n: nat)
      requires Valid() && Ready(mem[..], Es()) && status == StatusWord(Undecided, tag.s) && tag.t == t
      modifies `rseq, `rd, mem
      ensures TagsOn(mem[..], old(mem[..]), Es(), n, tag) && Stopped(outcome, n, |Es()|, old(mem[..]), Es())
    {
      outcome := Succeeded;
      n := 0;
      ghost var was, es := mem[..], Es();
      var i := 0;
      while i < numEntries && outcome == Succeeded
        invariant 0 <= i <= numEntries && Es() == es && status == old(status)
        invariant TagsOn(mem[..], was, es, n, tag) && Stopped(outcome, n, i, was, es)
      {
        NextUntouched(mem[..], was, es, i, tag);
        var itsKcas := true;
        var maybe: Word := Bits(0);
        while itsKcas
          invariant Es() == es && status == old(status)
          invariant itsKcas ==> TagsOn(mem[..], was, es, i, tag)
          invariant !itsKcas ==> maybe == was[es[i].loc] && rd.before == es[i].before
          invariant !itsKcas ==> TagsOn(mem[..], was, es, if maybe == Bits(es[i].before) then i + 1 else i, tag)
          decreases itsKcas
        {
          NextUntouched(mem[..], was, es, i, tag);
          CopyFromEntry(entries[i], tag);
          var k := rseq;
          rseq := rseq + 1;
          maybe := RdcssAlone(RId(t, k));
          itsKcas := maybe.Kcas?;
        }
        if maybe != Bits(rd.before) { outcome := Failed; } else { n := n + 1; }
        i := i + 1;
      }
    }

    /** copy_from_kcas_entry. */
    method CopyFromEntry(e: Entry, tag: KId)
      modifies `rseq, `rd
      ensures rd == RDesc(e.loc, e.before, tag, tag.t)
    {
      rseq := rseq + 1;
      rd := RDesc(e.loc, e.before, tag, tag.t);
    }

    /**
      _rdcss: the value found is the answer; the tag replaces it exactly if it is the expected one and the
      operation is undecided. Nobody else's RDCSS word is there to be helped.
     */
    method RdcssAlone(ptr: RId) returns (found: Word)
      requires 0 <= rd.loc < mem.Length && !mem[rd.loc].Rdcss? && rd.statusOf == t
      modifies mem
      ensures found == old(mem[rd.loc])
      ensures mem[..] == if found == Bits(rd.before) && status == StatusWord(Undecided, rd.tag.s)
                         then old(mem[..])[rd.loc := Kcas(rd.tag)] else old(mem[..])
    {
      var success := false;
      while !success
        invariant mem[..] == if success then old(mem[..])[rd.loc := Rdcss(ptr)] else old(mem[..])
        invariant success ==> old(mem[rd.loc]) == Bits(rd.before)
        decreases !success
      {
        var current := mem[rd.loc];
        if current != Bits(rd.before) { return current; }
        success := mem[rd.loc] == current;
        if success { mem[rd.loc] := Rdcss(ptr); }
      }
      Complete(ptr);
      return Bits(rd.before);
    }

    /** _rdcss_complete. */
    method Complete(ptr: RId)
      requires 0 <= rd.loc < mem.Length && rd.statusOf == t
      modifies mem
      ensures var value := if status == StatusWord(Undecided, rd.tag.s) then Kcas(rd.tag) else Bits(rd.before);
              mem[..] == if old(mem[rd.loc]) != Rdcss(ptr) then old(mem[..]) else old(mem[..])[rd.loc := value]
    {
      var value := if status.seqno == rd.tag.s && status.stat == Undecided then Kcas(rd.tag) else Bits(rd.before);
      if mem[rd.loc] == Rdcss(ptr) { mem[rd.loc] := value; }
    }

    /** update_entries: a location that holds the tag gets the final value of the first entry about it. */
    method UpdateEntries(tag: KId, succeeded: bool)
      requires Valid() && InRange(mem[..], Es())
      modifies mem
      ensures UpdatedTo(mem[..], old(mem[..]), tag, Es(), |Es()|, succeeded)
    {
      ghost var es := Es();
      var i := 0;
      UpdatedNone(mem[..], tag, es, succeeded);
      while i < numEntries
        invariant 0 <= i <= numEntries && Es() == es && UpdatedTo(mem[..], old(mem[..]), tag, es, i, succeeded)
      {
        UpdatedOne(mem[..], old(mem[..]), tag, es, i, succeeded);
        var value := Bits(if succeeded then entries[i].desired else entries[i].before);
        if mem[entries[i].loc] == Kcas(tag) { mem[entries[i].loc] := value; }
        i := i + 1;
      }
    }
  }
}
