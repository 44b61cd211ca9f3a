/**
  The queue object of the ring. Each of its calls, when nothing comes between, is a sequence of the steps of
  one side.
 */
module SharedQueue {
  import opened Options
  import opened SrswRing

  ghost function WriterSteps<T>(s: State<T>, entry: T, k: nat): State<T> {
    if k == 0 then s else WriterStep(WriterSteps(s, entry, k - 1), entry)
  }

  ghost function ReaderSteps<T>(s: State<T>, k: nat): State<T> {
    if k == 0 then s else ReaderStep(ReaderSteps(s, k - 1))
  }

  lemma {:induction false} WriterStepsKeep<T>(s: State<T>, entry: T, k: nat)
    requires Good(s)
    ensures Good(WriterSteps(s, entry, k))
  {
    if k > 0 {
      WriterStepsKeep(s, entry, k - 1);
      WriterKeeps(WriterSteps(s, entry, k - 1), entry);
    }
  }

  lemma {:induction false} ReaderStepsKeep<T>(s: State<T>, k: nat)
    requires Good(s)
    ensures Good(ReaderSteps(s, k))
  {
    if k > 0 {
      ReaderStepsKeep(s, k - 1);
      ReaderKeeps(ReaderSteps(s, k - 1));
    }
  }

  /** What a whole push makes of the ring. */
  ghost function PushCall<T>(s: State<T>, e: T): State<T> {
    var next := After(s.w, |s.slots|);
    var seen := if s.rCached == next then s.(rCached := s.r, rSeen := |s.popped|) else s;
    if seen.rCached == next then seen.(answers := s.answers + [WasFull])
    else if s.w < |s.slots| then
      seen.(slots := s.slots[s.w := e], w := next, pushed := s.pushed + [e], answers := s.answers + [Pushed(e)])
    else s
  }

  ghost function PopCall<T>(s: State<T>): State<T> {
    var seen := if s.r == s.wCached then s.(wCached := s.w, wSeen := |s.pushed|) else s;
    if s.r == seen.wCached then seen.(answers := s.answers + [WasEmpty])
    else if s.r < |s.slots| then
      var e := s.slots[s.r];
      seen.(r := After(s.r, |s.slots|), popped := s.popped + [e], answers := s.answers + [Popped(e)])
    else s
  }

  lemma PushIsSteps<T>(s: State<T>, e: T)
    requires Good(s) && s.writer.Away?
    ensures s.w < |s.slots|
    ensures exists k :: 3 <= k <= 5 && PushCall(s, e) == WriterSteps(s, e, k)
  {
    SlotFits(|s.pushed|, |s.slots|);
    var next := After(s.w, |s.slots|);
    var s1 := WriterSteps(s, e, 1);
    assert s1 == WriterStep(WriterSteps(s, e, 0), e);
    var s2 := WriterSteps(s, e, 2);
    assert s2 == WriterStep(s1, e);
    var s3 := WriterSteps(s, e, 3);
    assert s3 == WriterStep(s2, e);
    var s4 := WriterSteps(s, e, 4);
    assert s4 == WriterStep(s3, e);
    if s.rCached != next {
      assert PushCall(s, e) == s4;
    } else if s.r == next {
      assert PushCall(s, e) == s3;
    } else {
      assert PushCall(s, e) == WriterStep(s4, e) == WriterSteps(s, e, 5);
    }
  }

  lemma PopIsSteps<T>(s: State<T>)
    requires Good(s) && s.reader.Gone?
    ensures s.r < |s.slots|
    ensures exists k :: 3 <= k <= 5 && PopCall(s) == ReaderSteps(s, k)
  {
    SlotFits(|s.popped|, |s.slots|);
    var s1 := ReaderSteps(s, 1);
    assert s1 == ReaderStep(ReaderSteps(s, 0));
    var s2 := ReaderSteps(s, 2);
    assert s2 == ReaderStep(s1);
    var s3 := ReaderSteps(s, 3);
    assert s3 == ReaderStep(s2);
    var s4 := ReaderSteps(s, 4);
    assert s4 == ReaderStep(s3);
    if s.r != s.wCached {
      assert PopCall(s) == s4;
    } else if s.r == s.w {
      assert PopCall(s) == s3;
    } else {
      assert PopCall(s) == ReaderStep(s4) == ReaderSteps(s, 5);
    }
  }

  lemma PushGood<T>(s: State<T>, e: T)
    requires Good(s) && s.writer.Away?
    ensures s.w < |s.slots| && Good(PushCall(s, e))
  {
    PushIsSteps(s, e);
    var k :| 3 <= k <= 5 && PushCall(s, e) == WriterSteps(s, e, k);
    WriterStepsKeep(s, e, k);
  }

  lemma PopGood<T>(s: State<T>)
    requires Good(s) && s.reader.Gone?
    ensures s.r < |s.slots| && Good(PopCall(s))
  {
    PopIsSteps(s);
    var k :| 3 <= k <= 5 && PopCall(s) == ReaderSteps(s, k);
    ReaderStepsKeep(s, k);
  }

  ghost predicate Replays<T>(s: State<T>) {
    s.slots != [] && Replay(s.answers, |s.slots| - 1) == Some(Contents(s))
  }

  lemma AnswerMoves<T>(s: State<T>, s': State<T>, a: Answer<T>)
    requires |s'.slots| == |s.slots| && s'.answers == s.answers + [a] && Replays(s) && Replays(s')
    ensures Answered(Contents(s), a, |s.slots| - 1) == Some(Contents(s'))
  {
    ReplayMore(s.answers, a, |s.slots| - 1);
  }

  /** A push is refused exactly if there is no room; otherwise its entry is the newest. */
  lemma PushMeans<T>(s: State<T>, e: T)
    requires Good(s) && s.writer.Away?
    ensures var s', room := PushCall(s, e), |Contents(s)| < |s.slots| - 1;
            && Good(s') && s'.writer.Away? && s'.reader == s.reader
            && s'.answers == s.answers + [if room then Pushed(e) else WasFull]
            && Contents(s') == (if room then Contents(s) + [e] else Contents(s))
            && (!room ==> |Contents(s)| == |s.slots| - 1 && s'.w == s.w && s'.slots == s.slots)
  {
    PushGood(s, e);
    PushAnswers(s, e);
  }

  lemma PushAnswers<T>(s: State<T>, e: T)
    requires s.w < |s.slots| && Replays(s) && Replays(PushCall(s, e))
    ensures var s', room := PushCall(s, e), |Contents(s)| < |s.slots| - 1;
            && s'.answers == s.answers + [if room then Pushed(e) else WasFull]
            && Contents(s') == (if room then Contents(s) + [e] else Contents(s))
            && (!room ==> |Contents(s)| == |s.slots| - 1 && s'.w == s.w && s'.slots == s.slots)
  {
    var next := After(s.w, |s.slots|);
    if s.rCached == next && s.r == next { AnswerMoves(s, PushCall(s, e), WasFull); }
    else { AnswerMoves(s, PushCall(s, e), Pushed(e)); }
  }

  /** A pop finds nothing exactly if nothing is inside; otherwise it takes the oldest. */
  lemma PopMeans<T>(s: State<T>)
    requires Good(s) && s.reader.Gone?
    ensures var s', some := PopCall(s), Contents(s) != [];
            && Good(s') && s'.reader.Gone? && s'.writer == s.writer && s'.slots == s.slots
            && s.r < |s.slots|
            && s'.answers == s.answers + [if some then Popped(s.slots[s.r]) else WasEmpty]
            && Contents(s') == (if some then Contents(s)[1..] else [])
            && (some ==> Contents(s)[0] == s.slots[s.r]) && (!some ==> s'.r == s.r)
  {
    PopGood(s);
    PopAnswers(s);
  }

  lemma PopAnswers<T>(s: State<T>)
    requires s.r < |s.slots| && Replays(s) && Replays(PopCall(s))
    ensures var s', some := PopCall(s), Contents(s) != [];
            && s'.answers == s.answers + [if some then Popped(s.slots[s.r]) else WasEmpty]
            && Contents(s') == (if some then Contents(s)[1..] else [])
            && (some ==> Contents(s)[0] == s.slots[s.r]) && (!some ==> s'.r == s.r)
  {
    if s.r == s.wCached && s.r == s.w { AnswerMoves(s, PopCall(s), WasEmpty); }
    else { AnswerMoves(s, PopCall(s), Popped(s.slots[s.r])); }
  }

  class SharedQueue_SRSW<T(0)> {
    const entries: array<T>      // _entries
    var r: nat                   // _r
    var w: nat                   // _w
    var rCached: nat             // _r_cached
    var wCached: nat             // _w_cached
    ghost var past: State<T>     // the same fields, with their history

    /** The ring is in a state of the two-sided protocol, with both sides between calls. */
    ghost predicate Valid()
      reads this, entries
    {
      && Good(past)
      && past.slots == entries[..] && past.r == r && past.w == w && past.rCached == rCached && past.wCached == wCached
      && past.writer.Away? && past.reader.Gone?
    }

    ghost function Inside(): seq<T>
      reads this
    {
      Contents(past)
    }

    constructor (expectedMax: nat, zero: T)
      requires 0 < expectedMax
      ensures Valid() && fresh(entries) && entries.Length == expectedMax
      ensures Inside() == [] && past.answers == []
    {
      entries := new T[expectedMax](i => zero);
      r, w, rCached, wCached := 0, 0, 0, 0;
      new;
      past := Start(entries[..]);
    }

    /**
      full: exactly when no more fits in, though the index of the reader is looked at only if the cached one does
      not show room; and otherwise where to write and where w goes then.
     */
    method Full() returns (full: bool, wrt: nat, next: nat)
      requires Valid()
      modifies `rCached
      ensures full <==> |old(Inside())| == entries.Length - 1
      ensures wrt == w < entries.Length && next == After(w, entries.Length)
      ensures rCached == if old(rCached) == next then r else old(rCached)
      ensures full <==> rCached == next
    {
      Comparisons(past);
      wrt := w;
      next := wrt + 1;
      if next == entries.Length { next := 0; }
      if rCached == next {
        rCached := r;
        if rCached == next { return true, wrt, next; }
      }
      return false, wrt, next;
    }

    /** push: refused exactly if ExpectedMax - 1 entries are inside, and otherwise the entry is the newest. */
    method Push(entry: T) returns (ok: bool)
      requires Valid()
      modifies this, entries
      ensures Valid() && past == PushCall(old(past), entry)
      ensures ok <==> |old(Inside())| < entries.Length - 1
      ensures Inside() == if ok then old(Inside()) + [entry] else old(Inside())
      ensures past.answers == old(past.answers) + [if ok then Pushed(entry) else WasFull]
    {
      hide Good, Contents;
      PushIsSteps(past, entry);
      PushMeans(past, entry);
      ok := Put(entry);
      past := PushCall(past, entry);
    }

    /** The loads and stores of push. */
    method Put(entry: T) returns (ok: bool)
      requires Valid()
      modifies entries, `w, `rCached
      ensures old(w) < entries.Length && (ok <==> |old(Inside())| != entries.Length - 1)
      ensures var next := After(old(w), entries.Length);
              && rCached == (if old(rCached) == next then r else old(rCached))
              && ok == (rCached != next)
              && w == (if ok then next else old(w))
              && entries[..] == (if ok then old(entries[..])[old(w) := entry] else old(entries[..]))
    {
      var full, wrt, next := Full();
      if full { return false; }
      entries[wrt] := entry;
      w := next;
      return true;
    }

    /**
      emptiness: exactly when nothing is inside, though the index of the writer is looked at only if the cached one
      does not show an entry; and otherwise where the oldest entry is.
     */
    method Emptiness() returns (empty: bool, rr: nat)
      requires Valid()
      modifies `wCached
      ensures empty <==> old(Inside()) == []
      ensures rr == r < entries.Length && wCached == if r == old(wCached) then w else old(wCached)
      ensures empty <==> r == wCached
      ensures !empty ==> old(Inside()) != [] && entries[rr] == old(Inside())[0]
    {
      Comparisons(past);
      PopMeans(past);
      rr := r;
      if rr == wCached {
        wCached := w;
        if rr == wCached { return true, rr; }
      }
      return false, rr;
    }

    /** pop: the oldest entry, if there is one. */
    method Pop(zero: T) returns (ok: bool, entry: T)
      requires Valid()
      modifies this
      ensures Valid() && past == PopCall(old(past))
      ensures ok <==> old(Inside()) != []
      ensures ok ==> entry == old(Inside())[0] && Inside() == old(Inside())[1..]
      ensures !ok ==> entry == zero && Inside() == []
      ensures past.answers == old(past.answers) + [if ok then Popped(entry) else WasEmpty]
    {
      hide Good, Contents;
      PopIsSteps(past);
      PopMeans(past);
      var empty, rr := Emptiness();
      past := PopCall(past);
      if empty { return false, zero; }
      entry := entries[rr];
      rr := rr + 1;
      r := if rr >= entries.Length then 0 else rr;
      return true, entry;
    }

    /** empty: nothing is inside. */
    method Empty() returns (empty: bool)
      requires Valid()
      ensures empty <==> Inside() == []
    {
      Comparisons(past);
      return r == w;
    }

    /** reset: everything is forgotten. */
    method Reset(zero: T)
      requires Valid()
      modifies this, entries
      ensures Valid() && Inside() == [] && past == Start(entries[..])
      ensures forall i :: 0 <= i < entries.Length ==> entries[i] == zero
    {
      rCached, wCached, r, w := 0, 0, 0, 0;
      forall i | 0 <= i < entries.Length { entries[i] := zero; }
      past := Start(entries[..]);
    }
  }
}
