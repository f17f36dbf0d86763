/**
 The sequence numbers of log headers: check_journal_seq_no in fs_recovery.c reports headers that are out of
 order and, if asked to, renumbers them.
 */
module JournalSequence {

  // A journal block as the check sees it.
  datatype Entry = NoHeader | Header(number: nat)

  // The variables of the loop; 0 stands for "none seen yet".
  datatype State = State(lowest: nat, highest: nat, prev: nat, wrapped: bool)

  const START: State := State(0, 0, 0, false)

  ghost function Seen(s: State, n: nat): State {
    s.(lowest := if s.lowest == 0 || n < s.lowest then n else s.lowest,
       highest := if s.highest == 0 || n > s.highest then n else s.highest)
  }

  // n is neither higher than its predecessor nor the one place where the ring starts over.
  ghost predicate OutOfOrder(s: State, n: nat) {
    n <= s.prev && (s.wrapped || n != Seen(s, n).lowest)
  }

  ghost function After(s: State, e: Entry, fix: bool): State {
    if e.NoHeader? then s
    else
      var t := Seen(s, e.number);
      if e.number > s.prev then t.(prev := e.number)
      else if !OutOfOrder(s, e.number) then t.(prev := e.number, wrapped := true)
      else if fix then t.(highest := t.highest + 1, prev := t.highest + 1)
      else t
  }

  // The state after the first k blocks, and how many of them were reported.
  ghost function Run(e: seq<Entry>, k: nat, fix: bool): State
    requires k <= |e|
  {
    if k == 0 then START else After(Run(e, k - 1, fix), e[k - 1], fix)
  }

  ghost predicate Reported(e: seq<Entry>, i: nat, fix: bool)
    requires i < |e|
  {
    e[i].Header? && OutOfOrder(Run(e, i, fix), e[i].number)
  }

  ghost function Errors(e: seq<Entry>, k: nat, fix: bool): nat
    requires k <= |e|
  {
    if k == 0 then 0 else Errors(e, k - 1, fix) + if Reported(e, k - 1, fix) then 1 else 0
  }

  // Block i once the check is done: a reported header gets a number higher than any seen so far.
  ghost function Fixed(e: seq<Entry>, i: nat, fix: bool): Entry
    requires i < |e|
  {
    if fix && Reported(e, i, fix) then Header(Seen(Run(e, i, fix), e[i].number).highest + 1) else e[i]
  }

  // check_journal_seq_no. What it returns is zero after a repair.
  method CheckJournalSeqNo(journal: array<Entry>, fix: bool) returns (seqErrors: nat)
    modifies journal
    ensures forall i: nat | i < journal.Length :: journal[i] == Fixed(old(journal[..]), i, fix)
    ensures seqErrors == if fix then 0 else Errors(old(journal[..]), journal.Length, fix)
    // only a healthy journal is not reported, and it is left as it is
    ensures Positive(old(journal[..])) && !fix ==> (seqErrors == 0 <==> Healthy(old(journal[..])))
    ensures Positive(old(journal[..])) && (!fix || Healthy(old(journal[..]))) ==> journal[..] == old(journal[..])
  {
    hide Healthy, Positive;
    ghost var e := journal[..];
    var lowest, highest, prev, wrapped := 0, 0, 0, false;
    seqErrors := 0;
    var blk := 0;
    while blk < journal.Length
      invariant blk <= journal.Length
      invariant Run(e, blk, fix) == State(lowest, highest, prev, wrapped) && seqErrors == Errors(e, blk, fix)
      invariant forall i: nat | i < blk :: journal[i] == Fixed(e, i, fix)
      invariant forall i | blk <= i < journal.Length :: journal[i] == e[i]
    {
      var lh := journal[blk];
      blk := blk + 1;
      if lh.NoHeader? {
        continue;
      }
      if lowest == 0 || lh.number < lowest {
        lowest := lh.number;
      }
      if highest == 0 || lh.number > highest {
        highest := lh.number;
      }
      if lh.number > prev {
        prev := lh.number;
        continue;
      }
      if !wrapped && lh.number == lowest {
        wrapped := true;
        prev := lh.number;
        continue;
      }
      seqErrors := seqErrors + 1;
      if !fix {
        continue;
      }
      highest := highest + 1;
      prev := highest;
      journal[blk - 1] := Header(highest);
    }
    if Positive(e) {
      HealthyIsClean(e);
    }
    if seqErrors > 0 && fix {
      seqErrors := 0;
    }
  }

  ghost predicate Positive(e: seq<Entry>) {
    forall i | 0 <= i < |e| && e[i].Header? :: e[i].number > 0
  }

  // The state bounds everything seen.
  lemma {:induction false} RunBounds(e: seq<Entry>, k: nat, fix: bool)
    requires k <= |e| && Positive(e)
    ensures
      var s := Run(e, k, fix);
      && s.prev <= s.highest && (s.lowest == 0 <==> s.highest == 0) && (s.highest == 0 ==> s.prev == 0)
      && forall i: nat | i < k && Fixed(e, i, fix).Header? ::
           0 < s.lowest <= Fixed(e, i, fix).number <= (if fix then s.highest else Fixed(e, i, fix).number)
  {
    if k > 0 {
      RunBounds(e, k - 1, fix);
    }
  }

  // A later run over the repaired journal, in which some of the renumbered headers may not count as headers
  // any more because their checksums no longer match.
  ghost predicate Repaired(e: seq<Entry>, f: seq<Entry>) {
    |f| == |e| && forall i: nat | i < |e| :: f[i] == Fixed(e, i, true) || (f[i] == NoHeader && Reported(e, i, true))
  }

  // The second run never falls behind the first.
  ghost predicate Behind(s: State, t: State) {
    && t.prev <= s.prev <= s.highest && s.lowest <= t.lowest && (t.wrapped ==> s.wrapped)
    && (t.lowest == 0 <==> s.lowest == 0) && (s.lowest == 0 <==> s.highest == 0)
  }

  lemma StaysBehind(s: State, t: State, n: nat)
    requires Behind(s, t) && n > 0
    ensures
      var s', m := After(s, Header(n), true), Seen(s, n).highest + 1;
      if OutOfOrder(s, n) then Behind(s', t) && Behind(s', After(t, Header(m), false)) && !OutOfOrder(t, m)
      else Behind(s', After(t, Header(n), false)) && !OutOfOrder(t, n)
  {
  }

  lemma {:induction false} SecondRun(e: seq<Entry>, f: seq<Entry>, k: nat)
    requires Positive(e) && Repaired(e, f) && k <= |e|
    ensures Errors(f, k, false) == 0 && Behind(Run(e, k, true), Run(f, k, false))
  {
    if k > 0 {
      SecondRun(e, f, k - 1);
      if e[k - 1].Header? {
        hide OutOfOrder, Behind, After;
        StaysBehind(Run(e, k - 1, true), Run(f, k - 1, false), e[k - 1].number);
        AfterNone(Run(f, k - 1, false));
      }
    }
  }

  lemma AfterNone(s: State)
    ensures After(s, NoHeader, false) == s
  {
  }

  // After a repair a second run reports nothing.
  lemma RepairedIsClean(e: seq<Entry>, f: seq<Entry>)
    requires Positive(e) && Repaired(e, f)
    ensures Errors(f, |f|, false) == 0
  {
    SecondRun(e, f, |e|);
  }

  // Headers whose numbers are too small again, in strictly increasing order.
  ghost predicate Increasing(e: seq<Entry>, lo: nat, hi: nat)
    requires hi <= |e|
  {
    forall i, j | lo <= i < j < hi && e[i].Header? && e[j].Header? :: e[i].number < e[j].number
  }

  // Where the ring starts over: at a header as low as any before it.
  ghost predicate Lowest(e: seq<Entry>, d: nat)
    requires d <= |e|
  {
    d < |e| ==> e[d].Header? && forall i | 0 <= i < d && e[i].Header? :: e[d].number <= e[i].number
  }

  // The repaired journal as a sequence.
  ghost predicate Repair(e: seq<Entry>, f: seq<Entry>) {
    |f| == |e| && forall i: nat | i < |e| :: f[i] == Fixed(e, i, true)
  }

  // The number block k - 1 ends up with, relative to those before it.
  lemma StepNumber(e: seq<Entry>, f: seq<Entry>, k: nat)
    requires Positive(e) && Repair(e, f) && 0 < k <= |e|
    ensures
      var s, t, h := Run(e, k - 1, true), Run(e, k, true), f[k - 1];
      && (s.wrapped ==> t.wrapped) && (h.NoHeader? ==> t == s)
      && (h.Header? ==> h.number == t.prev)
      && (h.Header? && t.wrapped == s.wrapped ==> h.number > s.prev)
      && (h.Header? && t.wrapped != s.wrapped ==> forall i | 0 <= i < k - 1 && f[i].Header? :: h.number <= f[i].number)
  {
    RunBounds(e, k - 1, true);
  }

  lemma {:induction false} OneDropSoFar(e: seq<Entry>, f: seq<Entry>, k: nat) returns (d: nat)
    requires Positive(e) && Repair(e, f) && k <= |e|
    ensures d <= k && Increasing(f, 0, d) && Increasing(f, d, k)
    ensures if Run(e, k, true).wrapped then d < k && Lowest(f, d) else d == k
    ensures forall i | (if Run(e, k, true).wrapped then d else 0) <= i < k && f[i].Header? ::
      f[i].number <= Run(e, k, true).prev
  {
    d := k;
    if k > 0 {
      hide After, Fixed, OutOfOrder, Repair, Positive;
      var s := Run(e, k - 1, true);
      StepNumber(e, f, k);
      var d' := OneDropSoFar(e, f, k - 1);
      if s.wrapped {
        d := d';
      } else if Run(e, k, true).wrapped {
        d := k - 1;
      }
    }
  }

  // The repaired numbers increase, apart from at most one drop to the lowest number seen so far.
  lemma RepairedOrder(e: seq<Entry>, f: seq<Entry>) returns (d: nat)
    requires Positive(e) && Repair(e, f)
    ensures d <= |f| && Increasing(f, 0, d) && Increasing(f, d, |f|) && Lowest(f, d)
  {
    d := OneDropSoFar(e, f, |e|);
  }

  // Headers that were not reported keep their numbers, the others get higher ones than any before them.
  lemma OnlyReportedChange(e: seq<Entry>, f: seq<Entry>, i: nat)
    requires Positive(e) && Repair(e, f) && i < |e|
    ensures if Reported(e, i, true) then f[i].Header? && forall j | 0 <= j < i && f[j].Header? ::
      f[j].number < f[i].number
            else f[i] == e[i]
  {
    RunBounds(e, i, true);
  }

  // A journal as it should be: the numbers increase, apart from at most one drop, where the ring starts over, to a
  // number as low as any before it.
  ghost predicate Healthy(e: seq<Entry>) {
    exists d :: StartsOverAt(e, d)
  }

  ghost predicate StartsOverAt(e: seq<Entry>, d: nat) {
    d <= |e| && Increasing(e, 0, d) && Increasing(e, d, |e|) && Lowest(e, d)
  }

  // As long as nothing was reported, checking and repairing are the same.
  lemma {:induction false} NothingReported(e: seq<Entry>, k: nat)
    requires k <= |e| && Errors(e, k, false) == 0
    ensures Run(e, k, true) == Run(e, k, false) && Errors(e, k, true) == 0
    ensures forall i: nat | i < k :: !Reported(e, i, true) && Fixed(e, i, true) == e[i]
  {
    if k > 0 {
      NothingReported(e, k - 1);
    }
  }

  // The state while a healthy journal is read, d being where it starts over.
  ghost predicate Reading(e: seq<Entry>, d: nat, k: nat, s: State)
    requires k <= |e|
  {
    && (s.wrapped ==> d < k)
    && (s.lowest != 0 ==> exists i :: 0 <= i < k && e[i] == Header(s.lowest))
    && (s.prev != 0 ==> exists i :: (if d < k then d else 0) <= i < k && e[i] == Header(s.prev))
    && (s.lowest == 0 ==> s.prev == 0)
  }

  lemma ReadOne(e: seq<Entry>, d: nat, k: nat, s: State)
    requires Positive(e) && StartsOverAt(e, d) && k < |e| && Reading(e, d, k, s)
    ensures e[k].Header? ==> !OutOfOrder(s, e[k].number)
    ensures Reading(e, d, k + 1, After(s, e[k], false))
  {
    if e[k].Header? {
      var n, t := e[k].number, After(s, e[k], false);
      if s.prev != 0 {
        var i :| (if d < k then d else 0) <= i < k && e[i] == Header(s.prev);
        assert k != d ==> e[i].number < n;
      }
      if s.lowest != 0 {
        var i :| 0 <= i < k && e[i] == Header(s.lowest);
        assert k == d ==> n <= e[i].number;
      }
      assert e[k] == Header(n);
    }
  }

  lemma {:induction false} HealthyRun(e: seq<Entry>, d: nat, k: nat)
    requires Positive(e) && StartsOverAt(e, d) && k <= |e|
    ensures Errors(e, k, false) == 0 && Reading(e, d, k, Run(e, k, false))
  {
    hide Reading, StartsOverAt, OutOfOrder, After, Positive;
    if k > 0 {
      HealthyRun(e, d, k - 1);
      ReadOne(e, d, k - 1, Run(e, k - 1, false));
    } else {
      ReadNone(e, d);
    }
  }

  lemma ReadNone(e: seq<Entry>, d: nat)
    ensures Reading(e, d, 0, START)
  {
  }

  // Nothing is reported exactly in a healthy journal, and then nothing is changed.
  lemma HealthyIsClean(e: seq<Entry>)
    requires Positive(e)
    ensures Errors(e, |e|, false) == 0 <==> Healthy(e)
    ensures Errors(e, |e|, false) == 0 <==>
      exists d: nat :: d <= |e| && Increasing(e, 0, d) && Increasing(e, d, |e|) && Lowest(e, d)
    ensures Errors(e, |e|, false) == 0 ==> forall i: nat | i < |e| :: Fixed(e, i, true) == e[i]
  {
    if Errors(e, |e|, false) == 0 {
      NothingReported(e, |e|);
      var d := RepairedOrder(e, e);
      assert StartsOverAt(e, d);
    }
    if d: nat :| d <= |e| && Increasing(e, 0, d) && Increasing(e, d, |e|) && Lowest(e, d) {
      assert StartsOverAt(e, d);
      HealthyRun(e, d, |e|);
    }
  }

  // The last header before block k.
  ghost predicate Last(f: seq<Entry>, p: int, k: nat)
    requires k <= |f|
  {
    0 <= p < k && f[p].Header? && forall i | p < i < k :: f[i].NoHeader?
  }

  // The numbers have gone down once before block k.
  ghost predicate Dropped(f: seq<Entry>, k: nat)
    requires k <= |f|
  {
    exists p, q | 0 <= p < q < k && f[p].Header? && f[q].Header? :: f[q].number <= f[p].number
  }

  // Some header before block k has a lower number than n.
  ghost predicate HasLower(e: seq<Entry>, k: nat, n: nat)
    requires k <= |e|
  {
    exists j | 0 <= j < k && e[j].Header? :: e[j].number < n
  }

  // The variables in terms of the journal as it was and as it is when the check is done.
  ghost predicate Tracks(e: seq<Entry>, f: seq<Entry>, k: nat, s: State)
    requires k <= |e| == |f|
  {
    && (s.lowest == 0 <==> s.prev == 0)
    && (s.prev == 0 ==> forall i | 0 <= i < k :: e[i].NoHeader? && f[i].NoHeader?)
    && (s.prev != 0 ==> exists p :: Last(f, p, k) && f[p].number == s.prev)
    && (s.lowest != 0 ==> exists j :: 0 <= j < k && e[j] == Header(s.lowest))
    && (forall j | 0 <= j < k && e[j].Header? :: e[j].number >= s.lowest)
  }

  lemma TrackOne(e: seq<Entry>, f: seq<Entry>, k: nat)
    requires Positive(e) && Repair(e, f) && k < |e| && Tracks(e, f, k, Run(e, k, true))
    ensures Tracks(e, f, k + 1, Run(e, k + 1, true))
  {
    var s, t := Run(e, k, true), Run(e, k + 1, true);
    StepNumber(e, f, k + 1);
    if e[k].NoHeader? {
      assert f[k].NoHeader?;
      if s.prev != 0 {
        var p :| Last(f, p, k) && f[p].number == s.prev;
        assert Last(f, p, k + 1);
      }
    } else {
      assert Last(f, k, k + 1);
      assert e[k] == Header(e[k].number);
    }
  }

  lemma {:induction false} Tracked(e: seq<Entry>, f: seq<Entry>, k: nat)
    requires Positive(e) && Repair(e, f) && k <= |e|
    ensures Tracks(e, f, k, Run(e, k, true))
  {
    if k > 0 {
      hide Tracks, Positive, Repair, Run;
      Tracked(e, f, k - 1);
      TrackOne(e, f, k - 1);
    }
  }

  lemma DropsHere(e: seq<Entry>, f: seq<Entry>, k: nat)
    requires Positive(e) && Repair(e, f) && k < |e| && !Run(e, k, true).wrapped && Run(e, k + 1, true).wrapped
    ensures Dropped(f, k + 1)
  {
    Tracked(e, f, k);
    RunBounds(e, k, true);
    var s := Run(e, k, true);
    var p :| Last(f, p, k) && f[p].number == s.prev;
    assert f[k] == Fixed(e, k, true) == e[k];
  }

  // The ring has started over once the numbers have gone down.
  lemma {:induction false} WrappedOnce(e: seq<Entry>, f: seq<Entry>, k: nat)
    requires Positive(e) && Repair(e, f) && k <= |e|
    ensures Run(e, k, true).wrapped <==> Dropped(f, k)
  {
    hide Positive, Repair, OutOfOrder, Lowest, Fixed, Reported, Seen;
    var d := OneDropSoFar(e, f, k);
    if Run(e, k, true).wrapped && k > 0 {
      WrappedOnce(e, f, k - 1);
      if !Run(e, k - 1, true).wrapped {
        DropsHere(e, f, k - 1);
      }
    }
  }

  // Exactly which headers are renumbered: those no higher than the last header before them, unless the numbers
  // have not gone down yet and none of the headers so far was lower.
  lemma RenumberedExactly(e: seq<Entry>, f: seq<Entry>, i: nat)
    requires Positive(e) && Repair(e, f) && i < |e|
    ensures f[i] != e[i] <==>
      && e[i].Header?
      && (exists p :: Last(f, p, i) && e[i].number <= f[p].number)
      && (Dropped(f, i) || HasLower(e, i, e[i].number))
    ensures f[i] != e[i] <==> Reported(e, i, true)
  {
    Tracked(e, f, i);
    WrappedOnce(e, f, i);
    RunBounds(e, i, true);
  }

  // No header that was read or written before block i is higher than m.
  ghost predicate Highest(e: seq<Entry>, f: seq<Entry>, i: nat, m: nat)
    requires i < |e| == |f|
  {
    && (forall j | 0 <= j <= i && e[j].Header? :: e[j].number <= m)
    && (forall j | 0 <= j < i && f[j].Header? :: f[j].number <= m)
    && ((exists j :: 0 <= j <= i && e[j] == Header(m)) || (exists j :: 0 <= j < i && f[j] == Header(m)))
  }

  lemma {:induction false} HighestSoFar(e: seq<Entry>, f: seq<Entry>, i: nat)
    requires Positive(e) && Repair(e, f) && i < |e| && e[i].Header?
    ensures Highest(e, f, i, Seen(Run(e, i, true), e[i].number).highest)
  {
    var s := Run(e, i, true);
    RunHighest(e, f, i);
    assert e[i] == Header(e[i].number);
  }

  lemma {:induction false} RunHighest(e: seq<Entry>, f: seq<Entry>, k: nat)
    requires Positive(e) && Repair(e, f) && k <= |e|
    ensures
      var s := Run(e, k, true);
      && (forall j | 0 <= j < k && e[j].Header? :: e[j].number <= s.highest)
      && (forall j | 0 <= j < k && f[j].Header? :: f[j].number <= s.highest)
      && (s.highest != 0 ==>
            (exists j :: 0 <= j < k && e[j] == Header(s.highest)) ||
            (exists j :: 0 <= j < k && f[j] == Header(s.highest)))
  {
    if k > 0 {
      RunHighest(e, f, k - 1);
      if e[k - 1].Header? {
        assert e[k - 1] == Header(e[k - 1].number) && f[k - 1] == Header(f[k - 1].number);
      }
    }
  }

  // A renumbered header gets the number after the highest one so far.
  lemma NewNumber(e: seq<Entry>, f: seq<Entry>, i: nat)
    requires Positive(e) && Repair(e, f) && i < |e| && f[i] != e[i]
    ensures f[i].Header? && f[i].number > 0 && Highest(e, f, i, f[i].number - 1)
  {
    HighestSoFar(e, f, i);
  }
}
