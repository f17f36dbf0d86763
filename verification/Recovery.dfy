/**
 Journal recovery in fs_recovery.c: the revoke list, the three scanners of log descriptors, the walk over the
 active part of the log, and the two passes over it.
 */
module Recovery {
  import opened JournalLog

  // The position the revoke list has for block b, or -1.
  ghost function Where(list: seq<Rev>, b: nat): (at: int)
    ensures at >= -1
  {
    if list == [] then -1 else if list[0].blkno == b then list[0].at else Where(list[1..], b)
  }

  lemma {:induction false} WhereAt(list: seq<Rev>, b: nat, k: nat)
    requires k <= |list| && forall i | 0 <= i < k :: list[i].blkno != b
    ensures k == |list| ==> Where(list, b) == -1
    ensures k < |list| && list[k].blkno == b ==> Where(list, b) == list[k].at
    decreases k
  {
    if k > 0 {
      WhereAt(list[1..], b, k - 1);
    }
  }

  // Setting the first entry of a block moves that block's position and no other's.
  lemma {:induction false} WhereSet(list: seq<Rev>, k: nat, where: nat, b: nat)
    requires k < |list| && forall i | 0 <= i < k :: list[i].blkno != list[k].blkno
    ensures Where(list[k := Rev(list[k].blkno, where)], b) == if b == list[k].blkno then where else Where(list, b)
    decreases k
  {
    if k > 0 {
      WhereSet(list[1..], k - 1, where, b);
      assert list[k := Rev(list[k].blkno, where)][1..] == list[1..][k - 1 := Rev(list[k].blkno, where)];
    }
  }

  lemma LastRevokeAdded(revs: seq<Rev>, rev: Rev, b: nat)
    ensures LastRevoke(revs + [rev], b) == if b == rev.blkno then rev.at else LastRevoke(revs, b)
  {
    assert (revs + [rev])[..|revs|] == revs;
  }

  lemma {:induction false} LastRevokeInside(log: Log, revs: seq<Rev>, b: nat)
    requires forall i | 0 <= i < |revs| :: revs[i].at < log.blocks
    ensures LastRevoke(revs, b) < log.blocks || LastRevoke(revs, b) < 0
  {
    if revs != [] {
      LastRevokeInside(log, revs[..|revs| - 1], b);
    }
  }

  // Block b after the replay: the last copy that no revoke cancels, or, if there is none, unchanged.
  ghost predicate Recovered(log: Log, tail: nat, revs: seq<Rev>, copies: seq<Copy>, disk: map<nat, Block>,
                            disk': map<nat, Block>, b: nat)
    requires Readable(log)
  {
    && (forall i | LastCopy(log, tail, revs, copies, b, i) ::
         !Broken(log, copies[i]) && b in disk' && disk'[b] == Logged(log, copies[i]))
    && ((forall i | 0 <= i < |copies| && copies[i].blkno == b :: Cancelled(log, tail, revs, b, copies[i].at)) ==>
         (b in disk' <==> b in disk) && (b in disk ==> disk'[b] == disk[b]))
  }

  ghost predicate LastCopy(log: Log, tail: nat, revs: seq<Rev>, copies: seq<Copy>, b: nat, i: int) {
    && 0 <= i < |copies| && copies[i].blkno == b && !Cancelled(log, tail, revs, b, copies[i].at)
    && forall j | i < j < |copies| && copies[j].blkno == b :: Cancelled(log, tail, revs, b, copies[j].at)
  }

  lemma RecoveredIs(log: Log, tail: nat, revs: seq<Rev>, copies: seq<Copy>, disk: map<nat, Block>, b: nat)
    requires Readable(log) && Replay(log, tail, revs, copies, disk).ok
    ensures Recovered(log, tail, revs, copies, disk, Replay(log, tail, revs, copies, disk).disk, b)
  {
    assert copies[..|copies|] == copies;
    ReplayIsLastLive(log, tail, revs, copies, |copies|, disk, b);
    hide Cancelled, Replay, Broken;
    var last := LastLive(log, tail, revs, copies, |copies|, b);
    assert forall j | last < j < |copies| && copies[j].blkno == b :: !Live(log, tail, revs, copies[j]);
  }

  // In an orderly log "cancelled" means that some revoke of the block comes later in the log than the copy.
  lemma OrderlyCancelled(log: Log, tail: nat, head: nat, c: Copy)
    requires Readable(log) && tail < log.blocks && head < log.blocks && Orderly(log, tail, tail, head)
    ensures Ends(log, tail, head, log.blocks)
    ensures
      var revs := Revokes(log, tail, head, log.blocks).list;
      Cancelled(log, tail, revs, c.blkno, c.at) <==>
        exists i :: 0 <= i < |revs| && revs[i].blkno == c.blkno &&
            0 < Distance(log, tail, c.at) < Distance(log, tail, revs[i].at)
  {
    var n := log.blocks;
    OrderlyEnds(log, tail, tail, head);
    EndsMore(log, tail, head, Distance(log, tail, head), n);
    RevokesInOrder(log, tail, tail, head, n);
    CancelledByLater(log, tail, Revokes(log, tail, head, n).list, 0, Distance(log, tail, head), c);
  }

  // A descriptor of copies of metadata or of data.
  ghost predicate CopyDescriptor(log: Log, p: nat)
    requires Readable(log)
  {
    && p in log.block && log.block[p][0] == 0x01161970 && log.block[p][1] == 9 && log.block[p][6] in {300, 302}
    && (if log.block[p][6] == 300 then 18 + 2 * log.block[p][8] else 18 + 4 * log.block[p][8]) <= |log.block[p]|
  }

  // Its i-th copy lies 1 + i blocks behind it.
  ghost function PlaceOf(log: Log, p: nat, i: nat): nat
    requires Readable(log)
  {
    (p + 1 + i) % log.blocks
  }

  // It is of the block whose number is the i-th behind the header of the descriptor, two words each for metadata and
  // four for data, high word first. In data the other two words are a flag.
  ghost function NumberOf(log: Log, p: nat, i: nat): nat
    requires Readable(log) && CopyDescriptor(log, p) && i < log.block[p][8]
  {
    var b, o := log.block[p], if log.block[p][6] == 300 then 18 + 2 * i else 18 + 4 * i;
    b[o] * 0x1_0000_0000 + b[o + 1]
  }

  // The flag says that the first word of the data, the magic number, was replaced in the journal.
  ghost predicate Escaped(log: Log, p: nat, i: nat)
    requires Readable(log) && CopyDescriptor(log, p) && i < log.block[p][8]
  {
    var b := log.block[p];
    b[6] == 302 && (b[20 + 4 * i] != 0 || b[21 + 4 * i] != 0)
  }

  ghost function TextOf(log: Log, p: nat, i: nat): Block
    requires Readable(log) && CopyDescriptor(log, p) && i < log.block[p][8] && PlaceOf(log, p, i) in log.block
  {
    var was := log.block[PlaceOf(log, p, i)];
    if Escaped(log, p, i) then [0x01161970] + was[1..] else was
  }

  lemma OneCopy(log: Log, p: nat, i: nat)
    requires Readable(log) && CopyDescriptor(log, p)
    ensures Descriptor(log, p) && |CopiesAt(log, p)| == log.block[p][8]
    ensures i < log.block[p][8] ==>
      && CopiesAt(log, p)[i] == Copy(NumberOf(log, p, i), PlaceOf(log, p, i), log.block[p][6] == 300,
                                     Escaped(log, p, i))
      && (PlaceOf(log, p, i) in log.block ==> Logged(log, CopiesAt(log, p)[i]) == TextOf(log, p, i))
  {
    hide CopiesAt;
    if log.block[p][6] == 300 {
      MetadataCopies(log, p, i);
    } else {
      DataCopies(log, p, i);
    }
  }

  // The active log is one such descriptor.
  ghost predicate OneDescriptor(log: Log, tail: nat, head: nat)
    requires Readable(log)
  {
    CopyDescriptor(log, tail) && tail != head && head == (tail + log.block[tail][7]) % log.blocks
  }

  lemma OneWalked(log: Log, tail: nat, head: nat)
    requires Readable(log) && OneDescriptor(log, tail, head)
    ensures Ends(log, tail, head, log.blocks) && Descriptor(log, tail)
    ensures Revokes(log, tail, head, log.blocks) == Found([], true)
    ensures Copies(log, tail, head, log.blocks) == Found(CopiesAt(log, tail), true)
  {
    NextIs(log, tail);
    OtherKinds(log, tail);
    assert Follows(log, head, [], head);
    assert [tail][1..] == [];
    assert Follows(log, tail, [tail], head);
    assert Ends(log, head, head, log.blocks - 1);
    WalkFollows(log, tail, [tail], head, log.blocks);
    WalkStep(log, tail, head, log.blocks);
    WalkStep(log, head, head, log.blocks - 1);
  }

  // All its copies can be read, and those of metadata have the magic number.
  ghost predicate AllThere(log: Log, p: nat)
    requires Readable(log) && CopyDescriptor(log, p)
  {
    forall i: nat | i < log.block[p][8] ::
      && PlaceOf(log, p, i) in log.block
      && (log.block[p][6] == 300 ==> log.block[PlaceOf(log, p, i)][0] == 0x01161970)
  }

  // Copy i is the last one of its block.
  ghost predicate LastOf(log: Log, p: nat, i: nat)
    requires Readable(log) && CopyDescriptor(log, p)
  {
    i < log.block[p][8] && forall j | i < j < log.block[p][8] :: NumberOf(log, p, j) != NumberOf(log, p, i)
  }

  ghost predicate Announces(log: Log, p: nat, b: nat)
    requires Readable(log) && CopyDescriptor(log, p)
  {
    exists i: nat :: i < log.block[p][8] && NumberOf(log, p, i) == b
  }

  // The disk after such a log was replayed.
  ghost predicate HoldsLast(log: Log, p: nat, disk: map<nat, Block>, disk': map<nat, Block>)
    requires Readable(log) && CopyDescriptor(log, p)
  {
    && (forall i: nat | LastOf(log, p, i) && PlaceOf(log, p, i) in log.block ::
          NumberOf(log, p, i) in disk' && disk'[NumberOf(log, p, i)] == TextOf(log, p, i))
    && forall b: nat | !Announces(log, p, b) :: (b in disk' <==> b in disk) && (b in disk ==> disk'[b] == disk[b])
  }

  // Replaying it succeeds exactly if all copies are there. Every block then holds the journal block of its last
  // announcement, with the magic number in its first word if that was escaped, and the other blocks what they held.
  lemma OneReplayed(log: Log, tail: nat, disk: map<nat, Block>)
    requires Readable(log) && CopyDescriptor(log, tail)
    ensures Descriptor(log, tail)
    ensures
      var r := Replay(log, tail, [], CopiesAt(log, tail), disk);
      && (r.ok <==> AllThere(log, tail))
      && (r.ok ==> HoldsLast(log, tail, disk, r.disk))
  {
    hide CopiesAt, Replay, NumberOf, PlaceOf, Escaped, TextOf, Logged, CopyDescriptor, HoldsLast;
    OneCopy(log, tail, 0);
    var copies, r := CopiesAt(log, tail), Replay(log, tail, [], CopiesAt(log, tail), disk);
    forall i: nat | i < |copies|
      ensures copies[i] == Copy(NumberOf(log, tail, i), PlaceOf(log, tail, i), log.block[tail][6] == 300,
                                Escaped(log, tail, i))
      ensures Live(log, tail, [], copies[i])
    {
      OneCopy(log, tail, i);
    }
    ReplayOkExactly(log, tail, [], copies, disk);
    if r.ok {
      OneHolds(log, tail, disk, r.disk);
    }
  }

  lemma OneHolds(log: Log, tail: nat, disk: map<nat, Block>, disk': map<nat, Block>)
    requires Readable(log) && CopyDescriptor(log, tail) && Descriptor(log, tail)
    requires Replay(log, tail, [], CopiesAt(log, tail), disk) == Replayed(disk', true)
    ensures HoldsLast(log, tail, disk, disk')
  {
    hide CopiesAt, Replay, NumberOf, PlaceOf, Escaped, TextOf, Logged, CopyDescriptor, Readable, Descriptor;
    var copies := CopiesAt(log, tail);
    forall i: nat | LastOf(log, tail, i) && PlaceOf(log, tail, i) in log.block
      ensures NumberOf(log, tail, i) in disk' && disk'[NumberOf(log, tail, i)] == TextOf(log, tail, i)
    {
      LastIsCopied(log, tail, disk, disk', i);
    }
    forall b: nat | !Announces(log, tail, b)
      ensures (b in disk' <==> b in disk) && (b in disk ==> disk'[b] == disk[b])
    {
      RecoveredIs(log, tail, [], copies, disk, b);
      forall i: nat | i < |copies| ensures copies[i].blkno != b {
        OneCopy(log, tail, i);
      }
    }
  }

  lemma LastIsCopied(log: Log, tail: nat, disk: map<nat, Block>, disk': map<nat, Block>, i: nat)
    requires Readable(log) && CopyDescriptor(log, tail) && Descriptor(log, tail)
    requires Replay(log, tail, [], CopiesAt(log, tail), disk) == Replayed(disk', true)
    requires LastOf(log, tail, i) && PlaceOf(log, tail, i) in log.block
    ensures NumberOf(log, tail, i) in disk' && disk'[NumberOf(log, tail, i)] == TextOf(log, tail, i)
  {
    hide CopiesAt, Replay, NumberOf, PlaceOf, Escaped, TextOf, Logged, CopyDescriptor, Readable, Descriptor;
    var copies, b := CopiesAt(log, tail), NumberOf(log, tail, i);
    RecoveredIs(log, tail, [], copies, disk, b);
    OneCopy(log, tail, i);
    forall j | i < j < |copies| ensures copies[j].blkno != b {
      OneCopy(log, tail, j);
    }
    assert LastCopy(log, tail, [], copies, b, i);
  }

  class Journal {
    const log: Log
    var disk: map<nat, Block>
    var revokeList: seq<Rev>    // sd_revoke_list, from its head
    var replayTail: nat         // sd_replay_tail

    constructor (log: Log, disk: map<nat, Block>)
      ensures this.log == log && this.disk == disk && revokeList == []
    {
      this.log, this.disk, revokeList, replayTail := log, disk, [], 0;
    }

    // The revoke list knows the last of the revokes `revs` of every block.
    ghost predicate Table(revs: seq<Rev>)
      reads this`revokeList
    {
      && (forall b: nat :: Where(revokeList, b) == LastRevoke(revs, b))
      && forall i | 0 <= i < |revs| :: revs[i].at < log.blocks
    }

    method RevokeAdd(blkno: nat, where: nat, ghost revs: seq<Rev>) returns (isNew: bool)
      requires Table(revs) && where < log.blocks
      modifies this`revokeList
      ensures Table(revs + [Rev(blkno, where)])
      ensures isNew <==> LastRevoke(revs, blkno) < 0
      ensures |revokeList| == |old(revokeList)| + if isNew then 1 else 0
    {
      var i := 0;
      while i < |revokeList|
        invariant 0 <= i <= |revokeList|
        invariant forall j | 0 <= j < i :: revokeList[j].blkno != blkno
      {
        if revokeList[i].blkno == blkno {
          break;
        }
        i := i + 1;
      }
      WhereAt(revokeList, blkno, i);
      forall b: nat {
        LastRevokeAdded(revs, Rev(blkno, where), b);
      }
      if i < |revokeList| {
        forall b: nat {
          WhereSet(revokeList, i, where, b);
        }
        revokeList := revokeList[i := Rev(blkno, where)];
        return false;
      }
      revokeList := [Rev(blkno, where)] + revokeList;
      assert revokeList[1..] == old(revokeList);
      return true;
    }

    // The comparison with wrap-around says "later in the log than the copy", counted from the tail.
    method RevokeCheck(blkno: nat, where: nat, ghost revs: seq<Rev>) returns (revoked: bool)
      requires Table(revs) && where < log.blocks && replayTail < log.blocks
      ensures revoked <==> Cancelled(log, replayTail, revs, blkno, where)
    {
      var i := 0;
      while i < |revokeList|
        invariant 0 <= i <= |revokeList|
        invariant forall j | 0 <= j < i :: revokeList[j].blkno != blkno
      {
        if revokeList[i].blkno == blkno {
          break;
        }
        i := i + 1;
      }
      WhereAt(revokeList, blkno, i);
      LastRevokeInside(log, revs, blkno);
      if i == |revokeList| {
        return false;
      }
      var rr := revokeList[i];
      var wrap := rr.at < replayTail;
      var a := replayTail < where;
      var b := where < rr.at;
      return if wrap then a || b else a && b;
    }

    // The revokes in one block.
    method RevokeBlock(b: Block, offset0: nat, revokes: nat, start: nat, ghost revs: seq<Rev>) returns (left: nat)
      requires Table(revs) && start < log.blocks
      modifies this`revokeList
      ensures Table(revs + RevokesIn(b, offset0, revokes, start).0) && left == RevokesIn(b, offset0, revokes, start).1
    {
      hide Table, Where, LastRevoke, RevokesIn;
      left := revokes;
      var offset := offset0;
      ghost var done: seq<Rev> := [];
      assert revs + done == revs;
      assert done + RevokesIn(b, offset, left, start).0 == RevokesIn(b, offset, left, start).0;
      while offset + 2 <= |b|
        invariant Table(revs + done)
        invariant RevokesIn(b, offset0, revokes, start) == (done + RevokesIn(b, offset, left, start).0,
                                                            RevokesIn(b, offset, left, start).1)
        decreases |b| - offset
      {
        RevokesInStep(b, offset, left, start);
        var rev := Rev(Be64(b, offset), start);
        var isNew := RevokeAdd(rev.blkno, start, revs + done);
        ghost var before, rest := done, RevokesIn(b, offset + 2, (left - 1) % TWO_32, start).0;
        assert before + ([rev] + rest) == before + [rev] + rest;
        done := done + [rev];
        assert revs + done == revs + before + [rev];
        left := (left - 1) % TWO_32;
        if left == 0 {
          return;
        }
        offset := offset + 2;
      }
      RevokesInStep(b, offset, left, start);
      assert done + [] == done;
    }

    // revoke_lo_scan_elements.
    method RevokeLoScan(start0: nat, ld: Block, pass: nat, ghost revs: seq<Rev>) returns (ok: bool)
      requires Readable(log) && Descriptor(log, start0) && log.block[start0] == ld && Table(revs)
      modifies this`revokeList
      ensures pass != 0 ==> ok && revokeList == old(revokeList)
      ensures pass == 0 ==> Table(revs + RevokesAt(log, start0).list) && ok == RevokesAt(log, start0).ok
    {
      hide Table, Where, LastRevoke, RevokesIn;
      assert revs + [] == revs;
      if pass != 0 || LdType(ld) != DESC_REVOKE {
        return true;
      }
      var start: nat, blks: nat, revokes: nat, first := start0, LdLength(ld), LdData1(ld), true;
      ghost var all := RevokesAt(log, start0);
      ghost var done: seq<Rev> := [];
      assert revs + done == revs;
      while blks > 0
        invariant start < log.blocks && Table(revs + done)
        invariant all.list == done + RevokesFrom(log, start, blks, revokes, first).list
        invariant RevokesFrom(log, start, blks, revokes, first).ok == all.ok
        decreases blks
      {
        assert done + [] == done;
        if start !in log.block {
          return false;
        }
        var b := log.block[start];
        if first || IsMeta(b, METATYPE_LB) {
          var offset := if first then DESCRIPTOR_WORDS else HEADER_WORDS;
          ghost var here, before := RevokesIn(b, offset, revokes, start), done;
          ghost var rest := RevokesFrom(log, Incr(log, start), blks - 1, here.1, false).list;
          assert before + (here.0 + rest) == before + here.0 + rest;
          revokes := RevokeBlock(b, offset, revokes, start, revs + done);
          assert revs + (done + here.0) == revs + done + here.0;
          done := done + here.0;
          first := false;
        }
        start := Incr(log, start);
        blks := blks - 1;
      }
      assert done + [] == done;
      return true;
    }

    // One logged copy, as buf_lo_scan_elements and databuf_lo_scan_elements replay it.
    method ReplayCopy(c: Copy, ghost revs: seq<Rev>) returns (ok: bool)
      requires Readable(log) && Table(revs) && c.at < log.blocks && replayTail < log.blocks
      modifies this`disk
      ensures disk == Replay(log, replayTail, revs, [c], old(disk)).disk
      ensures ok == Replay(log, replayTail, revs, [c], old(disk)).ok
    {
      var revoked := RevokeCheck(c.blkno, c.at, revs);
      if revoked {
        return true;
      }
      if c.at !in log.block {
        return false;
      }
      var data := log.block[c.at];
      if c.isMeta && data[0] != MAGIC {
        return false;
      }
      if !c.isMeta && c.esc {
        data := [MAGIC] + data[1..];
      }
      disk := disk[c.blkno := data];
      return true;
    }

    // buf_lo_scan_elements.
    method BufLoScan(start0: nat, ld: Block, pass: nat, ghost revs: seq<Rev>) returns (ok: bool)
      requires Readable(log) && Descriptor(log, start0) && log.block[start0] == ld
      requires Table(revs) && replayTail < log.blocks
      modifies this`disk
      ensures pass != 1 || LdType(ld) != DESC_METADATA ==> ok && disk == old(disk)
      ensures pass == 1 && LdType(ld) == DESC_METADATA ==>
        var r := Replay(log, replayTail, revs, CopiesAt(log, start0), old(disk));
        disk == r.disk && ok == r.ok
    {
      hide CopiesFrom, Table, Where, LastRevoke, Replay;
      if pass != 1 || LdType(ld) != DESC_METADATA {
        return true;
      }
      var start: nat, blks: nat, i: nat := Incr(log, start0), LdData1(ld), 0;
      ghost var all, done: seq<Copy> := CopiesAt(log, start0), [];
      ReplayNothing(log, replayTail, revs, disk);
      assert [] + all == all;
      while blks > 0
        invariant start < log.blocks && i + blks == LdData1(ld) && Table(revs)
        invariant done + CopiesFrom(log, ld, start, i, blks) == all
        invariant Replay(log, replayTail, revs, done, old(disk)) == Replayed(disk, true)
        decreases blks
      {
        var c := Copy(Be64(ld, DESCRIPTOR_WORDS + 2 * i), start, true, false);
        CopiesStep(log, ld, start, i, blks);
        ghost var before, rest := done, CopiesFrom(log, ld, Incr(log, start), i + 1, blks - 1);
        ok := ReplayCopy(c, revs);
        done := done + [c];
        ReplayAppend(log, replayTail, revs, before, [c], old(disk));
        assert done + rest == before + ([c] + rest);
        if !ok {
          ReplayAppend(log, replayTail, revs, done, rest, old(disk));
          return;
        }
        start, blks, i := Incr(log, start), blks - 1, i + 1;
      }
      NoCopies(log, ld, start, i);
      assert done + [] == done;
      ok := true;
    }

    // databuf_lo_scan_elements.
    method DatabufLoScan(start0: nat, ld: Block, pass: nat, ghost revs: seq<Rev>) returns (ok: bool)
      requires Readable(log) && Descriptor(log, start0) && log.block[start0] == ld
      requires Table(revs) && replayTail < log.blocks
      modifies this`disk
      ensures pass != 1 || LdType(ld) != DESC_JDATA ==> ok && disk == old(disk)
      ensures pass == 1 && LdType(ld) == DESC_JDATA ==>
        var r := Replay(log, replayTail, revs, CopiesAt(log, start0), old(disk));
        disk == r.disk && ok == r.ok
    {
      hide CopiesFrom, Table, Where, LastRevoke, Replay;
      if pass != 1 || LdType(ld) != DESC_JDATA {
        return true;
      }
      var start: nat, blks: nat, i: nat := Incr(log, start0), LdData1(ld), 0;
      ghost var all, done: seq<Copy> := CopiesAt(log, start0), [];
      ReplayNothing(log, replayTail, revs, disk);
      assert [] + all == all;
      while blks > 0
        invariant start < log.blocks && i + blks == LdData1(ld) && Table(revs)
        invariant done + CopiesFrom(log, ld, start, i, blks) == all
        invariant Replay(log, replayTail, revs, done, old(disk)) == Replayed(disk, true)
        decreases blks
      {
        var esc := Be64(ld, DESCRIPTOR_WORDS + 4 * i + 2);
        var c := Copy(Be64(ld, DESCRIPTOR_WORDS + 4 * i), start, false, esc != 0);
        CopiesStep(log, ld, start, i, blks);
        ghost var before, rest := done, CopiesFrom(log, ld, Incr(log, start), i + 1, blks - 1);
        ok := ReplayCopy(c, revs);
        done := done + [c];
        ReplayAppend(log, replayTail, revs, before, [c], old(disk));
        assert done + rest == before + ([c] + rest);
        if !ok {
          ReplayAppend(log, replayTail, revs, done, rest, old(disk));
          return;
        }
        start, blks, i := Incr(log, start), blks - 1, i + 1;
      }
      NoCopies(log, ld, start, i);
      assert done + [] == done;
      ok := true;
    }

    // The three scanners of one descriptor, in the order in which foreach_descriptor calls them.
    method ScanDescriptor(start: nat, ld: Block, pass: nat, ghost revs: seq<Rev>) returns (ok: bool)
      requires Readable(log) && Descriptor(log, start) && log.block[start] == ld
      requires Table(revs) && replayTail < log.blocks
      modifies this`disk, this`revokeList
      ensures pass == 0 ==>
        disk == old(disk) && Table(revs + RevokesAt(log, start).list) && ok == RevokesAt(log, start).ok
      ensures pass == 1 ==>
        var r := Replay(log, replayTail, revs, CopiesAt(log, start), old(disk));
        Table(revs) && disk == r.disk && ok == r.ok
    {
      hide Table, Replay, RevokesFrom, CopiesFrom;
      ReplayNothing(log, replayTail, revs, disk);
      ok := DatabufLoScan(start, ld, pass, revs);
      if !ok {
        return;
      }
      ok := BufLoScan(start, ld, pass, revs);
      if !ok {
        return;
      }
      ok := RevokeLoScan(start, ld, pass, revs);
    }

    // "while (length--)": step over the blocks of a descriptor.
    method Skip(start0: nat, length: nat) returns (start: nat)
      requires start0 < log.blocks
      ensures start == Advance(log, start0, length) && start < log.blocks
    {
      start := start0;
      var left := length;
      while left > 0
        invariant start < log.blocks && Advance(log, start, left) == Advance(log, start0, length)
        decreases left
      {
        start := Incr(log, start);
        left := left - 1;
      }
    }

    // foreach_descriptor: walk the active part of the log. n bounds the length of the walk.
    method ForeachDescriptor(start0: nat, end: nat, pass: nat, ghost n: nat, ghost revs: seq<Rev>) returns (ok: bool)
      requires Readable(log) && Ends(log, start0, end, n) && Table(revs) && pass < 2 && (pass == 0 ==> revs == [])
      requires replayTail < log.blocks || start0 >= log.blocks
      modifies this`disk, this`revokeList
      ensures pass == 0 ==>
        var r := Revokes(log, start0, end, n);
        disk == old(disk) && Table(r.list) && ok == r.ok
      ensures pass == 1 ==>
        var c := Copies(log, start0, end, n);
        var r := Replay(log, replayTail, revs, c.list, old(disk));
        disk == r.disk && ok == (c.ok && r.ok)
    {
      hide Table, Replay, RevokesAt, CopiesAt, Advance, Revokes, Copies, Ends, Next, Readable, Announced;
      var start: nat := start0;
      ghost var k: nat := n;
      ghost var revoked: seq<Rev>, copied: seq<Copy> := revs, [];
      ReplayNothing(log, replayTail, revs, disk);
      assert revs + [] == revs;
      if pass == 0 {
        assert revoked + Revokes(log, start, end, k).list == Revokes(log, start, end, k).list;
      }
      assert copied + Copies(log, start, end, k).list == Copies(log, start, end, k).list;
      while start != end
        invariant Ends(log, start, end, k) && (replayTail < log.blocks || start >= log.blocks)
        invariant pass == 0 ==> disk == old(disk) && Table(revoked)
        invariant pass == 0 ==>
          Revokes(log, start0, end, n) == Found(revoked + Revokes(log, start, end, k).list,
                                                Revokes(log, start, end, k).ok)
        invariant pass == 1 ==> Table(revs) && Replay(log, replayTail, revs, copied, old(disk)) == Replayed(disk, true)
        invariant pass == 1 ==>
          Copies(log, start0, end, n) == Found(copied + Copies(log, start, end, k).list, Copies(log, start, end, k).ok)
        decreases k
      {
        assert revoked + [] == revoked && copied + [] == copied;
        WalkStep(log, start, end, k);
        if start !in log.block {
          return false;
        }
        ReadableBlock(log, start);
        var bh := log.block[start];
        if bh[0] != MAGIC {
          return false;
        }
        if bh[1] == METATYPE_LH {
          if start in log.good {
            start, k := Incr(log, start), k - 1;
            continue;
          }
          return false;
        } else if !IsMeta(bh, METATYPE_LD) {
          return false;
        }
        ghost var here, rest := CopiesAt(log, start), Copies(log, Next(log, start), end, k - 1);
        ReplayAppend(log, replayTail, revs, copied, here, old(disk));
        ok := ScanDescriptor(start, bh, pass, if pass == 0 then revoked else revs);
        if !ok {
          ReplayAppend(log, replayTail, revs, copied + here, rest.list, old(disk));
          assert copied + (here + rest.list) == copied + here + rest.list;
          return;
        }
        if pass == 0 {
          ghost var more := Revokes(log, Next(log, start), end, k - 1).list;
          assert revoked + (RevokesAt(log, start).list + more) == revoked + RevokesAt(log, start).list + more;
          revoked := revoked + RevokesAt(log, start).list;
        } else {
          assert copied + (here + rest.list) == copied + here + rest.list;
          copied := copied + here;
        }
        start := Skip(start, LdLength(bh));
        k := k - 1;
      }
      assert revoked + [] == revoked && copied + [] == copied;
      WalkStep(log, start, end, k);
      ok := true;
    }

    // The two passes of gfs2_recover_journal from the tail to the head of the log: first the revokes, then the copies.
    // The walk ends if it does so within log.blocks steps, and otherwise never (JournalLog.EndsExactly).
    method ReplayJournal(tail: nat, head: nat) returns (ok: bool)
      requires Readable(log) && Ends(log, tail, head, log.blocks)
      modifies this`disk, this`revokeList, this`replayTail
      ensures !Revokes(log, tail, head, log.blocks).ok ==> !ok && disk == old(disk)
      ensures Revokes(log, tail, head, log.blocks).ok ==>
        var revs, copies := Revokes(log, tail, head, log.blocks).list, Copies(log, tail, head, log.blocks);
        var r := Replay(log, tail, revs, copies.list, old(disk));
        disk == r.disk && ok == (copies.ok && r.ok)
      // every block holds its last logged copy that no revoke cancels, or what it held before
      ensures ok ==>
        var revs, copies := Revokes(log, tail, head, log.blocks).list, Copies(log, tail, head, log.blocks).list;
        forall b: nat :: Recovered(log, tail, revs, copies, old(disk), disk, b)
      // and replaying the log again would change nothing
      ensures ok ==>
        var revs, copies := Revokes(log, tail, head, log.blocks).list, Copies(log, tail, head, log.blocks).list;
        Replay(log, tail, revs, copies, disk) == Replayed(disk, true)
      // the walk got from block to block to the head
      ensures ok ==> exists ps :: Follows(log, tail, ps, head)
      // a log of one descriptor: each block gets the journal block of its last announcement
      ensures OneDescriptor(log, tail, head) ==>
        (ok <==> AllThere(log, tail)) && (ok ==> HoldsLast(log, tail, old(disk), disk))
    {
      hide Replay, Revokes, Copies, Recovered, CopiesAt, OneDescriptor, CopyDescriptor, AllThere, HoldsLast, Follows,
           Ends, Readable, Descriptor;
      WhenOne(tail, head);
      revokeList := [];
      replayTail := tail;
      assert Table([]);
      hide Table;
      ok := ForeachDescriptor(tail, head, 0, log.blocks, []);
      if !ok {
        return;
      }
      ghost var revs, copies := Revokes(log, tail, head, log.blocks).list, Copies(log, tail, head, log.blocks).list;
      ok := ForeachDescriptor(tail, head, 1, log.blocks, revs);
      revokeList := [];
      if ok {
        ghost var ps := FollowsExists(log, tail, head, log.blocks);
        forall b: nat ensures Recovered(log, tail, revs, copies, old(disk), disk, b) {
          RecoveredIs(log, tail, revs, copies, old(disk), b);
        }
        ReplayTwice(log, tail, revs, copies, old(disk));
      }
    }

    lemma WhenOne(tail: nat, head: nat)
      requires Readable(log) && Ends(log, tail, head, log.blocks)
      ensures OneDescriptor(log, tail, head) ==>
        && CopyDescriptor(log, tail) && Revokes(log, tail, head, log.blocks) == Found([], true)
        && Copies(log, tail, head, log.blocks).ok
        && var r := Replay(log, tail, [], Copies(log, tail, head, log.blocks).list, disk);
        (r.ok <==> AllThere(log, tail)) && (r.ok ==> HoldsLast(log, tail, disk, r.disk))
    {
      hide Replay, Revokes, Copies, CopiesAt, AllThere, HoldsLast, Ends, Readable;
      if OneDescriptor(log, tail, head) {
        OneWalked(log, tail, head);
        OneReplayed(log, tail, disk);
      }
    }
  }
}
