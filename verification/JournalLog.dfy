/**
 A GFS2 journal as fs_recovery.c reads it: a ring of blocks with log headers, log descriptors, and behind the
 descriptors the revoked block numbers and the copies of blocks that were logged.
 */
module JournalLog {
  import MetaPaths

  // A block as 32-bit words.
  type Block = seq<nat>

  const TWO_32: nat := 0x1_0000_0000
  const MAGIC: nat := 0x01161970
  const METATYPE_LH: nat := 8
  const METATYPE_LD: nat := 9
  const METATYPE_LB: nat := 12
  const DESC_METADATA: nat := 300
  const DESC_REVOKE: nat := 301
  const DESC_JDATA: nat := 302
  const HEADER_WORDS: nat := 6          // sizeof(struct gfs2_meta_header)
  const DESCRIPTOR_WORDS: nat := 18     // sizeof(struct gfs2_log_descriptor)

  // The journal: how many blocks it has, the blocks that can be read, and which of them hold a log header
  // that passes the checks of lgfs2_get_log_header.
  datatype Log = Log(blocks: nat, block: map<nat, Block>, good: set<nat>)

  function Be64(b: Block, o: nat): nat
    requires o + 2 <= |b|
  {
    b[o] * TWO_32 + b[o + 1]
  }

  // gfs2_check_meta succeeds.
  predicate IsMeta(b: Block, metatype: nat) {
    |b| > 1 && b[0] == MAGIC && b[1] == metatype
  }

  function LdType(b: Block): nat requires |b| > DESCRIPTOR_WORDS { b[6] }
  function LdLength(b: Block): nat requires |b| > DESCRIPTOR_WORDS { b[7] }
  function LdData1(b: Block): nat requires |b| > DESCRIPTOR_WORDS { b[8] }

  // Every descriptor has room for the block numbers it announces; buf_lo_scan_elements and
  // databuf_lo_scan_elements read them unchecked.
  ghost predicate Readable(log: Log) {
    && log.blocks > 0
    && forall p | p in log.block ::
      && p < log.blocks && |log.block[p]| > DESCRIPTOR_WORDS
      && (IsMeta(log.block[p], METATYPE_LD) ==> Announced(log.block[p]) <= |log.block[p]|)
  }

  ghost function Announced(b: Block): nat
    requires |b| > DESCRIPTOR_WORDS
  {
    if LdType(b) == DESC_METADATA then DESCRIPTOR_WORDS + 2 * LdData1(b)
    else if LdType(b) == DESC_JDATA then DESCRIPTOR_WORDS + 4 * LdData1(b)
    else 0
  }

  // gfs2_replay_incr_blk.
  function Incr(log: Log, p: nat): nat {
    if p + 1 == log.blocks then 0 else p + 1
  }

  ghost function Advance(log: Log, p: nat, k: nat): nat
    decreases k
  {
    if k == 0 then p else Advance(log, Incr(log, p), k - 1)
  }

  // How far position p is from the tail, in log order.
  ghost function Distance(log: Log, tail: nat, p: nat): int {
    if p >= tail then p - tail else p - tail + log.blocks
  }

  lemma {:induction false} AdvanceDistance(log: Log, tail: nat, p: nat, k: nat)
    requires tail < log.blocks && p < log.blocks && Distance(log, tail, p) + k < log.blocks
    ensures Advance(log, p, k) < log.blocks && Distance(log, tail, Advance(log, p, k)) == Distance(log, tail, p) + k
    decreases k
  {
    if k > 0 {
      AdvanceDistance(log, tail, Incr(log, p), k - 1);
    }
  }

  lemma {:induction false} AdvanceInside(log: Log, p: nat, k: nat)
    requires p < log.blocks
    ensures Advance(log, p, k) < log.blocks
    decreases k
  {
    if k > 0 {
      AdvanceInside(log, Incr(log, p), k - 1);
    }
  }

  lemma {:induction false} AdvanceOne(log: Log, p: nat, k: nat)
    ensures Advance(log, p, k + 1) == Incr(log, Advance(log, p, k))
    decreases k
  {
    if k > 0 {
      AdvanceOne(log, Incr(log, p), k - 1);
    }
  }

  // Stepping through the ring is adding modulo its size.
  lemma {:induction false} AdvanceIs(log: Log, p: nat, k: nat)
    requires p < log.blocks
    ensures Advance(log, p, k) == (p + k) % log.blocks
    decreases k
  {
    if k > 0 {
      AdvanceIs(log, Incr(log, p), k - 1);
      if p + 1 == log.blocks {
        RoundOnce(log.blocks, k - 1);
      }
    }
  }

  lemma RoundOnce(b: nat, k: nat)
    requires b > 0
    ensures (b + k) % b == k % b
  {
    MetaPaths.DivIsQuot(b + k, b);
    MetaPaths.DivIsQuot(k, b);
  }

  // A revoke of block blkno, and a logged copy of it, with their positions in the journal.
  datatype Rev = Rev(blkno: nat, at: nat)
  datatype Copy = Copy(blkno: nat, at: nat, isMeta: bool, esc: bool)

  // A scan's findings, and whether it got to its end.
  datatype Found<T> = Found(list: seq<T>, ok: bool)

  // The walk cannot go on at p.
  ghost predicate Stuck(log: Log, p: nat)
    requires Readable(log)
  {
    || p !in log.block || log.block[p][0] != MAGIC
    || (if log.block[p][1] == METATYPE_LH then p !in log.good else !IsMeta(log.block[p], METATYPE_LD))
  }

  ghost predicate Descriptor(log: Log, p: nat)
    requires Readable(log)
  {
    p in log.block && IsMeta(log.block[p], METATYPE_LD)
  }

  ghost function Next(log: Log, p: nat): nat
    requires Readable(log) && !Stuck(log, p)
  {
    if Descriptor(log, p) then Advance(log, p, LdLength(log.block[p])) else Incr(log, p)
  }

  // The walk from p comes to an end within n steps.
  ghost predicate Ends(log: Log, p: nat, end: nat, n: nat)
    requires Readable(log)
    decreases n
  {
    p == end || Stuck(log, p) || (n > 0 && Ends(log, Next(log, p), end, n - 1))
  }

  // The revokes read from word o of block b on, and what is then left of the announced number. The count is
  // an unsigned 32-bit number that is decremented before it is tested.
  ghost function RevokesIn(b: Block, o: nat, revokes: nat, at: nat): (seq<Rev>, nat)
    decreases |b| - o
  {
    if o + 2 > |b| then ([], revokes)
    else
      var left := (revokes - 1) % TWO_32;
      var rev := Rev(Be64(b, o), at);
      if left == 0 then ([rev], 0) else var rest := RevokesIn(b, o + 2, left, at); ([rev] + rest.0, rest.1)
  }

  // One revoke of a block and the others.
  lemma RevokesInStep(b: Block, o: nat, revokes: nat, at: nat)
    ensures o + 2 > |b| ==> RevokesIn(b, o, revokes, at) == ([], revokes)
    ensures o + 2 <= |b| ==>
      var rev, left := Rev(Be64(b, o), at), (revokes - 1) % TWO_32;
      var rest := RevokesIn(b, o + 2, left, at);
      RevokesIn(b, o, revokes, at) == if left == 0 then ([rev], 0) else ([rev] + rest.0, rest.1)
  {
  }

  // The revokes of a descriptor: blks blocks from p on, the first of which is the descriptor itself.
  ghost function RevokesFrom(log: Log, p: nat, blks: nat, revokes: nat, first: bool): Found<Rev>
    requires Readable(log)
    decreases blks
  {
    if blks == 0 then Found([], true)
    else if p !in log.block then Found([], false)
    else if !first && !IsMeta(log.block[p], METATYPE_LB) then RevokesFrom(log, Incr(log, p), blks - 1, revokes, first)
    else
      var here := RevokesIn(log.block[p], if first then DESCRIPTOR_WORDS else HEADER_WORDS, revokes, p);
      var rest := RevokesFrom(log, Incr(log, p), blks - 1, here.1, false);
      Found(here.0 + rest.list, rest.ok)
  }

  ghost function RevokesAt(log: Log, p: nat): Found<Rev>
    requires Readable(log) && Descriptor(log, p)
  {
    var b := log.block[p];
    if LdType(b) == DESC_REVOKE then RevokesFrom(log, p, LdLength(b), LdData1(b), true) else Found([], true)
  }

  // The copies a descriptor announces, from the i-th on; `at` is the journal block that holds it.
  ghost function CopiesFrom(log: Log, b: Block, at: nat, i: nat, blks: nat): seq<Copy>
    requires |b| > DESCRIPTOR_WORDS && LdType(b) in {DESC_METADATA, DESC_JDATA}
    requires DESCRIPTOR_WORDS + (if LdType(b) == DESC_METADATA then 2 else 4) * (i + blks) <= |b|
    decreases blks
  {
    if blks == 0 then []
    else if LdType(b) == DESC_METADATA then
      [Copy(Be64(b, DESCRIPTOR_WORDS + 2 * i), at, true, false)] + CopiesFrom(log, b, Incr(log, at), i + 1, blks - 1)
    else
      [Copy(Be64(b, DESCRIPTOR_WORDS + 4 * i), at, false, Be64(b, DESCRIPTOR_WORDS + 4 * i + 2) != 0)]
        + CopiesFrom(log, b, Incr(log, at), i + 1, blks - 1)
  }

  ghost function CopiesAt(log: Log, p: nat): seq<Copy>
    requires Readable(log) && Descriptor(log, p)
  {
    var b := log.block[p];
    if LdType(b) in {DESC_METADATA, DESC_JDATA} then CopiesFrom(log, b, Incr(log, p), 0, LdData1(b)) else []
  }

  // The first copy and the others.
  lemma CopiesStep(log: Log, b: Block, at: nat, i: nat, blks: nat)
    requires |b| > DESCRIPTOR_WORDS && LdType(b) in {DESC_METADATA, DESC_JDATA} && blks > 0
    requires DESCRIPTOR_WORDS + (if LdType(b) == DESC_METADATA then 2 else 4) * (i + blks) <= |b|
    ensures
      var c := if LdType(b) == DESC_METADATA then Copy(Be64(b, DESCRIPTOR_WORDS + 2 * i), at, true, false)
               else Copy(Be64(b, DESCRIPTOR_WORDS + 4 * i), at, false, Be64(b, DESCRIPTOR_WORDS + 4 * i + 2) != 0);
      CopiesFrom(log, b, at, i, blks) == [c] + CopiesFrom(log, b, Incr(log, at), i + 1, blks - 1)
  {
  }

  lemma NoCopies(log: Log, b: Block, at: nat, i: nat)
    requires |b| > DESCRIPTOR_WORDS && LdType(b) in {DESC_METADATA, DESC_JDATA}
    requires DESCRIPTOR_WORDS + (if LdType(b) == DESC_METADATA then 2 else 4) * i <= |b|
    ensures CopiesFrom(log, b, at, i, 0) == []
  {
  }

  // The j-th of the copies announced from the i-th on.
  lemma {:induction false} CopyOf(log: Log, b: Block, at: nat, i: nat, blks: nat, j: nat)
    requires |b| > DESCRIPTOR_WORDS && LdType(b) in {DESC_METADATA, DESC_JDATA} && j < blks
    requires DESCRIPTOR_WORDS + (if LdType(b) == DESC_METADATA then 2 else 4) * (i + blks) <= |b|
    ensures |CopiesFrom(log, b, at, i, blks)| == blks
    ensures CopiesFrom(log, b, at, i, blks)[j] ==
      if b[6] == 300 then Copy(b[18 + 2 * (i + j)] * TWO_32 + b[19 + 2 * (i + j)], Advance(log, at, j), true, false)
      else Copy(b[18 + 4 * (i + j)] * TWO_32 + b[19 + 4 * (i + j)], Advance(log, at, j), false,
                b[20 + 4 * (i + j)] != 0 || b[21 + 4 * (i + j)] != 0)
    decreases blks
  {
    CopiesStep(log, b, at, i, blks);
    if blks == 1 {
      NoCopies(log, b, Incr(log, at), i + 1);
    } else {
      CopyOf(log, b, Incr(log, at), i + 1, blks - 1, if j > 0 then j - 1 else 0);
    }
  }

  // What a descriptor at p announces: the i-th copy lies 1 + i blocks behind it, and is one of the block whose number
  // is the i-th behind its header, high word first.
  lemma MetadataCopies(log: Log, p: nat, i: nat)
    requires Readable(log) && p in log.block && log.block[p][0] == 0x01161970 && log.block[p][1] == 9
    requires log.block[p][6] == 300
    ensures Descriptor(log, p) && |CopiesAt(log, p)| == log.block[p][8]
    ensures i < log.block[p][8] ==>
      && 18 + 2 * log.block[p][8] <= |log.block[p]|
      && CopiesAt(log, p)[i] == Copy(log.block[p][18 + 2 * i] * 0x1_0000_0000 + log.block[p][19 + 2 * i],
                                     (p + 1 + i) % log.blocks, true, false)
  {
    hide CopiesFrom;
    var b := log.block[p];
    assert Advance(log, p, i + 1) == Advance(log, Incr(log, p), i);
    AdvanceIs(log, p, i + 1);
    if b[8] == 0 {
      NoCopies(log, b, Incr(log, p), 0);
    } else {
      CopyOf(log, b, Incr(log, p), 0, b[8], if i < b[8] then i else 0);
    }
  }

  // The same for journaled data, with the flag that says whether the first word was escaped.
  lemma DataCopies(log: Log, p: nat, i: nat)
    requires Readable(log) && p in log.block && log.block[p][0] == 0x01161970 && log.block[p][1] == 9
    requires log.block[p][6] == 302
    ensures Descriptor(log, p) && |CopiesAt(log, p)| == log.block[p][8]
    ensures i < log.block[p][8] ==>
      && 18 + 4 * log.block[p][8] <= |log.block[p]|
      && CopiesAt(log, p)[i] == Copy(log.block[p][18 + 4 * i] * 0x1_0000_0000 + log.block[p][19 + 4 * i],
                                     (p + 1 + i) % log.blocks, false,
                                     log.block[p][20 + 4 * i] != 0 || log.block[p][21 + 4 * i] != 0)
  {
    hide CopiesFrom;
    var b := log.block[p];
    assert Advance(log, p, i + 1) == Advance(log, Incr(log, p), i);
    AdvanceIs(log, p, i + 1);
    if b[8] == 0 {
      NoCopies(log, b, Incr(log, p), 0);
    } else {
      CopyOf(log, b, Incr(log, p), 0, b[8], if i < b[8] then i else 0);
    }
  }

  // Other descriptors announce no copies, and these no revokes.
  lemma OtherKinds(log: Log, p: nat)
    requires Readable(log) && p in log.block && log.block[p][0] == 0x01161970 && log.block[p][1] == 9
    ensures Descriptor(log, p)
    ensures log.block[p][6] != 300 && log.block[p][6] != 302 ==> CopiesAt(log, p) == []
    ensures log.block[p][6] != 301 ==> RevokesAt(log, p) == Found([], true)
  {
  }

  // The revokes read in one block are its numbers from word o on, high word first.
  lemma {:induction false} RevokesInAre(b: Block, o: nat, revokes: nat, at: nat, j: nat)
    requires j < |RevokesIn(b, o, revokes, at).0|
    ensures o + 2 * j + 2 <= |b|
    ensures RevokesIn(b, o, revokes, at).0[j] == Rev(b[o + 2 * j] * 0x1_0000_0000 + b[o + 2 * j + 1], at)
    decreases |b| - o
  {
    RevokesInStep(b, o, revokes, at);
    if j > 0 {
      RevokesInAre(b, o + 2, (revokes - 1) % TWO_32, at, j - 1);
    }
  }

  // Number n at word o of the journal block at k blocks behind p, which is a continuation block or the descriptor.
  ghost predicate RevokedAt(log: Log, p: nat, blks: nat, first: bool, rev: Rev, k: nat, j: nat) {
    && k < blks && rev.at == Advance(log, p, k) && rev.at in log.block
    && var b, o := log.block[rev.at], if first && k == 0 then 18 else 6;
    && o + 2 * j + 2 <= |b| && rev.blkno == b[o + 2 * j] * 0x1_0000_0000 + b[o + 2 * j + 1]
    && ((first && k == 0) || (b[0] == 0x01161970 && b[1] == 12))
  }

  lemma {:induction false} RevokesFromAre(log: Log, p: nat, blks: nat, revokes: nat, first: bool, n: nat)
    requires Readable(log) && n < |RevokesFrom(log, p, blks, revokes, first).list|
    ensures exists k: nat, j: nat :: RevokedAt(log, p, blks, first, RevokesFrom(log, p, blks, revokes, first).list[n],
                                               k, j)
    decreases blks
  {
    var rev := RevokesFrom(log, p, blks, revokes, first).list[n];
    if !first && !IsMeta(log.block[p], METATYPE_LB) {
      RevokesFromAre(log, Incr(log, p), blks - 1, revokes, first, n);
      var k: nat, j: nat :| RevokedAt(log, Incr(log, p), blks - 1, first, rev, k, j);
      assert RevokedAt(log, p, blks, first, rev, k + 1, j);
    } else {
      var o := if first then DESCRIPTOR_WORDS else HEADER_WORDS;
      var here := RevokesIn(log.block[p], o, revokes, p);
      if n < |here.0| {
        RevokesInAre(log.block[p], o, revokes, p, n);
        assert Advance(log, p, 0) == p;
        assert RevokedAt(log, p, blks, first, rev, 0, n);
      } else {
        RevokesFromAre(log, Incr(log, p), blks - 1, here.1, false, n - |here.0|);
        var k: nat, j: nat :| RevokedAt(log, Incr(log, p), blks - 1, false, rev, k, j);
        assert RevokedAt(log, p, blks, first, rev, k + 1, j);
      }
    }
  }

  // Every revoke of a descriptor at p is a number in one of its blocks, and says in which.
  lemma RevokesAre(log: Log, p: nat, rev: Rev)
    requires Readable(log) && p in log.block && log.block[p][0] == 0x01161970 && log.block[p][1] == 9
    requires log.block[p][6] == 301
    ensures Descriptor(log, p)
    ensures rev in RevokesAt(log, p).list ==>
      exists k: nat, j: nat :: RevokedAt(log, p, log.block[p][7], true, rev, k, j)
  {
    if n :| 0 <= n < |RevokesAt(log, p).list| && RevokesAt(log, p).list[n] == rev {
      RevokesFromAre(log, p, log.block[p][7], log.block[p][8], true, n);
    }
  }

  // Everything the log revokes, in log order, up to the first error.
  ghost function Revokes(log: Log, p: nat, end: nat, n: nat): Found<Rev>
    requires Readable(log) && Ends(log, p, end, n)
    decreases n
  {
    if p == end then Found([], true)
    else if Stuck(log, p) then Found([], false)
    else
      var here := if Descriptor(log, p) then RevokesAt(log, p) else Found([], true);
      if !here.ok then here else
        var rest := Revokes(log, Next(log, p), end, n - 1);
        Found(here.list + rest.list, rest.ok)
  }

  // Every copy in the log, in log order, up to the first error of the walk.
  ghost function Copies(log: Log, p: nat, end: nat, n: nat): Found<Copy>
    requires Readable(log) && Ends(log, p, end, n)
    decreases n
  {
    if p == end then Found([], true)
    else if Stuck(log, p) then Found([], false)
    else
      var rest := Copies(log, Next(log, p), end, n - 1);
      Found((if Descriptor(log, p) then CopiesAt(log, p) else []) + rest.list, rest.ok)
  }

  lemma ReadableBlock(log: Log, p: nat)
    requires Readable(log) && p in log.block
    ensures p < log.blocks && |log.block[p]| > DESCRIPTOR_WORDS
  {
  }

  // One step of the walk.
  lemma WalkStep(log: Log, p: nat, end: nat, n: nat)
    requires Readable(log) && Ends(log, p, end, n)
    ensures p == end ==> Revokes(log, p, end, n) == Found([], true) && Copies(log, p, end, n) == Found([], true)
    ensures p != end && Stuck(log, p) ==>
      Revokes(log, p, end, n) == Found([], false) && Copies(log, p, end, n) == Found([], false)
    ensures p != end && !Stuck(log, p) ==>
      n > 0 && p in log.block && p < log.blocks && Ends(log, Next(log, p), end, n - 1)
    ensures p != end && !Stuck(log, p) && !Descriptor(log, p) ==>
      && Next(log, p) == Incr(log, p)
      && Revokes(log, p, end, n) == Revokes(log, Next(log, p), end, n - 1) &&
         Copies(log, p, end, n) == Copies(log, Next(log, p), end, n - 1)
    ensures p != end && !Stuck(log, p) && Descriptor(log, p) ==>
      var here, revs, copies := RevokesAt(log, p), Revokes(log, Next(log, p), end, n - 1),
          Copies(log, Next(log, p), end, n - 1);
      && Next(log, p) == Advance(log, p, LdLength(log.block[p]))
      && Revokes(log, p, end, n) == (if here.ok then Found(here.list + revs.list, revs.ok) else here)
      && Copies(log, p, end, n) == Found(CopiesAt(log, p) + copies.list, copies.ok)
  {
    hide RevokesAt, CopiesAt, Advance;
  }

  // Blocks of the log one after the other from p to the head: good headers, each followed by the next block, and
  // descriptors, each followed by the block behind the length it gives.
  ghost predicate Follows(log: Log, p: nat, ps: seq<nat>, head: nat)
    requires Readable(log)
    decreases |ps|
  {
    if ps == [] then p == head
    else
      && ps[0] == p != head && p in log.block && log.block[p][0] == 0x01161970
      && ((log.block[p][1] == 8 && p in log.good) || log.block[p][1] == 9)
      && Follows(log, (p + if log.block[p][1] == 9 then log.block[p][7] else 1) % log.blocks, ps[1..], head)
  }

  ghost function CopiesOver(log: Log, ps: seq<nat>): seq<Copy>
    requires Readable(log) && forall p | p in ps :: p in log.block
  {
    if ps == [] then []
    else (if Descriptor(log, ps[0]) then CopiesAt(log, ps[0]) else []) + CopiesOver(log, ps[1..])
  }

  ghost function RevokesOver(log: Log, ps: seq<nat>): seq<Rev>
    requires Readable(log) && forall p | p in ps :: p in log.block
  {
    if ps == [] then []
    else (if Descriptor(log, ps[0]) then RevokesAt(log, ps[0]).list else []) + RevokesOver(log, ps[1..])
  }

  // The walk gets to the head without an error exactly over such blocks, and it gathers what they hold.
  lemma {:induction false} WalkFollows(log: Log, p: nat, ps: seq<nat>, head: nat, n: nat)
    requires Readable(log) && Follows(log, p, ps, head) && Ends(log, p, head, n)
    ensures forall q | q in ps :: q in log.block
    ensures Copies(log, p, head, n) == Found(CopiesOver(log, ps), true)
    ensures Revokes(log, p, head, n).ok ==> Revokes(log, p, head, n).list == RevokesOver(log, ps)
    decreases |ps|
  {
    WalkStep(log, p, head, n);
    if ps != [] {
      hide CopiesAt, RevokesAt, Copies, Revokes, Ends, Readable;
      NextIs(log, p);
      WalkFollows(log, Next(log, p), ps[1..], head, n - 1);
    }
  }

  lemma NextIs(log: Log, p: nat)
    requires Readable(log) && p in log.block && log.block[p][0] == 0x01161970
    ensures Stuck(log, p) <==> !((log.block[p][1] == 8 && p in log.good) || log.block[p][1] == 9)
    ensures !Stuck(log, p) ==> Next(log, p) == (p + if log.block[p][1] == 9 then log.block[p][7] else 1) % log.blocks
  {
    AdvanceIs(log, p, if log.block[p][1] == 9 then log.block[p][7] else 1);
    assert Advance(log, p, 1) == Advance(log, Incr(log, p), 0);
  }

  lemma {:induction false} FollowsExists(log: Log, p: nat, head: nat, n: nat) returns (ps: seq<nat>)
    requires Readable(log) && Ends(log, p, head, n) && Copies(log, p, head, n).ok
    ensures Follows(log, p, ps, head)
    decreases n
  {
    WalkStep(log, p, head, n);
    ps := [];
    if p != head {
      NextIs(log, p);
      var rest := FollowsExists(log, Next(log, p), head, n - 1);
      ps := [p] + rest;
      assert ps[1..] == rest;
    }
  }

  // The position of the last revoke of block b, or -1.
  ghost function LastRevoke(revs: seq<Rev>, b: nat): (at: int)
    ensures at >= -1
  {
    if revs == [] then -1
    else if revs[|revs| - 1].blkno == b then revs[|revs| - 1].at
    else LastRevoke(revs[..|revs| - 1], b)
  }

  // The copy at `at` is cancelled by a revoke further away from the tail.
  ghost predicate Cancelled(log: Log, tail: nat, revs: seq<Rev>, blkno: nat, at: nat) {
    var where := LastRevoke(revs, blkno);
    where >= 0 && 0 < Distance(log, tail, at) < Distance(log, tail, where)
  }

  // What replaying a copy writes: the logged block, with the magic number put back if it was escaped.
  function Logged(log: Log, c: Copy): Block
    requires c.at in log.block && |log.block[c.at]| > 0
  {
    if !c.isMeta && c.esc then [MAGIC] + log.block[c.at][1..] else log.block[c.at]
  }

  // A copy that cannot be replayed: unreadable, or not metadata though it should be.
  ghost predicate Broken(log: Log, c: Copy)
    requires Readable(log)
  {
    c.at !in log.block || (c.isMeta && log.block[c.at][0] != MAGIC)
  }

  datatype Replayed = Replayed(disk: map<nat, Block>, ok: bool)

  // Replaying copies one after the other.
  ghost function Replay(log: Log, tail: nat, revs: seq<Rev>, copies: seq<Copy>, disk: map<nat, Block>): Replayed
    requires Readable(log)
  {
    if copies == [] then Replayed(disk, true)
    else if Cancelled(log, tail, revs, copies[0].blkno, copies[0].at) then Replay(log, tail, revs, copies[1..], disk)
    else if Broken(log, copies[0]) then Replayed(disk, false)
    else Replay(log, tail, revs, copies[1..], disk[copies[0].blkno := Logged(log, copies[0])])
  }

  lemma {:induction false} ReplayAppend(log: Log, tail: nat, revs: seq<Rev>, a: seq<Copy>, b: seq<Copy>,
                                        disk: map<nat, Block>)
    requires Readable(log)
    ensures
      var first := Replay(log, tail, revs, a, disk);
      Replay(log, tail, revs, a + b, disk) == if first.ok then Replay(log, tail, revs, b, first.disk) else first
    decreases |a|
  {
    if a == [] {
      assert a + b == b;
    } else {
      assert (a + b)[0] == a[0] && (a + b)[1..] == a[1..] + b;
      if Cancelled(log, tail, revs, a[0].blkno, a[0].at) {
        ReplayAppend(log, tail, revs, a[1..], b, disk);
      } else if !Broken(log, a[0]) {
        ReplayAppend(log, tail, revs, a[1..], b, disk[a[0].blkno := Logged(log, a[0])]);
      }
    }
  }

  lemma ReplayNothing(log: Log, tail: nat, revs: seq<Rev>, disk: map<nat, Block>)
    requires Readable(log)
    ensures Replay(log, tail, revs, [], disk) == Replayed(disk, true)
  {
  }

  ghost predicate Live(log: Log, tail: nat, revs: seq<Rev>, c: Copy) {
    !Cancelled(log, tail, revs, c.blkno, c.at)
  }

  // The index of the last live copy of block b among the first k, or -1.
  ghost function LastLive(log: Log, tail: nat, revs: seq<Rev>, copies: seq<Copy>, k: nat, b: nat): (i: int)
    requires k <= |copies|
    ensures -1 <= i < k
    ensures i >= 0 ==> copies[i].blkno == b && Live(log, tail, revs, copies[i])
    ensures forall j | i < j < k && copies[j].blkno == b :: !Live(log, tail, revs, copies[j])
  {
    if k == 0 then -1
    else if copies[k - 1].blkno == b && Live(log, tail, revs, copies[k - 1]) then k - 1
    else LastLive(log, tail, revs, copies, k - 1, b)
  }

  // Each block holds its last live logged copy, and what it held before if there is none.
  lemma {:induction false} ReplayIsLastLive(log: Log, tail: nat, revs: seq<Rev>, copies: seq<Copy>, k: nat,
                                            disk: map<nat, Block>, b: nat)
    requires Readable(log) && k <= |copies| && Replay(log, tail, revs, copies[..k], disk).ok
    ensures
      var i := LastLive(log, tail, revs, copies, k, b);
      var disk' := Replay(log, tail, revs, copies[..k], disk).disk;
      if i >= 0 then !Broken(log, copies[i]) && b in disk' && disk'[b] == Logged(log, copies[i])
      else (b in disk' <==> b in disk) && (b in disk ==> disk'[b] == disk[b])
    decreases k
  {
    if k > 0 {
      assert copies[..k] == copies[..k - 1] + [copies[k - 1]];
      ReplayAppend(log, tail, revs, copies[..k - 1], [copies[k - 1]], disk);
      ReplayIsLastLive(log, tail, revs, copies, k - 1, disk, b);
    }
  }

  // A replay succeeds exactly if no live copy is broken.
  lemma {:induction false} ReplayOkExactly(log: Log, tail: nat, revs: seq<Rev>, copies: seq<Copy>,
                                           disk: map<nat, Block>)
    requires Readable(log)
    ensures Replay(log, tail, revs, copies, disk).ok <==>
      forall i | 0 <= i < |copies| && Live(log, tail, revs, copies[i]) :: !Broken(log, copies[i])
    decreases |copies|
  {
    if copies != [] {
      var rest := copies[1..];
      assert forall i | 0 < i < |copies| :: copies[i] == rest[i - 1];
      if Cancelled(log, tail, revs, copies[0].blkno, copies[0].at) {
        ReplayOkExactly(log, tail, revs, rest, disk);
      } else if !Broken(log, copies[0]) {
        ReplayOkExactly(log, tail, revs, rest, disk[copies[0].blkno := Logged(log, copies[0])]);
      }
      assert forall i | 0 <= i < |rest| :: rest[i] == copies[i + 1];
    }
  }

  // Replaying twice is replaying once.
  lemma ReplayTwice(log: Log, tail: nat, revs: seq<Rev>, copies: seq<Copy>, disk: map<nat, Block>)
    requires Readable(log) && Replay(log, tail, revs, copies, disk).ok
    ensures Replay(log, tail, revs, copies, Replay(log, tail, revs, copies, disk).disk) == Replay(log, tail, revs,
      copies, disk)
  {
    var n := |copies|;
    assert copies[..n] == copies;
    var once := Replay(log, tail, revs, copies, disk).disk;
    ReplayOkAnywhere(log, tail, revs, copies, disk, once);
    var twice := Replay(log, tail, revs, copies, once).disk;
    forall b ensures (b in twice <==> b in once) && (b in once ==> twice[b] == once[b]) {
      if b >= 0 {
        ReplayIsLastLive(log, tail, revs, copies, n, disk, b);
        ReplayIsLastLive(log, tail, revs, copies, n, once, b);
      }
    }
    assert twice == once;
  }

  // Whether a replay succeeds does not depend on the disk.
  lemma {:induction false} ReplayOkAnywhere(log: Log, tail: nat, revs: seq<Rev>, copies: seq<Copy>,
                                            d1: map<nat, Block>, d2: map<nat, Block>)
    requires Readable(log)
    ensures Replay(log, tail, revs, copies, d1).ok == Replay(log, tail, revs, copies, d2).ok
    decreases |copies|
  {
    if copies != [] {
      if Cancelled(log, tail, revs, copies[0].blkno, copies[0].at) {
        ReplayOkAnywhere(log, tail, revs, copies[1..], d1, d2);
      } else if !Broken(log, copies[0]) {
        var w := Logged(log, copies[0]);
        ReplayOkAnywhere(log, tail, revs, copies[1..], d1[copies[0].blkno := w], d2[copies[0].blkno := w]);
      }
    }
  }

  ghost function Stretch(log: Log, p: nat): nat
    requires Readable(log)
  {
    if Descriptor(log, p) then LdLength(log.block[p]) else 1
  }

  // From p to end the headers and descriptors follow one another and none reaches past the end.
  ghost predicate Orderly(log: Log, tail: nat, p: nat, end: nat)
    requires Readable(log) && tail < log.blocks && p < log.blocks && end < log.blocks
    decreases Distance(log, tail, end) - Distance(log, tail, p)
  {
    p == end
    || (Distance(log, tail, p) < Distance(log, tail, end)
        && (Stuck(log, p)
            || (0 < Stretch(log, p) <= Distance(log, tail, end) - Distance(log, tail, p)
                && (NextDistance(log, tail, p, end); Orderly(log, tail, Next(log, p), end)))))
  }

  lemma NextDistance(log: Log, tail: nat, p: nat, end: nat)
    requires Readable(log) && tail < log.blocks && p < log.blocks && end < log.blocks && !Stuck(log, p)
    requires Stretch(log, p) <= Distance(log, tail, end) - Distance(log, tail, p)
    ensures Next(log, p) < log.blocks && Distance(log, tail, Next(log, p)) == Distance(log, tail, p) + Stretch(log, p)
  {
    AdvanceDistance(log, tail, p, Stretch(log, p));
    if !Descriptor(log, p) {
      assert Advance(log, p, 1) == Advance(log, Incr(log, p), 0);
    }
  }

  // An orderly log is walked to its end.
  lemma {:induction false} OrderlyEnds(log: Log, tail: nat, p: nat, end: nat)
    requires Readable(log) && tail < log.blocks && p < log.blocks && end < log.blocks && Orderly(log, tail, p, end)
    ensures Distance(log, tail, p) <= Distance(log, tail, end)
    ensures Ends(log, p, end, Distance(log, tail, end) - Distance(log, tail, p))
    decreases Distance(log, tail, end) - Distance(log, tail, p)
  {
    if p != end && !Stuck(log, p) {
      NextDistance(log, tail, p, end);
      OrderlyEnds(log, tail, Next(log, p), end);
      EndsMore(log, Next(log, p), end, Distance(log, tail, end) - Distance(log, tail, Next(log, p)),
               Distance(log, tail, end) - Distance(log, tail, p) - 1);
    }
  }

  lemma {:induction false} EndsMore(log: Log, p: nat, end: nat, n: nat, m: nat)
    requires Readable(log) && Ends(log, p, end, n) && n <= m
    ensures Ends(log, p, end, m)
    decreases n
  {
    if p != end && !Stuck(log, p) {
      EndsMore(log, Next(log, p), end, n - 1, m - 1);
    }
  }

  // A descriptor that covers no block is never left.
  lemma {:induction false} EmptyDescriptorLoops(log: Log, p: nat, end: nat, n: nat)
    requires Readable(log) && p != end && Descriptor(log, p) && LdLength(log.block[p]) == 0
    ensures !Ends(log, p, end, n)
    decreases n
  {
    if n > 0 {
      EmptyDescriptorLoops(log, p, end, n - 1);
    }
  }

  // A log of four blocks in which each of two descriptors leads to the other.
  ghost function Jumping(): Log {
    Log(4, map[0 := JumpDescriptor(), 2 := JumpDescriptor()], {})
  }

  function JumpDescriptor(): Block {
    [MAGIC, METATYPE_LD, 0, 0, 0, 0, DESC_METADATA, 2, 0, 0, 0, 0, 0, 0, 0, 0, 0, 0, 0]
  }

  lemma JumpingIs()
    ensures Readable(Jumping())
    ensures forall p | p in {0, 2} ::
      && Descriptor(Jumping(), p) && !Stuck(Jumping(), p)
      && LdLength(Jumping().block[p]) == 2 && Next(Jumping(), p) == 2 - p
  {
    var log := Jumping();
    assert Advance(log, 0, 2) == Advance(log, 1, 1) == Advance(log, 2, 0);
    assert Advance(log, 2, 2) == Advance(log, 3, 1) == Advance(log, 0, 0);
  }

  // The walk from block 0 to block 1 of that log never ends, though no descriptor is empty.
  lemma {:induction false} JumpingLoops(p: nat, n: nat)
    requires p in {0, 2}
    ensures Readable(Jumping()) && !Ends(Jumping(), p, 1, n)
    decreases n
  {
    JumpingIs();
    hide Jumping;
    if n > 0 {
      JumpingLoops(2 - p, n - 1);
    }
  }

  // The positions at which the walk from p is before it ends.
  ghost function Visited(log: Log, p: nat, end: nat, n: nat): set<nat>
    requires Readable(log) && Ends(log, p, end, n)
    decreases n
  {
    if p == end || Stuck(log, p) then {} else {p} + Visited(log, Next(log, p), end, n - 1)
  }

  lemma {:induction false} VisitedEnds(log: Log, p: nat, end: nat, n: nat, q: nat)
    requires Readable(log) && Ends(log, p, end, n) && q in Visited(log, p, end, n)
    ensures q < log.blocks && Ends(log, q, end, n)
    decreases n
  {
    if q != p {
      VisitedEnds(log, Next(log, p), end, n - 1, q);
      EndsMore(log, q, end, n - 1, n);
    }
  }

  // A walk that needs all its n steps is at n positions.
  lemma {:induction false} VisitedOnce(log: Log, p: nat, end: nat, n: nat)
    requires Readable(log) && Ends(log, p, end, n) && (n > 0 ==> !Ends(log, p, end, n - 1))
    ensures |Visited(log, p, end, n)| == n
    decreases n
  {
    if n > 0 {
      var q := Next(log, p);
      if p in Visited(log, q, end, n - 1) {
        VisitedEnds(log, q, end, n - 1, p);
      }
      VisitedOnce(log, q, end, n - 1);
    }
  }

  ghost function Positions(blocks: nat): (s: set<nat>)
    ensures |s| == blocks && forall p: nat :: p in s <==> p < blocks
  {
    if blocks == 0 then {} else Positions(blocks - 1) + {blocks - 1}
  }

  lemma SubsetSize(a: set<nat>, b: set<nat>)
    requires a <= b
    ensures |a| <= |b|
  {
    assert b == a + (b - a);
  }

  // A walk that ends does so within as many steps as the journal has blocks.
  lemma {:induction false} EndsInBlocks(log: Log, p: nat, end: nat, n: nat)
    requires Readable(log) && Ends(log, p, end, n)
    ensures Ends(log, p, end, log.blocks)
    decreases n
  {
    if n > 0 && Ends(log, p, end, n - 1) {
      EndsInBlocks(log, p, end, n - 1);
    } else {
      VisitedOnce(log, p, end, n);
      forall q | q in Visited(log, p, end, n) ensures q in Positions(log.blocks) {
        VisitedEnds(log, p, end, n, q);
      }
      SubsetSize(Visited(log, p, end, n), Positions(log.blocks));
      EndsMore(log, p, end, n, log.blocks);
    }
  }

  // Whether the walk ever ends is decided by its first log.blocks steps.
  lemma EndsExactly(log: Log, p: nat, end: nat)
    requires Readable(log)
    ensures (exists n :: Ends(log, p, end, n)) <==> Ends(log, p, end, log.blocks)
  {
    if n: nat :| Ends(log, p, end, n) {
      EndsInBlocks(log, p, end, n);
    }
  }

  // Revokes lie between two distances from the tail, in log order.
  ghost predicate InOrder(log: Log, tail: nat, revs: seq<Rev>, lo: int, hi: int) {
    && (forall i | 0 <= i < |revs| :: lo <= Distance(log, tail, revs[i].at) < hi && revs[i].at < log.blocks)
    && forall i, j | 0 <= i < j < |revs| :: Distance(log, tail, revs[i].at) <= Distance(log, tail, revs[j].at)
  }

  lemma InOrderJoined(log: Log, tail: nat, a: seq<Rev>, b: seq<Rev>, lo: int, mid: int, hi: int)
    requires InOrder(log, tail, a, lo, mid) && InOrder(log, tail, b, mid, hi) && lo <= mid <= hi
    ensures InOrder(log, tail, a + b, lo, hi)
  {
  }

  lemma {:induction false} RevokesInAt(b: Block, o: nat, revokes: nat, at: nat)
    ensures forall i | 0 <= i < |RevokesIn(b, o, revokes, at).0| :: RevokesIn(b, o, revokes, at).0[i].at == at
    decreases |b| - o
  {
    if o + 2 <= |b| {
      RevokesInAt(b, o + 2, (revokes - 1) % TWO_32, at);
    }
  }

  lemma {:induction false} RevokesFromInOrder(log: Log, tail: nat, p: nat, blks: nat, revokes: nat, first: bool)
    requires Readable(log) && tail < log.blocks && p < log.blocks && Distance(log, tail, p) + blks < log.blocks
    ensures InOrder(log, tail, RevokesFrom(log, p, blks, revokes, first).list, Distance(log, tail, p),
                    Distance(log, tail, p) + blks)
    decreases blks
  {
    if blks > 0 && p in log.block {
      var d := Distance(log, tail, p);
      assert Distance(log, tail, Incr(log, p)) == d + 1;
      if !first && !IsMeta(log.block[p], METATYPE_LB) {
        RevokesFromInOrder(log, tail, Incr(log, p), blks - 1, revokes, first);
      } else {
        var o := if first then DESCRIPTOR_WORDS else HEADER_WORDS;
        var here := RevokesIn(log.block[p], o, revokes, p);
        RevokesInAt(log.block[p], o, revokes, p);
        RevokesFromInOrder(log, tail, Incr(log, p), blks - 1, here.1, false);
        InOrderJoined(log, tail, here.0, RevokesFrom(log, Incr(log, p), blks - 1, here.1, false).list, d, d + 1,
                      d + blks);
      }
    }
  }

  lemma {:induction false} RevokesInOrder(log: Log, tail: nat, p: nat, end: nat, n: nat)
    requires Readable(log) && tail < log.blocks && p < log.blocks && end < log.blocks && Orderly(log, tail, p, end)
    requires Ends(log, p, end, n)
    ensures InOrder(log, tail, Revokes(log, p, end, n).list, Distance(log, tail, p), Distance(log, tail, end))
    decreases n
  {
    if p != end && !Stuck(log, p) {
      var d, e := Distance(log, tail, p), Distance(log, tail, end);
      NextDistance(log, tail, p, end);
      var here := if Descriptor(log, p) then RevokesAt(log, p) else Found([], true);
      assert InOrder(log, tail, here.list, d, d + Stretch(log, p)) by {
        if Descriptor(log, p) && LdType(log.block[p]) == DESC_REVOKE {
          RevokesFromInOrder(log, tail, p, LdLength(log.block[p]), LdData1(log.block[p]), true);
        }
      }
      if here.ok {
        RevokesInOrder(log, tail, Next(log, p), end, n - 1);
        InOrderJoined(log, tail, here.list, Revokes(log, Next(log, p), end, n - 1).list, d, d + Stretch(log, p), e);
      }
    }
  }

  lemma {:induction false} LastRevokeIs(revs: seq<Rev>, b: nat)
    ensures LastRevoke(revs, b) >= 0 ==> exists i ::
      (0 <= i < |revs| && revs[i].blkno == b && revs[i].at == LastRevoke(revs, b) && forall j | i < j < |revs| ::
       revs[j].blkno != b)
    ensures LastRevoke(revs, b) < 0 ==> forall j | 0 <= j < |revs| :: revs[j].blkno != b
  {
    if revs != [] {
      var n := |revs| - 1;
      if revs[n].blkno != b {
        LastRevokeIs(revs[..n], b);
        if LastRevoke(revs, b) >= 0 {
          var i :| 0 <= i < n && revs[..n][i].blkno == b && revs[..n][i].at == LastRevoke(revs, b) &&
              forall j | i < j < n :: revs[..n][j].blkno != b;
          assert revs[i].blkno == b && revs[i].at == LastRevoke(revs, b) && forall j | i < j < |revs| ::
              revs[j].blkno != b;
        } else {
          assert forall j | 0 <= j < n :: revs[j] == revs[..n][j];
        }
      } else {
        assert revs[n].blkno == b && revs[n].at == LastRevoke(revs, b);
      }
    }
  }

  // In an orderly log the revoke list's one position per block decides what a later revoke cancels.
  lemma CancelledByLater(log: Log, tail: nat, revs: seq<Rev>, lo: int, hi: int, c: Copy)
    requires InOrder(log, tail, revs, lo, hi)
    ensures Cancelled(log, tail, revs, c.blkno, c.at) <==>
      exists i :: 0 <= i < |revs| && revs[i].blkno == c.blkno &&
          0 < Distance(log, tail, c.at) < Distance(log, tail, revs[i].at)
  {
    LastRevokeIs(revs, c.blkno);
  }

  // Slots for block numbers in a block of w words behind a header of o words.
  ghost function Slots(w: nat, o: nat): nat {
    if w < o + 2 then 0 else (w - o) / 2
  }

  // All slots of blks blocks, the first of which is the descriptor.
  ghost function AllSlots(w: nat, blks: nat, first: bool): nat {
    if blks == 0 then 0
    else Slots(w, if first then DESCRIPTOR_WORDS else HEADER_WORDS) + AllSlots(w, blks - 1, false)
  }

  lemma {:induction false} RevokesInCount(b: Block, o: nat, revokes: nat, at: nat)
    requires revokes < TWO_32 && Slots(|b|, o) < TWO_32
    ensures
      var here, s := RevokesIn(b, o, revokes, at), Slots(|b|, o);
      if 0 < revokes <= s then |here.0| == revokes && here.1 == 0 else |here.0| == s && here.1 == (revokes - s) % TWO_32
    decreases |b| - o
  {
    if o + 2 <= |b| {
      var left := (revokes - 1) % TWO_32;
      var s := Slots(|b|, o + 2);
      assert Slots(|b|, o) == 1 + s;
      assert left == if revokes == 0 then TWO_32 - 1 else revokes - 1;
      RevokesInCount(b, o + 2, left, at);
      hide Slots;
      assert (revokes - 1 - s) % TWO_32 == if revokes == 0 then TWO_32 - 1 - s else (revokes - 1 - s) % TWO_32;
    }
  }

  // Continuation blocks that are all there and all of one size.
  ghost predicate Whole(log: Log, p: nat, blks: nat, first: bool, w: nat)
    requires Readable(log)
    decreases blks
  {
    blks > 0 ==>
        p in log.block && |log.block[p]| == w && (first || IsMeta(log.block[p], METATYPE_LB)) &&
            Whole(log, Incr(log, p), blks - 1, false, w)
  }

  lemma RevokesFromCount(log: Log, p: nat, blks: nat, revokes: nat, first: bool, w: nat) returns (left: nat)
    requires Readable(log) && blks > 0 && Whole(log, p, blks, first, w) && revokes < TWO_32
    requires AllSlots(w, blks, first) < TWO_32
    ensures Whole(log, Incr(log, p), blks - 1, false, w) && left < TWO_32
    ensures
      var s := Slots(w, if first then DESCRIPTOR_WORDS else HEADER_WORDS);
      && left == (if 0 < revokes <= s then 0 else (revokes - s) % TWO_32)
      && |RevokesFrom(log, p, blks, revokes, first).list| ==
         (if 0 < revokes <= s then revokes else s) + |RevokesFrom(log, Incr(log, p), blks - 1, left, false).list|
  {
    var o := if first then DESCRIPTOR_WORDS else HEADER_WORDS;
    RevokesInCount(log.block[p], o, revokes, p);
    left := RevokesIn(log.block[p], o, revokes, p).1;
  }

  // A count of zero, or one beyond all slots, makes the scan take every slot for a revoke.
  lemma {:induction false} EverySlotRead(log: Log, p: nat, blks: nat, revokes: nat, first: bool, w: nat)
    requires Readable(log) && Whole(log, p, blks, first, w) && revokes < TWO_32 && AllSlots(w, blks, first) < TWO_32
    requires revokes == 0 || revokes >= AllSlots(w, blks, first)
    ensures |RevokesFrom(log, p, blks, revokes, first).list| == AllSlots(w, blks, first)
    decreases blks
  {
    if blks > 0 {
      hide RevokesFrom, Whole, Readable, Slots;
      var left := RevokesFromCount(log, p, blks, revokes, first, w);
      assert AllSlots(w, blks, first) ==
        Slots(w, if first then DESCRIPTOR_WORDS else HEADER_WORDS) + AllSlots(w, blks - 1, false);
      EverySlotRead(log, Incr(log, p), blks - 1, left, false, w);
    }
  }

  // The scan reads as many revokes as the descriptor announces if and only if the last block is needed for them
  // and enough: after the last announced revoke a further block makes the counter wrap.
  lemma {:induction false} AnnouncedRevokesRead(log: Log, p: nat, blks: nat, revokes: nat, first: bool, w: nat)
    requires Readable(log) && Whole(log, p, blks, first, w) && revokes < TWO_32 && AllSlots(w, blks, first) < TWO_32
    requires blks > 0 && w > DESCRIPTOR_WORDS + 1
    ensures |RevokesFrom(log, p, blks, revokes, first).list| == revokes <==>
      AllSlots(w, blks - 1, first) < revokes <= AllSlots(w, blks, first)
    decreases blks
  {
    hide RevokesFrom, Whole;
    var s := Slots(w, if first then DESCRIPTOR_WORDS else HEADER_WORDS);
    var left := RevokesFromCount(log, p, blks, revokes, first, w);
    if revokes == 0 {
      EverySlotRead(log, p, blks, revokes, first, w);
    } else if blks > 1 {
      if revokes <= s {
        EverySlotRead(log, Incr(log, p), blks - 1, 0, false, w);
        assert AllSlots(w, blks - 1, first) >= s && AllSlots(w, blks - 1, false) > 0;
      } else {
        AnnouncedRevokesRead(log, Incr(log, p), blks - 1, revokes - s, false, w);
        assert AllSlots(w, blks - 1, first) == s + AllSlots(w, blks - 2, false);
      }
    } else {
      NoneLeft(log, Incr(log, p), left);
    }
  }

  // The revokes of a descriptor are its slots one after the other, as many as it announces: slot j of the block k
  // behind p comes after the slots of the blocks before it.
  lemma {:induction false} RevokeInSlot(log: Log, p: nat, blks: nat, revokes: nat, first: bool, w: nat, k: nat, j: nat)
    requires Readable(log) && Whole(log, p, blks, first, w) && revokes < TWO_32 && AllSlots(w, blks, first) < TWO_32
    requires k < blks && j < Slots(w, if first && k == 0 then 18 else 6) && p < log.blocks
    requires revokes == 0 || revokes > AllSlots(w, blks - 1, first)
    requires AllSlots(w, k, first) + j < |RevokesFrom(log, p, blks, revokes, first).list|
    ensures
      var q, o := Advance(log, p, k), if first && k == 0 then 18 else 6;
      && q in log.block && o + 2 * j + 2 <= |log.block[q]|
      && RevokesFrom(log, p, blks, revokes, first).list[AllSlots(w, k, first) + j] ==
         Rev(log.block[q][o + 2 * j] * 0x1_0000_0000 + log.block[q][o + 2 * j + 1], q)
    decreases blks
  {
    hide RevokesFrom, RevokesIn, Whole, AllSlots, Slots, Readable;
    var o := if first then DESCRIPTOR_WORDS else HEADER_WORDS;
    RevokesSplit(log, p, blks, revokes, first, w);
    var here := RevokesIn(log.block[p], o, revokes, p);
    SlotsBefore(w, blks, first);
    RevokesInCount(log.block[p], o, revokes, p);
    if k == 0 {
      NoSlots(w, first);
      NoneLeft(log, Incr(log, p), here.1);
      RevokesInAre(log.block[p], o, revokes, p, j);
    } else {
      SlotsBefore(w, k, first);
      SlotsBefore(w, blks - 1, false);
      RevokeInSlot(log, Incr(log, p), blks - 1, here.1, false, w, k - 1, j);
    }
  }

  lemma RevokesSplit(log: Log, p: nat, blks: nat, revokes: nat, first: bool, w: nat)
    requires Readable(log) && Whole(log, p, blks, first, w) && blks > 0 && p < log.blocks
    ensures p in log.block && |log.block[p]| == w && Whole(log, Incr(log, p), blks - 1, false, w)
    ensures
      var here := RevokesIn(log.block[p], if first then DESCRIPTOR_WORDS else HEADER_WORDS, revokes, p);
      RevokesFrom(log, p, blks, revokes, first).list ==
        here.0 + RevokesFrom(log, Incr(log, p), blks - 1, here.1, false).list
  {
  }

  lemma NoSlots(w: nat, first: bool)
    ensures AllSlots(w, 0, first) == 0
  {
  }

  lemma SlotsBefore(w: nat, blks: nat, first: bool)
    requires blks > 0
    ensures AllSlots(w, blks, first) ==
      Slots(w, if first then DESCRIPTOR_WORDS else HEADER_WORDS) + AllSlots(w, blks - 1, false)
    ensures blks > 1 ==>
      AllSlots(w, blks - 1, first) ==
        Slots(w, if first then DESCRIPTOR_WORDS else HEADER_WORDS) + AllSlots(w, blks - 2, false)
  {
  }

  // A log whose one descriptor announces no revoke.
  ghost function NothingRevoked(): Log {
    Log(1, map[0 := [MAGIC, METATYPE_LD, 0, 0, 0, 0, DESC_REVOKE, 1, 0, 0, 0, 0, 0, 0, 0, 0, 0, 0, 0, 5]], {})
  }

  // The scan takes its first slot for a revoke of block 5.
  lemma RevokedThough()
    ensures
      var log := NothingRevoked();
      Readable(log) && Descriptor(log, 0) && LdData1(log.block[0]) == 0 && RevokesAt(log, 0).list == [Rev(5, 0)]
  {
    var log := NothingRevoked();
    var b := log.block[0];
    RevokesInStep(b, DESCRIPTOR_WORDS, 0, 0);
    RevokesInStep(b, DESCRIPTOR_WORDS + 2, TWO_32 - 1, 0);
    assert RevokesFrom(log, 0, 1, 0, true).list == RevokesIn(b, DESCRIPTOR_WORDS, 0, 0).0
      + RevokesFrom(log, 0, 0, TWO_32 - 1, false).list;
  }

  lemma NoneLeft(log: Log, p: nat, revokes: nat)
    requires Readable(log)
    ensures RevokesFrom(log, p, 0, revokes, false).list == []
  {
  }
}
