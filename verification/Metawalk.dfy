/**
 The data phase of check_metatree in metawalk.c: checking the data pointers of an inode, and undoing the work
 already done when an error shows that the inode is bad.
 */
module Metawalk {

  // A metadata block that holds data pointers; those of the wrong type are not looked at.
  datatype MetaBlock = MetaBlock(addr: nat, proper: bool, ptrs: seq<nat>)

  // A call of a callback for the data block in one slot of a metadata block. Also struct error_block.
  datatype Call = Call(metablk: nat, off: nat, blk: nat)

  // The calls for the first k slots of a block, one for each pointer that is not null.
  ghost function CallsOf(b: MetaBlock, k: nat): seq<Call>
    requires k <= |b.ptrs|
  {
    if k == 0 then []
    else CallsOf(b, k - 1) + if b.ptrs[k - 1] != 0 then [Call(b.addr, k - 1, b.ptrs[k - 1])] else []
  }

  // The calls for the first n blocks.
  ghost function CallsBefore(list: seq<MetaBlock>, n: nat): seq<Call>
    requires n <= |list|
  {
    if n == 0 then []
    else CallsBefore(list, n - 1) + if list[n - 1].proper then CallsOf(list[n - 1], |list[n - 1].ptrs|) else []
  }

  ghost predicate Distinct(list: seq<MetaBlock>) {
    forall i, j | 0 <= i < j < |list| :: list[i].addr != list[j].addr
  }

  class Walk {
    const answers: seq<int>     // what the check_data callback returns, call by call; 0 after that
    var checks: seq<Call>       // the calls of check_data and of undo_check_data so far
    var undos: seq<Call>
    var errorBlk: Call
    var blksChecked: nat

    constructor (answers: seq<int>)
      ensures this.answers == answers && checks == [] && undos == [] && errorBlk == Call(0, 0, 0) && blksChecked == 0
    {
      this.answers := answers;
      checks, undos, errorBlk, blksChecked := [], [], Call(0, 0, 0), 0;
    }

    // What call i of check_data returned, or would return.
    function Answer(i: nat): int {
      if i < |answers| then answers[i] else 0
    }

    // The answers to calls lo to hi: all zero, or none negative and one of them this error.
    ghost predicate Answered(lo: nat, hi: nat, error: int) {
      && (error == 0 ==> forall i | lo <= i < hi :: Answer(i) == 0)
      && (error > 0 ==> (forall i | lo <= i < hi :: Answer(i) >= 0) && exists i | lo <= i < hi :: Answer(i) == error)
      && (error < 0 ==> lo < hi && Answer(hi - 1) == error && forall i | lo <= i < hi - 1 :: Answer(i) >= 0)
    }

    method CheckData(metablock: nat, off: nat, block: nat) returns (rc: int)
      modifies this`checks
      ensures checks == old(checks) + [Call(metablock, off, block)] && rc == Answer(|old(checks)|)
    {
      rc := Answer(|checks|);
      checks := checks + [Call(metablock, off, block)];
    }

    // report_data_error: a fatal error replaces a non-fatal one.
    method ReportDataError(metablock: nat, off: nat, block: nat, rc: int, error: int)
      modifies this`errorBlk
      ensures errorBlk == if old(errorBlk).blk == 0 || (rc < 0 && rc < error) then Call(metablock, off, block)
        else old(errorBlk)
    {
      if rc < 0 {
        if errorBlk.blk == 0 || rc < error {
          errorBlk := Call(metablock, off, block);
        }
      } else {
        if errorBlk.blk == 0 {
          errorBlk := Call(metablock, off, block);
        }
      }
    }

    // Slot j of block b is where the error block was noted.
    ghost predicate NotedAt(b: MetaBlock, j: nat)
      reads this`errorBlk
    {
      j < |b.ptrs| && b.ptrs[j] != 0 && errorBlk == Call(b.addr, j, b.ptrs[j])
    }

    // metawalk_check_data. A fatal error stops it, other errors do not.
    method MetawalkCheckData(b: MetaBlock) returns (error: int, ghost at: nat)
      requires errorBlk.blk == 0
      modifies this`checks, this`errorBlk, this`blksChecked
      ensures error == 0 ==> errorBlk.blk == 0
      ensures error != 0 ==> NotedAt(b, at)
      ensures error >= 0 ==> checks == old(checks) + CallsOf(b, |b.ptrs|)
      ensures error < 0 ==> checks == old(checks) + CallsOf(b, at) + [errorBlk]
      ensures |checks| >= |old(checks)| && Answered(|old(checks)|, |checks|, error)
    {
      error := 0;
      at := 0;
      assert checks + [] == checks;
      var i := 0;
      while i < |b.ptrs|
        invariant i <= |b.ptrs| && checks == old(checks) + CallsOf(b, i) && error >= 0
        invariant if error == 0 then errorBlk.blk == 0 else NotedAt(b, at)
        invariant |checks| >= |old(checks)| && Answered(|old(checks)|, |checks|, error)
      {
        var block := b.ptrs[i];
        if block == 0 {
          assert CallsOf(b, i + 1) == CallsOf(b, i) + [];
          i := i + 1;
          continue;
        }
        var rc := CheckData(b.addr, i, block);
        if rc != 0 && (error == 0 || rc < error) {
          if errorBlk.blk == 0 || rc < 0 {
            at := i;
          }
          ReportDataError(b.addr, i, block, rc, error);
          error := rc;
        }
        if rc < 0 {
          return rc, at;
        }
        blksChecked := blksChecked + 1;
        i := i + 1;
      }
    }

    // report_undo_data_error and the undo callback, for all pointers of a block. The callback returns 0.
    method UndoCheckData(b: MetaBlock, error: int, ghost at: nat) returns (rc: int)
      requires error != 0 && (errorBlk.metablk == b.addr ==> NotedAt(b, at))
      modifies this`undos
      ensures errorBlk.metablk != b.addr ==> rc == 0 && undos == old(undos) + CallsOf(b, |b.ptrs|)
      ensures errorBlk.metablk == b.addr ==>
        rc == 1 && undos == old(undos) + CallsOf(b, if error < 0 then at else |b.ptrs|)
    {
      var foundErrorBlk := 0;
      assert undos + [] == undos;
      var i := 0;
      while i < |b.ptrs|
        invariant i <= |b.ptrs| && undos == old(undos) + CallsOf(b, i)
        invariant foundErrorBlk == if errorBlk.metablk == b.addr && at < i then 1 else 0
        invariant errorBlk.metablk == b.addr && error < 0 ==> i <= at
      {
        var block := b.ptrs[i];
        if block == 0 {
          assert CallsOf(b, i + 1) == CallsOf(b, i) + [];
          i := i + 1;
          continue;
        }
        if b.addr == errorBlk.metablk && i == errorBlk.off && block == errorBlk.blk {
          if error < 0 {
            return 1;
          }
          foundErrorBlk := 1;
        }
        undos := undos + [Call(b.addr, i, block)];
        i := i + 1;
      }
      rc := foundErrorBlk;
    }

    // The loop over the metadata blocks: it ends with the first block that has an error.
    method CheckBlocks(list: seq<MetaBlock>) returns (error: int, ghost bad: nat, ghost at: nat)
      requires checks == [] && errorBlk.blk == 0
      modifies this`checks, this`errorBlk, this`blksChecked
      ensures error != 0 ==> bad < |list| && list[bad].proper && NotedAt(list[bad], at)
      ensures error == 0 ==> checks == CallsBefore(list, |list|)
      ensures error > 0 ==> checks == CallsBefore(list, bad + 1)
      ensures error < 0 ==> checks == CallsBefore(list, bad) + CallsOf(list[bad], at) + [errorBlk]
      ensures Answered(0, |checks|, error)
    {
      hide CallsOf, Answered;
      error, bad, at := 0, 0, 0;
      NoAnswers();
      var i := 0;
      while error == 0 && i < |list|
        invariant i <= |list|
        invariant error == 0 ==> errorBlk.blk == 0
        invariant error != 0 ==> i > 0 && bad == i - 1 && list[bad].proper && NotedAt(list[bad], at)
        invariant error >= 0 ==> checks == CallsBefore(list, i)
        invariant error < 0 ==> checks == CallsBefore(list, bad) + CallsOf(list[bad], at) + [errorBlk]
        invariant Answered(0, |checks|, error)
        decreases |list| - i
      {
        var bh := list[i];
        bad := i;
        i := i + 1;
        if !bh.proper {
          assert CallsBefore(list, i) == CallsBefore(list, i - 1) + [];
          continue;
        }
        ghost var before := |checks|;
        error, at := MetawalkCheckData(bh);
        AnsweredOn(before, |checks|, error);
      }
    }

    lemma NoAnswers()
      ensures Answered(0, 0, 0)
    {
    }

    lemma AnsweredOn(lo: nat, hi: nat, error: int)
      requires Answered(0, lo, 0) && lo <= hi && Answered(lo, hi, error)
      ensures Answered(0, hi, error)
    {
    }

    // The loop that undoes the work on the data, block by block, until the error block was reached.
    method UndoBlocks(list: seq<MetaBlock>, error: int, ghost bad: nat, ghost at: nat)
      requires error != 0 && bad < |list| && list[bad].proper && NotedAt(list[bad], at) && Distinct(list) && undos == []
      modifies this`undos
      ensures undos == CallsBefore(list, bad) + CallsOf(list[bad], if error < 0 then at else |list[bad].ptrs|)
    {
      var hitErrorBlk := false;
      var i := 0;
      while i < |list|
        invariant i <= |list| && (hitErrorBlk <==> bad < i)
        invariant !hitErrorBlk ==> undos == CallsBefore(list, i)
        invariant hitErrorBlk ==>
          undos == CallsBefore(list, bad) + CallsOf(list[bad], if error < 0 then at else |list[bad].ptrs|)
      {
        var bh := list[i];
        if !hitErrorBlk {
          if bh.proper {
            var rc := UndoCheckData(bh, error, at);
            if rc > 0 {
              hitErrorBlk := true;
            }
          } else {
            assert CallsBefore(list, i + 1) == CallsBefore(list, i) + [];
          }
        }
        i := i + 1;
      }
    }

    // The data phase of check_metatree, with "Remove the invalid inode" answered yes. What was checked before the
    // error is undone, call for call in the same order: all of it after a non-fatal error, all but the last call,
    // which is the one that failed, after a fatal one.
    method CheckMetatree(list: seq<MetaBlock>) returns (error: int)
      requires Distinct(list) && checks == [] && undos == [] && errorBlk.blk == 0
      modifies this
      ensures error == 0 ==> undos == [] && checks == CallsBefore(list, |list|)
      ensures error > 0 ==> undos == checks
      ensures error < 0 ==> checks != [] && undos == checks[..|checks| - 1]
      // the error is what a callback answered: the first fatal one, or else one that is not fatal
      ensures Answered(0, |checks|, error)
      // the work stops with the block of the first error
      ensures error != 0 ==> exists n | 0 < n <= |list| ::
        CallsBefore(list, n - 1) <= checks && (if error > 0 then checks == CallsBefore(list, n)
                                               else checks <= CallsBefore(list, n))
    {
      ghost var bad, at;
      error, bad, at := CheckBlocks(list);
      if error == 0 {
        return;
      }
      UndoBlocks(list, error, bad, at);
      if error < 0 {
        CallsUpTo(list[bad], at + 1, |list[bad].ptrs|);
        assert checks <= CallsBefore(list, bad + 1);
      }
      assert CallsBefore(list, bad + 1 - 1) <= checks;
    }
  }

  // Call c is for a pointer in block i of the list.
  ghost predicate CallIn(list: seq<MetaBlock>, i: nat, c: Call) {
    && i < |list| && list[i].proper && c.metablk == list[i].addr
    && c.off < |list[i].ptrs| && c.blk == list[i].ptrs[c.off] != 0
  }

  lemma {:induction false} CallsOfAre(b: MetaBlock, k: nat)
    requires k <= |b.ptrs|
    ensures forall c: Call :: c in CallsOf(b, k) <==> c.metablk == b.addr && c.off < k && c.blk == b.ptrs[c.off] != 0
    ensures forall i, j | 0 <= i < j < |CallsOf(b, k)| :: CallsOf(b, k)[i].off < CallsOf(b, k)[j].off
  {
    if k > 0 {
      CallsOfAre(b, k - 1);
    }
  }

  // There is one call for each pointer that is not null, ...
  lemma {:induction false} CallsAre(list: seq<MetaBlock>, n: nat, c: Call)
    requires n <= |list|
    ensures c in CallsBefore(list, n) <==> exists i: nat :: i < n && CallIn(list, i, c)
  {
    if n > 0 {
      hide CallsBefore, CallIn;
      CallsAre(list, n - 1, c);
      CallsOfLast(list, n, c);
    } else {
      NoCalls(list);
    }
  }

  lemma CallsOfLast(list: seq<MetaBlock>, n: nat, c: Call)
    requires 0 < n <= |list|
    ensures c in CallsBefore(list, n) <==> c in CallsBefore(list, n - 1) || CallIn(list, n - 1, c)
  {
    CallsOfAre(list[n - 1], |list[n - 1].ptrs|);
  }

  lemma NoCalls(list: seq<MetaBlock>)
    ensures CallsBefore(list, 0) == []
  {
  }

  // ... block after block, and in each block from the first slot to the last.
  lemma {:induction false} CallsInOrder(list: seq<MetaBlock>, n: nat, i: nat, j: nat, a: nat, b: nat)
    requires n <= |list| && Distinct(list) && i < j < |CallsBefore(list, n)|
    requires CallIn(list, a, CallsBefore(list, n)[i]) && CallIn(list, b, CallsBefore(list, n)[j])
    ensures a < b || (a == b && CallsBefore(list, n)[i].off < CallsBefore(list, n)[j].off)
  {
    hide CallsOf, CallsBefore, CallIn, Distinct;
    CallsLast(list, n, i);
    CallsLast(list, n, j);
    var before := CallsBefore(list, n - 1);
    if j < |before| {
      CallsInOrder(list, n - 1, i, j, a, b);
    } else {
      OneBlock(list, b, n - 1, CallsBefore(list, n)[j]);
      if i < |before| {
        CallsAre(list, n - 1, before[i]);
        var a': nat :| a' < n - 1 && CallIn(list, a', before[i]);
        OneBlock(list, a, a', before[i]);
      } else {
        OneBlock(list, a, n - 1, CallsBefore(list, n)[i]);
        CallsOfAre(list[n - 1], |list[n - 1].ptrs|);
      }
    }
  }

  lemma OneBlock(list: seq<MetaBlock>, i: nat, j: nat, c: Call)
    requires Distinct(list) && CallIn(list, i, c) && CallIn(list, j, c)
    ensures i == j
  {
  }

  lemma CallsLast(list: seq<MetaBlock>, n: nat, i: nat)
    requires n <= |list| && i < |CallsBefore(list, n)|
    ensures n > 0
    ensures
      var calls, before := CallsBefore(list, n), CallsBefore(list, n - 1);
      if i < |before| then calls[i] == before[i]
      else
        var own := CallsOf(list[n - 1], |list[n - 1].ptrs|);
        && |calls| == |before| + |own| && calls[i] == own[i - |before|] && CallIn(list, n - 1, calls[i])
  {
    if i >= |CallsBefore(list, n - 1)| {
      CallsOfAre(list[n - 1], |list[n - 1].ptrs|);
    }
  }

  lemma {:induction false} CallsUpTo(b: MetaBlock, k: nat, n: nat)
    requires k <= n <= |b.ptrs|
    ensures CallsOf(b, k) <= CallsOf(b, n)
    decreases n
  {
    if k < n {
      CallsUpTo(b, k, n - 1);
    }
  }
}
