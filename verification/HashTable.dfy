/**
 Hash tables of directories in pass2.c: padding a gap with new leaf blocks, checking that every leaf has an
 aligned power of two of pointers, and the depths and hash windows that go with them.
 */
module HashTable {
  import opened Dyadic

  class Directory {
    const depth: nat              // i_depth: the table has 2^depth pointers
    var table: seq<nat>
    var leafDepth: map<nat, nat>  // lf_depth of each leaf block
    var free: set<nat>

    ghost predicate Valid()
      reads this
    {
      |table| == Pow2(depth) && forall b | b in free :: b !in leafDepth && b !in table
    }

    constructor (depth: nat, table: seq<nat>, leafDepth: map<nat, nat>, free: set<nat>)
      requires |table| == Pow2(depth) && forall b | b in free :: b !in leafDepth && b !in table
      ensures Valid() && this.depth == depth && this.table == table && this.leafDepth == leafDepth && this.free == free
    {
      this.depth, this.table, this.leafDepth, this.free := depth, table, leafDepth, free;
    }

    // write_new_leaf. It refuses a number of copies that is not a power of two, and fails if no block is free.
    method WriteNewLeaf(start: nat, copies: nat) returns (ok: bool, bn: nat)
      requires Valid() && copies > 0 && start + copies <= |table|
      modifies this`table, this`leafDepth, this`free
      ensures Valid() && (ok <==> copies == Pow2(Log(copies)) && old(free) != {})
      ensures ok ==> bn in old(free) && free == old(free) - {bn} && Log(copies) <= depth
      ensures ok ==> leafDepth == old(leafDepth)[bn := depth - Log(copies)]
      ensures ok ==>
        |table| == |old(table)| && forall i | 0 <= i < |table| :: table[i] == if start <= i < start + copies then bn
            else old(table)[i]
      ensures !ok ==> table == old(table) && leafDepth == old(leafDepth) && free == old(free)
    {
      var factor := Halvings(copies);
      var power := PowerOf(factor);
      if power != copies || free == {} {
        return false, 0;
      }
      FactorFits(factor, depth);
      bn :| bn in free;
      free := free - {bn};
      leafDepth := leafDepth[bn := depth - factor];
      table := table[..start] + seq(copies, i => bn) + table[start + copies..];
      ok := true;
    }

    // "Determine the next factor of 2 down from extras": the longest aligned run that fits.
    method FitLength(lindex: nat, len: nat) returns (newLen: nat, ghost k: nat)
      requires len > 0
      ensures newLen == Pow2(k) && Longest(k, lindex, len)
    {
      newLen, k := 1, 0;
      while newLen * 2 <= len
        invariant newLen == Pow2(k) <= len && Multiple(lindex, k)
        decreases len - newLen
      {
        var properStart := ClearBelow(lindex, newLen * 2);
        ClearedIsSame(lindex, k + 1);
        if lindex != properStart {
          break;
        }
        newLen, k := newLen * 2, k + 1;
      }
    }

    // What one round of padding leaves: run j is 2^cut[j] pointers long, starts at starts[j] and points to leaves[j].
    ghost predicate Padded(cut: seq<nat>, starts: seq<nat>, leaves: seq<nat>)
      reads this
    {
      && |cut| == |starts| == |leaves|
      && (forall j | 0 <= j < |cut| :: starts[j] + Pow2(cut[j]) <= |table| && RunIs(starts[j], Pow2(cut[j]), leaves[j]))
      && (forall j | 0 <= j < |cut| :: leaves[j] in leafDepth && leafDepth[leaves[j]] + cut[j] == depth)
      && forall i, j | 0 <= i < j < |cut| :: leaves[i] != leaves[j] && starts[i] + Pow2(cut[i]) <= starts[j]
    }

    ghost predicate RunIs(start: nat, len: nat, leaf: nat)
      requires start + len <= |table|
      reads this
    {
      forall i | start <= i < start + len :: table[i] == leaf
    }

    // One round: the longest run that fits gets a new leaf.
    method PadOne(lindex: nat, len: nat, ghost cut: seq<nat>, ghost starts: seq<nat>, ghost leaves: seq<nat>)
      returns (newLen: nat, ghost k: nat, ghost bn: nat)
      requires Valid() && len > 0 && lindex + len <= |table| && free != {} && Padded(cut, starts, leaves)
      requires forall j | 0 <= j < |cut| :: starts[j] + Pow2(cut[j]) <= lindex
      modifies this`table, this`leafDepth, this`free
      ensures Valid() && |table| == |old(table)| && newLen == Pow2(k) <= len && Longest(k, lindex, len)
      ensures Padded(cut + [k], starts + [lindex], leaves + [bn])
      ensures forall i | 0 <= i < |table| && !(lindex <= i < lindex + newLen) :: table[i] == old(table)[i]
      ensures bn in old(free) && free == old(free) - {bn}
      ensures forall b | b in old(leafDepth) :: b in leafDepth && leafDepth[b] == old(leafDepth)[b]
    {
      hide Pow2, Longest, Multiple, Log;
      newLen, k := FitLength(lindex, len);
      LongestFits(k, lindex, len);
      LogOfPow(k);
      var ok, leaf := WriteNewLeaf(lindex, newLen);
      bn := leaf;
    }

    // pad_with_leafblks. The gap is cut into aligned powers of two, each with a new leaf of matching depth, if there is
    // a free block for each of them; what write_new_leaf returns is not looked at.
    method PadWithLeafblks(lindex0: nat, len0: nat)
      returns (ghost cut: seq<nat>, ghost starts: seq<nat>, ghost leaves: seq<nat>)
      requires Valid() && lindex0 + len0 <= |table| && |free| >= |GreedyCut(lindex0, len0)|
      modifies this`table, this`leafDepth, this`free
      ensures Valid() && |table| == |old(table)| && Padded(cut, starts, leaves) && Greedy(cut, lindex0, len0)
      // the runs fill the gap, each as long as it can be
      ensures Tiled(cut, starts, lindex0, lindex0 + len0, lindex0 + len0)
      ensures |free| == |old(free)| - |cut|
      ensures forall i | 0 <= i < |table| && !(lindex0 <= i < lindex0 + len0) :: table[i] == old(table)[i]
      ensures forall b | b in leaves :: b in old(free)
      ensures forall b | b in old(leafDepth) :: b in leafDepth && leafDepth[b] == old(leafDepth)[b]
    {
      hide Pow2, Longest, Greedy, GreedyTo, Multiple, Log, RunIs, GreedyCut, Tiled;
      cut, starts, leaves := [], [], [];
      var lindex, len := lindex0, len0;
      GreedyNone(lindex0, len0);
      TiledNone(lindex0, lindex0 + len0);
      while len > 0
        invariant Valid() && |table| == |old(table)| && lindex + len == lindex0 + len0 && lindex0 <= lindex
        invariant |free| >= |GreedyCut(lindex, len)| && |free| == |old(free)| - |cut|
        invariant Padded(cut, starts, leaves) && GreedyTo(cut, lindex0, len0, lindex, len)
        invariant Tiled(cut, starts, lindex0, lindex, lindex0 + len0)
        invariant forall j | 0 <= j < |cut| :: starts[j] + Pow2(cut[j]) <= lindex
        invariant forall i | 0 <= i < |table| && !(lindex0 <= i < lindex) :: table[i] == old(table)[i]
        invariant (forall b | b in leaves :: b in old(free)) && free <= old(free)
        invariant forall b | b in old(leafDepth) :: b in leafDepth && leafDepth[b] == old(leafDepth)[b]
        decreases len
      {
        ghost var k, bn;
        var newLen;
        CutNotEmpty(lindex, len);
        newLen, k, bn := PadOne(lindex, len, cut, starts, leaves);
        GreedyMore(cut, lindex0, len0, lindex, len, k);
        GreedyNext(k, lindex, len);
        TiledMore(cut, starts, lindex0, lindex, len, k);
        cut, starts, leaves := cut + [k], starts + [lindex], leaves + [bn];
        len := len - newLen;
        lindex := lindex + newLen;
      }
      GreedyDone(cut, lindex0, len0, lindex);
    }

    lemma CutNotEmpty(start: nat, len: nat)
      requires len > 0
      ensures |GreedyCut(start, len)| > 0
    {
    }

    lemma LongestFits(k: nat, start: nat, len: nat)
      requires Longest(k, start, len)
      ensures Pow2(k) <= len
    {
    }

    lemma GreedyNone(start: nat, len: nat)
      ensures GreedyTo([], start, len, start, len)
    {
    }

    lemma FactorFits(factor: nat, depth: nat)
      requires Pow2(factor) <= Pow2(depth)
      ensures factor <= depth
    {
      if factor > depth {
        PowMonotone(depth, factor);
      }
    }
  }

  // 1 << k.
  method PowerOf(k: nat) returns (p: nat)
    ensures p == Pow2(k)
  {
    p := 1;
    for i := 0 to k
      invariant p == Pow2(i)
    {
      p := 2 * p;
    }
  }

  // Where the run of equal pointers that starts at i ends.
  ghost function RunEnd(tbl: seq<nat>, i: nat): (e: nat)
    requires i < |tbl|
    ensures i < e <= |tbl| && (forall j | i <= j < e :: tbl[j] == tbl[i]) && (e < |tbl| ==> tbl[e] != tbl[i])
    decreases |tbl| - i
  {
    if i + 1 < |tbl| && tbl[i + 1] == tbl[i] then RunEnd(tbl, i + 1) else i + 1
  }

  // A maximal run of one pointer starts at i.
  ghost predicate RunStart(tbl: seq<nat>, i: nat) {
    i < |tbl| && (i == 0 || tbl[i - 1] != tbl[i])
  }

  // The pointer at i is also outside its run.
  ghost predicate Elsewhere(tbl: seq<nat>, i: nat)
    requires i < |tbl|
  {
    exists j :: 0 <= j < |tbl| && !(i <= j < RunEnd(tbl, i)) && tbl[j] == tbl[i]
  }

  // From i on the table is a sequence of maximal runs of one pointer each; every run is a power of two long and
  // aligned to its length, its pointer is a valid block, and if that is a leaf it is in no other run.
  ghost predicate Clean(tbl: seq<nat>, valid: set<nat>, leaves: map<nat, nat>, i: nat)
    decreases |tbl| - i
  {
    i >= |tbl| || (IsDyadic(i, RunEnd(tbl, i) - i) && tbl[i] in valid && !(tbl[i] in leaves && Elsewhere(tbl, i)) &&
                   Clean(tbl, valid, leaves, RunEnd(tbl, i)))
  }

  // The first part of the loop of check_hash_tbl: the longest aligned power of two of equal pointers, and
  // how many equal pointers there are.
  method MeasureRun(tbl: seq<nat>, lindex: nat) returns (len: nat, properLen: nat)
    requires lindex < |tbl|
    ensures lindex + len == RunEnd(tbl, lindex) && 0 < properLen <= len
    ensures properLen == Pow2(Log(properLen)) && Multiple(lindex, Log(properLen))
    ensures properLen == len <==> IsDyadic(lindex, len)
  {
    len := 1;
    ghost var k := 0;
    var leafblk := tbl[lindex];
    while lindex + len * 2 - 1 < |tbl|
      invariant len == Pow2(k) && Multiple(lindex, k) && lindex + len <= RunEnd(tbl, lindex)
      decreases |tbl| - len
    {
      if tbl[lindex + len * 2 - 1] != leafblk {
        break;
      }
      var anomaly := false;
      ClearedIsSame(lindex, k + 1);
      if lindex != ClearBelow(lindex, len * 2) {
        anomaly := true;
      }
      var i := len;
      while !anomaly && i + lindex < |tbl| && i < len * 2
        invariant len <= i <= len * 2
        invariant anomaly ==> !Multiple(lindex, k + 1) || RunEnd(tbl, lindex) < lindex + len * 2
        invariant !anomaly ==> Multiple(lindex, k + 1) && lindex + i <= RunEnd(tbl, lindex)
      {
        if tbl[lindex + i] != leafblk {
          anomaly := true;
        }
        i := i + 1;
      }
      if anomaly {
        break;
      }
      len, k := len * 2, k + 1;
    }
    // the run does not fill an aligned run of twice the length
    ghost var bound := RunEnd(tbl, lindex) < lindex + len * 2 || !Multiple(lindex, k + 1);
    properLen := len;
    while lindex + len < |tbl| && tbl[lindex + len] == leafblk
      invariant properLen <= len && lindex + len <= RunEnd(tbl, lindex)
      decreases |tbl| - len
    {
      len := len + 1;
    }
    LogOfPow(k);
    if IsDyadic(lindex, len) && len > properLen {
      LongerRun(lindex, len, k);
    }
  }

  lemma LongerRun(start: nat, len: nat, k: nat)
    requires IsDyadic(start, len) && len > Pow2(k)
    ensures len >= 2 * Pow2(k) && Multiple(start, k + 1)
  {
    var j := Log(len);
    if j <= k {
      PowMonotone(j, k);
    } else {
      PowMonotone(k + 1, j);
      MultipleLess(start, k + 1, j);
    }
  }

  // check_hash_tbl_dups up to its first repair, for the run of len pointers at lindex. `leaves` are the leaf blocks,
  // with the index that the hash of their first entry belongs to. A leaf with two runs is always found: that index
  // cannot be that of both, although each run counts as one longer than it is.
  method CheckHashTblDups(tbl: seq<nat>, leaves: map<nat, nat>, lindex: nat, len: nat) returns (found: bool)
    requires RunStart(tbl, lindex) && lindex + len == RunEnd(tbl, lindex)
    ensures found <==> tbl[lindex] in leaves && Elsewhere(tbl, lindex)
  {
    var leafblk := tbl[lindex];
    var l := 0;
    while l < |tbl|
      invariant l <= lindex || l >= lindex + len
      invariant leafblk in leaves ==>
        forall j | 0 <= j < l && j < |tbl| && tbl[j] == leafblk :: lindex <= j < lindex + len
      decreases |tbl| - l
    {
      if l == lindex {
        l := l + len;
        continue;
      }
      if tbl[l] != leafblk {
        l := l + 1;
        continue;
      }
      var len2 := 0;
      while l + len2 < |tbl|
        invariant l + len2 <= |tbl| && (l < lindex ==> l + len2 <= lindex)
        invariant forall j | l <= j < l + len2 :: tbl[j] == leafblk
      {
        if l + len2 == lindex || tbl[l + len2] != leafblk {
          break;
        }
        len2 := len2 + 1;
      }
      if leafblk !in leaves {
        l := l + 1;
        continue;
      }
      assert l + len2 < lindex || lindex + len < l;
      var hashIndex := leaves[leafblk];
      if hashIndex < l || hashIndex > l + len2 {
        // the duplicate is replaced by new leaves
        return true;
      }
      // the other test: the original is replaced, since the duplicate is the proper reference
      assert hashIndex < lindex || hashIndex > lindex + len;
      return true;
    }
    found := false;
  }

  // check_hash_tbl up to its first finding: true if it gets through the whole table without one. `valid` are the
  // blocks that may be leaves.
  method CheckHashTbl(tbl: seq<nat>, valid: set<nat>, leaves: map<nat, nat>) returns (clean: bool)
    ensures clean <==> Clean(tbl, valid, leaves, 0)
    ensures clean <==> forall s: nat, e: nat | MaximalRun(tbl, s, e) :: Proper(tbl, valid, leaves, s, e)
  {
    hide MaximalRun, Proper;
    CleanExactly(tbl, valid, leaves);
    var lindex := 0;
    while lindex < |tbl|
      invariant lindex < |tbl| ==> RunStart(tbl, lindex)
      invariant Clean(tbl, valid, leaves, 0) <==> Clean(tbl, valid, leaves, lindex)
      decreases |tbl| - lindex
    {
      var leafblk := tbl[lindex];
      var len, properLen := MeasureRun(tbl, lindex);
      if leafblk !in valid {
        return false;
      }
      var found := CheckHashTblDups(tbl, leaves, lindex, len);
      if found {
        return false;
      }
      ClearedIsSame(lindex, Log(properLen));
      var properStart := ClearBelow(lindex, properLen);
      // this test of check_hash_tbl never fails: properLen was only doubled where it is aligned
      assert lindex == properStart;
      if len != properLen {
        return false;
      }
      var i := lindex;
      while i < lindex + properLen
        invariant lindex <= i <= lindex + properLen
      {
        assert tbl[i] == leafblk;
        i := i + 1;
      }
      lindex := lindex + properLen;
    }
    clean := true;
  }

  // check_leaf_depth: 0 if nothing was done, 1 if the depth was corrected, -1 if it cannot be.
  method CheckLeafDepth(depth: nat, curDepth: nat, refCount: nat) returns (rc: int, newDepth: nat)
    requires curDepth <= depth && refCount > 0
    ensures rc == -1 <==> Log(refCount) > depth
    ensures rc != -1 ==> newDepth == depth - Log(refCount)
    ensures (rc == 1 <==> rc != -1 && newDepth != curDepth) && rc in {-1, 0, 1}
    // with a power of two of pointers the depth now says how many there are
    ensures rc != -1 && refCount == Pow2(Log(refCount)) ==> Pow2(depth - newDepth) == refCount
  {
    newDepth := curDepth;
    var expCount := PowerOf(depth - curDepth);
    if expCount == refCount {
      LogOfPow(depth - curDepth);
      return 0, newDepth;
    }
    var factor := Halvings(refCount);
    if depth < factor {
      return -1, newDepth;
    }
    var correctDepth := depth - factor;
    if curDepth == correctDepth {
      return 0, newDepth;
    }
    return 1, correctDepth;
  }

  const HASH_BITS: nat := 32

  // hash_table_index.
  function HashTableIndex(hash: nat, depth: nat): nat
    requires depth <= HASH_BITS
  {
    ShiftRight(hash, HASH_BITS - depth)
  }

  // hash_table_max.
  ghost function HashTableMax(lindex: nat, depth: nat, leafDepth: nat): int
    requires leafDepth <= depth
  {
    Pow2(depth - leafDepth) + lindex - 1
  }

  // One pointer from s to e, and no longer.
  ghost predicate MaximalRun(tbl: seq<nat>, s: nat, e: nat) {
    && s < e <= |tbl| && (forall j | s <= j < e :: tbl[j] == tbl[s])
    && (s > 0 ==> tbl[s - 1] != tbl[s]) && (e < |tbl| ==> tbl[e] != tbl[s])
  }

  // What is asked of a run: its length is a power of two that divides its start, its pointer is valid, and a leaf is
  // in no other run.
  ghost predicate Proper(tbl: seq<nat>, valid: set<nat>, leaves: map<nat, nat>, s: nat, e: nat) {
    && (exists k :: s + Pow2(k) == e && s % Pow2(k) == 0)
    && s < |tbl| && tbl[s] in valid
    && (tbl[s] in leaves ==> forall j | 0 <= j < |tbl| && tbl[j] == tbl[s] :: s <= j < e)
  }

  lemma RunEndIs(tbl: seq<nat>, s: nat, e: nat)
    requires MaximalRun(tbl, s, e)
    ensures e == RunEnd(tbl, s)
  {
  }

  lemma ProperRun(tbl: seq<nat>, valid: set<nat>, leaves: map<nat, nat>, s: nat, e: nat)
    requires MaximalRun(tbl, s, e)
    ensures Proper(tbl, valid, leaves, s, e) <==>
      IsDyadic(s, e - s) && tbl[s] in valid && !(tbl[s] in leaves && Elsewhere(tbl, s))
  {
    hide IsDyadic, Pow2, RunEnd;
    RunEndIs(tbl, s, e);
    DyadicIs(s, e - s);
    if k: nat :| e - s == Pow2(k) && s % Pow2(k) == 0 {
      assert s + Pow2(k) == e;
    }
    if tbl[s] in leaves {
      if Elsewhere(tbl, s) {
        var j :| 0 <= j < |tbl| && !(s <= j < RunEnd(tbl, s)) && tbl[j] == tbl[s];
        assert tbl[j] == tbl[s];
      }
    }
  }

  // A maximal run that starts inside another one is that one.
  lemma SameRun(tbl: seq<nat>, i: nat, s: nat, e: nat)
    requires RunStart(tbl, i) && i <= s < RunEnd(tbl, i) && MaximalRun(tbl, s, e)
    ensures s == i && e == RunEnd(tbl, i)
  {
    hide RunEnd;
    RunEndIs(tbl, s, e);
  }

  lemma {:induction false} CleanFrom(tbl: seq<nat>, valid: set<nat>, leaves: map<nat, nat>, i: nat)
    requires i < |tbl| ==> RunStart(tbl, i)
    ensures Clean(tbl, valid, leaves, i) <==>
      forall s: nat, e: nat | i <= s && MaximalRun(tbl, s, e) :: Proper(tbl, valid, leaves, s, e)
    decreases |tbl| - i
  {
    hide IsDyadic, Proper;
    if i < |tbl| {
      var e := RunEnd(tbl, i);
      CleanFrom(tbl, valid, leaves, e);
      ProperRun(tbl, valid, leaves, i, e);
      forall s: nat, e': nat | i <= s < e && MaximalRun(tbl, s, e') ensures s == i && e' == e {
        SameRun(tbl, i, s, e');
      }
    }
  }

  // A table is clean exactly if every maximal run is proper.
  lemma CleanExactly(tbl: seq<nat>, valid: set<nat>, leaves: map<nat, nat>)
    ensures Clean(tbl, valid, leaves, 0) <==>
      forall s: nat, e: nat | MaximalRun(tbl, s, e) :: Proper(tbl, valid, leaves, s, e)
  {
    CleanFrom(tbl, valid, leaves, 0);
  }

  // In a clean table every index lies in the one run its own pointer makes up.
  lemma {:induction false} RunStarts(tbl: seq<nat>, valid: set<nat>, leaves: map<nat, nat>, i: nat, n: nat)
    returns (s: nat)
    requires Clean(tbl, valid, leaves, i) && i <= n < |tbl|
    ensures i <= s <= n < RunEnd(tbl, s) && IsDyadic(s, RunEnd(tbl, s) - s) && (s > i ==> tbl[s - 1] != tbl[s])
    ensures tbl[s] in leaves ==> !Elsewhere(tbl, s)
    decreases |tbl| - i
  {
    if n < RunEnd(tbl, i) {
      s := i;
    } else {
      s := RunStarts(tbl, valid, leaves, RunEnd(tbl, i), n);
      if s == RunEnd(tbl, i) {
        assert tbl[s - 1] == tbl[i];
      }
    }
  }

  // In a clean table a leaf whose depth says how long its run is accepts exactly the hashes that are looked up in it.
  lemma HashWindow(tbl: seq<nat>, valid: set<nat>, leaves: map<nat, nat>, depth: nat, lindex: nat, leafDepth: nat,
                   hash: nat)
    requires Clean(tbl, valid, leaves, 0) && depth <= HASH_BITS && |tbl| == Pow2(depth) && hash < Pow2(HASH_BITS)
    requires RunStart(tbl, lindex) && tbl[lindex] in leaves
    requires leafDepth <= depth && RunEnd(tbl, lindex) - lindex == Pow2(depth - leafDepth)
    ensures HashTableIndex(hash, depth) < |tbl|
    ensures lindex <= HashTableIndex(hash, depth) <= HashTableMax(lindex, depth, leafDepth) <==>
      tbl[HashTableIndex(hash, depth)] == tbl[lindex]
  {
    ShiftBound(hash, HASH_BITS - depth, depth);
    var s := RunStarts(tbl, valid, leaves, 0, lindex);
    assert tbl[s] == tbl[lindex];
    assert s == lindex;
  }

  // Since runs are aligned, these are the hashes that share the first leafDepth bits with the start of the run.
  lemma HashPrefix(depth: nat, lindex: nat, leafDepth: nat, hash: nat)
    requires leafDepth <= depth <= HASH_BITS && Multiple(lindex, depth - leafDepth)
    ensures lindex <= HashTableIndex(hash, depth) <= HashTableMax(lindex, depth, leafDepth)
      <==> ShiftRight(hash, HASH_BITS - leafDepth) == ShiftRight(lindex, depth - leafDepth)
  {
    SameHighBits(HashTableIndex(hash, depth), lindex, depth - leafDepth);
    ShiftTwice(hash, HASH_BITS - depth, depth - leafDepth);
  }
}
