/**
 Link counts in fsck.gfs2 (link.c, pass4.c). Most inodes have one link, so their counts are kept as one bit each in
 two maps: one for "has link count 1 on disk", one for "one reference was found". Directories, and inodes with other
 counts, have a record in a tree.
 */
module Links {
  import opened InodeHash

  // struct dir_info without what is not needed here.
  datatype DirInfo = DirInfo(dinode: Inum, diNlink: nat, countedLinks: nat)

  datatype Outcome = Good | InoMismatch | CheckOrig

  function MaskOf(i: nat): (m: bv8)
    requires i < 8
    ensures m != 0
  {
    if i == 0 then 1 else if i == 1 then 2 else if i == 2 then 4 else if i == 3 then 8
    else if i == 4 then 16 else if i == 5 then 32 else if i == 6 then 64 else 128
  }

  lemma MasksApart(i: nat, j: nat)
    requires i < 8 && j < 8 && i != j
    ensures MaskOf(i) & MaskOf(j) == 0
  {
  }

  predicate Test(x: bv8, m: bv8) {
    x & m != 0
  }

  function Clear(x: bv8, m: bv8): bv8 {
    x & !m
  }

  function Set(x: bv8, m: bv8): bv8 {
    x | m
  }

  // Clearing and setting under one mask leaves what is under another alone.
  lemma MaskedBits(x: bv8, m: bv8, n: bv8)
    requires m != 0 && (m == n || m & n == 0)
    ensures Test(Clear(x, m), n) == (m != n && Test(x, n))
    ensures Test(Set(Clear(x, m), m), n) == (m == n || Test(x, n))
  {
  }

  // A map with one bit for each block.
  class Bmap {
    const size: nat
    var bytes: seq<bv8>

    ghost predicate Valid()
      reads this
    {
      |bytes| == size / 8 + 1
    }

    constructor (size: nat)
      ensures Valid() && this.size == size && forall b: nat :: !IsSet(b)
    {
      this.size := size;
      bytes := seq(size / 8 + 1, i => 0);
      new;
      assert forall m: bv8 {:trigger 0 & m} :: 0 & m == 0;
    }

    // link1_type is 1.
    predicate IsSet(b: nat)
      reads this
    {
      b / 8 < |bytes| && Test(bytes[b / 8], MaskOf(b % 8))
    }

    // link1_set.
    method Link1Set(bblock: nat, mark: bool) returns (rc: int)
      requires Valid()
      modifies this`bytes
      ensures Valid() && (rc == 0 <==> bblock <= size)
      ensures forall b: nat :: IsSet(b) == if rc == 0 && b == bblock then mark else old(IsSet(b))
    {
      hide Test, Clear, Set, MaskOf;
      if bblock > size {
        return -1;
      }
      var byte, m := bblock / 8, MaskOf(bblock % 8);
      ghost var before := bytes;
      bytes := bytes[byte := Clear(bytes[byte], m)];
      if mark {
        bytes := bytes[byte := Set(bytes[byte], m)];
      }
      forall b: nat ensures IsSet(b) == if b == bblock then mark
          else b / 8 < |before| && Test(before[b / 8], MaskOf(b % 8)) {
        BitSet(before[byte], bblock, mark, b);
      }
      rc := 0;
    }
  }

  lemma BitSet(x: bv8, n: nat, mark: bool, b: nat)
    ensures
      var m := MaskOf(n % 8);
      Test(if mark then Set(Clear(x, m), m) else Clear(x, m), MaskOf(b % 8)) <==>
          (if b % 8 == n % 8 then mark else Test(x, MaskOf(b % 8)))
    ensures b == n <==> b / 8 == n / 8 && b % 8 == n % 8
  {
    if b % 8 != n % 8 {
      MasksApart(n % 8, b % 8);
    }
    hide MaskOf, Test, Clear, Set;
    MaskedBits(x, MaskOf(n % 8), MaskOf(b % 8));
  }

  // One reference to an inode: found, with what the dinode says its formal number is, or taken away.
  datatype Op = Incr(no: Inum, diskFormal: nat) | Decr(addr: nat)

  // What becomes of the count of block b when the first k operations had these outcomes.
  ghost function Tally(ops: seq<Op>, outs: seq<Outcome>, k: nat, count: nat, b: nat): nat
    requires k <= |ops| && k <= |outs|
  {
    if k == 0 then count else TallyOne(ops[k - 1], outs[k - 1], Tally(ops, outs, k - 1, count, b), b)
  }

  ghost function TallyOne(op: Op, out: Outcome, n: nat, b: nat): nat {
    match op
    case Incr(no, _) => if no.addr == b && out != InoMismatch then n + 1 else n
    case Decr(addr) => if addr == b && n > 0 then n - 1 else n
  }

  // An inode reported by pass 4.
  datatype Flag = Unlinked(addr: nat) | Inconsistent(addr: nat)

  ghost predicate Wrong(f: Flag, ii: InodeInfo) {
    match f
    case Unlinked(_) => ii.countedLinks == 0
    case Inconsistent(_) => ii.countedLinks != 0 && ii.countedLinks != ii.diNlink
  }

  ghost function Corrected(ii: InodeInfo): InodeInfo {
    if ii.countedLinks == 0 then ii else ii.(diNlink := ii.countedLinks)
  }

  class LinkTables {
    const nlink1: Bmap
    const clink1: Bmap
    var inodes: map<nat, InodeInfo>   // the inode tree, by address
    var dirs: map<nat, DirInfo>       // the directory tree, by address

    // No count is kept in two places.
    ghost predicate Valid()
      reads this, nlink1, clink1
    {
      && nlink1 != clink1 && nlink1.Valid() && clink1.Valid() && nlink1.size == clink1.size
      && forall b | b in inodes || b in dirs :: !(b in inodes && b in dirs) && !clink1.IsSet(b) && !nlink1.IsSet(b)
    }

    // The number of references found, and the link count on disk; an inode that was not seen has none.
    ghost function Count(b: nat): nat
      reads this, clink1
    {
      if b in dirs then dirs[b].countedLinks
      else if b in inodes then inodes[b].countedLinks
      else if clink1.IsSet(b) then 1 else 0
    }

    ghost function OnDisk(b: nat): nat
      reads this, nlink1
    {
      if b in dirs then dirs[b].diNlink
      else if b in inodes then inodes[b].diNlink
      else if nlink1.IsSet(b) then 1 else 0
    }

    // The inode numbers in the records that were there are what they were.
    ghost predicate SameNumbers(inodes0: map<nat, InodeInfo>, dirs0: map<nat, DirInfo>)
      reads this
    {
      && (forall b | b in inodes0 :: b in inodes && inodes[b].num == inodes0[b].num)
      && forall b | b in dirs0 :: b in dirs && dirs[b].dinode == dirs0[b].dinode
    }

    // What is on record of an inode has its formal number.
    ghost predicate Knows(no: Inum)
      reads this
    {
      && (no.addr in dirs ==> dirs[no.addr].dinode.formalIno == no.formalIno)
      && (no.addr in inodes ==> inodes[no.addr].num.formalIno == no.formalIno)
    }

    constructor (size: nat, dirs: map<nat, DirInfo>)
      requires forall b | b in dirs :: b <= size
      ensures Valid() && fresh(nlink1) && fresh(clink1) && nlink1.size == size && this.dirs == dirs && inodes == map[]
      ensures forall b: nat :: Count(b) == (if b in dirs then dirs[b].countedLinks else 0)
      ensures forall b: nat :: OnDisk(b) == (if b in dirs then dirs[b].diNlink else 0)
    {
      nlink1 := new Bmap(size);
      clink1 := new Bmap(size);
      inodes, this.dirs := map[], dirs;
    }

    // set_di_nlink, for an inode at address no.addr with link count nlink. It keeps each count in one place, and the
    // counts as they were, unless the inode was seen before with another kind of count.
    method SetDiNlink(no: Inum, isDir: bool, nlink: nat) returns (rc: int)
      requires Valid() && no.addr <= nlink1.size
      modifies this`inodes, this`dirs, nlink1
      ensures rc == (if isDir && no.addr !in old(dirs) then -1 else 0) && dirs.Keys == old(dirs.Keys)
      ensures isDir || (no.addr !in old(dirs) && (nlink != 1 || no.addr !in old(inodes))) ==>
        forall b: nat :: OnDisk(b) == if b == no.addr && rc == 0 then nlink else old(OnDisk(b))
      ensures forall b: nat ::
        Count(b) == if b == no.addr && !isDir && nlink != 1 && b !in old(inodes) && b !in old(dirs) then 0
          else old(Count(b))
      ensures !isDir && nlink == 1 ==> inodes == old(inodes) && nlink1.IsSet(no.addr)
      // a new record has the numbers of the inode, and no other numbers change
      ensures inodes.Keys == old(inodes.Keys) + if isDir || nlink == 1 then {} else {no.addr}
      ensures no.addr in inodes && no.addr !in old(inodes) ==> inodes[no.addr] == InodeInfo(no, nlink, 0)
      ensures SameNumbers(old(inodes), old(dirs))
      ensures Valid() <==>
        || isDir
        || (no.addr !in old(dirs)
            && if nlink == 1 then no.addr !in old(inodes)
               else no.addr in old(inodes) || (!old(nlink1.IsSet(no.addr)) && !clink1.IsSet(no.addr)))
    {
      if isDir {
        if no.addr !in dirs {
          return -1;
        }
        dirs := dirs[no.addr := dirs[no.addr].(diNlink := nlink)];
        return 0;
      }
      if nlink == 1 {
        rc := nlink1.Link1Set(no.addr, true);
        return;
      }
      if no.addr !in inodes {
        inodes := inodes[no.addr := InodeInfo(no, 0, 0)];
      }
      inodes := inodes[no.addr := inodes[no.addr].(diNlink := nlink)];
      rc := 0;
    }

    // incr_link_count. diskFormal is the formal inode number in the dinode at no.addr.
    method IncrLinkCount(no: Inum, diskFormal: nat) returns (out: Outcome)
      requires Valid() && no.addr <= nlink1.size
      modifies this`inodes, this`dirs, nlink1, clink1
      ensures Valid()
      ensures forall b: nat :: Count(b) == old(Count(b)) + if b == no.addr && out != InoMismatch then 1 else 0
      ensures out == InoMismatch <==>
        if no.addr in old(dirs) then old(dirs)[no.addr].dinode.formalIno != no.formalIno
        else if no.addr in old(inodes) then old(inodes)[no.addr].num.formalIno != no.formalIno
        else old(Count(no.addr)) == 1 && diskFormal != no.formalIno
      ensures out == CheckOrig <==>
        no.addr !in old(dirs) && no.addr !in old(inodes) && old(Count(no.addr)) == 1 && diskFormal == no.formalIno
      // a new record has the numbers of the dinode, and no other numbers change
      ensures inodes.Keys == old(inodes.Keys) + if out == CheckOrig then {no.addr} else {}
      ensures out == CheckOrig ==> inodes[no.addr] == InodeInfo(Inum(no.addr, diskFormal), 1, 2)
      ensures SameNumbers(old(inodes), old(dirs))
      // the link count on disk is not touched; a second reference to an inode that was never seen makes it 1
      ensures forall b: nat :: OnDisk(b) == if b == no.addr && out == CheckOrig then 1 else old(OnDisk(b))
      ensures dirs.Keys == old(dirs.Keys)
    {
      if no.addr in dirs {
        var di := dirs[no.addr];
        if di.dinode.formalIno != no.formalIno {
          return InoMismatch;
        }
        dirs := dirs[no.addr := di.(countedLinks := di.countedLinks + 1)];
        return Good;
      }
      if no.addr in inodes {
        var ii := inodes[no.addr];
        if ii.num.formalIno != no.formalIno {
          return InoMismatch;
        }
        inodes := inodes[no.addr := ii.(countedLinks := ii.countedLinks + 1)];
        return Good;
      }
      if !clink1.IsSet(no.addr) {
        var _ := clink1.Link1Set(no.addr, true);
        return Good;
      }
      if no.formalIno != diskFormal {
        return InoMismatch;
      }
      // move it from the maps to a record in the tree
      var _ := nlink1.Link1Set(no.addr, false);
      var _ := clink1.Link1Set(no.addr, false);
      inodes := inodes[no.addr := InodeInfo(no, 1, 2)];
      return CheckOrig;
    }

    // decr_link_count.
    method DecrLinkCount(addr: nat) returns (rc: int)
      requires Valid() && addr <= nlink1.size
      modifies this`inodes, this`dirs, clink1
      ensures Valid() && dirs.Keys == old(dirs.Keys) && inodes.Keys == old(inodes.Keys)
      ensures SameNumbers(old(inodes), old(dirs))
      ensures forall b: nat :: Count(b) == if b == addr && old(Count(b)) > 0 then old(Count(b)) - 1 else old(Count(b))
      ensures forall b: nat :: OnDisk(b) == old(OnDisk(b))
      ensures rc == -1 <==> addr !in old(dirs) && addr !in old(inodes) && old(Count(addr)) == 0
    {
      if addr in dirs {
        if dirs[addr].countedLinks == 0 {
          return 0;
        }
        dirs := dirs[addr := dirs[addr].(countedLinks := dirs[addr].countedLinks - 1)];
        return 0;
      }
      if addr in inodes {
        if inodes[addr].countedLinks == 0 {
          return 0;
        }
        inodes := inodes[addr := inodes[addr].(countedLinks := inodes[addr].countedLinks - 1)];
        return 0;
      }
      if clink1.IsSet(addr) {
        var _ := clink1.Link1Set(addr, false);
        return 0;
      }
      return -1;
    }

    // Any run of increments and decrements is one on a plain map from inodes to counts.
    method Run(ops: seq<Op>) returns (outs: seq<Outcome>)
      requires Valid() && forall i | 0 <= i < |ops| :: (if ops[i].Incr? then ops[i].no.addr
                                                        else ops[i].addr) <= nlink1.size
      modifies this`inodes, this`dirs, nlink1, clink1
      ensures Valid() && |outs| == |ops|
      ensures forall b: nat :: Count(b) == Tally(ops, outs, |ops|, old(Count(b)), b)
    {
      outs := [];
      var i := 0;
      while i < |ops|
        invariant i <= |ops| && |outs| == i && Valid()
        invariant forall b: nat :: Count(b) == Tally(ops, outs, i, old(Count(b)), b)
      {
        ghost var before := outs;
        match ops[i] {
          case Incr(no, diskFormal) =>
            var out := IncrLinkCount(no, diskFormal);
            outs := outs + [out];
          case Decr(addr) =>
            var _ := DecrLinkCount(addr);
            outs := outs + [Good];
        }
        forall b: nat ensures Tally(ops, outs, i, old(Count(b)), b) == Tally(ops, before, i, old(Count(b)), b) {
          TallyPrefix(ops, before, outs, i, old(Count(b)), b);
        }
        i := i + 1;
      }
    }

    // References with the right formal number are never a mismatch: each of them counts.
    method IncrAll(no: Inum, n: nat)
      requires Valid() && no.addr <= nlink1.size && Knows(no)
      modifies this`inodes, this`dirs, nlink1, clink1
      ensures Valid() && Knows(no)
      ensures forall b: nat :: Count(b) == old(Count(b)) + if b == no.addr then n else 0
    {
      for i := 0 to n
        invariant Valid() && Knows(no)
        invariant forall b: nat :: Count(b) == old(Count(b)) + if b == no.addr then i else 0
      {
        var out := IncrLinkCount(no, no.formalIno);
        assert out != InoMismatch;
      }
    }

    // An inode that was not seen before, and then n references to it: all of them count.
    method SeenAndReferenced(no: Inum, nlink: nat, n: nat)
      requires Valid() && no.addr <= nlink1.size && no.addr !in dirs && no.addr !in inodes
      requires !nlink1.IsSet(no.addr) && !clink1.IsSet(no.addr)
      modifies this`inodes, this`dirs, nlink1, clink1
      ensures Valid() && Count(no.addr) == n
    {
      var rc := SetDiNlink(no, false, nlink);
      IncrAll(no, n);
    }

    // scan_inode_list and handle_inconsist, with every repair accepted. `order` are the addresses in the tree, in the
    // order of osi_first and osi_next. What becomes of unlinked inodes is not part of this.
    method ScanInodeList(order: seq<nat>) returns (flags: seq<Flag>)
      requires (forall b :: b in order <==> b in inodes) && forall i, j | 0 <= i < j < |order| :: order[i] != order[j]
      modifies this`inodes
      ensures inodes.Keys == old(inodes.Keys) && forall b: nat :: Count(b) == old(Count(b))
      ensures forall f :: f in flags <==> f.addr in old(inodes) && Wrong(f, old(inodes)[f.addr])
      ensures forall b | b in inodes :: inodes[b] == Corrected(old(inodes)[b])
    {
      flags := [];
      for i := 0 to |order|
        invariant inodes.Keys == old(inodes.Keys)
        invariant forall b | b in inodes :: inodes[b] == if b in order[..i] then Corrected(old(inodes)[b])
          else old(inodes)[b]
        invariant forall f :: f in flags <==> f.addr in order[..i] && Wrong(f, old(inodes)[f.addr])
      {
        var ii := inodes[order[i]];
        assert order[..i + 1] == order[..i] + [order[i]];
        if ii.countedLinks == 0 {
          flags := flags + [Unlinked(order[i])];
        } else if ii.diNlink != ii.countedLinks {
          flags := flags + [Inconsistent(order[i])];
          inodes := inodes[order[i] := ii.(diNlink := ii.countedLinks)];
        }
      }
      assert order[..|order|] == order;
    }

    // scan_nlink1_list. It stops short of the last block of the file system.
    method ScanNlink1List(lastFsBlock: nat) returns (flags: seq<Flag>)
      ensures forall f :: f in flags <==>
        f.Unlinked? && f.addr < lastFsBlock && nlink1.IsSet(f.addr) && !clink1.IsSet(f.addr)
    {
      flags := [];
      for blk := 0 to lastFsBlock
        invariant forall f :: f in flags <==>
          f.Unlinked? && f.addr < blk && nlink1.IsSet(f.addr) && !clink1.IsSet(f.addr)
      {
        if nlink1.IsSet(blk) && !clink1.IsSet(blk) {
          flags := flags + [Unlinked(blk)];
        }
      }
    }

    // Pass 4 on everything but directories: an inode that was seen is reported if and only if no reference to it was
    // found or their number is not its link count, unless it is in the last block and its count is kept in the maps.
    method ScanNonDirectories(order: seq<nat>, lastFsBlock: nat) returns (flags: seq<Flag>)
      requires Valid() && (forall b :: b in order <==> b in inodes) && forall i, j | 0 <= i < j < |order| ::
        order[i] != order[j]
      modifies this`inodes
      ensures forall b: nat | b !in dirs && old(b in inodes || nlink1.IsSet(b)) ::
        (Unlinked(b) in flags <==> old(Count(b)) == 0 && (b in old(inodes) || b < lastFsBlock))
        && (Inconsistent(b) in flags <==> old(Count(b)) != 0 && old(Count(b)) != old(OnDisk(b)))
      // and afterwards the link counts on disk are right where there is any reference
      ensures forall b: nat | b !in dirs && old(b in inodes || nlink1.IsSet(b)) && Count(b) > 0 ::
        OnDisk(b) == Count(b) == old(Count(b))
    {
      var multi := ScanInodeList(order);
      var single := ScanNlink1List(lastFsBlock);
      flags := multi + single;
      forall f ensures f in flags <==> f in multi || f in single {
      }
    }
  }

  lemma {:induction false} TallyPrefix(ops: seq<Op>, outs: seq<Outcome>, outs': seq<Outcome>, k: nat, count: nat,
                                       b: nat)
    requires k <= |ops| && k <= |outs| && outs <= outs'
    ensures Tally(ops, outs, k, count, b) == Tally(ops, outs', k, count, b)
  {
    if k > 0 {
      TallyPrefix(ops, outs, outs', k - 1, count, b);
    }
  }

  // An inode with two links that is seen again with one: its count is kept in the tree and in the map.
  method SeenTwice() returns (tables: LinkTables)
    ensures fresh(tables) && 5 in tables.inodes && tables.nlink1.IsSet(5) && !tables.Valid()
  {
    tables := new LinkTables(10, map[]);
    assert tables.OnDisk(5) == tables.Count(5) == 0;
    var _ := tables.SetDiNlink(Inum(5, 5), false, 2);
    assert tables.OnDisk(5) == 2;
    var _ := tables.SetDiNlink(Inum(5, 5), false, 1);
  }
}
