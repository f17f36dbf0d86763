/**
 How much a metadata tree of each height can map: compute_heightsize in misc.c, and the height
 gfs2_convert.c picks for a converted inode.
 */
module Heights {
  import opened MetaPaths

  const MAX_META_HEIGHT: nat := 10

  const DINODE_BYTES: nat := 232        // sizeof(struct gfs2_dinode)

  // What a tree of height k >= 1 can map, in bytes.
  ghost function Capacity(unit: nat, diptrs: nat, inptrs: nat, k: nat): nat
    requires k > 0
  {
    unit * diptrs * Pow(inptrs, k - 1)
  }

  // arr[k] is the capacity of height k for every height whose capacity fits into 64 bits.
  ghost predicate SizeTable(arr: seq<nat>, bsize: nat, unit: nat, diptrs: nat, inptrs: nat) {
    && 2 <= |arr| <= MAX_META_HEIGHT && bsize >= DINODE_BYTES && arr[0] == bsize - DINODE_BYTES <= arr[1]
    && (forall k | 0 < k < |arr| :: arr[k] == Capacity(unit, diptrs, inptrs, k) < TWO_64)
    && Capacity(unit, diptrs, inptrs, |arr|) >= TWO_64
  }

  // The overflow test of compute_heightsize: dividing the wrapped product gives the factor back exactly when
  // the product did not wrap.
  lemma WrapTest(h: nat, f: nat)
    requires 0 < f && h < TWO_64
    ensures
      var space := (h * f) % TWO_64;
      (space / f != h || space % f != 0) <==> h * f >= TWO_64
  {
    var space := (h * f) % TWO_64;
    DivIsQuot(space, f);
    QuotRem(space, f);
    QuotRemUnique(h, f, 0);
    assert h * f + 0 == h * f;
    if h * f < TWO_64 {
      assert space == h * f;
    }
  }

  lemma CapacityNext(unit: nat, diptrs: nat, inptrs: nat, k: nat)
    requires k > 0
    ensures Capacity(unit, diptrs, inptrs, k + 1) == Capacity(unit, diptrs, inptrs, k) * inptrs
  {
    Associate(unit * diptrs, Pow(inptrs, k - 1), inptrs);
  }

  // Ten levels are enough for 64 bits.
  lemma {:induction false} CapacityGrows(unit: nat, diptrs: nat, inptrs: nat, k: nat)
    requires k > 0 && unit * diptrs >= 17080 && inptrs >= 61
    ensures Capacity(unit, diptrs, inptrs, k) >= 17080 * Pow(61, k - 1) > 0
  {
    PowPositive(61, k - 1);
    if k == 1 {
      PowZero(inptrs);
    } else {
      CapacityGrows(unit, diptrs, inptrs, k - 1);
      CapacityNext(unit, diptrs, inptrs, k - 1);
      var a, b := Capacity(unit, diptrs, inptrs, k - 1), 17080 * Pow(61, k - 2);
      MulMonotone(b, a, 61);
      MulMonotone(61, inptrs, a);
      assert 17080 * Pow(61, k - 1) == b * 61;
    }
  }

  lemma Pow61()
    ensures 17080 * Pow(61, 9) >= TWO_64
  {
    assert Pow(61, 3) == 226981;
    assert Pow(61, 6) == 61 * 61 * 61 * Pow(61, 3);
    assert Pow(61, 9) == 61 * 61 * 61 * Pow(61, 6);
  }

  method ComputeHeightsize(bsize: nat, bsize1: nat, diptrs: nat, inptrs: nat)
    returns (heightsize: seq<nat>, maxheight: nat)
    requires DINODE_BYTES <= bsize < 0x1_0000_0000 && bsize1 < 0x1_0000_0000 && diptrs < 0x8000_0000
    // block sizes start at 512 bytes
    requires 61 <= inptrs < 0x8000_0000 && bsize1 * diptrs >= 17080 && bsize - DINODE_BYTES <= bsize1 * diptrs
    ensures maxheight == |heightsize| && SizeTable(heightsize, bsize, bsize1, diptrs, inptrs)
  {
    MulMonotone(bsize1, 0x1_0000_0000, diptrs);
    PowZero(inptrs);
    heightsize := [bsize - DINODE_BYTES, bsize1 * diptrs];
    maxheight := 2;
    Pow61();
    while true
      invariant 2 <= maxheight == |heightsize| <= MAX_META_HEIGHT
      invariant heightsize[0] == bsize - DINODE_BYTES <= heightsize[1]
      invariant forall k | 0 < k < maxheight :: heightsize[k] == Capacity(bsize1, diptrs, inptrs, k) < TWO_64
      decreases MAX_META_HEIGHT - maxheight
    {
      hide Capacity, Pow;
      var last := heightsize[maxheight - 1];
      var space := last * inptrs % TWO_64;
      WrapTest(last, inptrs);
      CapacityNext(bsize1, diptrs, inptrs, maxheight - 1);
      if space / inptrs != last || space % inptrs != 0 {
        break;
      }
      CapacityGrows(bsize1, diptrs, inptrs, maxheight);
      heightsize := heightsize + [space];
      maxheight := maxheight + 1;
    }
  }

  // The least height, at least 1, whose tree can map `size` bytes.
  ghost predicate LeastHeight(size: nat, unit: nat, diptrs: nat, inptrs: nat, height: nat) {
    && 0 < height <= MAX_META_HEIGHT && size <= Capacity(unit, diptrs, inptrs, height)
    && (height > 1 ==> Capacity(unit, diptrs, inptrs, height - 1) < size)
  }

  // calc_gfs2_tree_height.
  method CalcGfs2TreeHeight(arr: seq<nat>, max: nat, size: nat, ghost bsize: nat, ghost unit: nat, ghost diptrs: nat,
                            ghost inptrs: nat)
    returns (height: nat)
    requires SizeTable(arr, bsize, unit, diptrs, inptrs) && max == |arr| && size < TWO_64
    ensures LeastHeight(size, unit, diptrs, inptrs, height)
  {
    height := 0;
    while height < max
      invariant height <= max
      invariant height > 0 ==> arr[height - 1] < size
    {
      if arr[height] >= size {
        break;
      }
      height := height + 1;
    }
    if height == 0 {
      height := 1;
    }
  }

  // What lies below the end of the file lies below the capacity, counted in blocks.
  lemma BelowCapacity(n: nat, unit: nat, diptrs: nat, inptrs: nat, k: nat, size: nat)
    requires k > 0 && n * unit < size <= Capacity(unit, diptrs, inptrs, k)
    ensures n < diptrs * Pow(inptrs, k - 1)
  {
    var c := diptrs * Pow(inptrs, k - 1);
    assert unit * diptrs * Pow(inptrs, k - 1) == c * unit;
    if n >= c {
      MulMonotone(c, n, unit);
    }
  }

  lemma {:induction false} CapacityMonotone(unit: nat, diptrs: nat, inptrs: nat, i: nat, j: nat)
    requires 0 < i <= j && inptrs > 0
    ensures Capacity(unit, diptrs, inptrs, i) <= Capacity(unit, diptrs, inptrs, j)
  {
    PowMonotone(inptrs, i - 1, j - 1);
    MulMonotone(Pow(inptrs, i - 1), Pow(inptrs, j - 1), unit * diptrs);
  }

  // A file needs all ten levels if and only if nine cannot map it. jdata_mp_gfs1_to_gfs2 then uses entry 10 of a
  // table of ten factors.
  lemma TenLevels(size: nat, unit: nat, diptrs: nat, inptrs: nat, height: nat)
    requires LeastHeight(size, unit, diptrs, inptrs, height) && inptrs > 0
    ensures height < MAX_META_HEIGHT <==> size <= Capacity(unit, diptrs, inptrs, MAX_META_HEIGHT - 1)
  {
    if height < MAX_META_HEIGHT {
      CapacityMonotone(unit, diptrs, inptrs, height, MAX_META_HEIGHT - 1);
    }
  }

  // Such files exist: with blocks of 512 bytes, just short of 3 EiB.
  lemma TenLevelsNeeded()
    ensures 3435395048911275521 < TWO_64 / 2 && LeastHeight(3435395048911275521, 512, 35, 61, MAX_META_HEIGHT)
  {
    assert Pow(61, 4) == 13845841;
    assert Pow(61, 8) == 61 * 61 * 61 * 61 * Pow(61, 4) == 191707312997281;
    assert Pow(61, 9) == 61 * Pow(61, 8);
    assert Capacity(512, 35, 61, 9) == 512 * 35 * Pow(61, 8) == 3435395048911275520;
    assert Capacity(512, 35, 61, 10) == 512 * 35 * Pow(61, 9);
  }

  // The logical blocks a tree of that height can map, and the factors of its levels, are 64-bit numbers.
  lemma RoomFits(size: nat, unit: nat, diptrs: nat, inptrs: nat, height: nat)
    requires LeastHeight(size, unit, diptrs, inptrs, height) && size < TWO_64
    requires 0 < inptrs <= unit && 0 < diptrs < TWO_64
    ensures 0 < Pow(inptrs, height - 1) <= diptrs * Pow(inptrs, height - 1) < TWO_64
  {
    PowPositive(inptrs, height - 1);
    MulMonotone(1, diptrs, Pow(inptrs, height - 1));
    if height == 1 {
      PowZero(inptrs);
    } else {
      var p := Pow(inptrs, height - 2);
      MulMonotone(inptrs, unit, diptrs * p);
      Associate(unit, diptrs, p);
      Associate(inptrs, diptrs, p);
    }
  }

  // The factors of journaled data count bytes; they fit for files of at most 2^63 bytes.
  lemma ByteFactorFits(size: nat, unit: nat, diptrs: nat, inptrs: nat, height: nat)
    requires LeastHeight(size, unit, diptrs, inptrs, height) && size <= TWO_64 / 2
    requires 0 < inptrs <= 2 * diptrs && unit < TWO_64
    ensures Pow(inptrs, height - 1) * unit < TWO_64
  {
    if height == 1 {
      PowZero(inptrs);
    } else {
      var p := Pow(inptrs, height - 2);
      MulMonotone(inptrs, 2 * diptrs, p * unit);
      Associate(unit, diptrs, p);
      assert Pow(inptrs, height - 1) * unit == inptrs * (p * unit) by { Associate(inptrs, p, unit); }
      assert (2 * diptrs) * (p * unit) == 2 * (unit * diptrs * p) by { Associate(diptrs, p, unit); Associate(unit,
          diptrs, p); }
    }
  }
}
