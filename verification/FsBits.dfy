/**
 The word-parallel search of fs_bits.c for an entry of a block bitmap. A bitmap packs four two-bit entries into
 each byte, the first one into the lowest bits; the search looks at thirty-two of them at once.
 */
module FsBits {

  const BFITNOENT: nat := 0xFFFFFFFF
  const NBBY: nat := 4                  // entries per byte
  const WORD_BITS: nat := 64

  // Bit i of a byte.
  predicate Bit(b: bv8, i: nat)
    requires i < 8
  {
    (if i == 0 then b else if i == 1 then b >> 1 else if i == 2 then b >> 2 else if i == 3 then b >> 3
     else if i == 4 then b >> 4 else if i == 5 then b >> 5 else if i == 6 then b >> 6 else b >> 7) & 1 == 1
  }

  // Entry k of a byte.
  function Entry(b: bv8, k: nat): (e: bv8)
    requires k < NBBY
    ensures e <= 3
  {
    (if k == 0 then b else if k == 1 then b >> 2 else if k == 2 then b >> 4 else b >> 6) & 3
  }

  // Entry n of a bitmap.
  function EntryAt(buf: seq<bv8>, n: nat): bv8
    requires n / NBBY < |buf|
  {
    Entry(buf[n / NBBY], n % NBBY)
  }

  // A 64-bit word, lowest bit first, and the operators of the search.
  type Word = seq<bool>

  function Xor(a: Word, b: Word): (w: Word)
    requires |a| == |b| == WORD_BITS
    ensures |w| == WORD_BITS && forall i | 0 <= i < WORD_BITS :: w[i] == (a[i] != b[i])
  {
    seq(WORD_BITS, i requires 0 <= i < WORD_BITS => a[i] != b[i])
  }

  function And(a: Word, b: Word): (w: Word)
    requires |a| == |b| == WORD_BITS
    ensures |w| == WORD_BITS && forall i | 0 <= i < WORD_BITS :: w[i] == (a[i] && b[i])
  {
    seq(WORD_BITS, i requires 0 <= i < WORD_BITS => a[i] && b[i])
  }

  function ShiftRight(a: Word, k: nat): (w: Word)
    requires |a| == WORD_BITS
    ensures |w| == WORD_BITS && forall i | 0 <= i < WORD_BITS :: w[i] == (i + k < WORD_BITS && a[i + k])
  {
    seq(WORD_BITS, i requires 0 <= i < WORD_BITS => i + k < WORD_BITS && a[i + k])
  }

  function ShiftLeft(a: Word, k: nat): (w: Word)
    requires |a| == WORD_BITS
    ensures |w| == WORD_BITS && forall i | 0 <= i < WORD_BITS :: w[i] == (i >= k && a[i - k])
  {
    seq(WORD_BITS, i requires 0 <= i < WORD_BITS => i >= k && a[i - k])
  }

  // The same two bits in every lane: 0x5555... is Lanes(true, false).
  function Lanes(even: bool, odd: bool): (w: Word)
    ensures |w| == WORD_BITS && forall i | 0 <= i < WORD_BITS :: w[i] == if i % 2 == 0 then even else odd
  {
    seq(WORD_BITS, i requires 0 <= i < WORD_BITS => if i % 2 == 0 then even else odd)
  }

  // le64_to_cpu of the i-th word of a buffer.
  function Load(buf: seq<bv8>, i: nat): (w: Word)
    requires 8 * i + 8 <= |buf|
    ensures |w| == WORD_BITS && forall k | 0 <= k < WORD_BITS :: w[k] == Bit(buf[8 * i + k / 8], k % 8)
  {
    seq(WORD_BITS, k requires 0 <= k < WORD_BITS => Bit(buf[8 * i + k / 8], k % 8))
  }

  // gfs2_bit_search on a word: xor with the bitwise opposite of the state leaves two ones in the lanes that match.
  function BitSearch(word: Word, mask: Word, state: bv8): (w: Word)
    requires |word| == |mask| == WORD_BITS && state <= 3
    ensures |w| == WORD_BITS
  {
    var search := if state == 0 then Lanes(true, true) else if state == 1 then Lanes(false, true)
                  else if state == 2 then Lanes(true, false) else Lanes(false, false);
    var tmp := Xor(word, search);
    And(And(tmp, ShiftRight(tmp, 1)), mask)
  }

  lemma SearchLane(word: Word, mask: Word, state: bv8, j: nat)
    requires |word| == |mask| == WORD_BITS && state <= 3 && j < 32
    ensures BitSearch(word, mask, state)[2 * j] <==>
      mask[2 * j] && word[2 * j] == (state & 1 == 1) && word[2 * j + 1] == (state & 2 == 2)
    ensures BitSearch(word, mask, state)[2 * j + 1] ==> mask[2 * j + 1]
  {
    assert (2 * j) % 2 == 0 && (2 * j + 1) % 2 == 1;
  }

  // Lane j of a loaded word.
  lemma LoadLane(buf: seq<bv8>, i: nat, j: nat)
    requires 8 * i + 8 <= |buf| && j < 32
    ensures (32 * i + j) / NBBY == 8 * i + j / 4 && (32 * i + j) % NBBY == j % 4
    ensures Load(buf, i)[2 * j] == Bit(buf[8 * i + j / 4], 2 * (j % 4))
    ensures Load(buf, i)[2 * j + 1] == Bit(buf[8 * i + j / 4], 2 * (j % 4) + 1)
  {
    hide Bit;
    assert (2 * j) / 8 == j / 4 && (2 * j) % 8 == 2 * (j % 4);
    assert (2 * j + 1) / 8 == j / 4 && (2 * j + 1) % 8 == 2 * (j % 4) + 1;
  }

  // An entry by its bits.
  lemma EntryBits(b: bv8, k: nat, state: bv8)
    requires k < NBBY && state <= 3
    ensures Entry(b, k) == state <==> Bit(b, 2 * k) == (state & 1 == 1) && Bit(b, 2 * k + 1) == (state & 2 == 2)
  {
    if k == 0 { ByteBits(b); } else if k == 1 { ByteBits(b >> 2); } else if k == 2 { ByteBits(b >> 4); }
        else { ByteBits(b >> 6); }
    assert (b >> 2) >> 1 == b >> 3 && (b >> 4) >> 1 == b >> 5 && (b >> 6) >> 1 == b >> 7;
  }

  lemma ByteBits(b: bv8)
    ensures b & 3 == 0 <==> !(b & 1 == 1) && !((b >> 1) & 1 == 1)
    ensures b & 3 == 1 <==> b & 1 == 1 && !((b >> 1) & 1 == 1)
    ensures b & 3 == 2 <==> !(b & 1 == 1) && (b >> 1) & 1 == 1
    ensures b & 3 == 3 <==> b & 1 == 1 && (b >> 1) & 1 == 1
  {
  }

  // One search tests all entries of a word: bit 2j is set exactly if entry j matches and the mask lets it through.
  lemma SearchBit(buf: seq<bv8>, i: nat, mask: Word, state: bv8, j: nat)
    requires 8 * i + 8 <= |buf| && |mask| == WORD_BITS && state <= 3 && j < 32
    ensures BitSearch(Load(buf, i), mask, state)[2 * j] <==> mask[2 * j] && EntryAt(buf, 32 * i + j) == state
    ensures BitSearch(Load(buf, i), mask, state)[2 * j + 1] ==> mask[2 * j + 1]
  {
    hide Bit, Entry, BitSearch;
    LoadLane(buf, i, j);
    EntryBits(buf[8 * i + j / 4], j % 4, state);
    SearchLane(Load(buf, i), mask, state, j);
  }

  // The hits left in a word: bits of matching entries from `from` on, of those the mask or the cut lets through.
  ghost predicate Hits(tmp: Word, buf: seq<bv8>, i: nat, state: bv8, lo: nat, hi: nat)
    requires 8 * i + 8 <= |buf| && state <= 3
  {
    && |tmp| == WORD_BITS
    && (forall j | 0 <= j < 32 :: !tmp[2 * j + 1])
    && forall j | 0 <= j < 32 :: tmp[2 * j] <==> lo <= 32 * i + j < hi && EntryAt(buf, 32 * i + j) == state
  }

  lemma FirstWord(buf: seq<bv8>, goal: nat, state: bv8)
    requires 8 * (goal / 32) + 8 <= |buf| && state <= 3
    ensures
      var mask := ShiftLeft(Lanes(true, false), 2 * goal % 64);
      Hits(BitSearch(Load(buf, goal / 32), mask, state), buf, goal / 32, state, goal, 32 * (goal / 32) + 32)
  {
    hide *;
    FirstWordAt(buf, goal / 32, goal % 32, state);
    SmallShift(goal);
  }

  lemma SmallShift(goal: nat)
    ensures 2 * goal % 64 == 2 * (goal % 32) && goal == 32 * (goal / 32) + goal % 32
  {
  }

  lemma FirstWordAt(buf: seq<bv8>, i: nat, g: nat, state: bv8)
    requires 8 * i + 8 <= |buf| && state <= 3 && g < 32
    ensures Hits(BitSearch(Load(buf, i), ShiftLeft(Lanes(true, false), 2 * g), state), buf, i, state, 32 * i + g,
                 32 * i + 32)
  {
    hide Load, EntryAt, BitSearch, ShiftLeft, Lanes;
    var mask := ShiftLeft(Lanes(true, false), 2 * g);
    var tmp := BitSearch(Load(buf, i), mask, state);
    forall j: nat | j < 32 ensures (tmp[2 * j] <==> g <= j && EntryAt(buf, 32 * i + j) == state) && !tmp[2 * j + 1] {
      LaneMask(g, j);
      SearchBit(buf, i, mask, state, j);
    }
  }

  lemma LaneMask(g: nat, j: nat)
    requires j < 32
    ensures ShiftLeft(Lanes(true, false), 2 * g)[2 * j] == (j >= g) && !ShiftLeft(Lanes(true, false), 2 * g)[2 * j + 1]
  {
    if j >= g {
      assert 2 * j - 2 * g == 2 * (j - g) && 2 * j + 1 - 2 * g == 2 * (j - g) + 1;
    }
  }

  lemma NextWord(buf: seq<bv8>, i: nat, state: bv8, lo: nat)
    requires 8 * i + 8 <= |buf| && state <= 3 && lo <= 32 * i
    ensures Hits(BitSearch(Load(buf, i), Lanes(true, false), state), buf, i, state, lo, 32 * i + 32)
  {
    hide Load, EntryAt, BitSearch;
    var mask := Lanes(true, false);
    var tmp := BitSearch(Load(buf, i), mask, state);
    forall j: nat | j < 32 ensures (tmp[2 * j] <==> EntryAt(buf, 32 * i + j) == state) && !tmp[2 * j + 1] {
      assert (2 * j) % 2 == 0 && (2 * j + 1) % 2 == 1;
      SearchBit(buf, i, mask, state, j);
    }
  }

  // Cutting off what lies more than len bytes from the start.
  lemma LastWord(tmp: Word, buf: seq<bv8>, i: nat, state: bv8, lo: nat, len: nat)
    requires 8 * i + 8 <= |buf| && state <= 3 && Hits(tmp, buf, i, state, lo, 32 * i + 32) && 8 * i < len < 8 * i + 8
    ensures Hits(And(tmp, ShiftRight(Lanes(true, true), 64 - 8 * (len % 8))), buf, i, state, lo, 4 * len)
  {
    var cut := ShiftRight(Lanes(true, true), 64 - 8 * (len % 8));
    forall j | 0 <= j < 32 ensures cut[2 * j] == (32 * i + j < 4 * len) {
      assert len == 8 * i + len % 8;
    }
  }

  predicate Zero(w: Word) {
    forall i | 0 <= i < |w| :: !w[i]
  }

  ghost predicate NoneIn(buf: seq<bv8>, lo: nat, hi: nat, state: bv8)
    requires hi <= NBBY * |buf|
  {
    forall m: nat | lo <= m < hi :: EntryAt(buf, m) != state
  }

  lemma NoneYet(buf: seq<bv8>, lo: nat, hi: nat, state: bv8)
    requires hi <= lo && hi <= NBBY * |buf|
    ensures NoneIn(buf, lo, hi, state)
  {
  }

  // A word without hits.
  lemma Missed(tmp: Word, buf: seq<bv8>, i: nat, state: bv8, lo: nat, hi: nat)
    requires 8 * i + 8 <= |buf| && state <= 3 && Hits(tmp, buf, i, state, lo, hi) && Zero(tmp)
    requires hi <= 32 * i + 32 && NoneIn(buf, lo, 32 * i, state)
    ensures NoneIn(buf, lo, hi, state)
  {
    hide EntryAt;
    forall m: nat | lo <= m < hi ensures EntryAt(buf, m) != state {
      if m >= 32 * i {
        assert !tmp[2 * (m - 32 * i)];
      }
    }
  }

  // The first hit.
  lemma Found(tmp: Word, buf: seq<bv8>, i: nat, state: bv8, lo: nat, hi: nat, bit: nat)
    requires 8 * i + 8 <= |buf| && state <= 3 && Hits(tmp, buf, i, state, lo, hi)
    requires hi <= 32 * i + 32 && NoneIn(buf, lo, 32 * i, state)
    requires bit < WORD_BITS && tmp[bit] && forall k | 0 <= k < bit :: !tmp[k]
    ensures
      var n := 32 * i + (bit + 1) / 2;
      lo <= n < hi && EntryAt(buf, n) == state && NoneIn(buf, lo, n, state)
  {
    hide EntryAt;
    var j := bit / 2;
    assert bit == 2 * j || bit == 2 * j + 1;
    forall m: nat | lo <= m < 32 * i + j ensures EntryAt(buf, m) != state {
      if m >= 32 * i {
        assert !tmp[2 * (m - 32 * i)];
      }
    }
  }

  // ffsll: the number of the first set bit, counted from one, or zero.
  method Ffsll(w: Word) returns (bit: nat)
    requires |w| == WORD_BITS
    ensures bit <= WORD_BITS && forall i | 0 <= i < bit - 1 :: !w[i]
    ensures if bit > 0 then w[bit - 1] else Zero(w)
  {
    bit := 0;
    while bit < WORD_BITS
      invariant bit <= WORD_BITS && forall i | 0 <= i < bit :: !w[i]
    {
      if w[bit] {
        return bit + 1;
      }
      bit := bit + 1;
    }
    bit := 0;
  }

  function Align8(len: nat): nat {
    (len + 7) / 8 * 8
  }

  // n is the first entry in the given state from goal on, below 4 * len.
  ghost predicate FirstFit(buf: seq<bv8>, len: nat, goal: nat, state: bv8, n: nat)
    requires 4 * len <= 4 * |buf|
  {
    goal <= n < NBBY * len && EntryAt(buf, n) == state && NoneIn(buf, goal, n, state)
  }

  // gfs2_bitfit. The buffer can be read in whole words up to its end.
  method BitFit(buf: seq<bv8>, len: nat, goal: nat, state: bv8) returns (n: nat)
    requires Align8(len) <= |buf| && goal / 32 < Align8(len) / 8 && NBBY * len <= BFITNOENT
    ensures state > 3 ==> n == 0
    ensures state <= 3 && n != BFITNOENT ==> FirstFit(buf, len, goal, state, n)
    ensures state <= 3 && n == BFITNOENT ==> NoneIn(buf, goal, NBBY * len, state)
  {
    hide EntryAt, BitSearch, Load, Zero, NoneIn, Hits, And, ShiftRight, ShiftLeft, Lanes;
    if state > 3 {
      return 0;
    }
    NoneYet(buf, goal, 32 * (goal / 32), state);
    var ptr, end := goal / 32, Align8(len) / 8;
    var tmp := BitSearch(Load(buf, ptr), ShiftLeft(Lanes(true, false), 2 * goal % 64), state);
    FirstWord(buf, goal, state);
    ptr := ptr + 1;
    while Zero(tmp) && ptr < end
      invariant |tmp| == WORD_BITS && 0 < ptr <= end && goal < 32 * ptr
      invariant Hits(tmp, buf, ptr - 1, state, goal, 32 * ptr)
      invariant NoneIn(buf, goal, 32 * (ptr - 1), state)
    {
      Missed(tmp, buf, ptr - 1, state, goal, 32 * ptr);
      tmp := BitSearch(Load(buf, ptr), Lanes(true, false), state);
      NextWord(buf, ptr, state, goal);
      ptr := ptr + 1;
    }
    ghost var hi := 32 * ptr;
    if ptr == end && len % 8 != 0 {
      LastWord(tmp, buf, ptr - 1, state, goal, len);
      tmp := And(tmp, ShiftRight(Lanes(true, true), 64 - 8 * (len % 8)));
      hi := 4 * len;
    }
    if Zero(tmp) {
      Missed(tmp, buf, ptr - 1, state, goal, hi);
      return BFITNOENT;
    }
    ptr := ptr - 1;
    var bit := Ffsll(tmp);
    Found(tmp, buf, ptr, state, goal, hi, bit - 1);
    return 8 * ptr * NBBY + bit / 2;
  }
}
