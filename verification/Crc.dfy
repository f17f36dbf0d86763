/**
 The table-driven hashes of gfs2_disk_hash.c (CRC-32, section 8 of RFC 1952) and crc32c.c (CRC32C, section 12.1 of
 RFC 3720) against the bit-at-a-time definition.
 */
module Crc {
  import opened CrcTables

  function Low(c: bv32): bv8 {
    (c & 0xFF) as bv8
  }

  function ShiftDown(c: bv32): bv32 {
    c >> 8
  }

  function ShiftUp(c: bv32): bv32 {
    c << 8
  }

  function Complement(c: bv32): bv32 {
    !c
  }

  lemma XorComm(a: bv32, b: bv32)
    ensures Xor(a, b) == Xor(b, a)
  {
  }

  lemma XorAssoc(a: bv32, b: bv32, c: bv32)
    ensures Xor(Xor(a, b), c) == Xor(a, Xor(b, c))
  {
  }

  lemma XorBack(a: bv32, b: bv32)
    ensures Xor(Xor(a, b), b) == a && Xor(a, 0) == a
  {
  }

  lemma XorPairs(x: bv32, y: bv32, p: bv32)
    ensures Xor(Xor(x, p), Xor(y, p)) == Xor(x, y)
    ensures Xor(Xor(x, p), y) == Xor(Xor(x, y), p)
    ensures Xor(x, Xor(y, p)) == Xor(Xor(x, y), p)
  {
    hide Xor;
    XorAssoc(x, p, y);
    XorComm(p, y);
    XorAssoc(x, y, p);
    XorAssoc(x, p, Xor(y, p));
    XorComm(p, Xor(y, p));
    XorBack(y, p);
  }

  lemma HalfXor(a: bv32, b: bv32)
    ensures Half(Xor(a, b)) == Xor(Half(a), Half(b)) && Odd(Xor(a, b)) == (Odd(a) != Odd(b))
  {
  }

  // The CRC register after some bytes, bit by bit.
  ghost function Register(crc: bv32, data: seq<bv8>, poly: bv32): bv32 {
    if data == [] then crc
    else Step8(Xor(Register(crc, data[..|data| - 1], poly), Word(data[|data| - 1])), poly)
  }

  // The CRC-32 of some bytes: the register starts with all ones and is complemented at the end.
  ghost function Crc32(data: seq<bv8>): bv32 {
    Complement(Register(0xFFFFFFFF, data, POLY_CRC32))
  }

  // A step is linear.
  lemma StepXor(a: bv32, b: bv32, poly: bv32)
    ensures Step(Xor(a, b), poly) == Xor(Step(a, poly), Step(b, poly))
  {
    hide Xor, Half, Odd;
    HalfXor(a, b);
    XorPairs(Half(a), Half(b), poly);
  }

  lemma Step8Xor(a: bv32, b: bv32, poly: bv32)
    ensures Step8(Xor(a, b), poly) == Xor(Step8(a, poly), Step8(b, poly))
  {
    hide Step, Xor;
    var a1, b1 := Step(a, poly), Step(b, poly);
    var a2, b2 := Step(a1, poly), Step(b1, poly);
    var a3, b3 := Step(a2, poly), Step(b2, poly);
    var a4, b4 := Step(a3, poly), Step(b3, poly);
    var a5, b5 := Step(a4, poly), Step(b4, poly);
    var a6, b6 := Step(a5, poly), Step(b5, poly);
    var a7, b7 := Step(a6, poly), Step(b6, poly);
    StepXor(a, b, poly);
    StepXor(a1, b1, poly);
    StepXor(a2, b2, poly);
    StepXor(a3, b3, poly);
    StepXor(a4, b4, poly);
    StepXor(a5, b5, poly);
    StepXor(a6, b6, poly);
    StepXor(a7, b7, poly);
  }

  // Bits that do not reach the end of the register are only shifted.
  lemma Step8Shifts(w: bv32, poly: bv32)
    requires w <= 0xFFFFFF
    ensures Step8(ShiftUp(w), poly) == w
  {
  }

  // A word in two parts: its low byte, and what is above it.
  lemma Parts(c: bv32)
    ensures c == Xor(Word(Low(c)), ShiftUp(ShiftDown(c))) && ShiftDown(c) <= 0xFFFFFF
  {
  }

  // One byte by the table: its entry is what eight bits make of the low byte.
  lemma TableStep(c: bv32, byte: bv8, entry: bv32, poly: bv32)
    requires entry == Step8(Word(Low(Xor(c, Word(byte)))), poly)
    ensures Xor(entry, ShiftDown(c)) == Step8(Xor(c, Word(byte)), poly)
  {
    hide Step8, Xor, Low, Word, ShiftUp, ShiftDown;
    var mixed := Xor(c, Word(byte));
    Parts(mixed);
    ByteBelow(c, byte);
    Step8Xor(Word(Low(mixed)), ShiftUp(ShiftDown(mixed)), poly);
    Step8Shifts(ShiftDown(mixed), poly);
  }

  // A byte does not change what is above it.
  lemma ByteBelow(c: bv32, byte: bv8)
    ensures ShiftDown(Xor(c, Word(byte))) == ShiftDown(c)
  {
  }

  lemma RegisterNext(crc: bv32, data: seq<bv8>, i: nat, poly: bv32)
    requires i < |data|
    ensures Register(crc, data[..i + 1], poly) == Step8(Xor(Register(crc, data[..i], poly), Word(data[i])), poly)
  {
    hide Step8, Xor, Word;
    assert data[..i + 1][..i] == data[..i];
  }

  // gfs2_disk_hash.
  method Gfs2DiskHash(data: seq<bv8>) returns (hash: bv32)
    ensures hash == Crc32(data) && (data == [] ==> hash == 0)
  {
    hide Crc32Tab, Step8, Xor, Low, Word, ShiftDown, Complement;
    hash := 0xFFFFFFFF;
    for i := 0 to |data|
      invariant hash == Register(0xFFFFFFFF, data[..i], POLY_CRC32)
    {
      RegisterNext(0xFFFFFFFF, data, i, POLY_CRC32);
      var entry := Crc32Tab(Low(Xor(hash, Word(data[i]))));
      Crc32TabIs(Low(Xor(hash, Word(data[i]))));
      TableStep(hash, data[i], entry, POLY_CRC32);
      hash := Xor(entry, ShiftDown(hash));
    }
    assert data[..|data|] == data;
    Complements();
    hash := Complement(hash);
  }

  // __crc32c_le.
  method Crc32cLe(crc0: bv32, data: seq<bv8>) returns (crc: bv32)
    ensures crc == Register(crc0, data, POLY_CRC32C)
  {
    hide Crc32cTable, Step8, Xor, Low, Word, ShiftDown;
    crc := crc0;
    for i := 0 to |data|
      invariant crc == Register(crc0, data[..i], POLY_CRC32C)
    {
      RegisterNext(crc0, data, i, POLY_CRC32C);
      var entry := Crc32cTable(Low(Xor(crc, Word(data[i]))));
      Crc32cTableIs(Low(Xor(crc, Word(data[i]))));
      TableStep(crc, data[i], entry, POLY_CRC32C);
      crc := Xor(entry, ShiftDown(crc));
    }
    assert data[..|data|] == data;
  }

  // The digits "123456789", on which check values are published.
  const DIGITS: seq<bv8> := [49, 50, 51, 52, 53, 54, 55, 56, 57]

  lemma Crc32Steps()
    ensures Step8(Xor(0xFFFFFFFF, Word(49)), POLY_CRC32) == 0x7C231048
    ensures Step8(Xor(0x7C231048, Word(50)), POLY_CRC32) == 0xB0ACBB32
    ensures Step8(Xor(0xB0ACBB32, Word(51)), POLY_CRC32) == 0x77B79C2D
    ensures Step8(Xor(0x77B79C2D, Word(52)), POLY_CRC32) == 0x641C1F5C
    ensures Step8(Xor(0x641C1F5C, Word(53)), POLY_CRC32) == 0x340AC5E3
    ensures Step8(Xor(0x340AC5E3, Word(54)), POLY_CRC32) == 0xF68D2C9E
    ensures Step8(Xor(0xF68D2C9E, Word(55)), POLY_CRC32) == 0xAFFC9660
    ensures Step8(Xor(0xAFFC9660, Word(56)), POLY_CRC32) == 0x651F2550
    ensures Step8(Xor(0x651F2550, Word(57)), POLY_CRC32) == 0x340BC6D9
  {
  }

  lemma Crc32Half()
    ensures Register(0xFFFFFFFF, DIGITS[..5], POLY_CRC32) == 0x340AC5E3
  {
    hide Step8, Xor, Word;
    Crc32Steps();
    RegisterNext(0xFFFFFFFF, DIGITS, 0, POLY_CRC32);
    RegisterNext(0xFFFFFFFF, DIGITS, 1, POLY_CRC32);
    RegisterNext(0xFFFFFFFF, DIGITS, 2, POLY_CRC32);
    RegisterNext(0xFFFFFFFF, DIGITS, 3, POLY_CRC32);
    RegisterNext(0xFFFFFFFF, DIGITS, 4, POLY_CRC32);
    assert DIGITS[..0] == [];
  }

  // The check value of CRC-32, and the hash of no bytes.
  lemma Crc32Check()
    ensures Crc32(DIGITS) == 0xCBF43926 && Crc32([]) == 0
  {
    hide Step8, Xor, Word, Complement, Register;
    Crc32Steps();
    Crc32Half();
    RegisterNext(0xFFFFFFFF, DIGITS, 5, POLY_CRC32);
    RegisterNext(0xFFFFFFFF, DIGITS, 6, POLY_CRC32);
    RegisterNext(0xFFFFFFFF, DIGITS, 7, POLY_CRC32);
    RegisterNext(0xFFFFFFFF, DIGITS, 8, POLY_CRC32);
    assert DIGITS[..9] == DIGITS;
    RegisterNone(POLY_CRC32);
    Complements();
  }

  lemma Crc32cSteps()
    ensures Step8(Xor(0xFFFFFFFF, Word(49)), POLY_CRC32C) == 0x6F0A661C
    ensures Step8(Xor(0x6F0A661C, Word(50)), POLY_CRC32C) == 0x8CAA3B9F
    ensures Step8(Xor(0x8CAA3B9F, Word(51)), POLY_CRC32C) == 0xEF84D04D
    ensures Step8(Xor(0xEF84D04D, Word(52)), POLY_CRC32C) == 0x09C50B11
    ensures Step8(Xor(0x09C50B11, Word(53)), POLY_CRC32C) == 0xE72EDCCA
    ensures Step8(Xor(0xE72EDCCA, Word(54)), POLY_CRC32C) == 0xBECA8E79
    ensures Step8(Xor(0xBECA8E79, Word(55)), POLY_CRC32C) == 0xEDBD6815
    ensures Step8(Xor(0xEDBD6815, Word(56)), POLY_CRC32C) == 0x9F787F65
    ensures Step8(Xor(0x9F787F65, Word(57)), POLY_CRC32C) == 0x1CF96D7C
  {
  }

  lemma Crc32cHalf()
    ensures Register(0xFFFFFFFF, DIGITS[..5], POLY_CRC32C) == 0xE72EDCCA
  {
    hide Step8, Xor, Word;
    Crc32cSteps();
    RegisterNext(0xFFFFFFFF, DIGITS, 0, POLY_CRC32C);
    RegisterNext(0xFFFFFFFF, DIGITS, 1, POLY_CRC32C);
    RegisterNext(0xFFFFFFFF, DIGITS, 2, POLY_CRC32C);
    RegisterNext(0xFFFFFFFF, DIGITS, 3, POLY_CRC32C);
    RegisterNext(0xFFFFFFFF, DIGITS, 4, POLY_CRC32C);
    assert DIGITS[..0] == [];
  }

  // The check value of CRC32C, which is published complemented.
  lemma Crc32cCheck()
    ensures Complement(Register(0xFFFFFFFF, DIGITS, POLY_CRC32C)) == 0xE3069283
  {
    hide Step8, Xor, Word, Complement, Register;
    Crc32cSteps();
    Crc32cHalf();
    RegisterNext(0xFFFFFFFF, DIGITS, 5, POLY_CRC32C);
    RegisterNext(0xFFFFFFFF, DIGITS, 6, POLY_CRC32C);
    RegisterNext(0xFFFFFFFF, DIGITS, 7, POLY_CRC32C);
    RegisterNext(0xFFFFFFFF, DIGITS, 8, POLY_CRC32C);
    assert DIGITS[..9] == DIGITS;
    Complements();
  }

  lemma RegisterNone(poly: bv32)
    ensures Register(0xFFFFFFFF, [], poly) == 0xFFFFFFFF
  {
  }

  lemma Complements()
    ensures Complement(0x340BC6D9) == 0xCBF43926 && Complement(0xFFFFFFFF) == 0 && Complement(0x1CF96D7C) == 0xE3069283
  {
  }

  // Hashing a concatenation is going on with the hash of its first part.
  lemma {:induction false} RegisterChains(crc: bv32, a: seq<bv8>, b: seq<bv8>, poly: bv32)
    ensures Register(crc, a + b, poly) == Register(Register(crc, a, poly), b, poly)
    decreases |b|
  {
    hide Step8, Xor, Word;
    if b == [] {
      assert a + b == a;
    } else {
      RegisterChains(crc, a, b[..|b| - 1], poly);
      assert (a + b)[..|a + b| - 1] == a + b[..|b| - 1];
    }
  }

  lemma ComplementBack(c: bv32)
    ensures Complement(Complement(c)) == c
  {
  }

  lemma Crc32Chains(a: seq<bv8>, b: seq<bv8>)
    ensures Crc32(a + b) == Complement(Register(Complement(Crc32(a)), b, POLY_CRC32))
  {
    hide Complement, Register;
    RegisterChains(0xFFFFFFFF, a, b, POLY_CRC32);
    ComplementBack(Register(0xFFFFFFFF, a, POLY_CRC32));
  }

  // A polynomial with its highest bit set loses nothing in a step.
  predicate HighBit(poly: bv32) {
    poly & 0x8000_0000 != 0
  }

  lemma StepInjective(a: bv32, b: bv32, poly: bv32)
    requires HighBit(poly) && Step(a, poly) == Step(b, poly)
    ensures a == b
  {
  }

  lemma Step8Injective(a: bv32, b: bv32, poly: bv32)
    requires HighBit(poly) && Step8(a, poly) == Step8(b, poly)
    ensures a == b
  {
    hide Step, HighBit;
    var a1, b1 := Step(a, poly), Step(b, poly);
    var a2, b2 := Step(a1, poly), Step(b1, poly);
    var a3, b3 := Step(a2, poly), Step(b2, poly);
    var a4, b4 := Step(a3, poly), Step(b3, poly);
    var a5, b5 := Step(a4, poly), Step(b4, poly);
    var a6, b6 := Step(a5, poly), Step(b5, poly);
    var a7, b7 := Step(a6, poly), Step(b6, poly);
    StepInjective(a7, b7, poly);
    StepInjective(a6, b6, poly);
    StepInjective(a5, b5, poly);
    StepInjective(a4, b4, poly);
    StepInjective(a3, b3, poly);
    StepInjective(a2, b2, poly);
    StepInjective(a1, b1, poly);
    StepInjective(a, b, poly);
  }

  // Up to four bytes as a word, the first one lowest.
  ghost function WordOf(u: seq<bv8>): bv32
    requires |u| <= 4
  {
    if u == [] then 0 else Xor(Word(u[0]), ShiftUp(WordOf(u[1..])))
  }

  // 8k bits.
  ghost function Steps(c: bv32, k: nat, poly: bv32): bv32
    decreases k
  {
    if k == 0 then c else Steps(Step8(c, poly), k - 1, poly)
  }

  // The word of k bytes has nothing above them.
  ghost predicate Fits(w: bv32, k: nat) {
    w <= if k == 0 then 0 else if k == 1 then 0xFF else if k == 2 then 0xFFFF else if k == 3 then 0xFFFFFF
        else 0xFFFFFFFF
  }

  lemma {:induction false} WordFits(u: seq<bv8>)
    requires |u| <= 4
    ensures Fits(WordOf(u), |u|)
  {
    hide Fits, Xor, Word, ShiftUp;
    if u == [] {
      NothingFits();
    } else {
      WordFits(u[1..]);
      ShiftFits(u[0], WordOf(u[1..]), |u| - 1);
    }
  }

  lemma NothingFits()
    ensures Fits(0, 0)
  {
  }

  lemma ShiftFits(b: bv8, w: bv32, k: nat)
    requires Fits(w, k) && k <= 3
    ensures Fits(Xor(Word(b), ShiftUp(w)), k + 1) && w <= 0xFFFFFF
  {
  }

  // A word that waits above the low byte is where the next byte is after eight bits.
  lemma WordWaits(c: bv32, b: bv8, w: bv32, poly: bv32)
    requires w <= 0xFFFFFF
    ensures Step8(Xor(c, Xor(Word(b), ShiftUp(w))), poly) == Xor(Step8(Xor(c, Word(b)), poly), w)
  {
    hide Step8, Xor, Word, ShiftUp;
    XorAssoc(c, Word(b), ShiftUp(w));
    Step8Xor(Xor(c, Word(b)), ShiftUp(w), poly);
    Step8Shifts(w, poly);
  }

  // A burst of at most four bytes goes into the register as one word.
  lemma {:induction false} BurstIsWord(c: bv32, u: seq<bv8>, poly: bv32)
    requires |u| <= 4
    ensures Register(c, u, poly) == Steps(Xor(c, WordOf(u)), |u|, poly)
    decreases |u|
  {
    hide Step8, Xor, Word, ShiftUp, Fits;
    if u == [] {
      XorBack(c, c);
    } else {
      var rest := u[1..];
      assert u == [u[0]] + rest && [u[0]][..0] == [];
      RegisterChains(c, [u[0]], rest, poly);
      BurstIsWord(Step8(Xor(c, Word(u[0])), poly), rest, poly);
      WordFits(rest);
      ShiftFits(u[0], WordOf(rest), |rest|);
      WordWaits(c, u[0], WordOf(rest), poly);
    }
  }

  lemma {:induction false} StepsInjective(a: bv32, b: bv32, k: nat, poly: bv32)
    requires HighBit(poly) && Steps(a, k, poly) == Steps(b, k, poly)
    ensures a == b
    decreases k
  {
    hide Step8, HighBit;
    if k > 0 {
      StepsInjective(Step8(a, poly), Step8(b, poly), k - 1, poly);
      Step8Injective(a, b, poly);
    }
  }

  lemma {:induction false} WordInjective(u: seq<bv8>, v: seq<bv8>)
    requires |u| == |v| <= 4 && WordOf(u) == WordOf(v)
    ensures u == v
    decreases |u|
  {
    hide Xor, Word, ShiftUp, Fits;
    if u != [] {
      WordFits(u[1..]);
      WordFits(v[1..]);
      ShiftFits(u[0], WordOf(u[1..]), |u| - 1);
      ShiftFits(v[0], WordOf(v[1..]), |v| - 1);
      PartsInjective(u[0], WordOf(u[1..]), v[0], WordOf(v[1..]));
      WordInjective(u[1..], v[1..]);
      assert u == [u[0]] + u[1..] && v == [v[0]] + v[1..];
    }
  }

  lemma PartsInjective(b: bv8, w: bv32, c: bv8, x: bv32)
    requires w <= 0xFFFFFF && x <= 0xFFFFFF && Xor(Word(b), ShiftUp(w)) == Xor(Word(c), ShiftUp(x))
    ensures b == c && w == x
  {
  }

  // Different registers stay different over the same bytes.
  lemma {:induction false} RegisterInjective(c: bv32, d: bv32, data: seq<bv8>, poly: bv32)
    requires HighBit(poly) && Register(c, data, poly) == Register(d, data, poly)
    ensures c == d
    decreases |data|
  {
    hide Step8, Xor, Word, HighBit;
    if data != [] {
      var rest, last := data[..|data| - 1], Word(data[|data| - 1]);
      Step8Injective(Xor(Register(c, rest, poly), last), Xor(Register(d, rest, poly), last), poly);
      XorBack(Register(c, rest, poly), last);
      XorBack(Register(d, rest, poly), last);
      RegisterInjective(c, d, rest, poly);
    }
  }

  // Two inputs that differ only inside four consecutive bytes never have the same hash.
  lemma NoBurstCollision(crc: bv32, head: seq<bv8>, u: seq<bv8>, v: seq<bv8>, tail: seq<bv8>, poly: bv32)
    requires HighBit(poly) && |u| == |v| <= 4 && u != v
    ensures Register(crc, head + u + tail, poly) != Register(crc, head + v + tail, poly)
  {
    hide Register, HighBit, Xor, Steps, WordOf;
    var c := Register(crc, head, poly);
    RegisterChains(crc, head + u, tail, poly);
    RegisterChains(crc, head + v, tail, poly);
    RegisterChains(crc, head, u, poly);
    RegisterChains(crc, head, v, poly);
    BurstIsWord(c, u, poly);
    BurstIsWord(c, v, poly);
    XorComm(c, WordOf(u));
    XorComm(c, WordOf(v));
    XorBack(WordOf(u), c);
    XorBack(WordOf(v), c);
    if Register(crc, head + u + tail, poly) == Register(crc, head + v + tail, poly) {
      RegisterInjective(Register(c, u, poly), Register(c, v, poly), tail, poly);
      StepsInjective(Xor(c, WordOf(u)), Xor(c, WordOf(v)), |u|, poly);
      WordInjective(u, v);
    }
  }

  // Both hashes of the file system have this property.
  lemma NoDiskHashCollision(head: seq<bv8>, u: seq<bv8>, v: seq<bv8>, tail: seq<bv8>)
    requires |u| == |v| <= 4 && u != v
    ensures Crc32(head + u + tail) != Crc32(head + v + tail)
  {
    PolynomialsHigh();
    hide Register, Complement, HighBit;
    NoBurstCollision(0xFFFFFFFF, head, u, v, tail, POLY_CRC32);
    ComplementBack(Register(0xFFFFFFFF, head + u + tail, POLY_CRC32));
    ComplementBack(Register(0xFFFFFFFF, head + v + tail, POLY_CRC32));
  }

  lemma NoCrc32cCollision(crc: bv32, head: seq<bv8>, u: seq<bv8>, v: seq<bv8>, tail: seq<bv8>)
    requires |u| == |v| <= 4 && u != v
    ensures Register(crc, head + u + tail, POLY_CRC32C) != Register(crc, head + v + tail, POLY_CRC32C)
  {
    hide Register, HighBit;
    PolynomialsHigh();
    NoBurstCollision(crc, head, u, v, tail, POLY_CRC32C);
  }

  lemma PolynomialsHigh()
    ensures HighBit(POLY_CRC32) && HighBit(POLY_CRC32C)
  {
  }
}
