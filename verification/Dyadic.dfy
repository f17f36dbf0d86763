/**
 Powers of two, and cutting a range of table slots into runs that are a power of two long and start at a
 multiple of their length.
 */
module Dyadic {

  ghost function Pow2(k: nat): (p: nat)
    ensures p > 0
  {
    if k == 0 then 1 else 2 * Pow2(k - 1)
  }

  // x is a multiple of 2^k.
  ghost predicate Multiple(x: nat, k: nat) {
    k == 0 || (x % 2 == 0 && Multiple(x / 2, k - 1))
  }

  lemma {:induction false} PowMonotone(i: nat, j: nat)
    requires i <= j
    ensures Pow2(i) <= Pow2(j) && (i < j ==> 2 * Pow2(i) <= Pow2(j))
  {
    if i < j {
      PowMonotone(i, j - 1);
    }
  }

  lemma {:induction false} MultipleLess(x: nat, i: nat, j: nat)
    requires Multiple(x, j) && i <= j
    ensures Multiple(x, i)
  {
    if i > 0 {
      MultipleLess(x / 2, i - 1, j - 1);
    }
  }

  lemma {:induction false} MultipleStep(x: nat, k: nat)
    ensures Multiple(x + Pow2(k), k) <==> Multiple(x, k)
    ensures x < Pow2(k) && Multiple(x, k) ==> x == 0
  {
    if k > 0 {
      MultipleStep(x / 2, k - 1);
      assert (x + Pow2(k)) / 2 == x / 2 + Pow2(k - 1);
    }
  }

  lemma {:induction false} PowIsMultiple(k: nat, i: nat)
    requires i <= k
    ensures Multiple(Pow2(k), i)
  {
    if i > 0 {
      PowIsMultiple(k - 1, i - 1);
    }
  }

  // Adding multiples of 2^k.
  lemma {:induction false} MultipleAdd(x: nat, y: nat, k: nat)
    requires Multiple(y, k)
    ensures Multiple(x + y, k) <==> Multiple(x, k)
  {
    if k > 0 {
      MultipleAdd(x / 2, y / 2, k - 1);
      assert (x + y) / 2 == x / 2 + y / 2;
    }
  }

  // In terms of division.
  lemma {:induction false} MultipleIs(x: nat, k: nat)
    ensures Multiple(x, k) <==> x % Pow2(k) == 0
  {
    if k > 0 {
      MultipleIs(x / 2, k - 1);
      Doubled(x, Pow2(k - 1));
    }
  }

  lemma Doubled(x: nat, p: nat)
    requires p > 0
    ensures x % (2 * p) == 0 <==> x % 2 == 0 && (x / 2) % p == 0
  {
    if x % (2 * p) == 0 {
      var q := x / (2 * p);
      assert x == 2 * (p * q);
      Product(p, q);
    }
    if x % 2 == 0 && (x / 2) % p == 0 {
      var q := x / 2 / p;
      assert x == (2 * p) * q;
      Product(2 * p, q);
    }
  }

  lemma Product(p: nat, q: nat)
    requires p > 0
    ensures (p * q) % p == 0
  {
    var d, r := p * q / p, p * q % p;
    assert p * (q - d) == r;
    NotBetween(p, q - d);
  }

  lemma NotBetween(p: nat, x: int)
    ensures x > 0 ==> p * x >= p
    ensures x < 0 ==> p * x + p <= 0
  {
    if x > 0 {
      Grows(p, x - 1);
    } else if x < 0 {
      Grows(p, -x - 1);
    }
  }

  lemma Grows(p: nat, y: nat)
    ensures p * (y + 1) == p * y + p >= p
  {
  }

  // A dyadic run that starts inside another one, behind its start, ends inside it.
  lemma Nested(s: nat, k: nat, e: nat, g: nat)
    requires s < e && e - s < Pow2(g) && Multiple(e, g) && Multiple(s, k)
    ensures k < g && Pow2(k) <= e - s
  {
    var m := if k < g then k else g;
    MultipleLess(s, m, k);
    MultipleLess(e, m, g);
    MultipleAdd(e - s, s, m);
    MultipleStep(e - s, m);
  }

  // The runs 2^c[0], 2^c[1], ... cover len slots from `start` on, each starting at a multiple of its length.
  ghost predicate Cut(c: seq<nat>, start: nat, len: nat) {
    if c == [] then len == 0
    else Multiple(start, c[0]) && Pow2(c[0]) <= len && Cut(c[1..], start + Pow2(c[0]), len - Pow2(c[0]))
  }

  // 2^k is the longest run that may start here.
  ghost predicate Longest(k: nat, start: nat, len: nat) {
    Multiple(start, k) && Pow2(k) <= len && !(Multiple(start, k + 1) && Pow2(k + 1) <= len)
  }

  lemma LongestIs(k: nat, start: nat, len: nat, j: nat)
    requires Longest(k, start, len) && Multiple(start, j) && Pow2(j) <= len
    ensures j <= k
  {
    if j > k {
      PowMonotone(k + 1, j);
      MultipleLess(start, k + 1, j);
    }
  }

  // A cut in which every run is the longest possible.
  ghost predicate Greedy(c: seq<nat>, start: nat, len: nat) {
    if c == [] then len == 0
    else Longest(c[0], start, len) && Greedy(c[1..], start + Pow2(c[0]), len - Pow2(c[0]))
  }

  ghost function LongestFrom(start: nat, len: nat, k: nat): (j: nat)
    requires Multiple(start, k) && Pow2(k) <= len
    ensures Longest(j, start, len)
    decreases len - Pow2(k)
  {
    if Multiple(start, k + 1) && Pow2(k + 1) <= len then LongestFrom(start, len, k + 1) else k
  }

  // It exists, and is the only one.
  ghost function GreedyCut(start: nat, len: nat): (c: seq<nat>)
    ensures Greedy(c, start, len)
    decreases len
  {
    if len == 0 then []
    else var k := LongestFrom(start, len, 0); [k] + GreedyCut(start + Pow2(k), len - Pow2(k))
  }

  lemma GreedyNext(k: nat, start: nat, len: nat)
    requires Longest(k, start, len)
    ensures len > 0 && GreedyCut(start, len) == [k] + GreedyCut(start + Pow2(k), len - Pow2(k))
  {
    var j := LongestFrom(start, len, 0);
    LongestIs(k, start, len, j);
    LongestIs(j, start, len, k);
  }

  lemma {:induction false} GreedyIsOnly(c: seq<nat>, start: nat, len: nat)
    requires Greedy(c, start, len)
    ensures c == GreedyCut(start, len)
    decreases |c|
  {
    if c != [] {
      GreedyNext(c[0], start, len);
      GreedyIsOnly(c[1..], start + Pow2(c[0]), len - Pow2(c[0]));
    }
  }

  lemma {:induction false} GreedyIsCut(c: seq<nat>, start: nat, len: nat)
    requires Greedy(c, start, len)
    ensures Cut(c, start, len)
  {
    if c != [] {
      GreedyIsCut(c[1..], start + Pow2(c[0]), len - Pow2(c[0]));
    }
  }

  // A cut has a boundary at the end e of every dyadic run 2^g it goes through, if it does not jump over it.
  lemma {:induction false} BoundaryAt(c: seq<nat>, s: nat, len: nat, e: nat, g: nat) returns (j: nat)
    requires Cut(c, s, len) && s < e && e - s <= Pow2(g) && e - s <= len && Multiple(e, g)
    requires e - s == Pow2(g) ==> c[0] <= g
    ensures 0 < j <= |c| && Cut(c[j..], e, len - (e - s))
    decreases |c|
  {
    var p := Pow2(c[0]);
    if e - s == Pow2(g) {
      PowMonotone(c[0], g);
    } else {
      Nested(s, c[0], e, g);
    }
    if p == e - s {
      j := 1;
    } else {
      var i := BoundaryAt(c[1..], s + p, len - p, e, g);
      j := i + 1;
      assert c[1..][i..] == c[j..];
    }
  }

  // No cut into aligned powers of two has fewer runs than the greedy one.
  lemma {:induction false} GreedyIsShortest(c: seq<nat>, d: seq<nat>, start: nat, len: nat)
    requires Greedy(c, start, len) && Cut(d, start, len)
    ensures |c| <= |d|
    decreases |c|
  {
    if c != [] {
      var g := c[0];
      LongestIs(g, start, len, d[0]);
      MultipleStep(start, g);
      var j := BoundaryAt(d, start, len, start + Pow2(g), g);
      GreedyIsShortest(c[1..], d[j..], start + Pow2(g), len - Pow2(g));
    }
  }

  // The integer logarithm.
  ghost function Log(n: nat): nat {
    if n <= 1 then 0 else 1 + Log(n / 2)
  }

  lemma {:induction false} LogBounds(n: nat)
    requires n > 0
    ensures Pow2(Log(n)) <= n < 2 * Pow2(Log(n))
  {
    if n > 1 {
      LogBounds(n / 2);
    }
  }

  lemma {:induction false} LogOfPow(k: nat)
    ensures Log(Pow2(k)) == k
  {
    if k > 0 {
      LogOfPow(k - 1);
    }
  }

  // The loop that computes it by halving.
  method Halvings(n: nat) returns (factor: nat)
    ensures factor == Log(n)
  {
    factor := 0;
    var divisor := n;
    while divisor > 1
      invariant factor + Log(divisor) == Log(n)
      decreases divisor
    {
      factor := factor + 1;
      divisor := divisor / 2;
    }
  }

  // x with its low bits cleared, for a power of two p: x & ~(p - 1).
  function ClearBelow(x: nat, p: nat): (r: nat)
    ensures r <= x
  {
    if p <= 1 then x else 2 * ClearBelow(x / 2, p / 2)
  }

  lemma {:induction false} ClearedIsSame(x: nat, k: nat)
    ensures ClearBelow(x, Pow2(k)) == x <==> Multiple(x, k)
  {
    if k > 0 {
      ClearedIsSame(x / 2, k - 1);
    }
  }

  // x >> k.
  function ShiftRight(x: nat, k: nat): nat {
    if k == 0 then x else ShiftRight(x / 2, k - 1)
  }

  lemma {:induction false} ShiftTwice(x: nat, i: nat, j: nat)
    ensures ShiftRight(ShiftRight(x, i), j) == ShiftRight(x, i + j)
  {
    if i > 0 {
      ShiftTwice(x / 2, i - 1, j);
    }
  }

  lemma {:induction false} ShiftBound(x: nat, i: nat, k: nat)
    requires x < Pow2(i + k)
    ensures ShiftRight(x, i) < Pow2(k)
  {
    if i > 0 {
      ShiftBound(x / 2, i - 1, k);
    }
  }

  // The numbers with the same high bits as an aligned start are those of its run.
  lemma {:induction false} SameHighBits(x: nat, start: nat, k: nat)
    requires Multiple(start, k)
    ensures ShiftRight(x, k) == ShiftRight(start, k) <==> start <= x < start + Pow2(k)
  {
    if k > 0 {
      SameHighBits(x / 2, start / 2, k - 1);
    }
  }

  // The longest run: no longer power of two fits that divides its start.
  lemma LongestExactly(k: nat, start: nat, len: nat)
    ensures Longest(k, start, len) <==>
      && start % Pow2(k) == 0 && Pow2(k) <= len
      && forall j: nat | j > k :: Pow2(j) > len || start % Pow2(j) != 0
  {
    MultipleIs(start, k);
    MultipleIs(start, k + 1);
    if Longest(k, start, len) {
      forall j: nat | j > k ensures Pow2(j) > len || start % Pow2(j) != 0 {
        MultipleIs(start, j);
        if Pow2(j) <= len && Multiple(start, j) {
          LongestIs(k, start, len, j);
        }
      }
    }
  }

  // Run j is 2^c[j] long and starts where the one before it ends; they fill what lies before `end`, and each is the
  // longest possible.
  ghost predicate Tiled(c: seq<nat>, starts: seq<nat>, start: nat, at: nat, end: nat) {
    && |c| == |starts| && (forall j | 0 <= j < |c| :: starts[j] == if j == 0 then start
                           else starts[j - 1] + Pow2(c[j - 1]))
    && at == (if c == [] then start else starts[|c| - 1] + Pow2(c[|c| - 1]))
    && forall j | 0 <= j < |c| :: starts[j] <= end && Longest(c[j], starts[j], end - starts[j])
  }

  lemma TiledNone(start: nat, end: nat)
    ensures Tiled([], [], start, start, end)
  {
  }

  lemma TiledMore(c: seq<nat>, starts: seq<nat>, start: nat, at: nat, len: nat, k: nat)
    requires Tiled(c, starts, start, at, at + len) && Longest(k, at, len)
    ensures Tiled(c + [k], starts + [at], start, at + Pow2(k), at + len)
  {
    hide Longest, Pow2;
    var c', starts' := c + [k], starts + [at];
    assert forall j | 0 <= j < |c| :: c'[j] == c[j] && starts'[j] == starts[j];
    assert c'[|c|] == k && starts'[|c|] == at;
  }

  // The runs of c are the longest possible, and lead from (start, len) to (start', len').
  ghost predicate GreedyTo(c: seq<nat>, start: nat, len: nat, start': nat, len': nat) {
    if c == [] then start' == start && len' == len
    else Longest(c[0], start, len) && GreedyTo(c[1..], start + Pow2(c[0]), len - Pow2(c[0]), start', len')
  }

  lemma {:induction false} GreedyMore(c: seq<nat>, start: nat, len: nat, start': nat, len': nat, k: nat)
    requires GreedyTo(c, start, len, start', len') && Longest(k, start', len')
    ensures GreedyTo(c + [k], start, len, start' + Pow2(k), len' - Pow2(k))
  {
    if c == [] {
      assert [k][1..] == [];
    } else {
      GreedyMore(c[1..], start + Pow2(c[0]), len - Pow2(c[0]), start', len', k);
      assert (c + [k])[1..] == c[1..] + [k];
    }
  }

  lemma {:induction false} GreedyDone(c: seq<nat>, start: nat, len: nat, start': nat)
    requires GreedyTo(c, start, len, start', 0)
    ensures Greedy(c, start, len) && start' == start + len
  {
    if c != [] {
      GreedyDone(c[1..], start + Pow2(c[0]), len - Pow2(c[0]), start');
    }
  }

  // A run that is a power of two long and starts at a multiple of its length.
  ghost predicate IsDyadic(start: nat, len: nat) {
    len == Pow2(Log(len)) && Multiple(start, Log(len))
  }

  lemma DyadicIs(start: nat, len: nat)
    ensures IsDyadic(start, len) <==> exists k :: len == Pow2(k) && start % Pow2(k) == 0
  {
    MultipleIs(start, Log(len));
    if k :| len == Pow2(k) && start % Pow2(k) == 0 {
      LogOfPow(k);
    }
  }
}
