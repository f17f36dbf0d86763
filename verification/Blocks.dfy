/**
 Block contents as the conversion edits them.
 */
module Blocks {
  import opened MetaTrees

  // struct gfs2_meta_header of an indirect block in 8-byte words: magic number and type, padding, format and padding.
  const META_HEADER: seq<nat> := [0x01161970_00000005, 0, 0x1F4_0000_0000]

  function Zeros(n: nat): (z: seq<nat>)
    ensures |z| == n && forall i | 0 <= i < n :: z[i] == 0
  {
    seq(n, i => 0)
  }

  // The block w with its word at position o replaced.
  function Put(w: seq<nat>, o: nat, v: nat): (w': seq<nat>)
    requires o < |w|
    ensures |w'| == |w| && w'[o] == v && forall i | 0 <= i < |w| && i != o :: w'[i] == w[i]
  {
    w[..o] + [v] + w[o + 1..]
  }

  // The block w with a GFS2 indirect header written over its first words.
  function Stamped(w: seq<nat>): (w': seq<nat>)
    requires |w| >= META_HEADER_WORDS
    ensures |w'| == |w| && forall i | META_HEADER_WORDS <= i < |w| :: w'[i] == w[i]
  {
    META_HEADER + w[META_HEADER_WORDS..]
  }
}
