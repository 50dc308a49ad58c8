/**
 * The double mapping behind `vq_t.buffer`.  `vq_init` maps the same
 * `capacity` bytes of shared memory twice, back to back, so that a window
 * of up to `capacity` bytes starting at any offset below `capacity` is
 * contiguous in virtual memory.  Here the shared memory is one sequence
 * `b` of `capacity` bytes and byte `a` of the 2 * capacity virtual bytes
 * is `b[Mirror(|b|, a)]`.
 */
module Mapping {

  /** The physical byte behind virtual byte `a` of the two mappings. */
  function Mirror(c: nat, a: nat): (j: nat)
    requires a < 2 * c
    ensures j < c
  {
    if a < c then a else a - c
  }

  /** How far physical byte `j` lies ahead of physical byte `off`, going round the ring. */
  function Distance(c: nat, off: nat, j: nat): (i: nat)
    requires off < c && j < c
    ensures i < c
  {
    if j >= off then j - off else j + c - off
  }

  /** The `len` bytes a reader sees through the mapping at offset `off`. */
  function Window(b: seq<bv8>, off: nat, len: nat): (w: seq<bv8>)
    requires off < |b| && len <= |b|
    ensures |w| == len
    ensures forall i :: 0 <= i < len ==> w[i] == b[Mirror(|b|, off + i)]
  {
    seq(len, i requires 0 <= i < len => b[Mirror(|b|, off + i)])
  }

  /** The shared memory after `src` is copied into the mapping at offset `off`. */
  function Store(b: seq<bv8>, off: nat, src: seq<bv8>): (b': seq<bv8>)
    requires off < |b| && |src| <= |b|
    ensures |b'| == |b|
  {
    seq(|b|, j requires 0 <= j < |b| =>
      var i := Distance(|b|, off, j);
      if i < |src| then src[i] else b[j])
  }

  /** Virtual byte `a` is `a mod c`. */
  lemma MirrorIsMod(c: nat, a: nat)
    requires a < 2 * c
    ensures Mirror(c, a) == a % c
  {
    if a < c {
      assert a == c * 0 + a;
    } else {
      assert a == c * 1 + (a - c);
    }
  }

  /** Reading back what was just stored at the same offset gives the stored bytes. */
  lemma WindowOfStore(b: seq<bv8>, off: nat, src: seq<bv8>)
    requires off < |b| && |src| <= |b|
    ensures Window(Store(b, off, src), off, |src|) == src
  {
  }

  /**
   * Storing at the end of a window of `d` bytes and then reading `d + m`
   * bytes (m at least the stored length, d + m at most the capacity): the
   * old window, then the stored bytes, then the `m - |src|` bytes that were
   * in the shared memory behind them.
   */
  lemma WindowAfterStore(b: seq<bv8>, roff: nat, d: nat, src: seq<bv8>, m: nat)
    requires roff < |b| && |src| <= m && d + m <= |b|
    ensures var woff := Mirror(|b|, roff + d);
            Window(Store(b, woff, src), roff, d + m)
            == Window(b, roff, d) + src + Window(b, Mirror(|b|, woff + |src|), m - |src|)
  {
  }

  /** Dropping the first `k` bytes of a window is reading from `k` bytes further on. */
  lemma WindowDrop(b: seq<bv8>, off: nat, d: nat, k: nat)
    requires off < |b| && k <= d <= |b|
    ensures Window(b, off, d)[k..] == Window(b, Mirror(|b|, off + k), d - k)
  {
  }

  /** A window of `d + m` bytes is the window of `d` bytes followed by the `m` bytes after it. */
  lemma WindowSplit(b: seq<bv8>, off: nat, d: nat, m: nat)
    requires off < |b| && d + m <= |b|
    ensures Window(b, off, d + m) == Window(b, off, d) + Window(b, Mirror(|b|, off + d), m)
  {
  }

  /** Storing nothing changes nothing. */
  lemma StoreNothing(b: seq<bv8>, off: nat)
    requires off < |b|
    ensures Store(b, off, []) == b
  {
  }
}
