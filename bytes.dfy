/// Fixed-width integers, byte sequences and small wrappers shared by the
/// whole model. C's unsigned types become subset types of `int`; every
/// place where the source relies on 32-bit wrap-around reduces modulo
/// `TWO_32` explicitly.
module Bytes {

  type Byte = x: int | 0 <= x < 0x100
  type U16 = x: int | 0 <= x < 0x1_0000
  type U32 = x: int | 0 <= x < 0x1_0000_0000

  const TWO_32: int := 0x1_0000_0000

  /** Zephyr's errno values used by the core. */
  const EIO: int := 5
  const EINVAL: int := 22

  datatype Option<+T> = None | Some(value: T)

  /** `n` zero bytes, as left by `memset(buf, 0, n)`. */
  function Zeros(n: nat): (z: seq<Byte>)
    ensures |z| == n
    ensures forall i :: 0 <= i < n ==> z[i] == 0
  {
    seq(n, _ => 0)
  }

  /** `n` bytes of 0xFF, the content of erased NOR flash. */
  function Ones(n: nat): (z: seq<Byte>)
    ensures |z| == n
    ensures forall i :: 0 <= i < n ==> z[i] == 0xFF
  {
    seq(n, _ => 0xFF)
  }

  /** Uniqueness of Euclidean division by 256, used by the codec proofs. */
  lemma DivMod256(v: int, q: int, r: int)
    requires 0 <= r < 0x100
    requires v == 0x100 * q + r
    ensures v / 0x100 == q && v % 0x100 == r
  {
  }

  /** A slice splits at any inner point. */
  lemma SliceJoin<T>(s: seq<T>, i: nat, j: nat, k: nat)
    requires i <= j <= k <= |s|
    ensures s[i..k] == s[i..j] + s[j..k]
  {
  }

  /** `m` with `p` written over it from position `base` on. */
  function Overlay<T>(m: seq<T>, base: nat, p: seq<T>): (r: seq<T>)
    requires base + |p| <= |m|
    ensures |r| == |m|
  {
    m[..base] + p + m[base + |p|..]
  }

  /** An overlay reads back as `p` inside the range and as `m` outside it. */
  lemma OverlayAt<T>(m: seq<T>, base: nat, p: seq<T>)
    requires base + |p| <= |m|
    ensures Overlay(m, base, p)[..base] == m[..base]
    ensures Overlay(m, base, p)[base..base + |p|] == p
    ensures Overlay(m, base, p)[base + |p|..] == m[base + |p|..]
  {
  }

  /** Any prefix of the overlaid block reads back from its position. */
  lemma OverlayPrefix<T>(m: seq<T>, base: nat, p: seq<T>, n: nat)
    requires base + |p| <= |m| && n <= |p|
    ensures Overlay(m, base, p)[base..base + n] == p[..n]
  {
    OverlayAt(m, base, p);
    assert Overlay(m, base, p)[base..base + n] == Overlay(m, base, p)[base..base + |p|][..n];
  }

  /** A second overlay of the same length at the same place hides the first. */
  lemma OverlayTwice<T>(m: seq<T>, base: nat, p: seq<T>, q: seq<T>)
    requires base + |p| <= |m| && |q| == |p|
    ensures Overlay(Overlay(m, base, p), base, q) == Overlay(m, base, q)
  {
    OverlayAt(m, base, p);
  }

  /** Writing `block` straight after an overlaid `p` extends the overlay to `p + block`. */
  lemma OverlayGrow<T>(m: seq<T>, base: nat, p: seq<T>, block: seq<T>)
    requires base + |p| + |block| <= |m|
    ensures Overlay(Overlay(m, base, p), base + |p|, block) == Overlay(m, base, p + block)
  {
    OverlayAt(m, base, p);
    var prev := Overlay(m, base, p);
    assert prev[..base + |p|] == m[..base] + p;
    assert prev[base + |p| + |block|..] == m[base + |p| + |block|..];
  }

  /**
   * A prefix equal to `d[..o]`, followed by a block that starts with
   * `d[o..e]`, agrees with `d` up to `e`.
   */
  lemma PrefixGrow<T>(p: seq<T>, block: seq<T>, grown: seq<T>, d: seq<T>, c: seq<T>, o: nat, e: nat)
    requires o <= e <= |d| && e - o <= |block|
    requires p == d[..o] && c == d[o..e] && block[..|c|] == c
    requires grown == p + block
    ensures grown[..e] == d[..e]
  {
    assert grown[..e] == p + block[..|c|];
    SliceJoin(d, 0, o, e);
  }
}
