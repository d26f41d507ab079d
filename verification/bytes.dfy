/** Bytes, fixed-width byte strings and the two small wrappers every other module uses. */
module Bytes {
  type byte = x: int | 0 <= x < 256
  type Bytes = seq<byte>

  /** A 6-byte hardware address. */
  type Mac = s: Bytes | |s| == 6 witness [0, 0, 0, 0, 0, 0]

  /** A 32-byte public key, opaque to this model. */
  type Key = s: Bytes | |s| == 32 witness seq(32, _ => 0)

  /** The 16 bytes of a command UUID; bytes 14 and 15 are the correlation token. */
  type Uuid = s: Bytes | |s| == 16 witness seq(16, _ => 0)

  type Token = (byte, byte)

  datatype Option<+T> = None | Some(value: T)

  function Zeros(n: nat): (z: Bytes)
    ensures |z| == n && forall i :: 0 <= i < n ==> z[i] == 0
  {
    seq(n, _ => 0)
  }

  /** Little-endian encoding of the low 32 bits of `n`. */
  function PutUint32(n: nat): (b: Bytes)
    ensures |b| == 4
  {
    [n % 256, (n / 256) % 256, (n / 256 / 256) % 256, (n / 256 / 256 / 256) % 256]
  }

  function Uint32(b: Bytes): (n: nat)
    requires |b| == 4
    ensures n < 0x1_0000_0000
  {
    var b0: int, b1: int, b2: int, b3: int := b[0], b[1], b[2], b[3];
    b0 + 256 * (b1 + 256 * (b2 + 256 * b3))
  }

  /** One more base-256 digit: a number is its last digit and 256 times the rest, and so is its remainder. */
  lemma LastDigit(n: nat, m: nat)
    requires m > 0
    ensures n % (256 * m) == n % 256 + 256 * ((n / 256) % m)
  {
    var q := n / 256;
    var u := q / m;
    var r := n % 256 + 256 * (q % m);
    assert q == m * u + q % m;
    assert n == (256 * m) * u + r by {
      assert 256 * (m * u) == (256 * m) * u;
    }
    DivisionIsUnique(n, 256 * m, u, r);
  }

  lemma DivisionIsUnique(n: nat, m: nat, u: nat, r: nat)
    requires 0 <= r < m && n == m * u + r
    ensures n % m == r
  {
    var d := n / m - u;
    assert n == m * (n / m) + n % m;
    assert m * d == r - n % m by {
      assert m * d == m * (n / m) - m * u;
    }
    if d != 0 {
      MultipleIsFar(m, d);
    }
  }

  lemma MultipleIsFar(m: int, d: int)
    requires m > 0 && d != 0
    ensures m * d >= m || m * d <= -m
  {
    if d >= 1 {
      assert m * (d - 1) >= 0;
    } else {
      assert m * (-1 - d) >= 0;
    }
  }

  lemma Uint32RoundTrip(n: nat)
    ensures Uint32(PutUint32(n)) == n % 0x1_0000_0000
  {
    LastDigit(n, 0x100_0000);
    LastDigit(n / 256, 0x1_0000);
    LastDigit(n / 256 / 256, 0x100);
  }

  /** What a buffer holds after `src` was written into it from index `at`. */
  function Splice(was: Bytes, at: nat, src: Bytes): (r: Bytes)
    requires at + |src| <= |was|
    ensures |r| == |was|
  {
    was[..at] + src + was[at + |src|..]
  }

  lemma SpliceStep(was: Bytes, at: nat, src: Bytes, i: nat)
    requires at + |src| <= |was| && i < |src|
    ensures Splice(was, at, src[..i])[at + i := src[i]] == Splice(was, at, src[..i + 1])
  {
  }

  /** Writes `src` into `a` from index `at`, as Go's copy does when it fits. */
  method CopyInto(a: array<byte>, at: nat, src: Bytes)
    requires at + |src| <= a.Length
    modifies a
    ensures a[..] == Splice(old(a[..]), at, src)
  {
    var i := 0;
    while i < |src|
      invariant 0 <= i <= |src|
      invariant a[..] == Splice(old(a[..]), at, src[..i])
    {
      ghost var was := a[..];
      a[at + i] := src[i];
      assert a[..] == was[at + i := src[i]];
      SpliceStep(old(a[..]), at, src, i);
      i := i + 1;
    }
    assert src[..|src|] == src;
  }
}
