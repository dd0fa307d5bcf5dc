/** The difficulty evaluator `peach_eval` and the solution test
    `is_solution`. A digest solves difficulty `d` when its leading zero bits,
    counted in an 8-bit counter, reach `d`. */
module Eval {
  import opened Bytes
  import opened Protocol

  /** Number of significant bits of `x`. */
  function BitLength(x: nat): (r: nat)
    ensures r == 0 <==> x == 0
    ensures x < Pow2(r)
    ensures x > 0 ==> Pow2(r - 1) <= x
    decreases x
  {
    if x == 0 then 0 else 1 + BitLength(x / 2)
  }

  lemma {:induction false} BitLengthAtMost(x: nat, k: nat)
    requires x < Pow2(k)
    ensures BitLength(x) <= k
  {
    if x > 0 {
      assert k > 0;
      BitLengthAtMost(x / 2, k - 1);
    }
  }

  lemma {:induction false} BitLengthOfPow2(k: nat)
    ensures BitLength(Pow2(k)) == k + 1
  {
    if k > 0 {
      BitLengthOfPow2(k - 1);
      assert Pow2(k) / 2 == Pow2(k - 1);
    }
  }

  /** Leading zero bits of one byte, high bit first (8 for a zero byte). */
  function ByteLeadingZeros(x: byte): (r: nat)
    ensures r <= 8
  {
    Pow2Byte();
    BitLengthAtMost(x, 8);
    8 - BitLength(x)
  }

  /** Leading zero bits of a byte string: whole zero bytes first, then the
      leading zeros of the first non-zero byte. This is the true count; the C
      counter keeps it modulo 256. */
  function LeadingZeroBits(s: seq<byte>): (r: nat)
    ensures r <= 8 * |s|
  {
    if |s| == 0 then 0
    else if s[0] == 0 then 8 + LeadingZeroBits(s[1..])
    else ByteLeadingZeros(s[0])
  }

  /** The value of a byte string read as a big-endian number. */
  function BigEndian(s: seq<byte>): nat
  {
    if |s| == 0 then 0 else s[0] * Pow2(8 * (|s| - 1)) + BigEndian(s[1..])
  }

  lemma {:induction false} BigEndianBound(s: seq<byte>)
    ensures BigEndian(s) < Pow2(8 * |s|)
  {
    if |s| > 0 {
      var m := 8 * (|s| - 1);
      BigEndianBound(s[1..]);
      ScaledBounds(s[0], 0, 256, Pow2(m), BigEndian(s[1..]));
      Pow2Add(8, m);
      Pow2Byte();
    }
  }

  /** `v`, a number of `len` bits, has exactly `c` leading zero bits: it is
      below `2^(len - c)` and, unless `c == len`, at least `2^(len - c - 1)`. */
  ghost predicate HasLeadingZeros(v: nat, len: nat, c: nat)
    requires c <= len
  {
    && v < Pow2(len - c)
    && (c < len ==> Pow2(len - c - 1) <= v)
  }

  /** `LeadingZeroBits` is the number of leading zero bits of the string read
      as a big-endian number of `8 * |s|` bits. */
  lemma {:induction false} LeadingZeroBitsMeaning(s: seq<byte>)
    ensures HasLeadingZeros(BigEndian(s), 8 * |s|, LeadingZeroBits(s))
  {
    if |s| > 0 {
      if s[0] == 0 {
        LeadingZeroBitsMeaning(s[1..]);
        assert BigEndian(s) == BigEndian(s[1..]);
      } else {
        LeadingZerosNonZeroHead(s);
      }
    }
  }

  lemma LeadingZerosNonZeroHead(s: seq<byte>)
    requires |s| > 0 && s[0] != 0
    ensures HasLeadingZeros(BigEndian(s), 8 * |s|, LeadingZeroBits(s))
  {
    var m := 8 * (|s| - 1);
    var b := BitLength(s[0]);
    Pow2Byte();
    BitLengthAtMost(s[0], 8);
    assert LeadingZeroBits(s) == 8 - b;
    assert BigEndian(s) == s[0] * Pow2(m) + BigEndian(s[1..]);
    BigEndianBound(s[1..]);
    HeadBounds(s[0], b, m, BigEndian(s[1..]));
  }

  /** A leading digit of exactly `b` significant bits, scaled by `2^m`, plus
      a tail below `2^m` has exactly `b + m` significant bits. */
  lemma HeadBounds(a: nat, b: nat, m: nat, v: nat)
    requires 0 < b && Pow2(b - 1) <= a < Pow2(b) && v < Pow2(m)
    ensures Pow2(b - 1 + m) <= a * Pow2(m) + v < Pow2(b + m)
  {
    ScaledBounds(a, Pow2(b - 1), Pow2(b), Pow2(m), v);
    Pow2Add(b, m);
    Pow2Add(b - 1, m);
  }

  /** A leading digit `a` with `lo <= a < hi`, scaled by `p`, plus a tail
      below `p` stays within `[lo * p, hi * p)`. */
  lemma ScaledBounds(a: nat, lo: nat, hi: nat, p: nat, v: nat)
    requires lo <= a < hi && v < p
    ensures lo * p <= a * p + v < hi * p
  {
    MulMonotone(a + 1, hi, p);
    MulMonotone(lo, a, p);
  }

  lemma {:induction false} LeadingZeroBitsSkip(s: seq<byte>, i: nat)
    requires i <= |s|
    requires forall m :: 0 <= m < i ==> s[m] == 0
    ensures LeadingZeroBits(s) == 8 * i + LeadingZeroBits(s[i..])
  {
    if i > 0 {
      LeadingZeroBitsSkip(s[1..], i - 1);
      assert s[1..][i - 1..] == s[i..];
    }
  }

  lemma LeadingZeroBitsAt(s: seq<byte>, i: nat)
    requires i < |s| && s[i] != 0
    requires forall m :: 0 <= m < i ==> s[m] == 0
    ensures LeadingZeroBits(s) == 8 * i + ByteLeadingZeros(s[i])
  {
    LeadingZeroBitsSkip(s, i);
    assert s[i..][0] == s[i];
  }

  /** `peach_eval(bp, d) == 0`: the 8-bit leading-zero counter reaches `d`. */
  predicate Solved(bp: Digest, d: byte)
  {
    LeadingZeroBits(bp) % 256 >= d
  }

  lemma ModAdd(a: nat, b: nat)
    ensures (a % 256 + b) % 256 == (a + b) % 256
  {
  }

  /** The inner loop of `peach_eval` on the first non-zero byte `x`: shift
      `x` right, counting `j` down from 7, until it vanishes; the `j` reached
      is what `peach_eval` adds to its counter (0 when the top bit is set). */
  method ShiftCount(x0: byte) returns (add: byte)
    requires x0 != 0
    ensures add == ByteLeadingZeros(x0)
  {
    var x := x0;
    var j: byte := 7;
    add := 0;
    while j > 0
      invariant 0 <= j <= 7
      invariant x != 0 && add == 0
      invariant BitLength(x) + (7 - j) == BitLength(x0)
    {
      x := x / 2;
      if x == 0 {
        add := j;
        break;
      }
      j := j - 1;
    }
    Pow2Byte();
    BitLengthAtMost(x0, 8);
  }

  /** `peach_eval` as written: it scans bytes until the first non-zero one,
      adds that byte's leading zeros, and accumulates the count in a `byte`,
      so an all-zero digest counts 256, which wraps to 0. Returns 0 when
      solved and 1 otherwise. */
  method PeachEval(bp: Digest, d: byte) returns (r: int)
    ensures r == 0 || r == 1
    ensures r == 0 <==> LeadingZeroBits(bp) % 256 >= d
  {
    var n: byte := 0;
    var i := 0;
    ghost var count: nat := 0;
    while i < HASHLEN
      invariant 0 <= i <= 32
      invariant forall m :: 0 <= m < i ==> bp[m] == 0
      invariant count == 8 * i && n == count % 256
    {
      var x := bp[i];
      if x != 0 {
        var add := ShiftCount(x);
        ModAdd(count, add);
        n := (n as int + add) % 256;
        count := count + add;
        LeadingZeroBitsAt(bp, i);
        break;
      }
      ModAdd(count, 8);
      n := (n as int + 8) % 256;
      count := count + 8;
      i := i + 1;
    }
    if i == 32 {
      LeadingZeroBitsSkip(bp, 32);
    }
    assert count == LeadingZeroBits(bp);
    if n >= d {
      return 0;
    }
    return 1;
  }

  /** An all-zero digest counts 256 leading zero bits, which the byte counter
      wraps to 0: it solves difficulty 0 only. */
  lemma AllZeroDigestWraps(bp: Digest, d: byte)
    requires forall m :: 0 <= m < 32 ==> bp[m] == 0
    ensures LeadingZeroBits(bp) == 256
    ensures Solved(bp, d) <==> d == 0
  {
    LeadingZeroBitsSkip(bp, 32);
  }

  /** For every non-zero digest the difficulty is a target: `d` is solved
      exactly when the digest, read as a big-endian number, is below
      `2^(256 - d)`. */
  lemma SolvedIffBelowTarget(bp: Digest, d: byte)
    requires BigEndian(bp) != 0
    ensures Solved(bp, d) <==> BigEndian(bp) < Pow2(256 - d)
  {
    var c := LeadingZeroBits(bp);
    var v := BigEndian(bp);
    LeadingZeroBitsMeaning(bp);
    assert Pow2(0) == 1;
    assert c < 256 && Pow2(255 - c) <= v < Pow2(256 - c);
    if c >= d {
      Pow2Monotone(256 - c, 256 - d);
      assert Solved(bp, d) && v < Pow2(256 - d);
    } else {
      Pow2Monotone(256 - d, 255 - c);
      assert !Solved(bp, d) && Pow2(256 - d) <= v;
    }
  }

  /** Lowering the difficulty never turns a solution into a failure. */
  lemma SolvedMonotone(bp: Digest, d: byte, d': byte)
    requires Solved(bp, d) && d' <= d
    ensures Solved(bp, d')
  {
  }

  /** A digest with exactly `d` leading zero bits: `d / 8` zero bytes, then
      a byte whose top set bit is bit `7 - d % 8`, then zeros. */
  function BoundaryDigest(d: byte): (bp: Digest)
    ensures LeadingZeroBits(bp) == d
  {
    var q := d / 8;
    Pow2Monotone(7 - d % 8, 7);
    assert Pow2(7) == 128;
    var bp: seq<byte> := seq(32, m => if m == q then Pow2(7 - d % 8) else 0);
    LeadingZeroBitsSkip(bp, q);
    BitLengthOfPow2(7 - d % 8);
    bp
  }

  /** The difficulty boundary: exactly `d` leading zero bits solve `d`, and
      one bit fewer does not. */
  lemma DifficultyBoundary(d: byte)
    ensures Solved(BoundaryDigest(d), d)
    ensures d > 0 ==> !Solved(BoundaryDigest(d - 1), d)
  {
    assert LeadingZeroBits(BoundaryDigest(d)) % 256 == d;
    if d > 0 {
      assert LeadingZeroBits(BoundaryDigest(d - 1)) % 256 == d - 1;
    }
  }

  /** `is_solution`: hash the trailer hash followed by the tile and test the
      digest against the difficulty. */
  method IsSolution(diff: byte, tile: seq<byte>, btHash: Digest, env: Env) returns (ok: bool)
    ensures ok <==> Solved(env.sha256(btHash + tile), diff)
  {
    var hash := env.sha256(btHash + tile);
    var e := PeachEval(hash, diff);
    ok := e == 0;
  }
}
