/**
 Identifier-circle helpers of the node (`utils.rs`): membership of an id in
 a clockwise open or half-open arc of the 2^64 circle, and the truncation of
 a SHA-1 digest to an identifier. SHA-1 itself is not modelled: a digest is
 any 20-byte sequence.
 */
module Utils {
  import opened Base
  import Config

  /** A SHA-1 digest: twenty bytes. */
  type Digest = d: seq<byte> | |d| == 20 witness seq(20, _ => 0)

  /** `in_interval_open_open`: is `id` strictly inside the clockwise arc from `start` to `end`? */
  predicate InOpenOpen(id: u64, start: u64, end: u64)
  {
    if start < end then start < id < end
    else if start > end then id > start || id < end
    else false
  }

  /** `in_interval_open_closed`: the arc from `start` (excluded) to `end` (included). */
  predicate InOpenClosed(id: u64, start: u64, end: u64)
  {
    if start < end then start < id <= end
    else if start > end then id > start || id <= end
    else true
  }

  /** Clockwise distance from `a` to `b` on the 2^64 circle. */
  function Clockwise(a: u64, b: u64): (d: u64)
    ensures a <= b ==> d == b - a
    ensures a > b ==> d == U64_LIMIT - a + b
  {
    (b - a) % U64_LIMIT
  }

  /**
   The open arc is exactly the set of ids whose clockwise distance from
   `start` is positive and smaller than that of `end`; when the two ends
   coincide the arc is empty.
   */
  lemma OpenOpenIsClockwiseArc(id: u64, start: u64, end: u64)
    ensures InOpenOpen(id, start, end)
        <==> start != end && 0 < Clockwise(start, id) < Clockwise(start, end)
  {
  }

  /**
   The half-open arc is the set of ids at positive distance from `start`
   no further than `end`; when the two ends coincide it is the whole circle.
   */
  lemma OpenClosedIsClockwiseArc(id: u64, start: u64, end: u64)
    ensures InOpenClosed(id, start, end)
        <==> start == end || 0 < Clockwise(start, id) <= Clockwise(start, end)
  {
  }

  lemma DegenerateArcs(id: u64, s: u64)
    ensures !InOpenOpen(id, s, s)
    ensures InOpenClosed(id, s, s)
  {
  }

  /** With distinct ends, the half-open arc is the open arc plus its end point. */
  lemma OpenClosedIsOpenOpenPlusEnd(id: u64, s: u64, e: u64)
    requires s != e
    ensures InOpenClosed(id, s, e) <==> InOpenOpen(id, s, e) || id == e
  {
  }

  /** With distinct ends, the start point is in neither arc; the end point only in the half-open one. */
  lemma ArcEndPoints(s: u64, e: u64)
    requires s != e
    ensures !InOpenOpen(s, s, e) && !InOpenClosed(s, s, e)
    ensures InOpenClosed(e, s, e) && !InOpenOpen(e, s, e)
  {
  }

  /** The arcs (s, e) and (e, s) split the circle minus the two end points. */
  lemma OpenArcsAreComplementary(id: u64, s: u64, e: u64)
    requires s != e && id != s && id != e
    ensures InOpenOpen(id, s, e) != InOpenOpen(id, e, s)
  {
  }

  /** Big-endian value of a byte string. */
  function FromBigEndian(bs: seq<byte>): nat
  {
    if |bs| == 0 then 0 else FromBigEndian(bs[..|bs| - 1]) * 256 + bs[|bs| - 1]
  }

  /** The `n` lowest bytes of `x`, most significant first. */
  function ToBigEndian(x: nat, n: nat): (bs: seq<byte>)
    ensures |bs| == n
  {
    if n == 0 then [] else ToBigEndian(x / 256, n - 1) + [x % 256]
  }

  lemma {:induction false} BigEndianBound(bs: seq<byte>)
    ensures FromBigEndian(bs) < Pow256(|bs|)
    decreases |bs|
  {
    if |bs| > 0 {
      BigEndianBound(bs[..|bs| - 1]);
    }
  }

  /** Reading bytes and writing them back at the same width is the identity. */
  lemma {:induction false} BigEndianRoundTrip(bs: seq<byte>)
    ensures ToBigEndian(FromBigEndian(bs), |bs|) == bs
    decreases |bs|
  {
    if |bs| > 0 {
      var p := bs[..|bs| - 1];
      BigEndianRoundTrip(p);
      assert bs == p + [bs[|bs| - 1]];
    }
  }

  /** Leading zero bytes do not change a big-endian value. */
  lemma {:induction false} LeadingZeros(k: nat, bs: seq<byte>)
    ensures FromBigEndian(seq(k, _ => 0) + bs) == FromBigEndian(bs)
    decreases |bs|
  {
    var z: seq<byte> := seq(k, _ => 0);
    if |bs| == 0 {
      assert z + bs == z;
      ZerosValue(k);
    } else {
      var p := bs[..|bs| - 1];
      assert (z + bs)[..|z + bs| - 1] == z + p;
      LeadingZeros(k, p);
    }
  }

  lemma {:induction false} ZerosValue(k: nat)
    ensures FromBigEndian(seq(k, _ => 0)) == 0
    decreases k
  {
    if k > 0 {
      var z: seq<byte> := seq(k, _ => 0);
      assert z[..k - 1] == seq(k - 1, _ => 0);
      ZerosValue(k - 1);
    }
  }

  /**
   `hash_key` after the digest: the first `n` digest bytes, right-aligned in
   eight zero bytes, read as a big-endian u64. The result is below 256^n and
   its `n` big-endian bytes are exactly the digest prefix.
   */
  function IdFromDigest(digest: Digest, n: nat): (id: u64)
    requires n <= 8
    ensures id < Pow256(n)
    ensures ToBigEndian(id, n) == digest[..n]
  {
    DigestPrefixValue(digest[..n]);
    FromBigEndian(seq(8 - |digest[..n]|, _ => 0) + digest[..n])
  }

  /** Up to eight bytes, right-aligned in eight: their value, below 256^n and so a u64, that writes back to them. */
  lemma DigestPrefixValue(bs: seq<byte>)
    requires |bs| <= 8
    ensures var v := FromBigEndian(seq(8 - |bs|, _ => 0) + bs);
            && v == FromBigEndian(bs) && v < Pow256(|bs|) && v < U64_LIMIT
            && ToBigEndian(v, |bs|) == bs
  {
    LeadingZeros(8 - |bs|, bs);
    BigEndianBound(bs);
    BigEndianRoundTrip(bs);
    Pow256Monotone(|bs|, 8);
    assert Pow256(8) == U64_LIMIT;
  }

  lemma {:induction false} Pow256Monotone(a: nat, b: nat)
    requires a <= b
    ensures Pow256(a) <= Pow256(b)
    decreases b
  {
    if a < b {
      Pow256Monotone(a, b - 1);
    }
  }

  /** `utils::hash_key`: an M-bit identifier (M = 16, so two digest bytes). */
  function HashKey(sha1: string -> Digest, key: string): (id: u64)
    ensures id < Pow2(Config.M)
  {
    Pow2Values();
    IdFromDigest(sha1(key), Config.M / 8)
  }
}
