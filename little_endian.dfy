/** Bytes, unsigned 32-bit integers and their little-endian encoding. */
module LittleEndian {

  type byte = b: int | 0 <= b < 0x100

  type u32 = n: int | 0 <= n < 0x1_0000_0000

  /** The unsigned 32-bit integer whose little-endian encoding is `b`: its first byte is the least
      significant, its last byte the most significant. */
  function LeU32(b: seq<byte>): (r: u32)
    requires |b| == 4
    ensures r % 0x100 == b[0]
    ensures r / 0x100_0000 == b[3]
  {
    DivMod256(b[1] as int + 0x100 * b[2] as int + 0x1_0000 * b[3] as int, b[0]);
    DivMod2p24(b[3], b[0] as int + 0x100 * b[1] as int + 0x1_0000 * b[2] as int);
    b[0] as int + 0x100 * b[1] as int + 0x1_0000 * b[2] as int + 0x100_0000 * b[3] as int
  }

  /** The little-endian encoding of `v`. */
  function EncodeU32(v: u32): (b: seq<byte>)
    ensures |b| == 4
  {
    [v % 0x100, v / 0x100 % 0x100, v / 0x100 / 0x100 % 0x100, v / 0x100 / 0x100 / 0x100]
  }

  /** Decoding inverts encoding. */
  lemma {:induction false} DecodeEncode(v: u32)
    ensures LeU32(EncodeU32(v)) == v
  {
    var q1 := v / 0x100;
    var q2 := q1 / 0x100;
    var q3 := q2 / 0x100;
    assert v == v % 0x100 + 0x100 * q1;
    assert q1 == q1 % 0x100 + 0x100 * q2;
    assert q2 == q2 % 0x100 + 0x100 * q3;
  }

  /** Encoding inverts decoding: every 4-byte sequence is the encoding of its value. */
  lemma {:induction false} EncodeDecode(b: seq<byte>)
    requires |b| == 4
    ensures EncodeU32(LeU32(b)) == b
  {
    var hi2 := b[2] as int + 0x100 * b[3] as int;
    var hi := b[1] as int + 0x100 * hi2;
    assert LeU32(b) == b[0] + 0x100 * hi;
    DivMod256(hi, b[0]);
    DivMod256(hi2, b[1]);
    DivMod256(b[3], b[2]);
  }

  /** Division by 256 of `q * 256 + r` with a byte `r`. */
  lemma {:induction false} DivMod256(q: nat, r: byte)
    ensures (r + 0x100 * q) / 0x100 == q && (r + 0x100 * q) % 0x100 == r
  {
  }

  /** Division by 2^24 of `q * 2^24 + r` with `r < 2^24`. */
  lemma {:induction false} DivMod2p24(q: nat, r: nat)
    requires r < 0x100_0000
    ensures (r + 0x100_0000 * q) / 0x100_0000 == q
  {
  }

  /** A slice of a slice is a slice of the original. */
  lemma {:induction false} SubSlice(s: seq<byte>, a: nat, b: nat, i: nat, j: nat)
    requires a <= b <= |s| && i <= j <= b - a
    ensures s[a..b][i..j] == s[a + i..a + j]
  {
    assert forall k :: 0 <= k < j - i ==> s[a..b][i..j][k] == s[a + i + k];
  }

  /** `s` holds `a` then `b` from byte `p` on: it holds `a` at `p` and `b` right after it. */
  lemma {:induction false} SplitAt(s: seq<byte>, p: nat, a: seq<byte>, b: seq<byte>)
    requires p + |a| + |b| <= |s| && s[p..p + |a| + |b|] == a + b
    ensures s[p..p + |a|] == a
    ensures s[p + |a|..p + |a| + |b|] == b
  {
    SubSlice(s, p, p + |a| + |b|, 0, |a|);
    SubSlice(s, p, p + |a| + |b|, |a|, |a| + |b|);
  }

  /** Adjacent slices join up. */
  lemma {:induction false} JoinSlices(s: seq<byte>, a: nat, b: nat, c: nat)
    requires a <= b <= c <= |s|
    ensures s[a..c] == s[a..b] + s[b..c]
  {
  }
}
