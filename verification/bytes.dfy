/** Bytes and the big-endian unsigned 32-bit integers the log framing uses
    for payload lengths. */
module Bytes {

  /** One octet */
  type byte = x: int | 0 <= x < 0x100

  /** 2^32: every length field value is below this */
  const Uint32Limit: nat := 0x1_0000_0000

  /** The value of four bytes read most significant first, as Go's
      binary.BigEndian.Uint32 computes it. */
  function Uint32BE(b: seq<byte>): (n: nat)
    requires |b| == 4
    ensures n < Uint32Limit
  {
    b[0] as int * 0x100_0000 + b[1] as int * 0x1_0000 + b[2] as int * 0x100 + b[3] as int
  }

  /** The four bytes that encode n most significant first (binary.BigEndian.PutUint32). */
  function PutUint32BE(n: nat): (b: seq<byte>)
    requires n < Uint32Limit
    ensures |b| == 4
  {
    [n / 0x100_0000, n / 0x1_0000 % 0x100, n / 0x100 % 0x100, n % 0x100]
  }

  /** Encoding a length and reading it back gives the length */
  lemma DecodeEncode(n: nat)
    requires n < Uint32Limit
    ensures Uint32BE(PutUint32BE(n)) == n
  {
    var b := PutUint32BE(n);
    assert n == (n / 0x100) * 0x100 + n % 0x100;
    assert n / 0x100 == (n / 0x1_0000) * 0x100 + n / 0x100 % 0x100;
    assert n / 0x1_0000 == (n / 0x100_0000) * 0x100 + n / 0x1_0000 % 0x100;
  }

  /** Reading four bytes and encoding the value gives the same four bytes */
  lemma EncodeDecode(b: seq<byte>)
    requires |b| == 4
    ensures PutUint32BE(Uint32BE(b)) == b
  {
    var n := Uint32BE(b);
    assert n / 0x100 == b[0] as int * 0x1_0000 + b[1] as int * 0x100 + b[2] as int;
    assert n / 0x1_0000 == b[0] as int * 0x100 + b[1] as int;
  }
}
