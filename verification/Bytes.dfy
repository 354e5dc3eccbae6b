/** Bytes, 32-bit words and their little-endian conversion. */
module Bytes {

  type byte = b: int | 0 <= b < 256
  type word = w: int | 0 <= w < 0x1_0000_0000

  /** `u32::from_le_bytes` */
  function WordOf(b: seq<byte>): word
    requires |b| == 4
  {
    b[0] as int + 0x100 * b[1] as int + 0x1_0000 * b[2] as int + 0x100_0000 * b[3] as int
  }

  /** `u32::to_le_bytes` */
  function BytesOf(w: word): (b: seq<byte>)
    ensures |b| == 4
  {
    [w % 0x100, w / 0x100 % 0x100, w / 0x1_0000 % 0x100, w / 0x100_0000]
  }

  lemma WordRoundTrip(w: word)
    ensures WordOf(BytesOf(w)) == w
  {
    var a: int := w / 0x100;
    var b: int := a / 0x100;
    assert w / 0x1_0000 == b && w / 0x100_0000 == b / 0x100;
  }

  lemma BytesRoundTrip(b: seq<byte>)
    requires |b| == 4
    ensures BytesOf(WordOf(b)) == b
  {
    var w := WordOf(b);
    assert w / 0x100 == b[1] as int + 0x100 * b[2] as int + 0x1_0000 * b[3] as int;
    assert w / 0x1_0000 == b[2] as int + 0x100 * b[3] as int;
    assert w / 0x100_0000 == b[3];
  }

  /** The number written in base 256, lowest digit first. */
  function Number(digits: seq<byte>): nat {
    if digits == [] then 0 else digits[0] as int + 256 * Number(digits[1..])
  }

  lemma LittleEndian(b: seq<byte>)
    requires |b| == 4
    ensures WordOf(b) == Number(b)
  {
    var c, d, e := b[1..], b[2..], b[3..];
    assert c[1..] == d && d[1..] == e && e[1..] == [];
    assert Number(e) == b[3] as int;
    assert Number(d) == b[2] as int + 256 * Number(e);
    assert Number(c) == b[1] as int + 256 * Number(d);
  }
}
