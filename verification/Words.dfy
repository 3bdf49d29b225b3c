/** The 32-bit unsigned words that the emulator, its debugger and its test client compute with. */
module Words {

  const MODULUS := 0x1_0000_0000

  type word = x: int | 0 <= x < 0x1_0000_0000

  /** C's conversion of an arbitrary integer to uint32_t. */
  function Wrap(x: int): (w: word) {
    x % 0x1_0000_0000
  }

  /** C's conversion of a uint32_t to int32_t. */
  function Signed(w: word): int {
    if w < 0x8000_0000 then w else w - 0x1_0000_0000
  }

  type byte = b: int | 0 <= b < 256

  /** The number that bytes stand for, least significant first. */
  function Number256(bs: seq<byte>): (n: nat) {
    if bs == [] then 0 else bs[0] + 256 * Number256(bs[1..])
  }

  /** The bytes of a word in memory. */
  function LittleEndian(w: word): (bs: seq<byte>)
    ensures |bs| == 4
  {
    var (a, b, c) := (w / 256, w / 256 / 256, w / 256 / 256 / 256);
    [w % 256, a % 256, b % 256, c]
  }

  lemma LittleEndianNumber(w: word)
    ensures Number256(LittleEndian(w)) == w
  {
    var bs := LittleEndian(w);
    assert Number256(bs) == bs[0] + 256 * Number256(bs[1..]);
    assert Number256(bs[1..]) == bs[1] + 256 * Number256(bs[1..][1..]);
    assert bs[1..][1..] == [bs[2], bs[3]];
    assert Number256([bs[2], bs[3]]) == bs[2] + 256 * Number256([bs[2], bs[3]][1..]);
    assert [bs[2], bs[3]][1..] == [bs[3]];
    assert Number256([bs[3]]) == bs[3] + 256 * Number256([bs[3]][1..]);
  }

  lemma SmallNumbers(a: byte, b: byte)
    ensures Number256([a]) == a && Number256([a, b]) == a + 256 * b
  {
    assert [a][1..] == [] && [a, b][1..] == [b] && [b][1..] == [];
    assert Number256([b]) == b + 256 * Number256([b][1..]);
  }

  lemma NumberUnfold(bs: seq<byte>)
    requires |bs| >= 2
    ensures Number256(bs) == bs[0] + 256 * (bs[1] + 256 * Number256(bs[2..]))
  {
    assert bs[1..][1..] == bs[2..] && bs[1..][0] == bs[1];
  }
}
