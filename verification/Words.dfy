/** The machine words every other module is written in: bytes and 32-bit words held as
    integers, with the wrap-around of 32-bit addition made explicit. */
module Words {
  const ADDRESS_SPACE := 0x1_0000_0000

  type byte = x: int | 0 <= x < 0x100
  type uint32 = x: int | 0 <= x < 0x1_0000_0000

  /** The value an `unsigned int` (or a 32-bit pointer) holds after one addition or subtraction
      of words whose exact result is x. */
  function Wrap(x: int): uint32
    requires -0x1_0000_0000 <= x < 0x2_0000_0000
  {
    if x < 0 then x + 0x1_0000_0000
    else if x < 0x1_0000_0000 then x
    else x - 0x1_0000_0000
  }

  /** The low 32 bits of a wider value. */
  function Low32(x: nat): uint32 {
    x % 0x1_0000_0000
  }

  /** The next value of an 8-bit counter. */
  function Next8(x: byte): byte {
    if x == 255 then 0 else x + 1
  }

  /** Wrapping is reduction modulo 2^32, and a wrapped difference, added back, lands on the
      address aimed at. */
  lemma WrapIsModular(x: int, p: uint32, target: uint32)
    requires -0x1_0000_0000 <= x < 0x2_0000_0000
    ensures Wrap(x) == x % ADDRESS_SPACE
    ensures Wrap(p + Wrap(target - p)) == target
  {
    if x < 0 {
      assert (x + ADDRESS_SPACE) % ADDRESS_SPACE == x % ADDRESS_SPACE;
    }
  }

  /** The little-endian word stored in the four bytes from index i on. */
  function WordAt(s: seq<byte>, i: nat): uint32
    requires i + 4 <= |s|
  {
    var b0: int, b1: int, b2: int, b3: int := s[i], s[i + 1], s[i + 2], s[i + 3];
    b0 + 0x100 * b1 + 0x1_0000 * b2 + 0x100_0000 * b3
  }

  /** The least significant byte comes first. */
  lemma LittleEndian()
    ensures WordAt([0x78, 0x56, 0x34, 0x12], 0) == 0x1234_5678
  {
  }

  /** Byte k of a word, byte 0 being the least significant. */
  function ByteOf(v: uint32, k: nat): byte
    requires k < 4
  {
    if k == 0 then v % 0x100
    else if k == 1 then v / 0x100 % 0x100
    else if k == 2 then v / 0x1_0000 % 0x100
    else v / 0x100_0000
  }

  /** Splitting a word into bytes and joining them again are inverse to each other. */
  lemma WordRoundTrip(v: uint32, s: seq<byte>)
    ensures WordAt([ByteOf(v, 0), ByteOf(v, 1), ByteOf(v, 2), ByteOf(v, 3)], 0) == v
    ensures |s| == 4 ==> forall k :: 0 <= k < 4 ==> ByteOf(WordAt(s, 0), k) == s[k]
  {
    assert v / 0x100 / 0x100 == v / 0x1_0000 && v / 0x1_0000 / 0x100 == v / 0x100_0000;
    if |s| == 4 {
      var w, b1: int, b2: int, b3: int := WordAt(s, 0), s[1], s[2], s[3];
      assert w / 0x100 == b1 + 0x100 * b2 + 0x1_0000 * b3;
      assert w / 0x1_0000 == b2 + 0x100 * b3;
    }
  }
}
