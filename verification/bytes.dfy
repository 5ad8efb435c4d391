/**
  Byte-level reads and writes shared by the kernel filters and the userspace decoders.

  `Word16`/`Word32` give the value of bytes listed most significant first, and
  `Bytes16`/`Bytes32` split a value back into such bytes. Every native (host-order)
  load or store takes the host byte order as an explicit `Endian` parameter, so that
  what depends on the host is visible in the contracts.
*/
module Bytes {

  /** An octet, as the sources' `__u8`/`u8`. */
  type byte = x: nat | x < 0x100

  /** Unsigned integer widths of the C and Rust sources. */
  type u16 = x: nat | x < 0x1_0000
  type u32 = x: nat | x < 0x1_0000_0000

  /** Byte order of the machine running both halves. */
  datatype Endian = LittleEndian | BigEndian

  /** The value of two bytes, most significant first. */
  function Word16(hi: byte, lo: byte): u16
  {
    hi * 256 + lo
  }

  /** The value of four bytes, most significant first. */
  function Word32(b0: byte, b1: byte, b2: byte, b3: byte): u32
  {
    ((b0 * 256 + b1) * 256 + b2) * 256 + b3
  }

  /** The big-endian (network-order) bytes of a `u16`. */
  function Bytes16(v: u16): (b: seq<byte>)
    ensures |b| == 2 && Word16(b[0], b[1]) == v
  {
    [v / 256, v % 256]
  }

  /** The big-endian (network-order) bytes of a `u32`: `u32::to_be_bytes`. */
  function Bytes32(v: u32): (b: seq<byte>)
    ensures |b| == 4 && Word32(b[0], b[1], b[2], b[3]) == v
  {
    var q1 := v / 256;
    var q2 := q1 / 256;
    var q3 := q2 / 256;
    [q3, q2 % 256, q1 % 256, v % 256]
  }

  lemma DivModByte(a: nat, b: nat)
    requires b < 256
    ensures (a * 256 + b) / 256 == a
    ensures (a * 256 + b) % 256 == b
  {
  }

  /** Splitting the value of two bytes gives the bytes back. */
  lemma Bytes16Word16(hi: byte, lo: byte)
    ensures Bytes16(Word16(hi, lo)) == [hi, lo]
  {
    DivModByte(hi, lo);
  }

  /** Splitting the value of four bytes gives the bytes back. */
  lemma Bytes32Word32(b0: byte, b1: byte, b2: byte, b3: byte)
    ensures Bytes32(Word32(b0, b1, b2, b3)) == [b0, b1, b2, b3]
  {
    var a2 := (b0 * 256 + b1) * 256 + b2;
    var a1 := b0 * 256 + b1;
    DivModByte(a2, b3);
    DivModByte(a1, b2);
    DivModByte(b0, b1);
  }

  /** A `u16` stored at `s[off..off + 2]`, read with the host's byte order. */
  function Load16(host: Endian, s: seq<byte>, off: nat): u16
    requires off + 2 <= |s|
  {
    if host == LittleEndian then Word16(s[off + 1], s[off]) else Word16(s[off], s[off + 1])
  }

  /** A `u32` stored at `s[off..off + 4]`, read with the host's byte order. */
  function Load32(host: Endian, s: seq<byte>, off: nat): u32
    requires off + 4 <= |s|
  {
    if host == LittleEndian then Word32(s[off + 3], s[off + 2], s[off + 1], s[off])
    else Word32(s[off], s[off + 1], s[off + 2], s[off + 3])
  }

  /** The memory image of a `u16` value stored with the host's byte order. */
  function Store16(host: Endian, v: u16): (b: seq<byte>)
    ensures |b| == 2
    ensures Load16(host, b, 0) == v
  {
    var be := Bytes16(v);
    if host == LittleEndian then [be[1], be[0]] else be
  }

  /** The memory image of a `u32` value stored with the host's byte order. */
  function Store32(host: Endian, v: u32): (b: seq<byte>)
    ensures |b| == 4
    ensures Load32(host, b, 0) == v
  {
    var be := Bytes32(v);
    if host == LittleEndian then [be[3], be[2], be[1], be[0]] else be
  }

  /** A native load followed by a native store reproduces the bytes: copying a field
      through a C variable of the same width leaves its wire order intact. */
  lemma StoreLoad16(host: Endian, s: seq<byte>, off: nat)
    requires off + 2 <= |s|
    ensures Store16(host, Load16(host, s, off)) == s[off..off + 2]
  {
    if host == LittleEndian {
      Bytes16Word16(s[off + 1], s[off]);
    } else {
      Bytes16Word16(s[off], s[off + 1]);
    }
  }

  lemma StoreLoad32(host: Endian, s: seq<byte>, off: nat)
    requires off + 4 <= |s|
    ensures Store32(host, Load32(host, s, off)) == s[off..off + 4]
  {
    if host == LittleEndian {
      Bytes32Word32(s[off + 3], s[off + 2], s[off + 1], s[off]);
    } else {
      Bytes32Word32(s[off], s[off + 1], s[off + 2], s[off + 3]);
    }
  }

  /** `u16::swap_bytes`. */
  function Swap16(v: u16): (r: u16)
    ensures Bytes16(r) == [Bytes16(v)[1], Bytes16(v)[0]]
  {
    var b := Bytes16(v);
    Bytes16Word16(b[1], b[0]);
    Word16(b[1], b[0])
  }

  /** `u32::swap_bytes`. */
  function Swap32(v: u32): (r: u32)
    ensures Bytes32(r) == [Bytes32(v)[3], Bytes32(v)[2], Bytes32(v)[1], Bytes32(v)[0]]
  {
    var b := Bytes32(v);
    Bytes32Word32(b[3], b[2], b[1], b[0]);
    Word32(b[3], b[2], b[1], b[0])
  }

  /** `u16::from_be` (equally `ntohs`/`htons`): the identity on a big-endian host and
      a byte swap on a little-endian one. */
  function FromBe16(host: Endian, v: u16): u16
  {
    if host == LittleEndian then Swap16(v) else v
  }

  /** `u32::from_be`. */
  function FromBe32(host: Endian, v: u32): u32
  {
    if host == LittleEndian then Swap32(v) else v
  }

  /** Reading a field natively and converting it with `from_be` yields its wire
      (big-endian) value, whatever the host byte order. */
  lemma FromBeLoad16(host: Endian, s: seq<byte>, off: nat)
    requires off + 2 <= |s|
    ensures FromBe16(host, Load16(host, s, off)) == Word16(s[off], s[off + 1])
  {
    if host == LittleEndian {
      var v := Load16(host, s, off);
      Bytes16Word16(s[off + 1], s[off]);
      Bytes16Word16(s[off], s[off + 1]);
      assert Bytes16(Swap16(v)) == Bytes16(Word16(s[off], s[off + 1]));
    }
  }

  /** The bytes of the converted value, most significant first, are the stored bytes. */
  lemma FromBeLoad32(host: Endian, s: seq<byte>, off: nat)
    requires off + 4 <= |s|
    ensures Bytes32(FromBe32(host, Load32(host, s, off))) == s[off..off + 4]
  {
    if host == LittleEndian {
      Bytes32Word32(s[off + 3], s[off + 2], s[off + 1], s[off]);
    } else {
      Bytes32Word32(s[off], s[off + 1], s[off + 2], s[off + 3]);
    }
  }

  /** A native `u16` equals `htons(c)` exactly when the two stored bytes are the
      network-order bytes of `c`: a test like `h_proto == htons(ETH_P_IP)` is a byte
      comparison on any host. */
  lemma LoadEqualsHtons(host: Endian, s: seq<byte>, off: nat, c: u16)
    requires off + 2 <= |s|
    ensures Load16(host, s, off) == FromBe16(host, c) <==> s[off..off + 2] == Bytes16(c)
  {
    var b := Bytes16(c);
    Bytes16Word16(s[off], s[off + 1]);
    Bytes16Word16(s[off + 1], s[off]);
    Bytes16Word16(b[1], b[0]);
    if host == LittleEndian {
      assert FromBe16(host, c) == Word16(b[1], b[0]);
    }
  }
}
