/** The wire frame shared by both servers and the benchmark client: a 4-byte
    length header in BitConverter's byte order, taken here to be little-endian
    (the byte order of the x86 machines the benchmark runs on), followed by that
    many payload bytes. Also the constants ServerBase gives every server. */
module Frame {

  datatype Option<T> = None | Some(value: T)

  /** An octet, as C#'s `byte`. */
  newtype Byte = b: int | 0 <= b < 256

  /** Size of the length header (`ServerBase.headerSize`). */
  const HeaderSize: nat := 4
  /** Capacity of every connection buffer (`ServerBase.bufferSize`). */
  const BufferSize: nat := 1000

  const Int32Min: int := -0x8000_0000
  const Int32Max: int := 0x7FFF_FFFF

  /** The values of a C# `int`. */
  predicate IsInt32(v: int) {
    Int32Min <= v <= Int32Max
  }

  function Pow256(k: nat): (p: nat)
    ensures p >= 1
  {
    if k == 0 then 1 else 256 * Pow256(k - 1)
  }

  /** The unsigned number whose little-endian digits in base 256 are `bs`. */
  function Unsigned(bs: seq<Byte>): (u: nat)
    ensures u < Pow256(|bs|)
  {
    if bs == [] then 0 else bs[0] as nat + 256 * Unsigned(bs[1..])
  }

  /** The `k` lowest base-256 digits of `u`, least significant first. */
  function LittleEndian(u: nat, k: nat): (bs: seq<Byte>)
    ensures |bs| == k
  {
    if k == 0 then [] else [(u % 256) as Byte] + LittleEndian(u / 256, k - 1)
  }

  lemma {:induction false} UnsignedOfLittleEndian(u: nat, k: nat)
    requires u < Pow256(k)
    ensures Unsigned(LittleEndian(u, k)) == u
  {
    if k > 0 {
      UnsignedOfLittleEndian(u / 256, k - 1);
      assert LittleEndian(u, k)[1..] == LittleEndian(u / 256, k - 1);
    }
  }

  lemma {:induction false} LittleEndianOfUnsigned(bs: seq<Byte>)
    ensures LittleEndian(Unsigned(bs), |bs|) == bs
  {
    if bs != [] {
      var u := Unsigned(bs);
      assert u % 256 == bs[0] as nat && u / 256 == Unsigned(bs[1..]);
      LittleEndianOfUnsigned(bs[1..]);
    }
  }

  lemma FourBytes()
    ensures Pow256(4) == 0x1_0000_0000
  {
    assert Pow256(2) == 0x1_0000;
  }

  /** `BitConverter.ToInt32(bytes, 0)`: the first four bytes read as a
      little-endian two's-complement 32-bit integer. */
  function ToInt32(bs: seq<Byte>): (v: int)
    requires |bs| >= HeaderSize
    ensures IsInt32(v)
  {
    FourBytes();
    var u := Unsigned(bs[..HeaderSize]);
    if u <= Int32Max then u else u - 0x1_0000_0000
  }

  /** `BitConverter.GetBytes(int)`: the four little-endian bytes of `v`'s
      two's-complement representation. */
  function GetBytes(v: int): (bs: seq<Byte>)
    requires IsInt32(v)
    ensures |bs| == HeaderSize
  {
    LittleEndian(if v < 0 then v + 0x1_0000_0000 else v, HeaderSize)
  }

  /** A header produced by GetBytes decodes to the length it was made from. */
  lemma DecodeEncode(v: int)
    requires IsInt32(v)
    ensures ToInt32(GetBytes(v)) == v
  {
    FourBytes();
    var u := if v < 0 then v + 0x1_0000_0000 else v;
    UnsignedOfLittleEndian(u, HeaderSize);
    assert GetBytes(v)[..HeaderSize] == GetBytes(v);
  }

  /** Every four bytes are the encoding of the length they decode to. */
  lemma EncodeDecode(bs: seq<Byte>)
    requires |bs| == HeaderSize
    ensures GetBytes(ToInt32(bs)) == bs
  {
    FourBytes();
    assert bs[..HeaderSize] == bs;
    LittleEndianOfUnsigned(bs);
  }

  /** A header decodes to 0, the close request, exactly when it is four zero bytes. */
  lemma ZeroHeader(bs: seq<Byte>)
    requires |bs| == HeaderSize
    ensures ToInt32(bs) == 0 <==> bs == [0, 0, 0, 0]
  {
    EncodeDecode(bs);
    DecodeEncode(0);
    assert GetBytes(0) == [0, 0, 0, 0];
  }
}
