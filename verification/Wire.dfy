/** Bytes, big-endian fields, and the option type shared by every codec. */
module Wire {
  type Byte = b: int | 0 <= b < 0x100
  type Bytes = seq<Byte>

  /** A 32-bit word. */
  type Word = w: int | 0 <= w < 0x1_0000_0000

  datatype Option<+T> = None | Some(value: T) {
    /** `unwrap_or`. */
    function UnwrapOr(default: T): T {
      if Some? then value else default
    }
  }

  datatype Result<+T, +E> = Ok(value: T) | Err(error: E)

  /** `n as u8`. */
  function AsU8(n: nat): Byte { n % 0x100 }

  /** `n as u16`: silently drops the high bits, like the source's casts. */
  function AsU16(n: nat): (r: nat)
    ensures r < 0x1_0000
  {
    n % 0x1_0000
  }

  /** `n as u32`. */
  function AsU32(n: nat): (r: nat)
    ensures r < 0x1_0000_0000
  {
    n % 0x1_0000_0000
  }

  function Be16(n: nat): (r: Bytes)
    requires n < 0x1_0000
    ensures |r| == 2 && U16At(r, 0) == n
  {
    [n / 0x100, n % 0x100]
  }

  function Be32(n: nat): (r: Bytes)
    requires n < 0x1_0000_0000
    ensures |r| == 4 && U32At(r, 0) == n
  {
    Be16(n / 0x1_0000) + Be16(n % 0x1_0000)
  }

  function U16At(b: Bytes, i: nat): (r: nat)
    requires i + 2 <= |b|
    ensures r < 0x1_0000
  {
    b[i] as int * 0x100 + b[i + 1] as int
  }

  function U32At(b: Bytes, i: nat): (r: nat)
    requires i + 4 <= |b|
    ensures r < 0x1_0000_0000
  {
    U16At(b, i) * 0x1_0000 + U16At(b, i + 2)
  }

  lemma SliceBehind(b: Bytes, header: nat, len: nat)
    requires header + len <= |b|
    ensures b[header..][..len] == b[header..header + len] && b[header..][len..] == b[header + len..]
  {
  }

  /** A growable byte buffer that decoders consume from the front. */
  class BytesMut {
    var data: Bytes

    constructor (data: Bytes)
      ensures this.data == data
    {
      this.data := data;
    }

    /** `buf.advance(n)`. */
    method Advance(n: nat)
      requires n <= |data|
      modifies this
      ensures data == old(data)[n..]
    {
      data := data[n..];
    }

    /** `buf.split_to(n)`. */
    method SplitTo(n: nat) returns (head: Bytes)
      requires n <= |data|
      modifies this
      ensures head == old(data)[..n] && data == old(data)[n..]
    {
      head := data[..n];
      data := data[n..];
    }
  }
}
