/** The append-only output buffer of the encoder: a byte vector of fixed
    capacity 15 (the longest x86-64 instruction) whose writes are unchecked.
    Each write's `requires` is the capacity obligation its caller must
    discharge; the vector type it wraps is represented by a plain sequence. */
module Encoding {

  import opened Bytes

  /** The capacity of the underlying `Vec<u8, 15>`. */
  const Capacity: nat := 15

  datatype Encoder = Encoder(bytes: seq<byte>)

  /** The buffer has not overflowed its capacity. */
  predicate Valid(e: Encoder) {
    |e.bytes| <= Capacity
  }

  /** The bytes of `e'` are those of `e` followed by `s`. */
  predicate Appended(e: Encoder, s: seq<byte>, e': Encoder) {
    && |e'.bytes| == |e.bytes| + |s|
    && e'.bytes[..|e.bytes|] == e.bytes
    && e'.bytes[|e.bytes|..] == s
  }

  /** `Encoder::new`: an empty buffer. */
  function New(): (e: Encoder)
    ensures Valid(e)
    ensures |e.bytes| == 0
  {
    Encoder([])
  }

  /** `Encoder::write_u8`: appends one byte; there must be room for it. */
  function WriteU8(e: Encoder, value: byte): (e': Encoder)
    requires |e.bytes| < Capacity
    ensures Valid(e')
    ensures Appended(e, [value], e')
  {
    Encoder(e.bytes + [value])
  }

  /** `Encoder::write_bytes`: appends a slice in order; there must be room
      for all of it. */
  function WriteBytes(e: Encoder, s: seq<byte>): (e': Encoder)
    requires |e.bytes| + |s| <= Capacity
    ensures Valid(e')
    ensures Appended(e, s, e')
  {
    Encoder(e.bytes + s)
  }

  /** `Encoder::write_i32`: appends the four little-endian bytes of `value`;
      reading those four bytes back as an `i32` gives `value`. */
  function WriteI32(e: Encoder, value: i32): (e': Encoder)
    requires |e.bytes| + 4 <= Capacity
    ensures Valid(e')
    ensures |e'.bytes| == |e.bytes| + 4
    ensures e'.bytes[..|e.bytes|] == e.bytes
    ensures var n := |e.bytes|;
            FromLeBytes(e'.bytes[n], e'.bytes[n + 1], e'.bytes[n + 2], e'.bytes[n + 3]) == value
  {
    FromToLeBytes(value);
    WriteBytes(e, ToLeBytes(value))
  }

  /** `Encoder::into_vec`: the accumulated bytes, nothing added or dropped. */
  function IntoVec(e: Encoder): (v: seq<byte>)
    requires Valid(e)
    ensures |v| <= Capacity
    ensures |v| == |e.bytes| && forall k :: 0 <= k < |v| ==> v[k] == e.bytes[k]
  {
    e.bytes
  }
}
