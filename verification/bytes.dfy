/** Options, results and the byte image of an unsigned header word. */
module Wrappers {
  datatype Option<+T> = None | Some(value: T)

  datatype Result<+T, +E> = Ok(value: T) | Err(error: E)
}

/** `memcpy` of an unsigned integer of `h` bytes to and from raw memory. */
module Bytes {
  newtype byte = x: int | 0 <= x < 256

  function Pow256(h: nat): (p: nat)
    ensures p > 0
  {
    if h == 0 then 1 else 256 * Pow256(h - 1)
  }

  /** The `h` low bytes of `v`, least significant first. */
  function Encode(v: nat, h: nat): (bytes: seq<byte>)
    ensures |bytes| == h
  {
    if h == 0 then [] else [(v % 256) as byte] + Encode(v / 256, h - 1)
  }

  function Decode(bytes: seq<byte>): nat {
    if bytes == [] then 0 else bytes[0] as nat + 256 * Decode(bytes[1..])
  }

  /** A word that fits in `h` bytes is read back unchanged. */
  lemma {:induction false} DecodeEncode(v: nat, h: nat)
    requires v < Pow256(h)
    ensures Decode(Encode(v, h)) == v
  {
    if h == 0 {
    } else {
      DecodeEncode(v / 256, h - 1);
      assert Encode(v, h)[1..] == Encode(v / 256, h - 1);
    }
  }
}
