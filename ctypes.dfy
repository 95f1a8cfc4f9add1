/** Fixed-width unsigned integers as the driver builds them with Python's
    ctypes (`c_uint8`, `c_uint16`, `c_uint32`), and their big-endian byte
    encoding (`int.to_bytes(n, 'big')`). Only the width and the silent
    wrap-around on construction are modelled. */
module CTypes {

  /** One octet of a serial frame. */
  type byte = b: int | 0 <= b < 256

  /** The three ctypes the driver uses; `Bytes` is what `sizeof` returns. */
  datatype Width = U8 | U16 | U32 {
    function Bytes(): (n: nat)
      ensures 1 <= n <= 4
    {
      match this
      case U8 => 1
      case U16 => 2
      case U32 => 4
    }

    /** One more than the largest value of the type. */
    function Bound(): (b: nat)
      ensures b >= 0x100
    {
      match this
      case U8 => 0x100
      case U16 => 0x1_0000
      case U32 => 0x1_0000_0000
    }
  }

  /** 256^n: the number of values an n-byte unsigned integer can hold. */
  function Pow256(n: nat): (p: nat)
    ensures p >= 1
  {
    if n == 0 then 1 else 256 * Pow256(n - 1)
  }

  /** A ctypes value: its width and its `.value`. */
  datatype CUInt = CUInt(width: Width, value: nat)

  /** A ctypes value whose `.value` fits its width, which is every value
      ctypes can hold. */
  type UInt = c: CUInt | c.value < c.width.Bound() witness CUInt(U8, 0)

  /** `c_uintN(v)`: ctypes keeps the value modulo 256^width, without any
      error for a negative or too large argument. */
  function Make(w: Width, v: int): (c: UInt)
    ensures c.width == w
    ensures 0 <= v < w.Bound() ==> c.value == v
  {
    match w
    case U8 => CUInt(U8, v % 0x100)
    case U16 => CUInt(U16, v % 0x1_0000)
    case U32 => CUInt(U32, v % 0x1_0000_0000)
  }

  /** The value ctypes keeps is the argument modulo 256^width: it differs
      from the argument by a multiple of the bound, and fits below it. */
  lemma MakeWraps(w: Width, v: int)
    ensures Make(w, v).value < w.Bound()
    ensures (v - Make(w, v).value) % w.Bound() == 0
  {
  }

  /** The bound of a width is 256 to the power of its byte count. */
  lemma BoundIsPow256(w: Width)
    ensures w.Bound() == Pow256(w.Bytes())
  {
  }

  lemma Pow256Step(n: nat)
    requires n > 0
    ensures Pow256(n) == 256 * Pow256(n - 1)
  {
  }

  /** `v.to_bytes(n, 'big')`: the low n bytes of v, most significant first.
      Python raises an overflow error when v does not fit n bytes; the driver
      only encodes a ctypes value at its own width, which always fits, so the
      error case never arises and is not modelled (see DecodeEncode for the
      range where the encoding is exact). */
  function ToBytesBE(v: nat, n: nat): (s: seq<byte>)
    ensures |s| == n
    decreases n
  {
    if n == 0 then [] else ToBytesBE(v / 256, n - 1) + [v % 256]
  }

  /** The value of a big-endian byte string (`int.from_bytes(s, 'big')`). */
  function FromBytesBE(s: seq<byte>): (v: nat)
    ensures v < Pow256(|s|)
  {
    if s == [] then 0
    else
      var hi := FromBytesBE(s[..|s| - 1]);
      Pow256Step(|s|);
      assert hi * 256 + s[|s| - 1] < Pow256(|s|) by {
        assert hi <= Pow256(|s| - 1) - 1;
        assert hi * 256 <= (Pow256(|s| - 1) - 1) * 256;
      }
      hi * 256 + s[|s| - 1]
  }

  /** Decoding an encoded value recovers it exactly. */
  lemma {:induction false} DecodeEncode(v: nat, n: nat)
    requires v < Pow256(n)
    ensures FromBytesBE(ToBytesBE(v, n)) == v
    decreases n
  {
    if n > 0 {
      Pow256Step(n);
      var s := ToBytesBE(v, n);
      assert s[..n - 1] == ToBytesBE(v / 256, n - 1);
      assert v / 256 < Pow256(n - 1);
      DecodeEncode(v / 256, n - 1);
    }
  }

  /** Encoding a decoded byte string at its own length gives it back, so the
      encoding at a fixed width is a bijection. */
  lemma {:induction false} EncodeDecode(s: seq<byte>)
    ensures ToBytesBE(FromBytesBE(s), |s|) == s
  {
    if s != [] {
      var n := |s|;
      var hi := FromBytesBE(s[..n - 1]);
      var v := FromBytesBE(s);
      assert v == hi * 256 + s[n - 1];
      assert v / 256 == hi && v % 256 == s[n - 1];
      EncodeDecode(s[..n - 1]);
      assert s == s[..n - 1] + [s[n - 1]];
    }
  }
}
