/** The outgoing command-frame encoder of the R503 serial protocol:
    `b_array`, `calc_checksum`, `send_msg` and the default command fields
    of grow503.py. */
module Grow503 {
  import opened CTypes

  // ---------------------------------------------------------------------
  // Default fields of the module (a VerifyPassword command, password 0)
  // ---------------------------------------------------------------------

  const PortNumber: int := 8
  const BaudRate: int := 57600

  const Header: UInt := Make(U16, 0xEF01)
  const Addr: UInt := Make(U32, 0xFFFF_FFFF)
  const Pid: UInt := Make(U8, 0x01)
  const PkgLen: UInt := Make(U16, 0x07)
  const InstructionCode: UInt := Make(U8, 0x13)
  const Passwd: UInt := Make(U32, 0x00)

  // ---------------------------------------------------------------------
  // b_array
  // ---------------------------------------------------------------------

  /** Sum of the byte widths (`sizeof`) of a list of ctypes values. */
  function TotalWidth(args: seq<UInt>): nat
  {
    if args == [] then 0
    else TotalWidth(args[..|args| - 1]) + args[|args| - 1].width.Bytes()
  }

  /** One argument of `b_array`: `arg.value.to_bytes(sizeof(arg), 'big')`. */
  function Enc(arg: UInt): (s: seq<byte>)
    ensures |s| == arg.width.Bytes()
  {
    ToBytesBE(arg.value, arg.width.Bytes())
  }

  /** Every field encoding decodes back to the field's value, so a receiver
      reading a field's bytes big-endian recovers exactly what was sent. */
  lemma EncDecodes(arg: UInt)
    ensures FromBytesBE(Enc(arg)) == arg.value
  {
    BoundIsPow256(arg.width);
    DecodeEncode(arg.value, arg.width.Bytes());
  }

  /** A `c_uint8` is encoded as the one byte holding its value. */
  lemma EncByte(arg: UInt)
    requires arg.width == U8
    ensures Enc(arg) == [arg.value]
  {
    assert ToBytesBE(arg.value, 1) == ToBytesBE(arg.value / 256, 0) + [arg.value % 256];
  }

  /** The specification of `b_array`: the big-endian encodings of the
      arguments, each at its own width, one after the other. */
  function Serialized(args: seq<UInt>): (s: seq<byte>)
    ensures |s| == TotalWidth(args)
  {
    if args == [] then []
    else
      Serialized(args[..|args| - 1]) + Enc(args[|args| - 1])
  }

  /** `b_array(*args)`: grows a byte string argument by argument. */
  method BArray(args: seq<UInt>) returns (arrayOfBytes: seq<byte>)
    ensures arrayOfBytes == Serialized(args)
    ensures |arrayOfBytes| == TotalWidth(args)
  {
    arrayOfBytes := [];
    for i := 0 to |args|
      invariant arrayOfBytes == Serialized(args[..i])
    {
      var arg := args[i];
      arrayOfBytes := arrayOfBytes + ToBytesBE(arg.value, arg.width.Bytes());
      assert args[..i + 1][..i] == args[..i];
    }
    assert args[..|args|] == args;
  }

  /** `b_array()` with no arguments is empty. */
  lemma SerializedEmpty()
    ensures Serialized([]) == []
  {
  }

  /** Widths add up over a concatenation of argument lists. */
  lemma {:induction false} TotalWidthAppend(xs: seq<UInt>, ys: seq<UInt>)
    ensures TotalWidth(xs + ys) == TotalWidth(xs) + TotalWidth(ys)
    decreases |ys|
  {
    if ys != [] {
      var zs := xs + ys;
      assert zs[..|zs| - 1] == xs + ys[..|ys| - 1];
      TotalWidthAppend(xs, ys[..|ys| - 1]);
    } else {
      assert xs + ys == xs;
    }
  }

  /** No ctypes value is wider than four bytes. */
  lemma {:induction false} TotalWidthBound(args: seq<UInt>)
    ensures TotalWidth(args) <= 4 * |args|
  {
    if args != [] {
      TotalWidthBound(args[..|args| - 1]);
    }
  }

  /** `b_array` of a single argument is that argument's encoding. */
  lemma SerializedOne(a: UInt)
    ensures Serialized([a]) == Enc(a)
  {
    assert [a][..0] == [];
  }

  /** Appending one argument appends its encoding. */
  lemma SerializedSnoc(args: seq<UInt>, a: UInt)
    ensures Serialized(args + [a]) == Serialized(args) + Enc(a)
  {
    assert (args + [a])[..|args|] == args;
  }

  /** `b_array` keeps argument order: the encoding of `xs ++ ys` is the
      encoding of `xs` followed by that of `ys`. */
  lemma {:induction false} SerializedAppend(xs: seq<UInt>, ys: seq<UInt>)
    ensures Serialized(xs + ys) == Serialized(xs) + Serialized(ys)
    decreases |ys|
  {
    if ys == [] {
      assert xs + ys == xs;
    } else {
      var init, last := ys[..|ys| - 1], ys[|ys| - 1];
      var enc := Enc(last);
      assert Serialized(xs + ys) == Serialized(xs + init) + enc by {
        assert xs + ys == (xs + init) + [last];
        SerializedSnoc(xs + init, last);
      }
      assert Serialized(ys) == Serialized(init) + enc by {
        assert ys == init + [last];
        SerializedSnoc(init, last);
      }
      SerializedAppend(xs, init);
      Associative(Serialized(xs), Serialized(init), enc);
    }
  }

  /** The k-th argument occupies the bytes from the total width of the
      arguments before it, for its own width, and that segment is its
      big-endian encoding. */
  lemma SerializedSegment(args: seq<UInt>, k: nat)
    requires k < |args|
    ensures TotalWidth(args[..k + 1]) == TotalWidth(args[..k]) + args[k].width.Bytes()
    ensures TotalWidth(args[..k + 1]) <= |Serialized(args)|
    ensures Serialized(args)[TotalWidth(args[..k])..TotalWidth(args[..k + 1])] == Enc(args[k])
  {
    var before, rest := args[..k], args[k + 1..];
    var enc := Enc(args[k]);
    assert args[..k + 1] == before + [args[k]];
    assert TotalWidth(args[..k + 1]) == TotalWidth(before) + args[k].width.Bytes() by {
      assert args[..k + 1][..k] == before;
    }
    assert Serialized(args) == Serialized(before) + enc + Serialized(rest) by {
      assert args == (before + [args[k]]) + rest;
      SerializedAppend(before + [args[k]], rest);
      SerializedSnoc(before, args[k]);
    }
    PrefixSlice(Serialized(before), enc, Serialized(rest));
  }

  /** Decoding the k-th argument's segment of `b_array`'s output recovers
      that argument's value exactly. */
  lemma SegmentDecodes(args: seq<UInt>, k: nat)
    requires k < |args|
    ensures TotalWidth(args[..k]) <= TotalWidth(args[..k + 1]) <= |Serialized(args)|
    ensures FromBytesBE(Serialized(args)[TotalWidth(args[..k])..TotalWidth(args[..k + 1])])
            == args[k].value
  {
    SerializedSegment(args, k);
    BoundIsPow256(args[k].width);
    DecodeEncode(args[k].value, args[k].width.Bytes());
  }

  /** The first three fields of a frame, encoded one after the other. */
  lemma SerializedThree(a: UInt, b: UInt, c: UInt)
    ensures Serialized([a, b, c]) == Enc(a) + Enc(b) + Enc(c)
  {
    assert Serialized([a]) == Enc(a) by { SerializedSnoc([], a); assert [] + [a] == [a]; }
    assert Serialized([a, b]) == Serialized([a]) + Enc(b) by { SerializedSnoc([a], b); assert [a] + [b] == [a, b]; }
    assert Serialized([a, b, c]) == Serialized([a, b]) + Enc(c) by { SerializedSnoc([a, b], c); assert [a, b] + [c] == [a, b, c]; }
  }

  /** The six fields of a frame, encoded one after the other. */
  lemma SerializedSix(a: UInt, b: UInt, c: UInt, d: UInt, e: UInt, f: UInt)
    ensures Serialized([a, b, c, d, e, f]) == Enc(a) + Enc(b) + Enc(c) + Enc(d) + Enc(e) + Enc(f)
  {
    SerializedThree(a, b, c);
    assert Serialized([a, b, c, d]) == Serialized([a, b, c]) + Enc(d) by { SerializedSnoc([a, b, c], d); assert [a, b, c] + [d] == [a, b, c, d]; }
    assert Serialized([a, b, c, d, e]) == Serialized([a, b, c, d]) + Enc(e) by { SerializedSnoc([a, b, c, d], e); assert [a, b, c, d] + [e] == [a, b, c, d, e]; }
    assert Serialized([a, b, c, d, e, f]) == Serialized([a, b, c, d, e]) + Enc(f) by { SerializedSnoc([a, b, c, d, e], f); assert [a, b, c, d, e] + [f] == [a, b, c, d, e, f]; }
  }

  lemma Associative(a: seq<byte>, b: seq<byte>, c: seq<byte>)
    ensures (a + b) + c == a + (b + c)
  {
  }

  lemma PrefixSlice(a: seq<byte>, b: seq<byte>, c: seq<byte>)
    ensures (a + b + c)[|a|..|a| + |b|] == b
  {
  }

  // ---------------------------------------------------------------------
  // calc_checksum
  // ---------------------------------------------------------------------

  /** `sum(bytes)`. */
  function ByteSum(s: seq<byte>): (n: nat)
    ensures n <= 255 * |s|
  {
    if s == [] then 0 else s[0] + ByteSum(s[1..])
  }

  lemma {:induction false} ByteSumAppend(s: seq<byte>, t: seq<byte>)
    ensures ByteSum(s + t) == ByteSum(s) + ByteSum(t)
  {
    if s != [] {
      assert (s + t)[1..] == s[1..] + t;
      ByteSumAppend(s[1..], t);
    } else {
      assert s + t == t;
    }
  }

  /** The sum only depends on which bytes occur, not on their order: any
      permutation of the summed bytes gives the same checksum. */
  lemma {:induction false} ByteSumPermutation(s: seq<byte>, t: seq<byte>)
    requires multiset(s) == multiset(t)
    ensures ByteSum(s) == ByteSum(t)
  {
    if s == [] {
      assert |t| == |multiset(t)| == 0;
    } else {
      var i := MatchFirst(s, t);
      var rest := t[..i] + t[i + 1..];
      ByteSumPermutation(s[1..], rest);
      ByteSumRemove(t, i);
    }
  }

  /** A position of t holding the first byte of s, such that the rest of s
      and what is left of t are still permutations of each other. */
  lemma MatchFirst(s: seq<byte>, t: seq<byte>) returns (i: nat)
    requires s != [] && multiset(s) == multiset(t)
    ensures i < |t| && t[i] == s[0]
    ensures multiset(s[1..]) == multiset(t[..i] + t[i + 1..])
  {
    i := IndexOf(s[0], t);
    var rest := t[..i] + t[i + 1..];
    MultisetSplit(t, i);
    MultisetHead(s);
    MultisetCancel(multiset(s[1..]), multiset(rest), s[0]);
  }

  lemma IndexOf(x: byte, t: seq<byte>) returns (i: nat)
    requires x in multiset(t)
    ensures i < |t| && t[i] == x
  {
    assert x in t;
    i :| 0 <= i < |t| && t[i] == x;
  }

  lemma MultisetSplit(t: seq<byte>, i: nat)
    requires i < |t|
    ensures multiset(t) == multiset(t[..i] + t[i + 1..]) + multiset{t[i]}
  {
    var a, b := t[..i], t[i + 1..];
    assert t == a + t[i..];
    assert t[i..] == [t[i]] + b;
  }

  lemma MultisetHead(s: seq<byte>)
    requires s != []
    ensures multiset(s) == multiset(s[1..]) + multiset{s[0]}
  {
    assert s == [s[0]] + s[1..];
  }

  lemma MultisetCancel(m: multiset<byte>, n: multiset<byte>, x: byte)
    requires m + multiset{x} == n + multiset{x}
    ensures m == n
  {
    assert forall y :: m[y] == (m + multiset{x})[y] - multiset{x}[y];
    assert forall y :: n[y] == (n + multiset{x})[y] - multiset{x}[y];
  }

  /** Taking one byte out of a string takes its value out of the sum. */
  lemma ByteSumRemove(t: seq<byte>, i: nat)
    requires i < |t|
    ensures ByteSum(t) == t[i] + ByteSum(t[..i] + t[i + 1..])
  {
    var a, b := t[..i], t[i + 1..];
    assert t == a + t[i..];
    ByteSumAppend(a, t[i..]);
    assert t[i..][1..] == b;
    ByteSumAppend(a, b);
  }

  /** The byte sum of four encoded fields is the sum of their separate
      byte sums. */
  lemma ByteSumOfFour(a: UInt, b: UInt, c: UInt, d: UInt)
    ensures ByteSum(Serialized([a, b, c, d]))
         == ByteSum(Serialized([a])) + ByteSum(Serialized([b]))
          + ByteSum(Serialized([c])) + ByteSum(Serialized([d]))
  {
    SerializedAppend([a], [b]);
    SerializedAppend([a, b], [c]);
    SerializedAppend([a, b, c], [d]);
    assert [a] + [b] == [a, b];
    assert [a, b] + [c] == [a, b, c];
    assert [a, b, c] + [d] == [a, b, c, d];
    ByteSumAppend(Serialized([a]), Serialized([b]));
    ByteSumAppend(Serialized([a, b]), Serialized([c]));
    ByteSumAppend(Serialized([a, b, c]), Serialized([d]));
  }

  /** `calc_checksum` encodes the instruction before the length, unlike the
      frame; the byte sum is the same either way. */
  lemma ChecksumFieldOrder(pkgId: UInt, pkgLen: UInt, instrCode: UInt, pkg: UInt)
    ensures ByteSum(Serialized([pkgId, instrCode, pkgLen, pkg]))
         == ByteSum(Serialized([pkgId, pkgLen, instrCode, pkg]))
  {
    ByteSumOfFour(pkgId, instrCode, pkgLen, pkg);
    ByteSumOfFour(pkgId, pkgLen, instrCode, pkg);
  }

  /** Four fields of at most four bytes each sum to at most 16 * 255, so the
      16-bit truncation never takes effect. */
  lemma ChecksumNoWrap(pkgId: UInt, pkgLen: UInt, instrCode: UInt, pkg: UInt)
    ensures ByteSum(Serialized([pkgId, pkgLen, instrCode, pkg])) <= 16 * 255 < 0x1_0000
  {
    TotalWidthBound([pkgId, pkgLen, instrCode, pkg]);
  }

  /** `calc_checksum(pkg_id, pkglen, instr_code, pkg)`: the byte sum of the
      four fields, held in a `c_uint16`. The result is the sum of the fields
      in frame order, reduced modulo 65536, which never wraps. */
  function CalcChecksum(pkgId: UInt, pkgLen: UInt, instrCode: UInt, pkg: UInt): (c: UInt)
    ensures c.width == U16 && c.value < 0x1_0000
    ensures c.value == ByteSum(Serialized([pkgId, pkgLen, instrCode, pkg])) % 0x1_0000
    ensures c.value == ByteSum(Serialized([pkgId, pkgLen, instrCode, pkg]))
  {
    ChecksumFieldOrder(pkgId, pkgLen, instrCode, pkg);
    ChecksumNoWrap(pkgId, pkgLen, instrCode, pkg);
    Make(U16, ByteSum(Serialized([pkgId, instrCode, pkgLen, pkg])))
  }

  // ---------------------------------------------------------------------
  // send_msg
  // ---------------------------------------------------------------------

  /** `send_msg`: header, address, packet id, length, instruction and
      password, then the checksum as two big-endian bytes. The length field
      is whatever the caller passes; nothing here relates it to the payload.
      The checksum is the byte sum of everything after the header and the
      address, up to the checksum itself. */
  function SendMsg(hdr: UInt, adr: UInt, pkgId: UInt, pkgLen: UInt, instrCode: UInt, pswd: UInt)
    : (frame: seq<byte>)
    ensures |frame| == TotalWidth([hdr, adr, pkgId, pkgLen, instrCode, pswd]) + 2
    ensures |frame| >= hdr.width.Bytes() + adr.width.Bytes() + 2
  {
    SendMsgBody(hdr, adr, pkgId, pkgLen, instrCode, pswd);
    Serialized([hdr, adr, pkgId, pkgLen, instrCode, pswd])
      + ToBytesBE(CalcChecksum(pkgId, pkgLen, instrCode, pswd).value, 2)
  }

  /** The checksum the frame ends with is the byte sum, modulo 65536, of
      exactly the bytes between the address and the checksum: packet id,
      length, instruction and password. */
  lemma SendMsgChecksumCovers(hdr: UInt, adr: UInt, pkgId: UInt, pkgLen: UInt, instrCode: UInt, pswd: UInt)
    ensures var frame := SendMsg(hdr, adr, pkgId, pkgLen, instrCode, pswd);
            var w := hdr.width.Bytes() + adr.width.Bytes();
      && w <= |frame| - 2
      && frame[|frame| - 2..] == ToBytesBE(ByteSum(frame[w..|frame| - 2]) % 0x1_0000, 2)
  {
    var frame := SendMsg(hdr, adr, pkgId, pkgLen, instrCode, pswd);
    var w := hdr.width.Bytes() + adr.width.Bytes();
    var rest := Serialized([pkgId, pkgLen, instrCode, pswd]);
    var chk := CalcChecksum(pkgId, pkgLen, instrCode, pswd).value;
    assert frame[w..] == rest + ToBytesBE(chk, 2) by {
      SendMsgSplit(hdr, adr, pkgId, pkgLen, instrCode, pswd);
    }
    assert frame[w..|frame| - 2] == rest;
    assert frame[|frame| - 2..] == ToBytesBE(chk, 2);
  }

  /** The frame before the checksum splits into the header and address, then
      the four fields `calc_checksum` adds up, in frame order. */
  lemma SendMsgBody(hdr: UInt, adr: UInt, pkgId: UInt, pkgLen: UInt, instrCode: UInt, pswd: UInt)
    ensures Serialized([hdr, adr, pkgId, pkgLen, instrCode, pswd])
         == Serialized([hdr, adr]) + Serialized([pkgId, pkgLen, instrCode, pswd])
    ensures |Serialized([hdr, adr])| == hdr.width.Bytes() + adr.width.Bytes()
  {
    SerializedAppend([hdr, adr], [pkgId, pkgLen, instrCode, pswd]);
    assert [hdr, adr] + [pkgId, pkgLen, instrCode, pswd] == [hdr, adr, pkgId, pkgLen, instrCode, pswd];
    assert [hdr, adr][..1][..0] == [];
  }

  /** Frame fields at the widths the module uses: header 2, address 4,
      packet id 1, length 2, instruction 1, password 4 bytes. */
  predicate ModuleWidths(hdr: UInt, adr: UInt, pkgId: UInt, pkgLen: UInt, instrCode: UInt, pswd: UInt)
  {
    && hdr.width == U16 && adr.width == U32 && pkgId.width == U8
    && pkgLen.width == U16 && instrCode.width == U8 && pswd.width == U32
  }

  /** At the module's widths the fields start at bytes 0, 2, 6, 7, 9 and 10
      and end at byte 14. */
  lemma FieldOffsets(hdr: UInt, adr: UInt, pkgId: UInt, pkgLen: UInt, instrCode: UInt, pswd: UInt)
    requires ModuleWidths(hdr, adr, pkgId, pkgLen, instrCode, pswd)
    ensures var fields := [hdr, adr, pkgId, pkgLen, instrCode, pswd];
      && TotalWidth(fields[..0]) == 0 && TotalWidth(fields[..1]) == 2
      && TotalWidth(fields[..2]) == 6 && TotalWidth(fields[..3]) == 7
      && TotalWidth(fields[..4]) == 9 && TotalWidth(fields[..5]) == 10
      && TotalWidth(fields[..6]) == 14 && TotalWidth(fields) == 14
  {
    var fields := [hdr, adr, pkgId, pkgLen, instrCode, pswd];
    assert fields[..0] == [];
    assert fields[..1][..0] == fields[..0];
    assert fields[..2][..1] == fields[..1];
    assert fields[..3][..2] == fields[..2];
    assert fields[..4][..3] == fields[..3];
    assert fields[..5][..4] == fields[..4];
    assert fields[..6][..5] == fields[..5];
    assert fields[..6] == fields;
  }

  /** The bytes before the checksum are `b_array` of the six fields. */
  lemma SendMsgPrefix(hdr: UInt, adr: UInt, pkgId: UInt, pkgLen: UInt, instrCode: UInt, pswd: UInt, i: nat, j: nat)
    requires i <= j <= TotalWidth([hdr, adr, pkgId, pkgLen, instrCode, pswd])
    ensures SendMsg(hdr, adr, pkgId, pkgLen, instrCode, pswd)[i..j]
         == Serialized([hdr, adr, pkgId, pkgLen, instrCode, pswd])[i..j]
  {
  }

  /** Whatever the widths, the k-th field of the frame occupies the bytes
      after the fields before it and holds that field's big-endian encoding
      (which decodes back to its value, by EncDecodes). */
  lemma SendMsgField(hdr: UInt, adr: UInt, pkgId: UInt, pkgLen: UInt, instrCode: UInt, pswd: UInt, k: nat)
    requires k < 6
    ensures var fields := [hdr, adr, pkgId, pkgLen, instrCode, pswd];
            var frame := SendMsg(hdr, adr, pkgId, pkgLen, instrCode, pswd);
            var lo, hi := TotalWidth(fields[..k]), TotalWidth(fields[..k + 1]);
      && lo <= hi <= |frame| - 2
      && frame[lo..hi] == Enc(fields[k])
  {
    var fields := [hdr, adr, pkgId, pkgLen, instrCode, pswd];
    var lo, hi := TotalWidth(fields[..k]), TotalWidth(fields[..k + 1]);
    SerializedSegment(fields, k);
    SendMsgPrefix(hdr, adr, pkgId, pkgLen, instrCode, pswd, lo, hi);
  }

  /** The frame starts with the encoded header, whatever the widths. */
  lemma SendMsgHeader(hdr: UInt, adr: UInt, pkgId: UInt, pkgLen: UInt, instrCode: UInt, pswd: UInt)
    ensures var frame := SendMsg(hdr, adr, pkgId, pkgLen, instrCode, pswd);
      && hdr.width.Bytes() <= |frame|
      && frame[..hdr.width.Bytes()] == Enc(hdr)
  {
    var rest := [adr, pkgId, pkgLen, instrCode, pswd];
    var chk := ToBytesBE(CalcChecksum(pkgId, pkgLen, instrCode, pswd).value, 2);
    assert SendMsg(hdr, adr, pkgId, pkgLen, instrCode, pswd) == Enc(hdr) + (Serialized(rest) + chk) by {
      assert [hdr] + rest == [hdr, adr, pkgId, pkgLen, instrCode, pswd];
      SerializedAppend([hdr], rest);
      SerializedOne(hdr);
      Associative(Enc(hdr), Serialized(rest), chk);
    }
  }

  /** Field k (not the header) of a frame built with the module's widths
      occupies bytes lo to hi - 1, at the fixed offsets 2, 6, 7, 9, 10 and
      14. */
  lemma ModuleField(hdr: UInt, adr: UInt, pkgId: UInt, pkgLen: UInt, instrCode: UInt, pswd: UInt,
                    k: nat, lo: nat, hi: nat)
    requires ModuleWidths(hdr, adr, pkgId, pkgLen, instrCode, pswd)
    requires 1 <= k < 6 && lo == [0, 2, 6, 7, 9, 10][k] && hi == [2, 6, 7, 9, 10, 14][k]
    ensures var fields := [hdr, adr, pkgId, pkgLen, instrCode, pswd];
            var frame := SendMsg(hdr, adr, pkgId, pkgLen, instrCode, pswd);
      && |frame| == 16
      && frame[lo..hi] == Enc(fields[k])
  {
    var fields := [hdr, adr, pkgId, pkgLen, instrCode, pswd];
    assert TotalWidth(fields[..k]) == lo && TotalWidth(fields[..k + 1]) == hi by {
      FieldOffsets(hdr, adr, pkgId, pkgLen, instrCode, pswd);
      if k == 1 {} else if k == 2 {} else if k == 3 {} else if k == 4 {} else {}
    }
    assert |SendMsg(hdr, adr, pkgId, pkgLen, instrCode, pswd)| == 16 by {
      FieldOffsets(hdr, adr, pkgId, pkgLen, instrCode, pswd);
    }
    SendMsgField(hdr, adr, pkgId, pkgLen, instrCode, pswd, k);
  }

  /** With the module's widths the frame is 16 bytes and begins with the
      header (bytes 0-1) and the address (bytes 2-5). */
  lemma SendMsgAddressing(hdr: UInt, adr: UInt, pkgId: UInt, pkgLen: UInt, instrCode: UInt, pswd: UInt)
    requires ModuleWidths(hdr, adr, pkgId, pkgLen, instrCode, pswd)
    ensures var frame := SendMsg(hdr, adr, pkgId, pkgLen, instrCode, pswd);
      && |frame| == 16
      && frame[..2] == Enc(hdr)
      && frame[2..6] == Enc(adr)
  {
    SendMsgHeader(hdr, adr, pkgId, pkgLen, instrCode, pswd);
    ModuleField(hdr, adr, pkgId, pkgLen, instrCode, pswd, 1, 2, 6);
  }

  /** With the module's widths, bytes 6-13 of the frame are the packet id,
      the length, the instruction and the password. The length field is the
      caller's value, whatever it says. */
  lemma SendMsgCommandFields(hdr: UInt, adr: UInt, pkgId: UInt, pkgLen: UInt, instrCode: UInt, pswd: UInt)
    requires ModuleWidths(hdr, adr, pkgId, pkgLen, instrCode, pswd)
    ensures var frame := SendMsg(hdr, adr, pkgId, pkgLen, instrCode, pswd);
      && |frame| == 16
      && frame[6] == pkgId.value
      && frame[7..9] == Enc(pkgLen)
      && frame[9] == instrCode.value
      && frame[10..14] == Enc(pswd)
  {
    var frame := SendMsg(hdr, adr, pkgId, pkgLen, instrCode, pswd);
    assert frame[6] == pkgId.value by {
      ModuleField(hdr, adr, pkgId, pkgLen, instrCode, pswd, 2, 6, 7);
      EncByte(pkgId);
      assert frame[6] == frame[6..7][0];
    }
    ModuleField(hdr, adr, pkgId, pkgLen, instrCode, pswd, 3, 7, 9);
    assert frame[9] == instrCode.value by {
      ModuleField(hdr, adr, pkgId, pkgLen, instrCode, pswd, 4, 9, 10);
      EncByte(instrCode);
      assert frame[9] == frame[9..10][0];
    }
    ModuleField(hdr, adr, pkgId, pkgLen, instrCode, pswd, 5, 10, 14);
  }

  /** With the module's widths, the last two bytes of the frame hold the byte
      sum of bytes 6 to 13 (packet id, length, instruction, password),
      untruncated. */
  lemma SendMsgChecksumBytes(hdr: UInt, adr: UInt, pkgId: UInt, pkgLen: UInt, instrCode: UInt, pswd: UInt)
    requires ModuleWidths(hdr, adr, pkgId, pkgLen, instrCode, pswd)
    ensures var frame := SendMsg(hdr, adr, pkgId, pkgLen, instrCode, pswd);
      && |frame| == 16
      && ByteSum(frame[6..14]) < 0x1_0000
      && frame[14..] == ToBytesBE(ByteSum(frame[6..14]), 2)
  {
    var frame := SendMsg(hdr, adr, pkgId, pkgLen, instrCode, pswd);
    assert |frame| == 16 by {
      FieldOffsets(hdr, adr, pkgId, pkgLen, instrCode, pswd);
    }
    var sum := ByteSum(frame[6..14]);
    assert frame[14..] == ToBytesBE(sum % 0x1_0000, 2) by {
      SendMsgChecksumCovers(hdr, adr, pkgId, pkgLen, instrCode, pswd);
      assert hdr.width.Bytes() + adr.width.Bytes() == 6;
    }
    assert sum % 0x1_0000 == sum by {
      assert sum <= 255 * 8;
    }
  }

  /** The header and the address do not feed the checksum: frames that differ
      only in them (at the same widths) agree on every byte after them,
      checksum included. */
  lemma HeaderAddressIndependence(hdr: UInt, adr: UInt, hdr': UInt, adr': UInt,
                                  pkgId: UInt, pkgLen: UInt, instrCode: UInt, pswd: UInt)
    requires hdr'.width == hdr.width && adr'.width == adr.width
    ensures var f := SendMsg(hdr, adr, pkgId, pkgLen, instrCode, pswd);
            var g := SendMsg(hdr', adr', pkgId, pkgLen, instrCode, pswd);
            var w := hdr.width.Bytes() + adr.width.Bytes();
      && |f| == |g|
      && f[w..] == g[w..]
  {
    var w := hdr.width.Bytes() + adr.width.Bytes();
    var tail := Serialized([pkgId, pkgLen, instrCode, pswd])
              + ToBytesBE(CalcChecksum(pkgId, pkgLen, instrCode, pswd).value, 2);
    assert SendMsg(hdr, adr, pkgId, pkgLen, instrCode, pswd)[w..] == tail by {
      SendMsgSplit(hdr, adr, pkgId, pkgLen, instrCode, pswd);
    }
    assert SendMsg(hdr', adr', pkgId, pkgLen, instrCode, pswd)[w..] == tail by {
      SendMsgSplit(hdr', adr', pkgId, pkgLen, instrCode, pswd);
    }
  }

  /** Everything after the header and the address depends only on the four
      fields `calc_checksum` adds up. */
  lemma SendMsgSplit(hdr: UInt, adr: UInt, pkgId: UInt, pkgLen: UInt, instrCode: UInt, pswd: UInt)
    ensures var w := hdr.width.Bytes() + adr.width.Bytes();
      SendMsg(hdr, adr, pkgId, pkgLen, instrCode, pswd)[w..]
      == Serialized([pkgId, pkgLen, instrCode, pswd])
         + ToBytesBE(CalcChecksum(pkgId, pkgLen, instrCode, pswd).value, 2)
  {
    var head := Serialized([hdr, adr]);
    var rest := Serialized([pkgId, pkgLen, instrCode, pswd]);
    var chk := ToBytesBE(CalcChecksum(pkgId, pkgLen, instrCode, pswd).value, 2);
    SendMsgBody(hdr, adr, pkgId, pkgLen, instrCode, pswd);
    Associative(head, rest, chk);
    assert (head + (rest + chk))[|head|..] == rest + chk;
  }

  /** The frame is the six field encodings followed by the checksum. */
  lemma SendMsgFlat(hdr: UInt, adr: UInt, pkgId: UInt, pkgLen: UInt, instrCode: UInt, pswd: UInt)
    ensures SendMsg(hdr, adr, pkgId, pkgLen, instrCode, pswd)
         == Enc(hdr) + Enc(adr) + Enc(pkgId) + Enc(pkgLen) + Enc(instrCode) + Enc(pswd)
            + ToBytesBE(CalcChecksum(pkgId, pkgLen, instrCode, pswd).value, 2)
  {
    SerializedSix(hdr, adr, pkgId, pkgLen, instrCode, pswd);
  }

  /** The big-endian encodings of the module's default fields. */
  lemma DefaultEncodings()
    ensures Enc(Header) == [0xEF, 0x01]
    ensures Enc(Addr) == [0xFF, 0xFF, 0xFF, 0xFF]
    ensures Enc(Pid) == [0x01]
    ensures Enc(PkgLen) == [0x00, 0x07]
    ensures Enc(InstructionCode) == [0x13]
    ensures Enc(Passwd) == [0x00, 0x00, 0x00, 0x00]
  {
    assert Header == CUInt(U16, 0xEF01);
    assert Addr == CUInt(U32, 0xFFFF_FFFF);
    assert Pid == CUInt(U8, 0x01);
    assert PkgLen == CUInt(U16, 0x07);
    assert InstructionCode == CUInt(U8, 0x13);
    assert Passwd == CUInt(U32, 0x00);
  }

  /** The checksum of the default fields: 0x01 + 0x00 + 0x07 + 0x13 + four
      zero bytes = 0x1B. */
  lemma DefaultChecksum()
    ensures CalcChecksum(Pid, PkgLen, InstructionCode, Passwd).value == 0x1B
  {
    var sum := ByteSum(Serialized([Pid, PkgLen, InstructionCode, Passwd]));
    assert sum == ByteSum(Enc(Pid)) + ByteSum(Enc(PkgLen))
                 + ByteSum(Enc(InstructionCode)) + ByteSum(Enc(Passwd)) by {
      ByteSumOfFour(Pid, PkgLen, InstructionCode, Passwd);
      SerializedOne(Pid);
      SerializedOne(PkgLen);
      SerializedOne(InstructionCode);
      SerializedOne(Passwd);
    }
    assert ByteSum(Enc(Pid)) == 0x01 && ByteSum(Enc(PkgLen)) == 0x07 by {
      DefaultEncodings();
    }
    assert ByteSum(Enc(InstructionCode)) == 0x13 && ByteSum(Enc(Passwd)) == 0 by {
      DefaultEncodings();
    }
  }

  /** The frame the module sends with its default fields: a VerifyPassword
      command to the broadcast address with password 0. */
  lemma DefaultFrame()
    ensures SendMsg(Header, Addr, Pid, PkgLen, InstructionCode, Passwd)
         == [0xEF, 0x01, 0xFF, 0xFF, 0xFF, 0xFF, 0x01, 0x00, 0x07, 0x13,
             0x00, 0x00, 0x00, 0x00, 0x00, 0x1B]
  {
    var h, a, p, l, i, w := Header, Addr, Pid, PkgLen, InstructionCode, Passwd;
    assert SendMsg(h, a, p, l, i, w)
        == [0xEF, 0x01] + [0xFF, 0xFF, 0xFF, 0xFF] + [0x01] + [0x00, 0x07] + [0x13]
           + [0x00, 0x00, 0x00, 0x00] + [0x00, 0x1B] by {
      SendMsgFlat(h, a, p, l, i, w);
      DefaultEncodings();
      DefaultChecksum();
      assert ToBytesBE(0x1B, 2) == [0x00, 0x1B];
    }
    DefaultFrameBytes();
  }

  lemma DefaultFrameBytes()
    ensures [0xEF, 0x01] + [0xFF, 0xFF, 0xFF, 0xFF] + [0x01] + [0x00, 0x07] + [0x13]
            + [0x00, 0x00, 0x00, 0x00] + [0x00, 0x1B]
         == [0xEF, 0x01, 0xFF, 0xFF, 0xFF, 0xFF, 0x01, 0x00, 0x07, 0x13,
             0x00, 0x00, 0x00, 0x00, 0x00, 0x1B]
  {
  }
}
