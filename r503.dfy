/** The `R503` session class of r503.py: the wire constants of the protocol
    and the fields one session with the sensor holds. */
module R503 {
  import opened CTypes

  class R503 {
    /** Start-of-frame marker of every packet. */
    static const Header: UInt := Make(U16, 0xEF01)
    /** Packet types. */
    static const PidCommand: UInt := Make(U8, 0x01)
    /** A data packet follows a command or an acknowledge packet. */
    static const PidData: UInt := Make(U8, 0x02)
    static const PidAck: UInt := Make(U8, 0x07)
    /** Last packet of a data transfer. */
    static const PidEnd: UInt := Make(U8, 0x08)

    /** Serial port number and baud rate, kept as given. */
    var port: int
    var baud: int
    /** Module password, a `c_uint32`. */
    var pw: UInt

    /** `R503(port=8, baud=57600, pw=0)`: keeps the port and the baud rate
        unchanged and the password as a 32-bit unsigned value, wrapped
        modulo 2^32 as ctypes does, without rejecting any argument. */
    constructor (port: int := 8, baud: int := 57600, pw: int := 0)
      ensures this.pw.width == U32
      ensures this.port == port && this.baud == baud
      ensures this.pw.value < 0x1_0000_0000
      ensures (pw - this.pw.value) % 0x1_0000_0000 == 0
      ensures 0 <= pw < 0x1_0000_0000 ==> this.pw.value == pw
    {
      this.port := port;
      this.baud := baud;
      this.pw := Make(U32, pw);
      MakeWraps(U32, pw);
    }
  }

  /** A session opened with no arguments uses port 8, 57600 baud and
      password 0. */
  method OpenDefault() returns (s: R503)
    ensures fresh(s) && s.pw.width == U32
    ensures s.port == 8 && s.baud == 57600 && s.pw.value == 0
  {
    s := new R503();
  }

  /** The header is 0xEF01 and fits its 16 bits. */
  lemma HeaderValue()
    ensures R503.Header.width == U16
    ensures R503.Header.value == 0xEF01 && R503.Header.value < 0x1_0000
  {
  }

  /** The four packet types are 0x01, 0x02, 0x07 and 0x08: one byte each and
      pairwise distinct, so a receiver can tell them apart. */
  lemma PacketTypes()
    ensures R503.PidCommand.value == 0x01 && R503.PidData.value == 0x02
    ensures R503.PidAck.value == 0x07 && R503.PidEnd.value == 0x08
    ensures R503.PidCommand.width == U8 && R503.PidData.width == U8
    ensures R503.PidAck.width == U8 && R503.PidEnd.width == U8
    ensures |{R503.PidCommand.value, R503.PidData.value, R503.PidAck.value, R503.PidEnd.value}| == 4
  {
  }
}
