/**
 ntp_to_unixtime of src/ntp.c on a little-endian host: the timestamp fields of the message are
 byte-swapped in place, and the transmit second is moved from the NTP epoch to the Unix epoch.
 */
module NtpTime {
  import opened Arith

  /** The offset in NTP_TO_UNIX. */
  const EPOCH_OFFSET: nat := 2208988800

  // ---------------------------------------------------------------- byte order

  /** A word in memory order. */
  datatype Bytes = Bytes(b0: byte, b1: byte, b2: byte, b3: byte)

  /** How the host reads a word from memory. */
  function LoadLE(b: Bytes): (v: u32) {
    b.b0 + 0x100 * b.b1 + 0x1_0000 * b.b2 + 0x100_0000 * b.b3
  }

  /** The first byte on the wire counts for most, the first byte in memory for least. */
  lemma ByteOrders(v: u32)
    ensures var b := StoreBE(v); v == 0x100_0000 * b.b0 + 0x1_0000 * b.b1 + 0x100 * b.b2 + b.b3
    ensures var b := StoreLE(v); v == b.b0 + 0x100 * b.b1 + 0x1_0000 * b.b2 + 0x100_0000 * b.b3
  {
  }

  /** How the host leaves a word in memory. */
  function StoreLE(v: u32): (b: Bytes)
    ensures LoadLE(b) == v
  {
    var w1 := v / 256;
    var w2 := w1 / 256;
    var w3 := w2 / 256;
    Bytes(v % 256, w1 % 256, w2 % 256, w3)
  }

  /** Network byte order: the most significant byte first. */
  function StoreBE(v: u32): (b: Bytes) {
    var w1 := v / 256;
    var w2 := w1 / 256;
    var w3 := w2 / 256;
    Bytes(w3, w2 % 256, w1 % 256, v % 256)
  }

  /** htobe32 on a little-endian host. */
  function Swap(v: u32): (r: u32)
    ensures StoreLE(r) == StoreBE(v)
  {
    var b := StoreLE(v);
    var r := LoadLE(Bytes(b.b3, b.b2, b.b1, b.b0));
    LoadDetermines(Bytes(b.b3, b.b2, b.b1, b.b0));
    r
  }

  lemma LoadDetermines(b: Bytes)
    ensures StoreLE(LoadLE(b)) == b
  {
    var v := LoadLE(b);
    assert v % 256 == b.b0;
    assert v / 256 == b.b1 + 0x100 * b.b2 + 0x1_0000 * b.b3;
    assert v / 256 / 256 == b.b2 + 0x100 * b.b3;
    assert v / 256 / 256 / 256 == b.b3;
  }

  /** A word that arrives in network byte order is what the swap makes of the host's reading. */
  lemma SwapReadsNetworkOrder(v: u32)
    ensures Swap(LoadLE(StoreBE(v))) == v
  {
    var b := StoreBE(v);
    LoadDetermines(b);
    assert StoreLE(v) == Bytes(b.b3, b.b2, b.b1, b.b0);
  }

  // ---------------------------------------------------------------- epochs

  /** NTP_TO_UNIX: an unsigned long long subtraction, cut to 32 bits by the assignment. */
  function ToUnix(sec: u32): (u: u32) {
    (sec - EPOCH_OFFSET) % TWO_64 % TWO_32
  }

  /** Days from 1 January 1900 to 1 January 1970: seventy years, seventeen of them leap years. */
  const DAYS_TO_1970: nat := 70 * 365 + 17

  /** The 32-bit NTP second of a time given in seconds since 1970; eras follow one another. */
  function NtpSecond(time: nat): (sec: u32) {
    (time + DAYS_TO_1970 * 86400) % TWO_32
  }

  /** The subtraction wraps twice, at 64 and at 32 bits; together that is once at 32 bits. */
  lemma ToUnixWraps(sec: u32)
    ensures ToUnix(sec) == if sec < EPOCH_OFFSET then TWO_32 + sec - EPOCH_OFFSET else sec - EPOCH_OFFSET
  {
  }

  /** The Unix epoch is NTP second 2208988800, and NTP second 0 of the first era is before it. */
  lemma EpochsMeet()
    ensures NtpSecond(0) == 2208988800 && ToUnix(2208988800) == 0
    ensures ToUnix(0) == TWO_32 - 2208988800
  {
    ToUnixWraps(0);
    ToUnixWraps(2208988800);
  }

  /** The conversion inverts the NTP second, in every era, up to the width of the result. */
  lemma ToUnixInverts(time: nat)
    ensures ToUnix(NtpSecond(time)) == time % TWO_32
  {
    assert DAYS_TO_1970 * 86400 == EPOCH_OFFSET;
    var k := (time + EPOCH_OFFSET) / TWO_32;
    var sec := NtpSecond(time);
    assert sec == time + EPOCH_OFFSET - TWO_32 * k;
    ToUnixWraps(sec);
    var u := ToUnix(sec);
    assert time == u + TWO_32 * (if sec < EPOCH_OFFSET then k - 1 else k);
  }

  // ---------------------------------------------------------------- the message

  /** The timestamp fields of struct ntp_msg, as the host reads them. */
  datatype Stamps = Stamps(
    reftimeSec: u32, reftimeFrac: u32, orgSec: u32, orgFrac: u32,
    recSec: u32, recFrac: u32, xmtSec: u32, xmtFrac: u32)

  function SwapAll(s: Stamps): (r: Stamps) {
    Stamps(Swap(s.reftimeSec), Swap(s.reftimeFrac), Swap(s.orgSec), Swap(s.orgFrac),
           Swap(s.recSec), Swap(s.recFrac), Swap(s.xmtSec), Swap(s.xmtFrac))
  }

  /** A second conversion swaps every field back; the bytes of each are reversed. */
  lemma SwapAllTwice(s: Stamps)
    ensures SwapAll(SwapAll(s)) == s
    ensures var r := SwapAll(s);
            && r.reftimeSec == LoadLE(StoreBE(s.reftimeSec))
            && r.reftimeFrac == LoadLE(StoreBE(s.reftimeFrac))
            && r.orgSec == LoadLE(StoreBE(s.orgSec))
            && r.orgFrac == LoadLE(StoreBE(s.orgFrac))
            && r.recSec == LoadLE(StoreBE(s.recSec))
            && r.recFrac == LoadLE(StoreBE(s.recFrac))
            && r.xmtSec == LoadLE(StoreBE(s.xmtSec))
            && r.xmtFrac == LoadLE(StoreBE(s.xmtFrac))
  {
    hide Swap, LoadLE, StoreBE;
    SwapIsRead(s.reftimeSec);
    SwapIsRead(s.reftimeFrac);
    SwapIsRead(s.orgSec);
    SwapIsRead(s.orgFrac);
    SwapIsRead(s.recSec);
    SwapIsRead(s.recFrac);
    SwapIsRead(s.xmtSec);
    SwapIsRead(s.xmtFrac);
    SwapReadsNetworkOrder(s.reftimeSec);
    SwapReadsNetworkOrder(s.reftimeFrac);
    SwapReadsNetworkOrder(s.orgSec);
    SwapReadsNetworkOrder(s.orgFrac);
    SwapReadsNetworkOrder(s.recSec);
    SwapReadsNetworkOrder(s.recFrac);
    SwapReadsNetworkOrder(s.xmtSec);
    SwapReadsNetworkOrder(s.xmtFrac);
  }

  /** The swap is its own inverse: it is also how the host reads a word stored for the network. */
  lemma SwapIsRead(v: u32)
    ensures Swap(v) == LoadLE(StoreBE(v))
  {
    assert StoreLE(Swap(v)) == StoreBE(v);
  }

  /**
   Round trip across eras: a server that sends the NTP second of any time, in network byte
   order, is read as that time modulo 2^32. For the 32-bit Unix seconds that is the time itself,
   before and after the rollover of 7 February 2036, when the NTP second starts again at zero.
   */
  lemma ServerTimeIsRead(time: nat)
    ensures ToUnix(Swap(LoadLE(StoreBE(NtpSecond(time))))) == time % TWO_32
    ensures time < TWO_32 ==> ToUnix(Swap(LoadLE(StoreBE(NtpSecond(time))))) == time
  {
    hide Swap, LoadLE, StoreBE, ToUnix, NtpSecond;
    SwapReadsNetworkOrder(NtpSecond(time));
    ToUnixInverts(time);
  }

  class NtpMsg {
    var flags: byte
    var stratum: byte
    var poll: byte
    var precision: int
    var rootDelay: u32
    var rootDisp: u32
    var refId: u32
    var reftimeSec: u32
    var reftimeFrac: u32
    var orgSec: u32
    var orgFrac: u32
    var recSec: u32
    var recFrac: u32
    var xmtSec: u32
    var xmtFrac: u32

    ghost function Fields(): (s: Stamps)
      reads this
    {
      Stamps(reftimeSec, reftimeFrac, orgSec, orgFrac, recSec, recFrac, xmtSec, xmtFrac)
    }

    /** ntp_to_unixtime */
    method ToUnixTime() returns (unixtime: u32)
      modifies this`reftimeSec, this`reftimeFrac, this`orgSec, this`orgFrac,
               this`recSec, this`recFrac, this`xmtSec, this`xmtFrac
      ensures Fields() == SwapAll(old(Fields()))
      ensures unixtime == ToUnix(Swap(old(xmtSec)))
      ensures forall v: u32 ::
                && (old(reftimeSec) == LoadLE(StoreBE(v)) ==> reftimeSec == v)
                && (old(reftimeFrac) == LoadLE(StoreBE(v)) ==> reftimeFrac == v)
                && (old(orgSec) == LoadLE(StoreBE(v)) ==> orgSec == v)
                && (old(orgFrac) == LoadLE(StoreBE(v)) ==> orgFrac == v)
                && (old(recSec) == LoadLE(StoreBE(v)) ==> recSec == v)
                && (old(recFrac) == LoadLE(StoreBE(v)) ==> recFrac == v)
                && (old(xmtSec) == LoadLE(StoreBE(v)) ==> xmtSec == v)
                && (old(xmtFrac) == LoadLE(StoreBE(v)) ==> xmtFrac == v)
      ensures forall time: nat :: old(xmtSec) == LoadLE(StoreBE(NtpSecond(time))) ==> unixtime == time % TWO_32
    {
      hide ToUnix, Swap, LoadLE, StoreBE, NtpSecond;
      forall time: nat ensures ToUnix(Swap(LoadLE(StoreBE(NtpSecond(time))))) == time % TWO_32 {
        ServerTimeIsRead(time);
      }
      forall v: u32 ensures Swap(LoadLE(StoreBE(v))) == v {
        SwapReadsNetworkOrder(v);
      }
      orgFrac := Swap(orgFrac);
      orgSec := Swap(orgSec);
      reftimeFrac := Swap(reftimeFrac);
      reftimeSec := Swap(reftimeSec);
      recFrac := Swap(recFrac);
      recSec := Swap(recSec);
      xmtFrac := Swap(xmtFrac);
      xmtSec := Swap(xmtSec);
      unixtime := ToUnix(xmtSec);
    }
  }
}
