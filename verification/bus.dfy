/** The driver's bounded bus read (`cHS300x::readResponse`) and the device
    probe built on it (`cHS300x::begin`). The transport's answer to one read
    transaction is a `BusReply` parameter. */
module Bus {
  import opened HS300xTypes

  /** Longest read the driver will request. */
  const MaxRead: nat := 32

  /** The caller's buffer after a read, and whether the transport was used. */
  datatype ReadResult = ReadResult(ok: bool, buf: Option<seq<byte>>, consulted: bool)

  /** The argument checks made before the bus is touched: a buffer is
      present, the request is at most `MaxRead` bytes, and the configured
      address is not negative. */
  predicate ValidRequest(buf: Option<seq<byte>>, nBuf: nat, addr: i8) {
    buf.Some? && nBuf <= MaxRead && addr >= 0
  }

  /** Reads up to `nBuf` bytes into `buf` (`None` is a null pointer).
      The count `requestFrom` reports is not consulted for the verdict; the
      read succeeds when exactly `nBuf` bytes were available. The transport
      may not offer more than `nBuf` bytes, since the C loop would then write
      past the buffer. */
  function ReadResponse(buf: Option<seq<byte>>, nBuf: nat, addr: i8, reply: BusReply): (r: ReadResult)
    requires buf.Some? ==> |buf.value| == nBuf
    requires ValidRequest(buf, nBuf, addr) ==> |reply.bytes| <= nBuf
    ensures !ValidRequest(buf, nBuf, addr) ==> !r.ok && !r.consulted && r.buf == buf
    ensures ValidRequest(buf, nBuf, addr) ==> r.consulted
    ensures r.ok <==> ValidRequest(buf, nBuf, addr) && |reply.bytes| == nBuf
    ensures r.ok ==> r.buf == Some(reply.bytes)
    ensures r.buf.Some? <==> buf.Some?
    ensures r.buf.Some? ==> |r.buf.value| == nBuf
    ensures r.consulted ==> forall i :: 0 <= i < |reply.bytes| ==> r.buf.value[i] == reply.bytes[i]
    ensures r.consulted ==> forall i :: |reply.bytes| <= i < nBuf ==> r.buf.value[i] == buf.value[i]
  {
    if buf.None? || nBuf > MaxRead || addr < 0 then
      ReadResult(false, buf, false)
    else
      var nResult := |reply.bytes|;
      assert nResult == nBuf ==> reply.bytes + buf.value[nResult..] == reply.bytes;
      ReadResult(nResult == nBuf, Some(reply.bytes + buf.value[nResult..]), true)
  }

  /** The outcome of a read does not depend on the count `requestFrom`
      reports: a mismatch there is only logged. */
  lemma GrantedCountIgnored(buf: Option<seq<byte>>, nBuf: nat, addr: i8, bytes: seq<byte>, g1: byte, g2: byte)
    requires buf.Some? ==> |buf.value| == nBuf
    requires ValidRequest(buf, nBuf, addr) ==> |bytes| <= nBuf
    ensures ReadResponse(buf, nBuf, addr, BusReply(g1, bytes)) == ReadResponse(buf, nBuf, addr, BusReply(g2, bytes))
  {
  }

  /** Length of the probe read in `begin`. */
  const ProbeLength: nat := 2

  /** `begin`: after opening the bus, one 2-byte read into a scratch buffer
      tells whether the device answers. The scratch buffer's initial content
      is never observed, so it is modelled as zeros. */
  function Begin(d: Driver, reply: BusReply): (present: bool)
    requires d.address >= 0 ==> |reply.bytes| <= ProbeLength
    ensures present <==> d.address >= 0 && |reply.bytes| == ProbeLength
  {
    ReadResponse(Some([0, 0]), ProbeLength, d.address, reply).ok
  }
}
