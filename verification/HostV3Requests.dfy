/** The four implementations that build a V3 request: over I2C, USB and the servo's SPI bridge
    in a buffer of their own, and over LPC directly in the port window, payload first. All
    four come to the same packet.
 */
module HostV3Requests {
  import opened Sequences
  import opened HostV3Packet

  const EC_COMMAND_PROTOCOL_3: byte := 0xDA
  const REQUEST_TRUNCATED: int := -13

  const HOST_CMD: nat := 0x204
  const HOST_PACKET: nat := 0x800
  const HOST_PACKET_SIZE: nat := 0x100
  const PORTS: nat := 0x1_0000

  lemma OverwriteNext(s: seq<byte>, at: nat, with: seq<byte>, i: nat)
    requires i < |with| && at + |with| <= |s|
    ensures Overwrite(s, at, with[..i])[at + i := with[i]] == Overwrite(s, at, with[..i + 1])
  {
  }

  /** memcpy into a buffer. */
  method Copy(buf: array<byte>, at: nat, data: seq<byte>)
    requires at + |data| <= buf.Length
    modifies buf
    ensures buf[..] == Overwrite(old(buf[..]), at, data)
  {
    forall i | 0 <= i < |data| {
      buf[at + i] := data[i];
    }
  }

  /** Assigns the fields of a request header in memory, with a checksum of zero. */
  method StoreHeader(buf: array<byte>, at: nat, command: int, version: int, outsize: int)
    requires at + HEADER <= buf.Length
    modifies buf
    ensures buf[..] == Overwrite(old(buf[..]), at, RequestHeader(0, command, version, outsize))
  {
    hide Low, High, Overwrite;
    ghost var before := buf[..];
    buf[at] := REQUEST_VERSION;
    buf[at + 1] := 0;
    buf[at + 2], buf[at + 3] := Low(command), High(command);
    buf[at + 4] := Low(version);
    buf[at + 5] := 0;
    buf[at + 6], buf[at + 7] := Low(outsize), High(outsize);
    var h := RequestHeader(0, command, version, outsize);
    assert forall i :: 0 <= i < HEADER ==> buf[at + i] == h[i];
    OverwriteElements(before, at, h, buf[..]);
  }

  lemma OverwriteElements(s: seq<byte>, at: nat, with: seq<byte>, r: seq<byte>)
    requires at + |with| <= |s| == |r|
    requires forall i :: 0 <= i < |with| ==> r[at + i] == with[i]
    requires forall i :: 0 <= i < |s| && (i < at || at + |with| <= i) ==> r[i] == s[i]
    ensures r == Overwrite(s, at, with)
  {
    forall k | 0 <= k < |r|
      ensures r[k] == Overwrite(s, at, with)[k]
    {
      if at <= k < at + |with| {
        assert r[at + (k - at)] == with[k - at];
      }
    }
  }

  /** sum_bytes of src/comm-i2c.cc and src/comm-usb.cc. */
  method SumBytes(data: array<byte>, at: nat, length: nat) returns (sum: int)
    requires at + length <= data.Length
    ensures sum == Sum(data[at..at + length])
  {
    sum := 0;
    var i := 0;
    ghost var all := data[at..at + length];
    while i < length
      invariant 0 <= i <= length
      invariant sum == Sum(all[..i])
    {
      SumNext(all, i);
      sum := sum + data[at + i];
      i := i + 1;
    }
    assert all[..length] == all;
  }

  /** A blank header and the payload, and the checksum that makes them the packet. */
  lemma PacketByChecksum(command: int, version: int, payload: seq<byte>, blank: seq<byte>, c: byte)
    requires blank == RequestHeader(0, command, version, |payload|) + payload
    requires c == Low(-Sum(blank))
    ensures |blank| > 1 && blank[1 := c] == RequestPacket(command, version, payload)
  {
    HeaderUpdate(c, command, version, payload);
  }

  lemma OverwriteParts(s: seq<byte>, at: nat, h: seq<byte>, d: seq<byte>)
    requires |s| == at + |h| + |d|
    ensures Overwrite(Overwrite(s, at, h), at + |h|, d) == s[..at] + (h + d)
    ensures Overwrite(Overwrite(s, at, h), at + |h|, d)[at..] == h + d
  {
  }

  /** The request of ec_command_usb. */
  method BuildUsb(command: int, version: int, outdata: seq<byte>) returns (req: array<byte>)
    ensures fresh(req) && req[..] == RequestPacket(command, version, outdata)
    ensures IsRequest(req[..], command, version, outdata)
  {
    hide RequestHeader, RequestPacket, IsRequest, Overwrite, Sum, Low;
    var n := HEADER + |outdata|;
    req := new byte[n];
    ghost var raw := req[..];
    StoreHeader(req, 0, command, version, |outdata|);
    Copy(req, HEADER, outdata);
    OverwriteParts(raw, 0, RequestHeader(0, command, version, |outdata|), outdata);
    ghost var blank := req[..];
    assert req[0..n] == blank[0..] == RequestHeader(0, command, version, |outdata|) + outdata;
    var sum := SumBytes(req, 0, n);
    PacketByChecksum(command, version, outdata, blank, Low(-sum));
    req[1] := Low(-sum);
    assert req[..] == blank[1 := Low(-sum)];
    RequestLayout(req[..], command, version, outdata);
  }

  /** The request of ec_command_i2c_3, behind the byte that announces the protocol. */
  method BuildI2c(command: int, version: int, outdata: seq<byte>) returns (req: array<byte>)
    ensures fresh(req) && req[..] == [0xDA] + RequestPacket(command, version, outdata)
    ensures IsRequest(req[1..], command, version, outdata)
  {
    hide RequestHeader, RequestPacket, IsRequest, Overwrite, Sum, Low;
    var n := HEADER + |outdata|;
    req := new byte[1 + n](_ => 0);
    req[0] := EC_COMMAND_PROTOCOL_3;
    ghost var raw := req[..];
    StoreHeader(req, 1, command, version, |outdata|);
    Copy(req, 1 + HEADER, outdata);
    OverwriteParts(raw, 1, RequestHeader(0, command, version, |outdata|), outdata);
    ghost var blank := req[1..];
    assert req[..] == raw[..1] + blank;
    assert req[1..1 + n] == blank;
    var sum := SumBytes(req, 1, n);
    PacketByChecksum(command, version, outdata, blank, Low(-sum));
    req[2] := Low(-sum);
    assert req[..] == [EC_COMMAND_PROTOCOL_3] + blank[1 := Low(-sum)];
    assert req[1..] == blank[1 := Low(-sum)];
    RequestLayout(req[1..], command, version, outdata);
  }

  /** The request of send_request in src/comm-servo-spi.cc, behind the bridge's own command
      `txrx` and block size. The sum is kept in a uint8_t. */
  method BuildServoSpi(txrx: byte, command: int, version: int, outdata: seq<byte>) returns (txbuf: array<byte>)
    ensures fresh(txbuf)
    ensures |txbuf[..]| == 11 + |outdata| && txbuf[3..] == RequestPacket(command, version, outdata)
    ensures txbuf[0] == txrx && txbuf[1] as int + 256 * txbuf[2] as int == (7 + |outdata|) % 65536
    ensures IsRequest(txbuf[3..], command, version, outdata)
  {
    hide RequestHeader, RequestPacket, IsRequest, Overwrite, Sum, Low, High;
    var n := HEADER + |outdata|;
    txbuf := new byte[3 + n](_ => 0);
    txbuf[0] := txrx;
    txbuf[1] := Low(n - 1);
    txbuf[2] := High(n - 1);
    ghost var raw := txbuf[..];
    StoreHeader(txbuf, 3, command, version, |outdata|);
    Copy(txbuf, 3 + HEADER, outdata);
    OverwriteParts(raw, 3, RequestHeader(0, command, version, |outdata|), outdata);
    ghost var blank := txbuf[3..];
    assert txbuf[..] == raw[..3] + blank;
    assert raw[..3] == [txrx, Low(n - 1), High(n - 1)];
    var csum := SumModulo(txbuf, 3);
    LowMinus(Sum(blank));
    var sum: int := csum;
    var checksum := Low(-sum);
    PacketByChecksum(command, version, outdata, blank, checksum);
    txbuf[4] := checksum;
    assert txbuf[..] == raw[..3] + blank[1 := checksum];
    assert txbuf[3..] == blank[1 := checksum];
    RequestLayout(txbuf[3..], command, version, outdata);
    WordModulo(n - 1, txbuf[1], txbuf[2]);
  }

  lemma LowMinus(x: int)
    ensures Low(-(x % 256)) == Low(-x)
  {
    AddMultiple(-x, x / 256);
    assert -x + 256 * (x / 256) == -(x % 256);
  }

  lemma AddMultiple(a: int, q: int)
    ensures (a + 256 * q) % 256 == a % 256
  {
  }

  /** The checksum loop of send_request, from position `at` to the end of the buffer. */
  method SumModulo(buf: array<byte>, at: nat) returns (csum: byte)
    requires at <= buf.Length
    ensures csum == Sum(buf[at..]) % 256
  {
    csum := 0;
    ghost var all := buf[at..];
    var i := at;
    while i < buf.Length
      invariant at <= i <= buf.Length
      invariant csum == Sum(all[..i - at]) % 256
    {
      SumNext(all, i - at);
      csum := (csum + buf[i]) % 256;
      i := i + 1;
    }
    assert all[..i - at] == all;
  }

  /** The ports with a request: the packet in the window at 0x800, the byte that starts the EC
      at 0x204, and nothing else changed. */
  predicate Sends(before: seq<byte>, after: seq<byte>, command: int, version: int, payload: seq<byte>) {
    && |before| == |after| == 0x1_0000 && 8 + |payload| <= 256
    && after[0x204] == 0xDA
    && after[0x800..0x808 + |payload|] == RequestPacket(command, version, payload)
    && IsRequest(after[0x800..0x808 + |payload|], command, version, payload)
    && (forall i :: 0 <= i < 0x800 && i != 0x204 ==> after[i] == before[i])
    && (forall i :: 0x808 + |payload| <= i < 0x1_0000 ==> after[i] == before[i])
  }

  lemma Sent(before: seq<byte>, command: int, version: int, payload: seq<byte>)
    requires |before| == PORTS && HEADER + |payload| <= HOST_PACKET_SIZE
    ensures Sends(before, Overwrite(before, HOST_PACKET, RequestPacket(command, version, payload))
                  [HOST_CMD := EC_COMMAND_PROTOCOL_3], command, version, payload)
  {
    hide RequestPacket, IsRequest;
    var packet := RequestPacket(command, version, payload);
    RequestLayout(packet, command, version, payload);
    var after := Overwrite(before, HOST_PACKET, packet)[HOST_CMD := EC_COMMAND_PROTOCOL_3];
    assert after[0x800..0x808 + |payload|] == packet;
  }

  /** The request part of ec_command_lpc_3: the payload goes to the window first, then the
      header with the finished checksum, then the command that starts the EC. */
  method WriteLpc(ports: array<byte>, command: int, version: int, outdata: seq<byte>) returns (r: int)
    requires ports.Length == PORTS
    modifies ports
    ensures if 8 + |outdata| > 256
            then r == -13 && ports[..] == old(ports[..])
            else r == 0 && Sends(old(ports[..]), ports[..], command, version, outdata)
  {
    hide RequestHeader, RequestPacket, Sends, Sum, Low;
    if |outdata| + HEADER > HOST_PACKET_SIZE {
      return REQUEST_TRUNCATED;
    }
    ghost var before := ports[..];
    var rq := new byte[HEADER];
    StoreHeader(rq, 0, command, version, |outdata|);
    assert rq[..] == RequestHeader(0, command, version, |outdata|);
    var csum := WriteSummed(ports, HOST_PACKET + HEADER, outdata);
    var hsum := SumBytes(rq, 0, HEADER);
    csum := csum + hsum;
    ghost var blank := rq[..] + outdata;
    SumAppend(rq[..], outdata);
    assert rq[0..HEADER] == rq[..];
    PacketByChecksum(command, version, outdata, blank, Low(-csum));
    rq[1] := Low(-csum);
    ghost var packet := RequestPacket(command, version, outdata);
    assert rq[..] + outdata == packet;
    WriteBytes(ports, HOST_PACKET, rq);
    HeaderAfterPayload(before, HOST_PACKET, rq[..], outdata);
    ports[HOST_CMD] := EC_COMMAND_PROTOCOL_3;
    Sent(before, command, version, outdata);
    r := 0;
  }

  lemma HeaderAfterPayload(s: seq<byte>, at: nat, h: seq<byte>, d: seq<byte>)
    requires at + |h| + |d| <= |s|
    ensures Overwrite(Overwrite(s, at + |h|, d), at, h) == Overwrite(s, at, h + d)
  {
  }

  /** Writes bytes to consecutive ports and adds them up. */
  method WriteSummed(ports: array<byte>, at: nat, data: seq<byte>) returns (csum: int)
    requires at + |data| <= ports.Length
    modifies ports
    ensures ports[..] == Overwrite(old(ports[..]), at, data)
    ensures csum == Sum(data)
  {
    csum := 0;
    var i := 0;
    ghost var before := ports[..];
    while i < |data|
      invariant 0 <= i <= |data|
      invariant ports[..] == Overwrite(before, at, data[..i])
      invariant csum == Sum(data[..i])
    {
      OverwriteNext(before, at, data, i);
      SumNext(data, i);
      ports[at + i] := data[i];
      csum := csum + data[i];
      i := i + 1;
    }
    assert data[..i] == data;
  }

  method WriteBytes(ports: array<byte>, at: nat, data: array<byte>)
    requires at + data.Length <= ports.Length && data != ports
    modifies ports
    ensures ports[..] == Overwrite(old(ports[..]), at, data[..])
  {
    var i := 0;
    ghost var before := ports[..];
    while i < data.Length
      invariant 0 <= i <= data.Length
      invariant ports[..] == Overwrite(before, at, data[..i])
    {
      OverwriteNext(before, at, data[..], i);
      assert data[..][..i] == data[..i] && data[..][..i + 1] == data[..i + 1];
      ports[at + i] := data[i];
      i := i + 1;
    }
    assert data[..i] == data[..];
  }
}
