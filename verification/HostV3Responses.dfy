/** The three implementations that check a V3 response: over LPC from the port window, over I2C
    from a receive buffer, and over the servo's SPI bridge from a stream of bytes.
 */
module HostV3Responses {
  import opened HostV3Packet
  import opened HostV3Requests

  const RES_ERROR: int := -2
  const INVALID_RESPONSE: int := -5
  const INVALID_CHECKSUM: int := -7
  const RESPONSE_TOO_BIG: int := -14
  const EECRESULT: int := 1000

  /** What a call returns, and what it leaves in the caller's buffer. */
  datatype Outcome = Outcome(ret: int, data: seq<byte>)

  /** The longest packet that a response header can announce. */
  const LONGEST: nat := HEADER + 0xFFFF

  /** The bytes from port 0x800 on. A port number has 16 bits. */
  function Window(ports: seq<byte>): (w: seq<byte>)
    requires |ports| == PORTS
    ensures |w| == LONGEST
  {
    ports[HOST_PACKET..] + ports[..LONGEST + HOST_PACKET - PORTS]
  }

  /** Puts `data` at the front of the caller's buffer and leaves the rest of it. */
  function Deliver(buf: seq<byte>, data: seq<byte>): (r: seq<byte>)
    requires |data| <= |buf|
    ensures |r| == |buf|
  {
    data + buf[|data|..]
  }

  /** The response half of ec_command_lpc_3, reading `window`. */
  function LpcOutcome(window: seq<byte>, insize: nat, buf: seq<byte>): Outcome
    requires |window| == LONGEST && insize <= |buf|
  {
    var len := Word(window[4], window[5]);
    if window[0] != RESPONSE_VERSION || Word(window[6], window[7]) != 0 then Outcome(INVALID_RESPONSE, buf)
    else if len > insize then Outcome(RESPONSE_TOO_BIG, buf)
    else
      Outcome(if SumsToZero(window[..HEADER + len]) then len else INVALID_CHECKSUM,
              Deliver(buf, window[HEADER..HEADER + len]))
  }

  /** The check of get_response in src/comm-servo-spi.cc, reading `stream` after the frame start.
      A read fails where the stream ends, and leaves in the buffer what has arrived. */
  function ServoOutcome(stream: seq<byte>, bodylen: nat, buf: seq<byte>): Outcome
    requires bodylen <= |buf|
  {
    if |stream| < HEADER then Outcome(RES_ERROR, buf)
    else
      var len := Word(stream[4], stream[5]);
      if stream[0] != RESPONSE_VERSION || len > bodylen then Outcome(RES_ERROR, buf)
      else if |stream| < HEADER + len then Outcome(RES_ERROR, Deliver(buf, stream[HEADER..]))
      else
        var result := Word(stream[2], stream[3]);
        Outcome(if !SumsToZero(stream[..HEADER + len]) then RES_ERROR
                else if result != 0 then -EECRESULT - result else 0,
                Deliver(buf, stream[HEADER..HEADER + len]))
  }

  /** The check of ec_command_i2c_3 on its receive buffer. */
  function I2cOutcome(resp: seq<byte>, insize: nat, buf: seq<byte>): Outcome
    requires |resp| == 2 + HEADER + insize && insize <= |buf|
  {
    if resp[0] != 0 then Outcome(-EECRESULT - resp[0], buf)
    else if resp[1] > HEADER + insize then Outcome(RESPONSE_TOO_BIG, buf)
    else if resp[2] != RESPONSE_VERSION then Outcome(INVALID_RESPONSE, buf)
    else if !SumsToZero(resp[2..2 + resp[1]]) then Outcome(INVALID_CHECKSUM, buf)
    else Outcome(Word(resp[6], resp[7]), Deliver(buf, resp[2 + HEADER..]))
  }

  // ---- the loops ------------------------------------------------------------------------

  /** inb from the packet window. */
  method ReadPort(ports: array<byte>, i: nat) returns (b: byte)
    requires ports.Length == PORTS && i < LONGEST
    ensures b == ports[(0x800 + i) % 0x1_0000] == Window(ports[..])[i]
  {
    b := ports[(HOST_PACKET + i) % PORTS];
  }

  /** The window starts at port 0x800. */
  lemma WindowAt(ports: seq<byte>, i: nat)
    requires |ports| == PORTS && i < LONGEST
    ensures LONGEST == 0x1_0007 && Window(ports)[i] == ports[(0x800 + i) % 0x1_0000]
  {
  }

  method ReadLpc(ports: array<byte>, indata: array<byte>, insize: nat) returns (ret: int)
    requires ports.Length == PORTS && insize <= indata.Length && ports != indata
    modifies indata
    ensures Outcome(ret, indata[..]) == LpcOutcome(Window(ports[..]), insize, old(indata[..]))
  {
    hide Sum, Window;
    ghost var window := Window(ports[..]);
    var rs, csum := ReadHeader(ports);
    assert forall i :: 0 <= i < HEADER ==> rs[i] == rs[..][i] == window[i];
    if rs[0] != RESPONSE_VERSION {
      return INVALID_RESPONSE;
    }
    if Word(rs[6], rs[7]) != 0 {
      return INVALID_RESPONSE;
    }
    var len := Word(rs[4], rs[5]);
    if len > insize {
      return RESPONSE_TOO_BIG;
    }
    csum := ReadData(ports, indata, len, csum);
    ret := if csum % 256 != 0 then INVALID_CHECKSUM else len;
  }

  /** The loop over the response header. */
  method ReadHeader(ports: array<byte>) returns (rs: array<byte>, csum: int)
    requires ports.Length == PORTS
    ensures fresh(rs) && rs[..] == Window(ports[..])[..HEADER] && csum == Sum(rs[..])
  {
    hide Sum, Window;
    NoBytes();
    rs := new byte[HEADER];
    csum := 0;
    ghost var window := Window(ports[..]);
    var i := 0;
    while i < HEADER
      invariant 0 <= i <= HEADER
      invariant rs[..i] == window[..i]
      invariant csum == Sum(window[..i])
    {
      rs[i] := ReadPort(ports, i);
      SumNext(window, i);
      csum := csum + rs[i];
      i := i + 1;
    }
    assert rs[..] == rs[..i];
  }

  /** The loop over the response data. */
  method ReadData(ports: array<byte>, indata: array<byte>, len: nat, start: int) returns (csum: int)
    requires ports.Length == PORTS && HEADER + len <= LONGEST && len <= indata.Length && ports != indata
    requires start == Sum(Window(ports[..])[..HEADER])
    modifies indata
    ensures indata[..] == Deliver(old(indata[..]), Window(ports[..])[HEADER..HEADER + len])
    ensures csum == Sum(Window(ports[..])[..HEADER + len])
  {
    hide Sum, Window, Deliver;
    ghost var window := Window(ports[..]);
    ghost var before := indata[..];
    csum := start;
    assert Deliver(before, window[HEADER..HEADER]) == before by {
      DeliverNothing(before, window[HEADER..HEADER]);
    }
    var i := 0;
    while i < len
      invariant 0 <= i <= len
      invariant csum == Sum(window[..HEADER + i])
      invariant indata[..] == Deliver(before, window[HEADER..HEADER + i])
    {
      SumNext(window, HEADER + i);
      DeliverNext(before, window, i);
      indata[i] := ReadPort(ports, HEADER + i);
      csum := csum + indata[i];
      i := i + 1;
    }
  }

  lemma DeliverNothing(buf: seq<byte>, data: seq<byte>)
    requires |data| == 0
    ensures Deliver(buf, data) == buf
  {
  }

  lemma DeliverNext(buf: seq<byte>, window: seq<byte>, i: nat)
    requires i < |buf| && HEADER + i < |window|
    ensures Deliver(buf, window[HEADER..HEADER + i])[i := window[HEADER + i]]
         == Deliver(buf, window[HEADER..HEADER + i + 1])
  {
  }

  /** spi_read: the bytes at position `from` of the stream, up to the first error. */
  method SpiRead(stream: seq<byte>, from: nat, buf: array<byte>, size: nat) returns (failed: bool)
    requires from <= |stream| && size <= buf.Length
    modifies buf
    ensures failed == (|stream| < from + size)
    ensures buf[..] == Deliver(old(buf[..]), if failed then stream[from..] else stream[from..from + size])
  {
    failed := |stream| < from + size;
    Copy(buf, 0, if failed then stream[from..] else stream[from..from + size]);
  }

  method ReadServo(stream: seq<byte>, bodydest: array<byte>, bodylen: nat) returns (ret: int)
    requires bodylen <= bodydest.Length
    modifies bodydest
    ensures Outcome(ret, bodydest[..]) == ServoOutcome(stream, bodylen, old(bodydest[..]))
  {
    hide Sum;
    ghost var before := bodydest[..];
    var hdr := new byte[HEADER];
    var failed := SpiRead(stream, 0, hdr, HEADER);
    if failed {
      return RES_ERROR;
    }
    assert hdr[..] == stream[..HEADER];
    if hdr[0] != RESPONSE_VERSION {
      return RES_ERROR;
    }
    var len := Word(hdr[4], hdr[5]);
    if len > bodylen {
      return RES_ERROR;
    }
    if len != 0 {
      failed := SpiRead(stream, HEADER, bodydest, len);
      if failed {
        return RES_ERROR;
      }
    }
    ghost var packet := stream[..HEADER + len];
    assert bodydest[..len] == stream[HEADER..HEADER + len] == packet[HEADER..];
    assert bodydest[..] == Deliver(before, packet[HEADER..]);
    var sum := AddModulo(hdr, HEADER, 0);
    sum := AddModulo(bodydest, len, sum);
    SumAppend(packet[..HEADER], packet[HEADER..]);
    assert packet == packet[..HEADER] + packet[HEADER..] && packet[..HEADER] == hdr[..HEADER];
    if sum != 0 {
      return RES_ERROR;
    }
    var result := Word(hdr[2], hdr[3]);
    ret := if result != 0 then -EECRESULT - result else 0;
  }

  /** A checksum loop of get_response. */
  method AddModulo(buf: array<byte>, n: nat, start: byte) returns (sum: byte)
    requires n <= buf.Length
    ensures sum == (start + Sum(buf[..n])) % 256
  {
    hide Sum;
    NoBytes();
    sum := start;
    assert buf[..0] == [];
    var i := 0;
    while i < n
      invariant 0 <= i <= n
      invariant sum == (start + Sum(buf[..i])) % 256
    {
      SumNext(buf[..], i);
      assert buf[..][..i] == buf[..i] && buf[..][..i + 1] == buf[..i + 1];
      AddThenReduce(start + Sum(buf[..i]), buf[i]);
      sum := (sum + buf[i]) % 256;
      i := i + 1;
    }
  }

  lemma AddThenReduce(x: int, y: int)
    ensures (x % 256 + y) % 256 == (x + y) % 256
  {
    AddMultiple(x % 256 + y, x / 256);
    assert x % 256 + y + 256 * (x / 256) == x + y;
  }

  lemma NoBytes()
    ensures forall s: seq<byte> :: |s| == 0 ==> Sum(s) == 0
  {
  }

  method ReadI2c(resp: array<byte>, indata: array<byte>, insize: nat) returns (ret: int)
    requires resp.Length == 2 + HEADER + insize && insize <= indata.Length && resp != indata
    modifies indata
    ensures Outcome(ret, indata[..]) == I2cOutcome(resp[..], insize, old(indata[..]))
  {
    hide Sum;
    ghost var before := indata[..];
    ghost var received := resp[..];
    if resp[0] != 0 {
      return -EECRESULT - resp[0];
    }
    if resp[1] > HEADER + insize {
      return RESPONSE_TOO_BIG;
    }
    if resp[2] != RESPONSE_VERSION {
      return INVALID_RESPONSE;
    }
    var sum := SumBytes(resp, 2, resp[1]);
    assert resp[2..2 + resp[1]] == received[2..2 + resp[1]];
    if Low(sum) != 0 {
      return INVALID_CHECKSUM;
    }
    forall i | 0 <= i < insize {
      indata[i] := resp[2 + HEADER + i];
    }
    assert resp[..] == received;
    assert indata[..] == Deliver(before, received[2 + HEADER..]);
    ret := Word(resp[6], resp[7]);
  }

  // ---- what the checks accept ---------------------------------------------------------------

  /** The header fields of a well-formed response. */
  lemma ResponseFields(result: int, payload: seq<byte>)
    requires |payload| < 65536
    ensures var p := ResponsePacket(result, payload);
            && p[0] == RESPONSE_VERSION && Word(p[6], p[7]) == 0 && Word(p[4], p[5]) == |payload|
            && (0 <= result < 65536 ==> Word(p[2], p[3]) == result)
            && p[HEADER..] == payload
  {
    hide Low, High, Word, ResponsePacket;
    WordFits(result);
    WordFits(|payload|);
    LengthOfOne();
    ResponseParts(result, payload);
  }

  lemma ResponseParts(result: int, payload: seq<byte>)
    ensures var p := ResponsePacket(result, payload);
            && p[0] == RESPONSE_VERSION && p[6] == p[7] == 0
            && p[2] == Low(result) && p[3] == High(result)
            && p[4] == Low(|payload|) && p[5] == High(|payload|)
            && p[HEADER..] == payload
  {
    var blank := ResponseHeader(0, result, |payload|);
    var c := Low(-Sum(blank + payload));
    HeaderParts(c, result, payload);
    hide ResponseHeader, Low, High, Sum;
  }

  lemma HeaderParts(c: byte, result: int, payload: seq<byte>)
    ensures var p := ResponseHeader(c, result, |payload|) + payload;
            && p[0] == RESPONSE_VERSION && p[6] == p[7] == 0
            && p[2] == Low(result) && p[3] == High(result)
            && p[4] == Low(|payload|) && p[5] == High(|payload|)
            && p[HEADER..] == payload
  {
    hide Low, High;
  }

  lemma ResponseSum(c: byte, result: int, payload: seq<byte>)
    ensures var p := ResponseHeader(c, result, |payload|) + payload;
            SumsToZero(p) ==> p == ResponsePacket(result, payload)
  {
    var blank := ResponseHeader(0, result, |payload|) + payload;
    assert ResponseHeader(c, result, |payload|) + payload == blank[1 := c];
    ChecksumCancels(blank, c);
    hide Sum, Low, High;
  }

  lemma ResponseFrom(p: seq<byte>, result: int, payload: seq<byte>)
    requires |p| == 8 + |payload| && p[8..] == payload
    requires p[0] == 3 && p[6] == 0 && p[7] == 0
    requires p[2] == Low(result) && p[3] == High(result) && p[4] == Low(|payload|) && p[5] == High(|payload|)
    ensures p == ResponseHeader(p[1], result, |payload|) + payload
  {
    hide Low, High;
  }

  /** There is exactly one well-formed response for a result and a payload. */
  lemma ResponseLayout(p: seq<byte>, result: int, payload: seq<byte>)
    ensures IsResponse(p, result, payload) <==> p == ResponsePacket(result, payload)
  {
    hide Sum, Low, High, ResponseHeader, ResponsePacket, Word;
    ResponseParts(result, payload);
    ResponseSumsToZero(result, payload);
    if |p| == 8 + |payload| {
      WordModulo(result, p[2], p[3]);
      WordModulo(|payload|, p[4], p[5]);
      if IsResponse(p, result, payload) {
        ResponseFrom(p, result, payload);
        ResponseSum(p[1], result, payload);
      }
    }
  }

  /** The bytes of `s` that start with a packet. */
  lemma Starts(s: seq<byte>, p: seq<byte>)
    requires |p| <= |s| && s[..|p|] == p
    ensures forall i :: 0 <= i < |p| ==> s[i] == p[i]
    ensures |p| >= HEADER ==> s[HEADER..|p|] == p[HEADER..]
  {
    assert forall i :: 0 <= i < |p| ==> s[i] == s[..|p|][i];
  }

  /** Over LPC every well-formed response that fits the caller's buffer is delivered exactly:
      its length is returned, its payload copied, and the buffer beyond it not touched. */
  lemma LpcDelivers(window: seq<byte>, insize: nat, buf: seq<byte>, result: int, payload: seq<byte>)
    requires |window| == LONGEST && |payload| <= insize <= |buf| && |payload| < 65536
    requires window[..HEADER + |payload|] == ResponsePacket(result, payload)
    ensures LpcOutcome(window, insize, buf) == Outcome(|payload|, payload + buf[|payload|..])
  {
    hide ResponsePacket, SumsToZero, Word;
    ResponseFields(result, payload);
    ResponseSumsToZero(result, payload);
    Starts(window, ResponsePacket(result, payload));
  }

  /** So does the servo bridge, except that it returns only the result. */
  lemma ServoDelivers(stream: seq<byte>, bodylen: nat, buf: seq<byte>, result: int, payload: seq<byte>)
    requires HEADER + |payload| <= |stream| && |payload| <= bodylen <= |buf| && |payload| < 65536
    requires 0 <= result < 65536
    requires stream[..HEADER + |payload|] == ResponsePacket(result, payload)
    ensures ServoOutcome(stream, bodylen, buf)
         == Outcome(if result == 0 then 0 else -EECRESULT - result, payload + buf[|payload|..])
  {
    hide ResponsePacket, SumsToZero, Word;
    ResponseFields(result, payload);
    ResponseSumsToZero(result, payload);
    Starts(stream, ResponsePacket(result, payload));
  }

  /** Over I2C the payload arrives as well, and the rest of the receive buffer behind it. */
  lemma I2cDelivers(resp: seq<byte>, insize: nat, buf: seq<byte>, result: int, payload: seq<byte>)
    requires |resp| == 2 + HEADER + insize && |payload| <= insize <= |buf|
    requires resp[0] == 0 && resp[1] == HEADER + |payload|
    requires resp[2..][..HEADER + |payload|] == ResponsePacket(result, payload)
    ensures I2cOutcome(resp, insize, buf)
         == Outcome(|payload|, payload + resp[2 + HEADER + |payload|..] + buf[insize..])
  {
    hide ResponsePacket, SumsToZero, Word;
    ResponseFields(result, payload);
    ResponseSumsToZero(result, payload);
    var s := resp[2..];
    Starts(s, ResponsePacket(result, payload));
    assert forall i :: 0 <= i < |s| ==> s[i] == resp[2 + i];
    assert resp[2..2 + resp[1]] == s[..HEADER + |payload|];
    assert resp[2 + HEADER..] == s[HEADER..] == s[HEADER..HEADER + |payload|] + s[HEADER + |payload|..];
    assert s[HEADER + |payload|..] == resp[2 + HEADER + |payload|..];
  }

  // ---- what the checks refuse, and how ------------------------------------------------------

  /** Which error LPC gives: 5 for a response it does not know, 14 for one too long for the caller,
      and then 7 for a wrong sum. Only in the last case has the caller's buffer been written. */
  lemma LpcCodes(window: seq<byte>, insize: nat, buf: seq<byte>)
    requires |window| == LONGEST && insize <= |buf|
    ensures window[0] != 3 || window[6] != 0 || window[7] != 0 ==>
              LpcOutcome(window, insize, buf) == Outcome(-5, buf)
    ensures window[0] == 3 && window[6] == 0 && window[7] == 0 ==>
              var len := window[4] as int + 256 * window[5] as int;
              LpcOutcome(window, insize, buf)
              == if len > insize then Outcome(-14, buf)
              else Outcome(if Sum(window[..8 + len]) % 256 == 0 then len else -7,
                           window[8..8 + len] + buf[len..])
  {
    hide Sum, SumsToZero, Word;
    var len := window[4] as int + 256 * window[5] as int;
    WordIs(window[4], window[5]);
    WordIs(window[6], window[7]);
    SumIs(window[..8 + len]);
  }

  lemma WordIs(low: byte, high: byte)
    ensures Word(low, high) == low as int + 256 * high as int
    ensures Word(low, high) == 0 <==> low == 0 && high == 0
  {
  }

  lemma SumIs(s: seq<byte>)
    ensures SumsToZero(s) <==> Sum(s) % 256 == 0
  {
  }

  /** LPC takes exactly the well-formed responses that fit. */
  lemma LpcTakesIff(window: seq<byte>, insize: nat, buf: seq<byte>)
    requires |window| == LONGEST && insize <= |buf|
    ensures LpcOutcome(window, insize, buf).ret >= 0
       <==> exists result: int, payload: seq<byte> ::
              && |payload| <= insize && 8 + |payload| <= |window|
              && window[..8 + |payload|] == ResponsePacket(result, payload)
  {
    hide Sum, LpcOutcome, ResponsePacket;
    LpcCodes(window, insize, buf);
    var len := window[4] as int + 256 * window[5] as int;
    if LpcOutcome(window, insize, buf).ret >= 0 {
      var result, p := window[2] as int + 256 * window[3] as int, window[..8 + len];
      assert p[8..] == window[8..8 + len];
      ResponseLayout(p, result, p[8..]);
      assert |p[8..]| == len;
    } else {
      forall result: int, payload: seq<byte> | |payload| <= insize && 8 + |payload| <= |window|
        ensures window[..8 + |payload|] != ResponsePacket(result, payload)
      {
        if window[..8 + |payload|] == ResponsePacket(result, payload) {
          LpcDelivers(window, insize, buf, result, payload);
        }
      }
    }
  }

  /** The bridge gives the one error 2 for everything it refuses. What has arrived of a body that
      fits is in the caller's buffer. */
  lemma ServoCodes(stream: seq<byte>, bodylen: nat, buf: seq<byte>)
    requires bodylen <= |buf|
    ensures |stream| < 8 ==> ServoOutcome(stream, bodylen, buf) == Outcome(-2, buf)
    ensures |stream| >= 8 ==>
              var o, len := ServoOutcome(stream, bodylen, buf), stream[4] as int + 256 * stream[5] as int;
              var end := if |stream| < 8 + len then |stream| else 8 + len;
              && (o.ret == -2 <==> stream[0] != 3 || len > bodylen || |stream| < 8 + len
                                   || Sum(stream[..8 + len]) % 256 != 0)
              && (o.ret != -2 ==>
                    o.ret == if stream[2] == 0 && stream[3] == 0 then 0
                    else -1000 - (stream[2] as int + 256 * stream[3] as int))
              && o.data == if stream[0] != 3 || len > bodylen then buf else stream[8..end] + buf[end - 8..]
  {
    hide Sum;
  }

  /** I2C gives the result code of the frame first, then 14 for a frame too long, 5 for a response it
      does not know and 7 for a wrong sum. It writes the caller's buffer only when it takes the
      response. */
  lemma I2cCodes(resp: seq<byte>, insize: nat, buf: seq<byte>)
    requires |resp| == 2 + HEADER + insize && insize <= |buf|
    ensures var o := I2cOutcome(resp, insize, buf);
            && (o.ret <= -1000 <==> resp[0] != 0) && (resp[0] != 0 ==> o.ret == -1000 - resp[0] as int)
            && (o.ret == -14 <==> resp[0] == 0 && resp[1] as int > 8 + insize)
            && (o.ret == -5 <==> resp[0] == 0 && resp[1] as int <= 8 + insize && resp[2] != 3)
            && (o.ret == -7 <==> && resp[0] == 0 && resp[1] as int <= 8 + insize && resp[2] == 3
                                 && Sum(resp[2..2 + resp[1]]) % 256 != 0)
            && (o.ret >= 0 ==>
                  o.ret == resp[6] as int + 256 * resp[7] as int && o.data == resp[10..] + buf[insize..])
            && (o.ret < 0 ==> (resp[0] != 0 || o.ret == -14 || o.ret == -5 || o.ret == -7) && o.data == buf)
  {
    hide Sum;
  }

  /** A response changed in one header or payload byte outside the length field is refused over
      LPC: as unknown if the version or the reserved field is wrong, as too long if it does not
      fit, and otherwise for its sum. */
  lemma LpcRefusesOneBadByte(window: seq<byte>, insize: nat, buf: seq<byte>,
                             result: int, payload: seq<byte>, k: nat, b: byte)
    requires |window| == LONGEST && insize <= |buf| && |payload| < 65536
    requires k < HEADER + |payload| && k != 4 && k != 5
    requires b != ResponsePacket(result, payload)[k]
    requires window[..HEADER + |payload|] == ResponsePacket(result, payload)[k := b]
    ensures LpcOutcome(window, insize, buf).ret
         == if k == 0 || k == 6 || k == 7 then -5 else if |payload| > insize then -14 else -7
  {
    hide ResponsePacket, SumsToZero, Word, Low, High, Sum, LpcOutcome;
    var p := ResponsePacket(result, payload);
    ResponseParts(result, payload);
    ResponseFields(result, payload);
    ResponseSumsToZero(result, payload);
    OneByteShows(p, k, b);
    Starts(window, p[k := b]);
    WordIs(p[4], p[5]);
    SumIs(p[k := b]);
    LpcCodes(window, insize, buf);
  }

  /** The servo bridge refuses it too, and not with the negative value it returns for a response
      that carries an error result, whatever result it has read. */
  lemma ServoRefusesOneBadByte(stream: seq<byte>, bodylen: nat, buf: seq<byte>,
                               result: int, payload: seq<byte>, k: nat, b: byte)
    requires HEADER + |payload| <= |stream| && bodylen <= |buf| && |payload| < 65536
    requires k < HEADER + |payload| && k != 4 && k != 5
    requires b != ResponsePacket(result, payload)[k]
    requires stream[..HEADER + |payload|] == ResponsePacket(result, payload)[k := b]
    ensures ServoOutcome(stream, bodylen, buf).ret == -2
  {
    hide ResponsePacket, SumsToZero, Word;
    var p := ResponsePacket(result, payload);
    ResponseFields(result, payload);
    ResponseSumsToZero(result, payload);
    OneByteShows(p, k, b);
    Starts(stream, p[k := b]);
  }

  /** Over I2C the frame has its own length byte, and where that is right, one wrong byte of the
      packet is refused wherever it is, in the length field too. */
  lemma I2cRefusesOneBadByte(resp: seq<byte>, insize: nat, buf: seq<byte>,
                             result: int, payload: seq<byte>, k: nat, b: byte)
    requires |resp| == 2 + HEADER + insize && insize <= |buf| && |payload| < 65536
    requires k < HEADER + |payload| == resp[1] && 2 + resp[1] <= |resp|
    requires b != ResponsePacket(result, payload)[k]
    requires resp[2..2 + resp[1]] == ResponsePacket(result, payload)[k := b]
    ensures I2cOutcome(resp, insize, buf).ret < 0
  {
    hide ResponsePacket, SumsToZero;
    ResponseSumsToZero(result, payload);
    OneByteShows(ResponsePacket(result, payload), k, b);
  }

  /** Over I2C a call returns more than the caller asked for only if the length byte of the frame
      contradicts the length in the header, which is held against nothing: exactly if the header
      announces more and the frame passes. */
  lemma I2cReturnsTooMuchIff(resp: seq<byte>, insize: nat, buf: seq<byte>)
    requires |resp| == 2 + HEADER + insize && insize <= |buf|
    ensures I2cOutcome(resp, insize, buf).ret > insize ==> resp[1] < HEADER + Word(resp[6], resp[7])
    ensures I2cOutcome(resp, insize, buf).ret > insize
       <==> && resp[0] == 0 && resp[1] <= HEADER + insize && resp[2] == RESPONSE_VERSION
            && SumsToZero(resp[2..2 + resp[1]]) && insize < Word(resp[6], resp[7])
  {
    hide SumsToZero, Word;
  }

  /** A frame of length zero is not even summed: this one returns 65535 for a buffer of none. */
  lemma I2cReturnsTooMuch()
    ensures I2cOutcome([0, 0, 3, 0, 0, 0, 0xFF, 0xFF, 0, 0], 0, []).ret == 65535
  {
    var resp: seq<byte> := [0, 0, 3, 0, 0, 0, 0xFF, 0xFF, 0, 0];
    assert resp[2..2] == [];
    assert SumsToZero(resp[2..2 + resp[1]]) by {
      NoBytes();
    }
  }

  /** The difference `x` does not show in a sum modulo 256. */
  predicate Vanishes(x: int) {
    x % 256 == 0
  }

  /** What a wrong length byte does over LPC: the response is taken exactly when the claimed
      payload fits, and the bytes it adds or drops make up for the change. */
  lemma LpcBadLengthIff(window: seq<byte>, insize: nat, buf: seq<byte>,
                        result: int, payload: seq<byte>, k: nat, b: byte)
    requires |window| == LONGEST && insize <= |buf| && |payload| < 65536 && (k == 4 || k == 5)
    requires window[..HEADER + |payload|] == ResponsePacket(result, payload)[k := b]
    ensures var was := ResponsePacket(result, payload)[k];
            var len := Word(window[4], window[5]);
            LpcOutcome(window, insize, buf).ret >= 0
            <==> && len <= insize
                 && Vanishes(b - was + if len >= |payload| then Sum(window[HEADER + |payload|..HEADER + len])
                             else -Sum(payload[len..]))
  {
    hide ResponsePacket, Sum, Word;
    var p := ResponsePacket(result, payload);
    var len := Word(window[4], window[5]);
    ResponseFields(result, payload);
    ResponseSumsToZero(result, payload);
    SumUpdate(p, k, b);
    Starts(window, p[k := b]);
    var end := HEADER + |payload|;
    if len >= |payload| {
      assert window[..HEADER + len] == p[k := b] + window[end..HEADER + len];
      SumAppend(p[k := b], window[end..HEADER + len]);
      ZeroPlus(Sum(p), b - p[k] + Sum(window[end..HEADER + len]));
    } else {
      assert payload[len..] == p[HEADER + len..] == p[k := b][HEADER + len..];
      assert p[k := b] == window[..HEADER + len] + payload[len..];
      SumAppend(window[..HEADER + len], payload[len..]);
      ZeroPlus(Sum(p), b - p[k] - Sum(payload[len..]));
    }
  }

  lemma ZeroPlus(x: int, y: int)
    requires x % 256 == 0
    ensures (x + y) % 256 == 0 <==> Vanishes(y)
  {
  }

  /** So not every wrong length is refused: a response whose payload is the byte 0xFF passes as
      an empty one when its length is read as zero. */
  lemma LpcTakesBadLength(window: seq<byte>, insize: nat, buf: seq<byte>, result: int, payload: seq<byte>)
    requires |window| == LONGEST && insize <= |buf|
    requires payload == [0xFF]
    requires window[..HEADER + 1] == ResponsePacket(result, payload)[4 := 0]
    ensures Word(ResponsePacket(result, payload)[4], ResponsePacket(result, payload)[5]) == 1
    ensures LpcOutcome(window, insize, buf).ret == 0
  {
    hide ResponsePacket, Sum, SumsToZero, LpcOutcome, Word, Vanishes;
    WrongLengthFacts(window, result, payload);
    LengthOfOne();
    ResponseFields(result, payload);
    var o := LpcOutcome(window, insize, buf);
    LpcBadLengthIff(window, insize, buf, result, payload, 4, 0);
    assert o.ret >= 0;
    LpcReturnsLength(window, insize, buf);
  }

  lemma WrongLengthFacts(window: seq<byte>, result: int, payload: seq<byte>)
    requires |window| == LONGEST && payload == [0xFF]
    requires window[..HEADER + 1] == ResponsePacket(result, payload)[4 := 0]
    ensures Word(window[4], window[5]) == 0 && ResponsePacket(result, payload)[4] == 1
    ensures Sum(payload[0..]) == 255
  {
    hide ResponsePacket, Sum, Low, High, Word;
    LengthOfOne();
    ResponseParts(result, payload);
    Starts(window, ResponsePacket(result, payload)[4 := 0]);
    SumOfOne(0xFF);
    assert payload[0..] == payload;
  }

  lemma LengthOfOne()
    ensures Low(1) == 1 && High(1) == 0 && Word(0, 0) == 0 && Vanishes(-256)
  {
  }

  lemma SumOfOne(b: byte)
    ensures Sum([b]) == b
  {
    SumNext([b], 0);
  }

  lemma LpcReturnsLength(window: seq<byte>, insize: nat, buf: seq<byte>)
    requires |window| == LONGEST && insize <= |buf|
    ensures var ret := LpcOutcome(window, insize, buf).ret;
            ret >= 0 ==> ret == Word(window[4], window[5])
  {
  }

  /** The two checks differ on the reserved field alone: LPC insists that it is zero. */
  lemma LpcServoAgree(bytes: seq<byte>, size: nat, buf: seq<byte>)
    requires |bytes| == LONGEST && size <= |buf|
    ensures var lpc, servo := LpcOutcome(bytes, size, buf), ServoOutcome(bytes, size, buf);
            && (lpc.ret >= 0 <==> servo.ret != RES_ERROR && Word(bytes[6], bytes[7]) == 0)
            && (lpc.ret >= 0 ==> lpc.data == servo.data)
  {
  }
}
