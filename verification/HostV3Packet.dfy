/** Host command protocol V3: the layout of its packets (include/ec_commands.h), and what makes
    them valid. All bytes of a packet add up to zero modulo 256.
 */
module HostV3Packet {
  import opened Wrappers

  type byte = b: int | 0 <= b < 256

  const REQUEST_VERSION: byte := 3
  const RESPONSE_VERSION: byte := 3

  /** The size of a request header and of a response header. */
  const HEADER: nat := 8

  function Sum(s: seq<byte>): int {
    if s == [] then 0 else Sum(s[..|s| - 1]) + s[|s| - 1]
  }

  /** The bytes add up to zero in a uint8_t. */
  predicate SumsToZero(s: seq<byte>) {
    Sum(s) % 256 == 0
  }

  /** Conversion to uint8_t. */
  function Low(x: int): byte {
    x % 256
  }

  /** The second byte of the conversion to uint16_t. */
  function High(x: int): byte {
    x / 256 % 256
  }

  function Word(low: byte, high: byte): (w: nat)
    ensures w < 65536
  {
    low + 256 * high
  }

  /** struct ec_host_request. */
  function RequestHeader(checksum: byte, command: int, version: int, len: int): (h: seq<byte>)
    ensures |h| == HEADER
  {
    [REQUEST_VERSION, checksum, Low(command), High(command), Low(version), 0, Low(len), High(len)]
  }

  /** The request packet for a command: the checksum byte makes its sum zero. */
  function RequestPacket(command: int, version: int, payload: seq<byte>): (p: seq<byte>)
    ensures |p| == HEADER + |payload|
  {
    var blank := RequestHeader(0, command, version, |payload|);
    RequestHeader(Low(-Sum(blank + payload)), command, version, |payload|) + payload
  }

  /** struct ec_host_response. */
  function ResponseHeader(checksum: byte, result: int, len: int): (h: seq<byte>)
    ensures |h| == HEADER
  {
    [RESPONSE_VERSION, checksum, Low(result), High(result), Low(len), High(len), 0, 0]
  }

  /** A well-formed response. */
  function ResponsePacket(result: int, payload: seq<byte>): (p: seq<byte>)
    ensures |p| == HEADER + |payload|
  {
    var blank := ResponseHeader(0, result, |payload|);
    ResponseHeader(Low(-Sum(blank + payload)), result, |payload|) + payload
  }

  /** A request packet, byte by byte; a value too big for its field is cut down to it. */
  predicate IsRequest(p: seq<byte>, command: int, version: int, payload: seq<byte>) {
    && |p| == 8 + |payload| && p[8..] == payload
    && p[0] == 3 && p[5] == 0
    && p[2] as int + 256 * p[3] as int == command % 65536
    && p[4] == version % 256
    && p[6] as int + 256 * p[7] as int == |payload| % 65536
    && Sum(p) % 256 == 0
  }

  /** A response packet, byte by byte. */
  predicate IsResponse(p: seq<byte>, result: int, payload: seq<byte>) {
    && |p| == 8 + |payload| && p[8..] == payload
    && p[0] == 3 && p[6] == 0 && p[7] == 0
    && p[2] as int + 256 * p[3] as int == result % 65536
    && p[4] as int + 256 * p[5] as int == |payload| % 65536
    && Sum(p) % 256 == 0
  }

  datatype Request = Request(command: int, version: int, payload: seq<byte>)

  /** How the EC reads the packet at the start of `bytes`. */
  function DecodeRequest(bytes: seq<byte>): Option<Request> {
    if |bytes| < HEADER || bytes[0] != REQUEST_VERSION then None
    else
      var end := HEADER + Word(bytes[6], bytes[7]);
      if |bytes| < end || !SumsToZero(bytes[..end]) then None
      else Some(Request(Word(bytes[2], bytes[3]), bytes[4], bytes[HEADER..end]))
  }

  // ---- sums ------------------------------------------------------------------------------

  lemma {:induction false} SumAppend(a: seq<byte>, b: seq<byte>)
    ensures Sum(a + b) == Sum(a) + Sum(b)
    decreases |b|
  {
    if b == [] {
      assert a + b == a;
    } else {
      assert (a + b)[..|a + b| - 1] == a + b[..|b| - 1];
      SumAppend(a, b[..|b| - 1]);
    }
  }

  lemma SumNext(s: seq<byte>, i: nat)
    requires i < |s|
    ensures Sum(s[..i + 1]) == Sum(s[..i]) + s[i]
  {
    assert s[..i + 1][..i] == s[..i];
  }

  lemma {:induction false} SumUpdate(s: seq<byte>, k: nat, b: byte)
    requires k < |s|
    ensures Sum(s[k := b]) == Sum(s) - s[k] + b
    decreases |s|
  {
    var n := |s| - 1;
    if k < n {
      assert s[k := b][..n] == s[..n][k := b];
      SumUpdate(s[..n], k, b);
    } else {
      assert s[k := b][..n] == s[..n];
    }
  }

  /** Changing one byte changes the sum modulo 256. */
  lemma OneByteShows(s: seq<byte>, k: nat, b: byte)
    requires k < |s| && b != s[k] && SumsToZero(s)
    ensures !SumsToZero(s[k := b])
  {
    SumUpdate(s, k, b);
  }

  /** Setting a zero checksum byte to minus the sum makes the sum zero. */
  lemma ChecksumCancels(blank: seq<byte>, c: byte)
    requires |blank| > 1 && blank[1] == 0
    ensures SumsToZero(blank[1 := c]) <==> c == Low(-Sum(blank))
  {
    hide Sum;
    SumUpdate(blank, 1, c);
    MinusModulo(Sum(blank), c);
  }

  lemma MinusModulo(x: int, c: byte)
    ensures (x + c) % 256 == 0 <==> c == -x % 256
  {
  }

  lemma UpdatesEqual(s: seq<byte>, b: byte, c: byte)
    requires |s| > 1
    ensures s[1 := b] == s[1 := c] <==> b == c
  {
    assert s[1 := b][1] == b && s[1 := c][1] == c;
  }

  lemma PacketsEqual(command: int, version: int, payload: seq<byte>, b: byte, c: byte)
    ensures (RequestHeader(b, command, version, |payload|) + payload
             == RequestHeader(c, command, version, |payload|) + payload) <==> b == c
  {
    var blank := RequestHeader(0, command, version, |payload|) + payload;
    HeaderUpdate(b, command, version, payload);
    HeaderUpdate(c, command, version, payload);
    UpdatesEqual(blank, b, c);
    hide RequestHeader;
  }

  lemma PacketSum(command: int, version: int, payload: seq<byte>, c: byte)
    ensures var blank := RequestHeader(0, command, version, |payload|) + payload;
            SumsToZero(RequestHeader(c, command, version, |payload|) + payload)
            <==> c == Low(-Sum(blank))
  {
    var blank := RequestHeader(0, command, version, |payload|) + payload;
    HeaderUpdate(c, command, version, payload);
    ChecksumCancels(blank, c);
    hide RequestHeader, Sum, Low, SumsToZero;
  }

  /** Every request packet adds up to zero, and no other checksum byte would do. */
  lemma RequestSumsToZero(command: int, version: int, payload: seq<byte>, c: byte)
    ensures SumsToZero(RequestHeader(c, command, version, |payload|) + payload)
       <==> RequestHeader(c, command, version, |payload|) + payload == RequestPacket(command, version, payload)
  {
    hide Sum, Low, RequestHeader, SumsToZero;
    var blank := RequestHeader(0, command, version, |payload|) + payload;
    PacketSum(command, version, payload, c);
    PacketsEqual(command, version, payload, c, Low(-Sum(blank)));
  }

  lemma HeaderUpdate(c: byte, command: int, version: int, payload: seq<byte>)
    ensures var blank := RequestHeader(0, command, version, |payload|) + payload;
            blank[1] == 0 && RequestHeader(c, command, version, |payload|) + payload == blank[1 := c]
  {
    hide Low, High;
  }

  lemma ResponseSumsToZero(result: int, payload: seq<byte>)
    ensures SumsToZero(ResponsePacket(result, payload))
  {
    var blank := ResponseHeader(0, result, |payload|) + payload;
    assert ResponsePacket(result, payload) == blank[1 := Low(-Sum(blank))];
    ChecksumCancels(blank, Low(-Sum(blank)));
  }

  lemma WordOfSmall(x: int)
    requires 0 <= x < 65536
    ensures Word(Low(x), High(x)) == x
  {
    var q := x / 256;
    assert 0 <= q < 256;
    assert q % 256 == q;
    assert x == 256 * q + x % 256;
  }

  /** A number survives the conversion to uint16_t exactly when it fits. */
  lemma WordFits(x: int)
    ensures Word(Low(x), High(x)) == x <==> 0 <= x < 65536
  {
    hide Low, High, Word;
    if 0 <= x < 65536 {
      WordOfSmall(x);
    }
  }

  lemma LowFits(x: int)
    ensures Low(x) == x <==> 0 <= x < 256
  {
  }

  /** The EC recovers command, version and payload exactly when each fits its field, whatever
      bytes follow the packet. */
  lemma RequestRoundTrip(command: int, version: int, payload: seq<byte>, rest: seq<byte>)
    ensures DecodeRequest(RequestPacket(command, version, payload) + rest)
         == Some(Request(command, version, payload))
       <==> 0 <= command < 65536 && 0 <= version < 256 && |payload| < 65536
  {
    hide Sum, Low, High, Word, SumsToZero, RequestPacket;
    var p := RequestPacket(command, version, payload);
    var bytes := p + rest;
    PacketFields(command, version, payload, rest);
    RequestSumsToZero(command, version, payload, p[1]);
    WordFits(command);
    WordFits(|payload|);
    LowFits(version);
    if |payload| < 65536 {
      assert bytes[..HEADER + |payload|] == p && bytes[HEADER..HEADER + |payload|] == payload;
    }
  }

  /** The fields of a request packet, as the EC reads them. */
  lemma PacketFields(command: int, version: int, payload: seq<byte>, rest: seq<byte>)
    ensures var p := RequestPacket(command, version, payload);
            var bytes := p + rest;
            && bytes[0] == REQUEST_VERSION && bytes[4] == Low(version)
            && bytes[2] == Low(command) && bytes[3] == High(command)
            && bytes[6] == Low(|payload|) && bytes[7] == High(|payload|)
            && p == RequestHeader(p[1], command, version, |payload|) + payload
  {
    hide Sum, Low, High;
  }

  // ---- byte by byte ------------------------------------------------------------------------

  lemma WordModulo(x: int, low: byte, high: byte)
    ensures low + 256 * high == x % 65536 <==> low == Low(x) && high == High(x)
  {
    assert x % 65536 == x % 256 + 256 * (x / 256 % 256);
  }

  lemma RequestFrom(p: seq<byte>, command: int, version: int, payload: seq<byte>)
    requires |p| == 8 + |payload| && p[8..] == payload
    requires p[0] == 3 && p[5] == 0 && p[4] == Low(version)
    requires p[2] == Low(command) && p[3] == High(command) && p[6] == Low(|payload|) && p[7] == High(|payload|)
    ensures p == RequestHeader(p[1], command, version, |payload|) + payload
  {
    hide Low, High;
  }

  /** There is exactly one packet for a command, version and payload: the version 3, the reserved
      byte zero, the fields where the EC looks for them, and a zero sum. */
  lemma RequestLayout(p: seq<byte>, command: int, version: int, payload: seq<byte>)
    ensures IsRequest(p, command, version, payload) <==> p == RequestPacket(command, version, payload)
  {
    hide Sum, Low, High, RequestHeader, RequestPacket, Word;
    var q := RequestPacket(command, version, payload);
    RequestSumsToZero(command, version, payload, q[1]);
    PacketFields(command, version, payload, []);
    PacketReserved(command, version, payload);
    assert q + [] == q;
    if |p| == 8 + |payload| {
      WordModulo(command, p[2], p[3]);
      WordModulo(|payload|, p[6], p[7]);
      if IsRequest(p, command, version, payload) {
        RequestFrom(p, command, version, payload);
        RequestSumsToZero(command, version, payload, p[1]);
      }
    }
  }

  lemma PacketReserved(command: int, version: int, payload: seq<byte>)
    ensures var q := RequestPacket(command, version, payload);
            q[0] == 3 && q[5] == 0 && q[4] == version % 256 && q[8..] == payload
  {
    hide Sum, High;
  }
}
