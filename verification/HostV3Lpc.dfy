/** A whole V3 command over LPC: request, wait, result code, response. */
module HostV3Lpc {
  import opened Wrappers
  import opened HostV3Packet
  import opened HostV3Requests
  import opened HostV3Responses
  import opened LpcWait

  const HOST_DATA: nat := 0x200
  const WAIT_TIMEOUT: int := 1000000

  /** ec_command_lpc_3. The EC is given by what the polls of its status find, and by the ports
      as it leaves them. `sent` is the ports as the EC finds them, and `sleeps` what the wait
      slept. A wait that gives up has slept for a second, less the last five delays at most. */
  method EcCommandLpc3(ports: array<byte>, command: int, version: int, outdata: seq<byte>,
                       indata: array<byte>, insize: nat, busy: nat -> bool, after: seq<byte>)
    returns (ret: int, sent: seq<byte>, sleeps: seq<int>)
    requires ports.Length == PORTS == |after| && insize <= indata.Length && ports != indata
    modifies ports, indata
    ensures 8 + |outdata| > 256 ==>
              && ret == -13 && ports[..] == old(ports[..]) && indata[..] == old(indata[..]) && sleeps == []
    ensures 8 + |outdata| <= 256 ==>
              && Sends(old(ports[..]), sent, command, version, outdata)
              && (DecodeRequest(sent[0x800..]) == Some(Request(command, version, outdata))
                  <==> 0 <= command < 65536 && 0 <= version < 256)
    ensures 8 + |outdata| <= 256 ==>
              Total(sleeps) <= 1000000 && (TimesOut(busy, 1000000) ==> 990005 <= Total(sleeps))
    ensures 8 + |outdata| <= 256 ==>
              Outcome(ret, indata[..])
              == (if TimesOut(busy, 1000000) then Outcome(-2, old(indata[..]))
                  else if after[0x200] != 0 then Outcome(-1000 - after[0x200] as int, old(indata[..]))
                  else LpcOutcome(Window(after), insize, old(indata[..])))
  {
    hide Sends, DecodeRequest, Window, LpcOutcome, TimesOut, Total, Naps, Counter, Delay;
    ghost var before, buffer := ports[..], indata[..];
    ret := WriteLpc(ports, command, version, outdata);
    sent, sleeps := ports[..], [];
    if ret != 0 {
      return;
    }
    SentPacket(before, sent, command, version, outdata);
    var waited;
    waited, sleeps := WaitForEc(busy, WAIT_TIMEOUT);
    if waited != 0 {
      return RES_ERROR, sent, sleeps;
    }
    forall i | 0 <= i < PORTS {
      ports[i] := after[i];
    }
    assert ports[..] == after;
    if ports[HOST_DATA] != 0 {
      return -EECRESULT - ports[HOST_DATA], sent, sleeps;
    }
    assert indata[..] == buffer;
    ret := ReadLpc(ports, indata, insize);
    assert ports[..] == after;
  }

  /** What the EC finds at the ports of the window. */
  lemma SentPacket(before: seq<byte>, sent: seq<byte>, command: int, version: int, outdata: seq<byte>)
    requires Sends(before, sent, command, version, outdata)
    ensures |sent| == 0x1_0000 && 8 + |outdata| <= 256
    ensures sent[0x204] == 0xDA && sent[0x800] == 3 && sent[0x805] == 0 && sent[0x804] == version % 256
    ensures sent[0x802] as int + 256 * sent[0x803] as int == command % 65536
    ensures sent[0x806] as int + 256 * sent[0x807] as int == |outdata|
    ensures sent[0x808..0x808 + |outdata|] == outdata
    ensures DecodeRequest(sent[0x800..]) == Some(Request(command, version, outdata))
       <==> 0 <= command < 65536 && 0 <= version < 256
  {
    hide RequestPacket, DecodeRequest, Sum;
    var packet := sent[0x800..0x808 + |outdata|];
    RequestRoundTrip(command, version, outdata, sent[0x808 + |outdata|..]);
    assert sent[0x800..] == packet + sent[0x808 + |outdata|..];
    assert forall i :: 0 <= i < |packet| ==> packet[i] == sent[0x800 + i];
    assert packet[8..] == sent[0x808..0x808 + |outdata|];
  }
}
