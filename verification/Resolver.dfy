/** `DNSResolver` of `lib/asyncdns.cpp`, without its socket: sent packets and callback invocations are recorded. */
module Resolver {
  import opened Wrappers
  import opened Bytes
  import opened DnsMessage
  import opened DnsQuery
  import opened DnsParser
  import opened ResolverSpec

  /** One `sendto`. */
  datatype Datagram = Datagram(server: string, packet: seq<Byte>)

  const SERVERS := ["8.8.4.4", "8.8.8.8"]

  /** A packet is handled without undefined behaviour: it parses, and its first A record holds an address. */
  predicate Handleable(packet: seq<Byte>) {
    match ParseResponse(packet)
    case BadSection => false
    case Section(records, _) => AddressesComplete(records)
  }

  predicate AddressesComplete(records: seq<Record>) {
    records != [] ==> if records[0].rtype == TYPE_A then |records[0].rdata| >= 4 else AddressesComplete(records[1..])
  }

  class DnsResolver {
    const processId: Word
    var hostnameToCb: map<Host, seq<Callback>>
    var hostnameStatus: map<Host, int>
    var calls: seq<Call>
    var sent: seq<Datagram>

    function Abs(): State
      reads this
    {
      State(hostnameToCb, hostnameStatus, calls)
    }

    constructor (processId: Word)
      ensures Abs() == INITIAL && sent == [] && this.processId == processId
    {
      this.processId := processId;
      hostnameToCb, hostnameStatus, calls, sent := map[], map[], [], [];
    }

    method Resolve(hostname: Host, cb: Callback) returns (ghost skipped: Byte)
      requires 0 !in hostname && HEADER_LENGTH + (|hostname| + 3) + QUESTION_FIXED_LENGTH <= QUERY_BUFFER_SIZE
      modifies this
      ensures Abs() == Step(old(Abs()), Event.Resolve(hostname, cb))
      ensures var query := QueryPacket(processId, hostname, 1, skipped);
              sent == old(sent) + [Datagram("8.8.4.4", query), Datagram("8.8.8.8", query)]
    {
      if hostname !in hostnameToCb {
        hostnameToCb := hostnameToCb[hostname := []];
        hostnameStatus := hostnameStatus[hostname := STATUS_FIRST];
        skipped := SendReq(hostname, TYPE_A);
        hostnameToCb := hostnameToCb[hostname := hostnameToCb[hostname] + [cb]];
        assert [] + [cb] == [cb];
        assert hostnameToCb == old(hostnameToCb)[hostname := [cb]];
      } else {
        hostnameToCb := hostnameToCb[hostname := hostnameToCb[hostname] + [cb]];
        skipped := SendReq(hostname, TYPE_A);
      }
    }

    /** Builds the query in a buffer that is not zeroed and sends it to every server. */
    method SendReq(hostname: Host, queryType: Word) returns (ghost skipped: Byte)
      requires 0 !in hostname && HEADER_LENGTH + (|hostname| + 3) + QUESTION_FIXED_LENGTH <= QUERY_BUFFER_SIZE
      modifies this`sent
      ensures var query := QueryPacket(processId, hostname, queryType, skipped);
              sent == old(sent) + [Datagram("8.8.4.4", query), Datagram("8.8.8.8", query)]
    {
      var buf := new Byte[QUERY_BUFFER_SIZE];
      skipped := buf[HEADER_LENGTH + |hostname| + 1];
      var len := BuildQuery(buf, processId, hostname, queryType);
      ghost var all := [Datagram("8.8.4.4", buf[..len]), Datagram("8.8.8.8", buf[..len])];
      for i := 0 to |SERVERS|
        invariant buf[..len] == QueryPacket(processId, hostname, queryType, skipped)
        invariant sent == old(sent) + all[..i]
      {
        sent := sent + [Datagram(SERVERS[i], buf[..len])];
        assert all[..i + 1] == all[..i] + [all[i]];
      }
      assert all[..|SERVERS|] == all;
    }

    /** Invokes what is pending for `hostname`, in order, then clears it and its status. */
    method CallCallback(hostname: Host, ip: seq<Byte>)
      modifies this`hostnameToCb, this`hostnameStatus, this`calls
      ensures Abs() == Deliver(old(Abs()), hostname, ip)
    {
      if hostname !in hostnameToCb {
        return;
      }
      var callbacks := hostnameToCb[hostname];
      ghost var all := CallAll(callbacks, hostname, ip);
      for i := 0 to |callbacks|
        invariant calls == old(calls) + all[..i]
        invariant hostnameToCb == old(hostnameToCb) && hostnameStatus == old(hostnameStatus)
      {
        calls := calls + [Call(callbacks[i], hostname, ip)];
        assert all[..i + 1] == all[..i] + [all[i]];
      }
      assert all[..|callbacks|] == all;
      hostnameToCb := hostnameToCb[hostname := []];
      hostnameStatus := hostnameStatus - {hostname};
    }

    /** Parses a response and delivers its first A record, if any. */
    method HandleData(data: seq<Byte>)
      requires Handleable(data)
      modifies this
      ensures Abs() == Step(old(Abs()), Response(data)) && sent == old(sent)
    {
      var answers, count := ReadResponse(data);
      var hostname: Host := [];
      var ip: Option<seq<Byte>> := None;
      var i := 0;
      while i < count
        invariant 0 <= i <= count && ip.None?
        invariant answers[..] == ParseResponse(data).records
        invariant FirstAddress(answers[i..]) == FirstAddress(answers[..])
        invariant AddressesComplete(answers[i..])
      {
        hostname := answers[i].name;
        assert answers[i..][0] == answers[i] && answers[i..][1..] == answers[i + 1..];
        if answers[i].rtype == TYPE_A {
          ip := Some(answers[i].rdata[..4]);
          break;
        }
        i := i + 1;
      }
      if ip.Some? {
        CallCallback(hostname, ip.value);
      }
    }
  }
}
