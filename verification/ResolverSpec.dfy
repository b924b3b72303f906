/** What `DNSResolver` promises over any run of registrations and responses. */
module ResolverSpec {
  import opened Wrappers
  import opened Bytes
  import opened DnsName
  import opened DnsMessage
  import opened DnsQuery

  type Host = seq<Byte>

  /** The identity of a callback function pointer. */
  type Callback = int

  /** One invocation of a callback. */
  datatype Call = Call(callback: Callback, host: Host, ip: seq<Byte>)

  /** The two maps of the resolver, and the callbacks invoked so far. */
  datatype State = State(callbacks: map<Host, seq<Callback>>, status: map<Host, int>, calls: seq<Call>)

  const STATUS_FIRST := 0

  const INITIAL := State(map[], map[], [])

  datatype Event = Resolve(host: Host, callback: Callback) | Response(packet: seq<Byte>)

  datatype Delivery = Delivery(host: Host, ip: seq<Byte>)

  /** Owner and four address bytes of the first A record. */
  function FirstAddress(records: seq<Record>): Option<Delivery> {
    if records == [] then None
    else if records[0].rtype == TYPE_A then
      if |records[0].rdata| < 4 then None else Some(Delivery(records[0].name, records[0].rdata[..4]))
    else FirstAddress(records[1..])
  }

  /** What a response delivers: nothing when no A record is among its answers. */
  function Delivered(packet: seq<Byte>): Option<Delivery> {
    match ParseResponse(packet)
    case BadSection => None
    case Section(records, _) => FirstAddress(records)
  }

  function CallAll(callbacks: seq<Callback>, host: Host, ip: seq<Byte>): (calls: seq<Call>)
    ensures |calls| == |callbacks|
  {
    seq(|callbacks|, i requires 0 <= i < |callbacks| => Call(callbacks[i], host, ip))
  }

  function Pending(s: State, host: Host): seq<Callback> {
    if host in s.callbacks then s.callbacks[host] else []
  }

  /** `resolve`. */
  function Register(s: State, host: Host, callback: Callback): State {
    if host in s.callbacks then
      s.(callbacks := s.callbacks[host := s.callbacks[host] + [callback]])
    else
      s.(callbacks := s.callbacks[host := [callback]], status := s.status[host := STATUS_FIRST])
  }

  /** `call_callback`. */
  function Deliver(s: State, host: Host, ip: seq<Byte>): State {
    if host in s.callbacks then
      State(s.callbacks[host := []], s.status - {host}, s.calls + CallAll(s.callbacks[host], host, ip))
    else
      s
  }

  function Step(s: State, e: Event): State {
    match e
    case Resolve(host, callback) => Register(s, host, callback)
    case Response(packet) =>
      match Delivered(packet)
      case None => s
      case Some(d) => Deliver(s, d.host, d.ip)
  }

  function Run(s: State, history: seq<Event>): State
    decreases |history|
  {
    if history == [] then s else Run(Step(s, history[0]), history[1..])
  }

  // ----- The history of one host -----

  predicate Registers(e: Event, host: Host) {
    e.Resolve? && e.host == host
  }

  predicate Delivers(e: Event, host: Host) {
    e.Response? && Delivered(e.packet).Some? && Delivered(e.packet).value.host == host
  }

  /** Every callback registered for `host`, in order. */
  function Registrations(history: seq<Event>, host: Host): seq<Callback> {
    if history == [] then []
    else (if Registers(history[0], host) then [history[0].callback] else []) + Registrations(history[1..], host)
  }

  /** The address in the first response that delivers to `host`. */
  function FirstDelivery(history: seq<Event>, host: Host): Option<seq<Byte>> {
    if history == [] then None
    else if Delivers(history[0], host) then Some(Delivered(history[0].packet).value.ip)
    else FirstDelivery(history[1..], host)
  }

  /** Registrations that some later response delivers to, each with the address of the first such response. */
  function Answered(history: seq<Event>, host: Host): seq<Call> {
    if history == [] then []
    else
      var later := FirstDelivery(history[1..], host);
      (if Registers(history[0], host) && later.Some? then [Call(history[0].callback, host, later.value)] else [])
      + Answered(history[1..], host)
  }

  /** Registrations that no later response delivers to. */
  function Unanswered(history: seq<Event>, host: Host): seq<Callback> {
    if history == [] then []
    else
      (if Registers(history[0], host) && FirstDelivery(history[1..], host).None? then [history[0].callback] else [])
      + Unanswered(history[1..], host)
  }

  /** The calls made with `host`, in order. */
  function CallsFor(calls: seq<Call>, host: Host): seq<Call> {
    if calls == [] then []
    else (if calls[0].host == host then [calls[0]] else []) + CallsFor(calls[1..], host)
  }

  lemma {:induction false} CallsForConcat(a: seq<Call>, b: seq<Call>, host: Host)
    ensures CallsFor(a + b, host) == CallsFor(a, host) + CallsFor(b, host)
  {
    if a == [] {
      assert a + b == b;
    } else {
      CallsForConcat(a[1..], b, host);
      assert (a + b)[0] == a[0] && (a + b)[1..] == a[1..] + b;
      var first, x, y := if a[0].host == host then [a[0]] else [], CallsFor(a[1..], host), CallsFor(b, host);
      assert first + (x + y) == first + x + y;
    }
  }

  lemma {:induction false} CallsForAll(callbacks: seq<Callback>, to: Host, ip: seq<Byte>, host: Host)
    ensures CallsFor(CallAll(callbacks, to, ip), host) == if to == host then CallAll(callbacks, to, ip) else []
  {
    if callbacks != [] {
      CallsForAll(callbacks[1..], to, ip, host);
      var all := CallAll(callbacks, to, ip);
      assert all[1..] == CallAll(callbacks[1..], to, ip);
      assert all == [all[0]] + all[1..];
    }
  }

  /** Every status is the first one, 0. */
  predicate AllFirst(status: map<Host, int>) {
    forall host :: host in status ==> status[host] == 0
  }

  lemma {:induction false} RunAllFirst(s: State, history: seq<Event>)
    requires AllFirst(s.status)
    ensures AllFirst(Run(s, history).status)
    decreases |history|
  {
    hide Delivered;
    if history != [] {
      RunAllFirst(Step(s, history[0]), history[1..]);
    }
  }

  /** One event, seen by one host. */
  lemma StepForHost(s: State, e: Event, host: Host)
    ensures Pending(Step(s, e), host)
         == if Registers(e, host) then Pending(s, host) + [e.callback]
            else if Delivers(e, host) then []
            else Pending(s, host)
    ensures CallsFor(Step(s, e).calls, host)
         == CallsFor(s.calls, host)
            + if Delivers(e, host) then CallAll(Pending(s, host), host, Delivered(e.packet).value.ip) else []
    ensures host in Step(s, e).callbacks <==> host in s.callbacks || Registers(e, host)
  {
    hide Delivered;
    assert CallsFor(s.calls, host) + [] == CallsFor(s.calls, host);
    assert CallAll([], host, []) == [];
    if e.Response? && Delivered(e.packet).Some? {
      var d := Delivered(e.packet).value;
      if d.host in s.callbacks {
        CallsForConcat(s.calls, CallAll(s.callbacks[d.host], d.host, d.ip), host);
        CallsForAll(s.callbacks[d.host], d.host, d.ip, host);
      }
    }
  }

  /** From any state: what is pending after a run. */
  lemma {:induction false} RunPending(s: State, history: seq<Event>, host: Host)
    ensures Pending(Run(s, history), host)
         == (if FirstDelivery(history, host).None? then Pending(s, host) else []) + Unanswered(history, host)
    decreases |history|
  {
    hide Delivered;
    hide Step;
    hide Pending;
    if history != [] {
      StepForHost(s, history[0], host);
      RunPending(Step(s, history[0]), history[1..], host);
    }
  }

  /** The calls a run makes for what was pending before it. */
  function CallsBefore(s: State, history: seq<Event>, host: Host): seq<Call> {
    match FirstDelivery(history, host)
    case None => []
    case Some(ip) => CallAll(Pending(s, host), host, ip)
  }

  /** From any state: what has been called after a run. */
  lemma {:induction false} RunCalls(s: State, history: seq<Event>, host: Host)
    ensures CallsFor(Run(s, history).calls, host)
         == CallsFor(s.calls, host) + (CallsBefore(s, history, host) + Answered(history, host))
    decreases |history|
  {
    hide Delivered;
    hide Step;
    hide Pending;
    hide CallAll;
    hide CallsFor;
    if history != [] {
      var e, rest := history[0], history[1..];
      StepForHost(s, e, host);
      RunCalls(Step(s, e), rest, host);
      CallsSplit(s, e, rest, host);
      assert history == [e] + rest;
    }
  }

  lemma CallsSplit(s: State, e: Event, rest: seq<Event>, host: Host)
    ensures (if Delivers(e, host) then CallAll(Pending(s, host), host, Delivered(e.packet).value.ip) else [])
            + (CallsBefore(Step(s, e), rest, host) + Answered(rest, host))
         == CallsBefore(s, [e] + rest, host) + Answered([e] + rest, host)
  {
    hide Delivered;
    hide Step;
    hide Pending;
    hide CallAll;
    StepForHost(s, e, host);
    CallAllConcat(Pending(s, host), host);
    assert ([e] + rest)[1..] == rest;
  }

  lemma CallAllConcat(callbacks: seq<Callback>, host: Host)
    ensures forall cb, ip :: CallAll(callbacks + [cb], host, ip) == CallAll(callbacks, host, ip) + [Call(cb, host, ip)]
    ensures forall ip :: CallAll([], host, ip) == []
  {
  }

  /**
   Over every run: a host's pending list is exactly its registrations that no later response delivers to, and its calls
   are exactly the other registrations, each made once, in registration order, with the address of the first response
   that delivers to the host after the registration.
   */
  lemma DeliveryHistory(history: seq<Event>, host: Host)
    ensures Pending(Run(INITIAL, history), host) == Unanswered(history, host)
    ensures CallsFor(Run(INITIAL, history).calls, host) == Answered(history, host)
  {
    RunPending(INITIAL, history, host);
    RunCalls(INITIAL, history, host);
    CallAllConcat([], host);
  }

  function CallbacksOf(calls: seq<Call>): (callbacks: seq<Callback>)
    ensures |callbacks| == |calls|
  {
    if calls == [] then [] else [calls[0].callback] + CallbacksOf(calls[1..])
  }

  lemma {:induction false} NoneAnswered(history: seq<Event>, host: Host)
    requires FirstDelivery(history, host).None?
    ensures Answered(history, host) == [] && Unanswered(history, host) == Registrations(history, host)
    decreases |history|
  {
    hide Delivered;
    if history != [] {
      NoneAnswered(history[1..], host);
    }
  }

  lemma {:induction false} AnsweredFirst(history: seq<Event>, host: Host)
    ensures CallbacksOf(Answered(history, host)) + Unanswered(history, host) == Registrations(history, host)
    decreases |history|
  {
    hide Delivered;
    if history != [] {
      var rest := history[1..];
      AnsweredFirst(rest, host);
      if FirstDelivery(rest, host).None? {
        NoneAnswered(rest, host);
      } else if Registers(history[0], host) {
        var first := Call(history[0].callback, host, FirstDelivery(rest, host).value);
        assert ([first] + Answered(rest, host))[1..] == Answered(rest, host);
      } else {
        assert [] + Answered(rest, host) == Answered(rest, host);
        assert [] + Unanswered(rest, host) == Unanswered(rest, host);
      }
    }
  }

  /** No registration is lost, repeated or reordered: calls made, then pending, are the registrations. */
  lemma Conservation(history: seq<Event>, host: Host)
    ensures var s := Run(INITIAL, history);
            CallbacksOf(CallsFor(s.calls, host)) + Pending(s, host) == Registrations(history, host)
  {
    DeliveryHistory(history, host);
    AnsweredFirst(history, host);
  }

  // ----- The status map -----

  lemma StepStatus(s: State, e: Event, host: Host)
    requires s.status.Keys <= s.callbacks.Keys
    ensures Step(s, e).status.Keys <= Step(s, e).callbacks.Keys
    ensures host in Step(s, e).status
       <==> (host in s.status && !Delivers(e, host)) || (Registers(e, host) && host !in s.callbacks)
  {
    hide Delivered;
  }

  /** A registration for `host` comes first and no response delivers to it afterwards. */
  predicate FreshlyRegistered(history: seq<Event>, host: Host) {
    history != [] &&
      if Registers(history[0], host) then FirstDelivery(history[1..], host).None?
      else FreshlyRegistered(history[1..], host)
  }

  lemma {:induction false} RunStatus(s: State, history: seq<Event>, host: Host)
    requires s.status.Keys <= s.callbacks.Keys
    ensures host in Run(s, history).callbacks <==> host in s.callbacks || Registrations(history, host) != []
    ensures host in Run(s, history).status
       <==> if host in s.callbacks then host in s.status && FirstDelivery(history, host).None?
            else FreshlyRegistered(history, host)
    decreases |history|
  {
    hide Delivered;
    hide Step;
    if history != [] {
      StepForHost(s, history[0], host);
      StepStatus(s, history[0], host);
      RunStatus(Step(s, history[0]), history[1..], host);
    }
  }

  /**
   After every run a host has a status exactly when it was registered and no response has delivered to it since its
   first registration; the status is 0 and such a host has something pending. Host entries are never removed.
   */
  lemma StatusHistory(history: seq<Event>, host: Host)
    ensures var s := Run(INITIAL, history);
            && (host in s.status <==> FreshlyRegistered(history, host))
            && (host in s.status ==> s.status[host] == 0 && Pending(s, host) == Registrations(history, host) != [])
            && (host in s.callbacks <==> Registrations(history, host) != [])
  {
    RunStatus(INITIAL, history, host);
    RunAllFirst(INITIAL, history);
    if FreshlyRegistered(history, host) {
      DeliveryHistory(history, host);
      FreshIsUnanswered(history, host);
    }
  }

  lemma {:induction false} FreshIsUnanswered(history: seq<Event>, host: Host)
    requires FreshlyRegistered(history, host)
    ensures Answered(history, host) == [] && Unanswered(history, host) == Registrations(history, host) != []
    decreases |history|
  {
    hide Delivered;
    if Registers(history[0], host) {
      NoneAnswered(history[1..], host);
    } else {
      FreshIsUnanswered(history[1..], host);
    }
  }

  lemma {:induction false} StaleIsAnswered(history: seq<Event>, host: Host)
    requires !FreshlyRegistered(history, host) && Registrations(history, host) != []
    ensures Answered(history, host) != []
    decreases |history|
  {
    hide Delivered;
    if !Registers(history[0], host) {
      StaleIsAnswered(history[1..], host);
    }
  }

  /** A registered host keeps its status exactly until its first callback is called, and never gets it back. */
  lemma StatusMeansNeverCalled(history: seq<Event>, host: Host)
    ensures var s := Run(INITIAL, history);
            host in s.status <==> host in s.callbacks && CallsFor(s.calls, host) == []
  {
    StatusHistory(history, host);
    DeliveryHistory(history, host);
    if FreshlyRegistered(history, host) {
      FreshIsUnanswered(history, host);
    } else if Registrations(history, host) != [] {
      StaleIsAnswered(history, host);
    }
  }

  lemma {:induction false} RunOneMore(s: State, history: seq<Event>, e: Event)
    ensures Run(s, history + [e]) == Step(Run(s, history), e)
    decreases |history|
  {
    hide Step;
    if history == [] {
      assert history + [e] == [e];
      assert Run(Step(s, e), []) == Step(s, e);
    } else {
      assert (history + [e])[0] == history[0] && (history + [e])[1..] == history[1..] + [e];
      RunOneMore(Step(s, history[0]), history[1..], e);
    }
  }

  /** Once a host has been delivered to, a new registration is pending without a status. */
  lemma PendingWithoutStatus(history: seq<Event>, host: Host, callback: Callback)
    requires CallsFor(Run(INITIAL, history).calls, host) != []
    ensures var s := Run(INITIAL, history + [Resolve(host, callback)]);
            Pending(s, host) == Pending(Run(INITIAL, history), host) + [callback] && host !in s.status
  {
    hide Step;
    hide Run;
    hide CallsFor;
    var e := Resolve(host, callback);
    RunOneMore(INITIAL, history, e);
    StepForHost(Run(INITIAL, history), e, host);
    StatusMeansNeverCalled(history + [e], host);
    assert CallsFor(Run(INITIAL, history).calls, host) + [] == CallsFor(Run(INITIAL, history).calls, host);
  }

  /** The second server's reply for the same owner changes nothing. */
  lemma DuplicateReply(s: State, first: seq<Byte>, second: seq<Byte>)
    requires Delivered(first).Some? && Delivered(second).Some?
    requires Delivered(first).value.host == Delivered(second).value.host
    ensures Step(Step(s, Response(first)), Response(second)) == Step(s, Response(first))
  {
    hide Delivered;
    var d, e := Delivered(first).value, Delivered(second).value;
    if d.host in s.callbacks {
      var t := Deliver(s, d.host, d.ip);
      assert CallAll([], d.host, e.ip) == [];
      assert t.callbacks[d.host := []] == t.callbacks;
      assert t.status - {d.host} == t.status;
      assert t.calls + [] == t.calls;
    }
  }

  // ----- From a query to its callbacks -----

  /** An A record whose owner is only a pointer to the question name, at offset 12. */
  function PointedAnswer(host: Host, rclass: Word, ttl: LongWord, ip: seq<Byte>): Answer {
    Answer(Pointing(Root, Split(host), HEADER_LENGTH), TYPE_A, rclass, ttl, Address(ip))
  }

  /** The pointer to offset 12 is a prior occurrence of the host wherever its query name has been echoed. */
  lemma PointedAnswerFits(prefix: seq<Byte>, host: Host, rclass: Word, ttl: LongWord, ip: seq<Byte>)
    requires Survives(host) && |ip| == 4 && Holds(prefix, HEADER_LENGTH, EncodeHost(host) + [0])
    ensures AnswerFits(prefix, PointedAnswer(host, rclass, ttl, ip), false)
  {
    JoinOfSplit(host);
    JoinIsPlain(Split(host));
    SpellsInFull(prefix, HEADER_LENGTH, Split(host));
  }

  /** A reply to a query for a surviving host with one pointed answer meets what `MessageRoundTrip` asks. */
  lemma PointedMessageFits(m: Message, host: Host, rclass: Word, ttl: LongWord, ip: seq<Byte>)
    requires Survives(host) && |ip| == 4 && |m.head| == 4 && m.question == Split(host)
    requires m.answers == [PointedAnswer(host, rclass, ttl, ip)] && m.authority == [] && m.additional == []
    ensures m.Headed() && SectionFits(m.Start(), m.answers, false)
    ensures SectionFits(m.ToAuthority(), m.authority, true) && SectionFits(m.ToAdditional(), m.additional, false)
  {
    hide AnswerFits;
    hide Message.Header;
    hide Message.Question;
    hide Answer.Bytes;
    hide Holds;
    SurvivingWireHasNoZero(host);
    StartHoldsName(m, host);
    PointedAnswerFits(m.Start(), host, rclass, ttl, ip);
  }

  lemma StartHoldsName(m: Message, host: Host)
    requires |m.head| == 4 && m.question == Split(host)
    ensures Holds(m.Start(), HEADER_LENGTH, EncodeHost(host) + [0])
  {
    var w, fixed := EncodeHost(host) + [0], Be16(m.qtype) + Be16(m.qclass);
    assert m.Start()[0..|m.Start()|] == m.Header() + (w + fixed);
    HoldsConcat(m.Start(), 0, m.Header(), w + fixed);
    HoldsConcat(m.Start(), HEADER_LENGTH, w, fixed);
  }

  lemma PointedRecordReads(reply: seq<Byte>, prefix: seq<Byte>, host: Host, rclass: Word, ttl: LongWord,
                           ip: seq<Byte>)
    requires Survives(host) && |ip| == 4 && prefix <= reply
    requires Holds(prefix, HEADER_LENGTH, EncodeHost(host) + [0])
    requires Holds(reply, |prefix|, PointedAnswer(host, rclass, ttl, ip).Bytes())
    ensures ParseRecord(reply, |prefix|, false).Parsed?
    ensures ParseRecord(reply, |prefix|, false).record == Record(host, TYPE_A, rclass, ttl, 4, ip)
  {
    hide ParseRecord;
    hide AnswerFits;
    hide Answer.Bytes;
    var a := PointedAnswer(host, rclass, ttl, ip);
    PointedAnswerFits(prefix, host, rclass, ttl, ip);
    AnswerRoundTrip(reply, prefix, a, false);
    JoinOfSplit(host);
  }

  /** The first of `records` of type 1 is the one at `k`. */
  predicate FirstOfTypeA(records: seq<Record>, k: nat) {
    k < |records| && records[k].rtype == 1 && forall j :: 0 <= j < k ==> records[j].rtype != 1
  }

  lemma {:induction false} FirstAddressAt(records: seq<Record>, k: nat)
    requires FirstOfTypeA(records, k) && |records[k].rdata| >= 4
    ensures FirstAddress(records) == Some(Delivery(records[k].name, records[k].rdata[..4]))
    decreases k
  {
    if k > 0 {
      assert records[0].rtype != 1;
      FirstAddressAt(records[1..], k - 1);
    }
  }

  lemma {:induction false} NoAddress(records: seq<Record>)
    requires forall j :: 0 <= j < |records| ==> records[j].rtype != 1
    ensures FirstAddress(records) == None
  {
    if records != [] {
      assert records[0].rtype != 1;
      NoAddress(records[1..]);
    }
  }

  /** Each of `pending` called once, in order, for `host` with the address `ip`. */
  predicate CalledEach(calls: seq<Call>, pending: seq<Callback>, host: Host, ip: seq<Byte>) {
    |calls| == |pending| && forall i :: 0 <= i < |calls| ==> calls[i] == Call(pending[i], host, ip)
  }

  /**
   The first answer of type 1, wherever it stands, decides: everything pending for its owner is called with its first
   four bytes and cleared, and no other host is touched, not even one for which an alias record stands before it.
   */
  lemma ResponseCalls(s: State, packet: seq<Byte>, k: nat)
    requires ParseResponse(packet).Section? && FirstOfTypeA(ParseResponse(packet).records, k)
    requires |ParseResponse(packet).records[k].rdata| >= 4
    ensures var t, a := Step(s, Response(packet)), ParseResponse(packet).records[k];
            && |s.calls| <= |t.calls| && t.calls[..|s.calls|] == s.calls
            && CalledEach(t.calls[|s.calls|..], Pending(s, a.name), a.name, a.rdata[..4])
            && Pending(t, a.name) == [] && (a.name in s.callbacks ==> a.name !in t.status)
            && forall other :: other != a.name ==>
                 Pending(t, other) == Pending(s, other) && (other in t.status <==> other in s.status)
  {
    hide ParseResponse;
    FirstAddressAt(ParseResponse(packet).records, k);
    var a := ParseResponse(packet).records[k];
    var all := CallAll(Pending(s, a.name), a.name, a.rdata[..4]);
    assert CalledEach(all, Pending(s, a.name), a.name, a.rdata[..4]);
    assert CallAll([], a.name, a.rdata[..4]) == [];
    assert s.calls + [] == s.calls;
    assert (s.calls + all)[|s.calls|..] == all;
  }

  /** A response without an answer of type 1 changes nothing. */
  lemma ResponseWithoutAddress(s: State, packet: seq<Byte>)
    requires ParseResponse(packet).Section?
    requires forall j :: 0 <= j < |ParseResponse(packet).records| ==> ParseResponse(packet).records[j].rtype != 1
    ensures Step(s, Response(packet)) == s
  {
    NoAddress(ParseResponse(packet).records);
  }

  lemma {:induction false} SectionSplit(packet: seq<Byte>, pos: nat, k: nat, n: nat)
    requires k <= n && ParseSection(packet, pos, k, false).Section?
    ensures var before := ParseSection(packet, pos, k, false);
            var rest := ParseSection(packet, before.end, n - k, false);
            && |before.records| == k && before.end >= pos
            && ParseSection(packet, pos, n, false) ==
                 if rest.BadSection? then BadSection else Section(before.records + rest.records, rest.end)
    decreases k
  {
    hide ParseRecord;
    if k == 0 {
      var rest := ParseSection(packet, pos, n, false);
      assert rest.Section? ==> [] + rest.records == rest.records;
    } else {
      var first := ParseRecord(packet, pos, false);
      RecordOfNames(packet, pos, false);
      SectionSplit(packet, first.next, k - 1, n - 1);
      var before := ParseSection(packet, first.next, k - 1, false);
      var rest := ParseSection(packet, before.end, n - k, false);
      assert rest.Section? ==>
          [first.record] + (before.records + rest.records) == [first.record] + before.records + rest.records;
    }
  }

  /**
   End to end: a query for `host` is built over a buffer whose skipped byte is zero, and a reply echoes its question.
   Its answers are any readable records that are no A records, then an A record whose owner is a compression pointer
   to offset 12, then any readable records. Then every pending callback of the host is called once, in order, with the
   host itself and the address; nothing is left pending for it; other hosts keep what they had.
   */
  lemma EndToEnd(s: State, id: Word, host: Host, reply: seq<Byte>, before: seq<Record>, at: nat, rclass: Word,
                 ttl: LongWord, ip: seq<Byte>)
    requires Survives(host) && |ip| == 4
    requires var query := QueryPacket(id, host, 1, 0);
             && |query| <= |reply| && reply[12..|query|] == query[12..]
             && ParseSection(reply, |query|, |before|, false) == Section(before, at)
             && Holds(reply, at, [192, 12, 0, 1] + Be16(rclass) + Be32(ttl) + [0, 4] + ip)
    requires forall j :: 0 <= j < |before| ==> before[j].rtype != 1
    requires var n := Octets16(reply[6], reply[7]);
             n == |before| + 1 || (n > |before| && ParseResponse(reply).Section?)
    ensures var t := Step(s, Response(reply));
            && t.calls == s.calls + CallAll(Pending(s, host), host, ip)
            && Pending(t, host) == []
            && forall other: Host :: other != host ==> Pending(t, other) == Pending(s, other)
  {
    EchoDelivers(id, host, reply, before, at, rclass, ttl, ip);
    hide Delivered;
    assert CallAll([], host, ip) == [];
    assert s.calls + [] == s.calls;
  }

  lemma EchoDelivers(id: Word, host: Host, reply: seq<Byte>, before: seq<Record>, at: nat, rclass: Word,
                     ttl: LongWord, ip: seq<Byte>)
    requires Survives(host) && |ip| == 4
    requires var query := QueryPacket(id, host, 1, 0);
             && |query| <= |reply| && reply[12..|query|] == query[12..]
             && ParseSection(reply, |query|, |before|, false) == Section(before, at)
             && Holds(reply, at, [192, 12, 0, 1] + Be16(rclass) + Be32(ttl) + [0, 4] + ip)
    requires forall j :: 0 <= j < |before| ==> before[j].rtype != 1
    requires var n := Octets16(reply[6], reply[7]);
             n == |before| + 1 || (n > |before| && ParseResponse(reply).Section?)
    ensures Delivered(reply) == Some(Delivery(host, ip))
  {
    hide ParseRecord;
    hide ParseSection;
    hide QueryPacket;
    hide Holds;
    var query := QueryPacket(id, host, 1, 0);
    QueryLayout(id, host, 1, 0, reply);
    SectionSplit(reply, |query|, |before|, |before|);
    EchoRecord(id, host, reply, at, rclass, ttl, ip);
    RecordAfter(reply, before, at, Record(host, 1, rclass, ttl, 4, ip));
  }

  /** The pointed record of a reply that echoes the question. */
  lemma EchoRecord(id: Word, host: Host, reply: seq<Byte>, at: nat, rclass: Word, ttl: LongWord, ip: seq<Byte>)
    requires Survives(host) && |ip| == 4
    requires var query := QueryPacket(id, host, 1, 0);
             |query| <= |reply| && reply[12..|query|] == query[12..] && |query| <= at
    requires Holds(reply, at, [192, 12, 0, 1] + Be16(rclass) + Be32(ttl) + [0, 4] + ip)
    ensures ParseRecord(reply, at, false).Parsed?
    ensures ParseRecord(reply, at, false).record == Record(host, 1, rclass, ttl, 4, ip)
  {
    hide ParseRecord;
    hide QueryPacket;
    hide EncodeHost;
    EchoHoldsName(id, host, reply, at);
    PointedBytes(host, rclass, ttl, ip);
    hide PointedAnswer;
    PointedRecordReads(reply, reply[..at], host, rclass, ttl, ip);
  }

  /** After answers that are no A records, the A record `a` decides. */
  lemma RecordAfter(reply: seq<Byte>, before: seq<Record>, at: nat, a: Record)
    requires HasQuestion(reply) && ParseSection(reply, AnswerStart(reply), |before|, false) == Section(before, at)
    requires ParseRecord(reply, at, false).Parsed? && ParseRecord(reply, at, false).record == a
    requires a.rtype == 1 && |a.rdata| == 4 && forall j :: 0 <= j < |before| ==> before[j].rtype != 1
    requires var n := Octets16(reply[6], reply[7]);
             n == |before| + 1 || (n > |before| && ParseResponse(reply).Section?)
    ensures Delivered(reply) == Some(Delivery(a.name, a.rdata))
  {
    hide ParseRecord;
    hide ParseSection;
    hide FirstAddress;
    var k, n := |before|, Get16(reply, 6);
    SectionSplit(reply, AnswerStart(reply), k, n);
    RestStarts(reply, at, n - k);
    FirstAddressAt(ParseResponse(reply).records, k);
    assert a.rdata[..4] == a.rdata;
  }

  lemma RestStarts(packet: seq<Byte>, pos: nat, n: nat)
    requires n > 0 && ParseRecord(packet, pos, false).Parsed?
    requires n == 1 || ParseSection(packet, pos, n, false).Section?
    ensures var rest := ParseSection(packet, pos, n, false);
            rest.Section? && |rest.records| > 0 && rest.records[0] == ParseRecord(packet, pos, false).record
  {
    hide ParseRecord;
  }

  /** A reply that echoes the question holds the terminated name, in whatever part of it reaches past the question. */
  lemma EchoHoldsName(id: Word, host: Host, reply: seq<Byte>, at: nat)
    requires Survives(host)
    requires var query := QueryPacket(id, host, 1, 0);
             |query| <= at <= |reply| && reply[12..|query|] == query[12..]
    ensures Holds(reply[..at], 12, EncodeHost(host) + [0])
  {
    hide QueryPacket;
    hide EncodeHost;
    hide Decode;
    var query, w := QueryPacket(id, host, 1, 0), EncodeHost(host) + [0];
    QueryCarriesName(id, host, 1, 0);
    assert reply[..at][12..12 + |w|] == reply[12..|query|][..|w|];
    assert query[12..12 + |w|] == query[12..][..|w|];
  }

  lemma PointedBytes(host: Host, rclass: Word, ttl: LongWord, ip: seq<Byte>)
    requires |ip| == 4
    ensures PointedAnswer(host, rclass, ttl, ip).Bytes()
         == [192, 12, 0, 1] + Be16(rclass) + Be32(ttl) + [0, 4] + ip
  {
    assert PointerBytes(HEADER_LENGTH) == [192, 12];
    assert Be16(1) == [0, 1] && Be16(4) == [0, 4];
    assert [192, 12, 0, 1] == [192, 12] + Be16(1);
  }
}
