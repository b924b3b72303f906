/** The query packet that `DNSResolver::send_req` lays out. */
module DnsQuery {
  import opened Wrappers
  import opened Bytes
  import opened DnsName
  import opened DnsEncode
  import opened DnsMessage

  const QUERY_BUFFER_SIZE := 128

  /** Recursion desired; one question. */
  function QueryHeader(id: Word): (b: seq<Byte>)
    ensures |b| == HEADER_LENGTH
  {
    Be16(id) + [1, 0] + Be16(1) + Be16(0) + Be16(0) + Be16(0)
  }

  /** What stands in the buffer after the encoder has run, with `skipped` in the byte it leaves out. */
  function Written(host: seq<Byte>, skipped: Byte): (w: seq<Byte>)
    ensures |w| == |host| + 3 && StrEnd(w, 0) <= |host| + 2
  {
    var w := EncodeHost(host) + [skipped, 0];
    assert w[|host| + 2] == 0;
    w
  }

  /** The name `strlen` finds there. */
  function QueryName(host: seq<Byte>, skipped: Byte): (name: seq<Byte>)
    ensures |name| <= |host| + 2 && 0 !in name
  {
    Written(host, skipped)[..StrEnd(Written(host, skipped), 0)]
  }

  /** The packet sent for `host`. */
  function QueryPacket(id: Word, host: seq<Byte>, qtype: Word, skipped: Byte): seq<Byte> {
    QueryHeader(id) + (QueryName(host, skipped) + [0] + (Be16(qtype) + Be16(1)))
  }

  /**
   The packet octet by octet: the identifier, recursion desired, one question and no records; a terminated name; the
   type asked for and the class IN.
   */
  lemma QueryOctets(id: Word, host: seq<Byte>, qtype: Word, skipped: Byte)
    ensures var q, n := QueryPacket(id, host, qtype, skipped), |QueryName(host, skipped)|;
            && |q| == 12 + n + 1 + 4
            && q[..12] == [id / 256, id % 256, 1, 0, 0, 1, 0, 0, 0, 0, 0, 0]
            && HoldsString(q, 12, QueryName(host, skipped))
            && q[12 + n + 1..] == [qtype / 256, qtype % 256, 0, 1]
  {
    hide QueryName;
    var q, name, question := QueryPacket(id, host, qtype, skipped), QueryName(host, skipped), Be16(qtype) + Be16(1);
    assert q == QueryHeader(id) + (name + [0]) + question;
    assert q[12..12 + |name + [0]|] == name + [0];
    assert QueryHeader(id) == [id / 256, id % 256, 1, 0, 0, 1, 0, 0, 0, 0, 0, 0];
    assert question == [qtype / 256, qtype % 256, 0, 1];
  }

  lemma {:induction false} SurvivingWireHasNoZero(host: seq<Byte>)
    requires Survives(host)
    ensures 0 !in EncodeHost(host)
  {
    JoinOfSplit(host);
    JoinIsPlain(Split(host));
    WireIsPlain(Split(host));
  }

  lemma QueryNameOf(host: seq<Byte>, skipped: Byte)
    requires 0 !in EncodeHost(host)
    ensures QueryName(host, skipped) == EncodeHost(host) + if skipped == 0 then [] else [skipped]
  {
    var w := EncodeHost(host);
    var written := Written(host, skipped);
    var text := w + if skipped == 0 then [] else [skipped];
    assert written[0..0 + |text + [0]|] == text + [0];
    StrEndOfHeld(written, 0, text);
  }

  /** What the reader meets right after the encoded name. */
  lemma AfterName(id: Word, host: seq<Byte>, qtype: Word, skipped: Byte)
    requires Survives(host)
    ensures var q, end := QueryPacket(id, host, qtype, skipped), HEADER_LENGTH + |host| + 1;
            && Holds(q, HEADER_LENGTH, EncodeHost(host))
            && end + 1 < |q| && q[end] == skipped && (skipped != 0 ==> q[end + 1] == 0)
  {
    hide EncodeHost;
    hide QueryHeader;
    var q, w, name := QueryPacket(id, host, qtype, skipped), EncodeHost(host), QueryName(host, skipped);
    SurvivingWireHasNoZero(host);
    QueryNameOf(host, skipped);
    assert q[HEADER_LENGTH..HEADER_LENGTH + |name + [0]|] == name + [0];
    assert name + [0] == w + if skipped == 0 then [0] else [skipped, 0];
    HoldsConcat(q, HEADER_LENGTH, w, if skipped == 0 then [0] else [skipped, 0]);
  }

  /**
   The query carries the terminated name of a surviving host exactly when the skipped byte happened to be zero. A reader
   sees the host then, and also when that byte and the zero after it form a pointer to where a name is empty.
   */
  lemma QueryCarriesName(id: Word, host: seq<Byte>, qtype: Word, skipped: Byte)
    requires Survives(host)
    ensures var q := QueryPacket(id, host, qtype, skipped);
            && (Holds(q, HEADER_LENGTH, EncodeHost(host) + [0]) <==> skipped == 0)
            && (Decode(q, HEADER_LENGTH) == Some(host) <==>
                skipped == 0 || (skipped >= 192 && Collected(q, (skipped - 192) * 256) == Some([])))
  {
    hide QueryPacket;
    hide EncodeHost;
    hide Decode;
    hide Collected;
    hide Survives;
    var q, w := QueryPacket(id, host, qtype, skipped), EncodeHost(host);
    var end := HEADER_LENGTH + |w|;
    AfterName(id, host, qtype, skipped);
    HoldsConcat(q, HEADER_LENGTH, w, [0]);
    assert q[end..end + 1] == [q[end]];
    ReadsExactly(q, HEADER_LENGTH, host);
    CollectedNothing(q, end);
  }

  /** A query without the terminated name that still reads as the host: it points at the zero octet of its id. */
  lemma UnterminatedYetRead(id: Word, host: seq<Byte>, qtype: Word)
    requires Survives(host) && id < 256
    ensures var q := QueryPacket(id, host, qtype, 192);
            !Holds(q, HEADER_LENGTH, EncodeHost(host) + [0]) && Decode(q, HEADER_LENGTH) == Some(host)
  {
    var q := QueryPacket(id, host, qtype, 192);
    QueryCarriesName(id, host, qtype, 192);
    assert q[0] == 0;
    WalkEnds(q, 0);
    FuelIsEnough(q, 0, 1);
  }

  /** The length `send_req` sends is where `parse_response` starts reading any reply that echoes the question. */
  lemma QueryLayout(id: Word, host: seq<Byte>, qtype: Word, skipped: Byte, reply: seq<Byte>)
    requires var q := QueryPacket(id, host, qtype, skipped);
             |q| <= |reply| && reply[HEADER_LENGTH..|q|] == q[HEADER_LENGTH..]
    ensures HasQuestion(reply) && AnswerStart(reply) == |QueryPacket(id, host, qtype, skipped)|
  {
    var q, name := QueryPacket(id, host, qtype, skipped), QueryName(host, skipped);
    assert q[HEADER_LENGTH..] == name + [0] + (Be16(qtype) + Be16(1));
    assert reply[HEADER_LENGTH..HEADER_LENGTH + |name + [0]|] == q[HEADER_LENGTH..][..|name + [0]|] == name + [0];
    StrEndOfHeld(reply, HEADER_LENGTH, name);
  }

  method WriteBytes(buf: array<Byte>, at: nat, bytes: seq<Byte>)
    requires at + |bytes| <= buf.Length
    modifies buf
    ensures buf[..] == Splice(old(buf[..]), at, bytes)
  {
    for i := 0 to |bytes|
      invariant forall k :: 0 <= k < i ==> buf[at + k] == bytes[k]
      invariant forall k :: 0 <= k < at || at + i <= k < buf.Length ==> buf[k] == old(buf[k])
    {
      buf[at + i] := bytes[i];
    }
  }

  lemma NamedPrefix(s: seq<Byte>, t: seq<Byte>, header: seq<Byte>, host: seq<Byte>, skipped: Byte)
    requires |header| == HEADER_LENGTH && header <= s && HEADER_LENGTH + |host| + 3 <= |s|
    requires s[HEADER_LENGTH + |host| + 1] == skipped
    requires t == CxxEncoded(s, HEADER_LENGTH, host)
    ensures var n := |QueryName(host, skipped)|;
            && StrEnd(t, HEADER_LENGTH) == HEADER_LENGTH + n
            && t[..HEADER_LENGTH + n + 1] == header + (QueryName(host, skipped) + [0])
  {
    hide EncodeHost;
    var w := Written(host, skipped);
    assert t[..HEADER_LENGTH] == header;
    assert t[HEADER_LENGTH..HEADER_LENGTH + |w|] == w;
    StrEndShift(t, HEADER_LENGTH, w);
  }

  lemma QuestionAppended(s: seq<Byte>, named: seq<Byte>, question: seq<Byte>, header: seq<Byte>, name: seq<Byte>)
    requires named <= s && |named + question| <= |s| && named == header + name
    ensures Splice(s, |named|, question)[..|named| + |question|] == header + (name + question)
  {
    assert Splice(s, |named|, question)[..|named| + |question|] == named + question;
  }

  /** Packet layout of `send_req`: header, encoded name, question; `buf` need not be zeroed beforehand. */
  method BuildQuery(buf: array<Byte>, id: Word, hostname: seq<Byte>, queryType: Word) returns (len: nat)
    requires buf.Length == QUERY_BUFFER_SIZE
    requires 0 !in hostname && HEADER_LENGTH + (|hostname| + 3) + QUESTION_FIXED_LENGTH <= QUERY_BUFFER_SIZE
    modifies buf
    ensures len <= buf.Length
    ensures buf[..len] == QueryPacket(id, hostname, queryType, old(buf[HEADER_LENGTH + |hostname| + 1]))
    ensures buf[..12] == [id / 256, id % 256, 1, 0, 0, 1, 0, 0, 0, 0, 0, 0]
    ensures 17 <= len && buf[len - 5..len] == [0, queryType / 256, queryType % 256, 0, 1]
    ensures Survives(hostname) && old(buf[HEADER_LENGTH + |hostname| + 1]) == 0 ==>
              buf[12..len - 4] == EncodeHost(hostname) + [0]
  {
    hide QueryHeader;
    hide QueryName;
    hide Be16;
    hide CxxEncoded;
    ghost var skipped := buf[HEADER_LENGTH + |hostname| + 1];
    WriteBytes(buf, 0, QueryHeader(id));
    ghost var headed := buf[..];
    ChangeToDnsNameFormat(buf, HEADER_LENGTH, hostname);
    NamedPrefix(headed, buf[..], QueryHeader(id), hostname, skipped);
    var n := StrEnd(buf[..], HEADER_LENGTH) - HEADER_LENGTH;
    ghost var before := buf[..];
    ghost var named := before[..HEADER_LENGTH + n + 1];
    var question := Be16(queryType) + Be16(1);
    WriteBytes(buf, HEADER_LENGTH + (n + 1), question);
    len := HEADER_LENGTH + (n + 1) + QUESTION_FIXED_LENGTH;
    QuestionAppended(before, named, question, QueryHeader(id), QueryName(hostname, skipped) + [0]);
    BuiltOctets(id, hostname, queryType, skipped, buf[..len]);
  }

  /** The octets of a built query from its front and from its end. */
  lemma BuiltOctets(id: Word, host: seq<Byte>, qtype: Word, skipped: Byte, q: seq<Byte>)
    requires q == QueryPacket(id, host, qtype, skipped)
    ensures 17 <= |q| && q[..12] == [id / 256, id % 256, 1, 0, 0, 1, 0, 0, 0, 0, 0, 0]
    ensures q[|q| - 5..] == [0, qtype / 256, qtype % 256, 0, 1]
    ensures Survives(host) && skipped == 0 ==> q[12..|q| - 4] == EncodeHost(host) + [0]
  {
    hide QueryPacket;
    hide QueryName;
    hide EncodeHost;
    var name := QueryName(host, skipped);
    QueryOctets(id, host, qtype, skipped);
    assert q[12..|q| - 4] == name + [0];
    assert q[|q| - 5] == q[12..|q| - 4][|name|];
    assert q[|q| - 5..] == [q[|q| - 5]] + q[|q| - 4..];
    if Survives(host) && skipped == 0 {
      SurvivingWireHasNoZero(host);
      QueryNameOf(host, skipped);
      assert EncodeHost(host) + [] == EncodeHost(host);
    }
  }

  /** `strlen` at an offset sees what stands there. */
  lemma StrEndShift(s: seq<Byte>, at: nat, written: seq<Byte>)
    requires Holds(s, at, written) && StrEnd(written, 0) < |written|
    ensures StrEnd(s, at) == at + StrEnd(written, 0)
    ensures s[at..StrEnd(s, at) + 1] == written[..StrEnd(written, 0)] + [0]
  {
    hide StrEnd;
    var e := StrEnd(written, 0);
    var text := written[..e];
    assert s[at..at + |text + [0]|] == s[at..at + |written|][..e + 1] == text + [0];
    StrEndOfHeld(s, at, text);
  }
}
