/**
 Response messages: section 4.1 of RFC 1035, as `parse_response` of `lib/asyncdns.cpp` and the three section loops of
 `dns.c` read them.
 */
module DnsMessage {
  import opened Wrappers
  import opened Bytes
  import opened DnsName

  const HEADER_LENGTH := 12
  const QUESTION_FIXED_LENGTH := 4
  const RECORD_FIXED_LENGTH := 10
  const TYPE_A: Word := 1

  /** A record as the parsers leave it: texts without their NUL, `rdata` the address bytes or the decoded name. */
  datatype Record = Record(name: seq<Byte>, rtype: Word, rclass: Word, ttl: LongWord, dataLength: Word,
                           rdata: seq<Byte>)

  // ----- Parsing -----

  /** One record and where it ends; BadRecord where the C++ code has no defined result. */
  datatype RecordResult = BadRecord | Parsed(record: Record, next: nat)

  /** Consecutive records and where they end. */
  datatype SectionResult = BadSection | Section(records: seq<Record>, end: nat)

  function ParseRecord(packet: seq<Byte>, pos: nat, nameOnly: bool): RecordResult {
    var at := pos + Span(packet, pos);
    var data := at + RECORD_FIXED_LENGTH;
    var owner := Decode(packet, pos);
    if owner.None? || data > |packet| then BadRecord
    else
      var rtype, rclass, ttl, length :=
        Get16(packet, at), Get16(packet, at + 2), Get32(packet, at + 4), Get16(packet, at + 8);
      if rtype == TYPE_A && !nameOnly then
        if data + length > |packet| then BadRecord
        else Parsed(Record(owner.value, rtype, rclass, ttl, length, packet[data..data + length]), data + length)
      else
        match Decode(packet, data)
        case None => BadRecord
        case Some(text) => Parsed(Record(owner.value, rtype, rclass, ttl, length, text), data + Span(packet, data))
  }

  /** `n` records from `pos` on. */
  function ParseSection(packet: seq<Byte>, pos: nat, n: nat, nameOnly: bool): SectionResult
    decreases n
  {
    if n == 0 then Section([], pos)
    else
      match ParseRecord(packet, pos, nameOnly)
      case BadRecord => BadSection
      case Parsed(first, next) =>
        match ParseSection(packet, next, n - 1, nameOnly)
        case BadSection => BadSection
        case Section(rest, end) => Section([first] + rest, end)
  }

  /** Both parsers find the answers by measuring the question name with `strlen`. */
  predicate HasQuestion(packet: seq<Byte>) {
    HEADER_LENGTH <= |packet| && StrEnd(packet, HEADER_LENGTH) < |packet|
  }

  function AnswerStart(packet: seq<Byte>): nat
    requires HasQuestion(packet)
  {
    StrEnd(packet, HEADER_LENGTH) + 1 + QUESTION_FIXED_LENGTH
  }

  /** The answer section, which is all that `parse_response` reads. */
  function ParseResponse(packet: seq<Byte>): SectionResult {
    if !HasQuestion(packet) then BadSection
    else ParseSection(packet, AnswerStart(packet), Get16(packet, 6), false)
  }

  datatype Reply = BadReply | Reply(answers: seq<Record>, authority: seq<Record>, additional: seq<Record>, end: nat)

  /** All three sections, as `dns.c` reads them; authority rdata is always read as a name. */
  function ParseReply(packet: seq<Byte>): Reply {
    match ParseResponse(packet)
    case BadSection => BadReply
    case Section(answers, p) =>
      match ParseSection(packet, p, Get16(packet, 8), true)
      case BadSection => BadReply
      case Section(authority, q) =>
        match ParseSection(packet, q, Get16(packet, 10), false)
        case BadSection => BadReply
        case Section(additional, end) => Reply(answers, authority, additional, end)
  }

  // ----- Which octets are read as what -----

  function Octets16(a: Byte, b: Byte): Word {
    a as int * 256 + b
  }

  /**
   A record with a readable owner, octet by octet. The ten octets after the owner are type, class, time to live and
   length. After type `0 1` stand `length` octets of rdata, unless names are asked for; after any other, a name.
   */
  lemma RecordOctets(packet: seq<Byte>, pos: nat, nameOnly: bool)
    requires Decode(packet, pos).Some? && pos + Span(packet, pos) + 10 <= |packet|
    ensures var r, at := ParseRecord(packet, pos, nameOnly), pos + Span(packet, pos);
            var data, length := at + 10, Octets16(packet[at + 8], packet[at + 9]);
            && (packet[at..at + 2] == [0, 1] && !nameOnly ==>
                (r.Parsed? <==> data + length <= |packet|)
                && (r.Parsed? ==> r.record.rdata == packet[data..data + length] && r.next == data + length))
            && (packet[at..at + 2] != [0, 1] || nameOnly ==>
                (r.Parsed? <==> Decode(packet, data).Some?)
                && (r.Parsed? ==> Some(r.record.rdata) == Decode(packet, data) && r.next == data + Span(packet, data)))
            && (r.Parsed? ==>
                && Some(r.record.name) == Decode(packet, pos)
                && r.record.rtype == Octets16(packet[at], packet[at + 1])
                && r.record.rclass == Octets16(packet[at + 2], packet[at + 3])
                && r.record.ttl == Octets16(packet[at + 4], packet[at + 5]) as int * 0x1_0000
                                   + Octets16(packet[at + 6], packet[at + 7])
                && r.record.dataLength == length)
  {
    hide Decode;
    hide Span;
    var at := pos + Span(packet, pos);
    assert packet[at..at + 2] == [packet[at], packet[at + 1]];
  }

  /** After a question with the terminated name `name` come two octets each of type and class, then the answers. */
  lemma ResponseOctets(packet: seq<Byte>, name: seq<Byte>)
    requires HoldsString(packet, 12, name)
    ensures ParseResponse(packet) ==
              ParseSection(packet, 12 + |name| + 1 + 2 + 2, Octets16(packet[6], packet[7]), false)
  {
    hide ParseSection;
    StrEndOfHeld(packet, 12, name);
  }

  /** A section has as many records as were asked for; where only names are read, all rdata is text. */
  lemma {:induction false} SectionRecords(packet: seq<Byte>, pos: nat, n: nat, nameOnly: bool)
    requires ParseSection(packet, pos, n, nameOnly).Section?
    ensures var s := ParseSection(packet, pos, n, nameOnly);
            |s.records| == n && s.end >= pos
            && (nameOnly ==> forall i :: 0 <= i < n ==> AllPlain(s.records[i].rdata))
    decreases n
  {
    hide ParseRecord;
    if n > 0 {
      var first := ParseRecord(packet, pos, nameOnly);
      RecordOfNames(packet, pos, nameOnly);
      SectionRecords(packet, first.next, n - 1, nameOnly);
    }
  }

  lemma RecordOfNames(packet: seq<Byte>, pos: nat, nameOnly: bool)
    requires ParseRecord(packet, pos, nameOnly).Parsed?
    ensures var r := ParseRecord(packet, pos, nameOnly);
            r.next >= pos && (nameOnly ==> AllPlain(r.record.rdata))
  {
    hide Decode;
    hide Span;
    var data := pos + Span(packet, pos) + RECORD_FIXED_LENGTH;
    if nameOnly {
      DecodedText(packet, data);
    }
  }

  /** The counts of the three sections are the octet pairs from 6, 8 and 10 on; authority rdata is always text. */
  lemma ReplyOctets(packet: seq<Byte>)
    requires ParseReply(packet).Reply?
    ensures var r := ParseReply(packet);
            && |packet| >= 12
            && |r.answers| == Octets16(packet[6], packet[7])
            && |r.authority| == Octets16(packet[8], packet[9])
            && |r.additional| == Octets16(packet[10], packet[11])
            && forall i :: 0 <= i < |r.authority| ==> AllPlain(r.authority[i].rdata)
  {
    hide ParseSection;
    var answers := ParseResponse(packet);
    SectionRecords(packet, AnswerStart(packet), Get16(packet, 6), false);
    var authority := ParseSection(packet, answers.end, Get16(packet, 8), true);
    SectionRecords(packet, answers.end, Get16(packet, 8), true);
    SectionRecords(packet, authority.end, Get16(packet, 10), false);
  }

  // ----- The wire form of a message -----

  /** A name as a server writes it: in full, or its first labels and a pointer to where the rest is written. */
  datatype WireName = Full(all: Name) | Pointing(front: Name, rest: Name, target: nat) {
    function Name(): Name {
      match this
      case Full(all) => all
      case Pointing(front, rest, _) => Append(front, rest)
    }

    function Text(): seq<Byte> {
      if Name().Root? then [] else Join(Name())
    }

    function Bytes(): seq<Byte> {
      match this
      case Full(all) => Wire(all) + [0]
      case Pointing(front, _, target) => Wire(front) + PointerBytes(target)
    }
  }

  function PointerBytes(target: nat): (b: seq<Byte>)
    ensures |b| == 2 && b[0] >= 192
  {
    [192 + target / 256 % 64, target % 256]
  }

  /** Names the parser can hold: not the root, plain bytes, labels under 192 bytes, wire form within 255 bytes. */
  predicate Readable(name: Name) {
    name.Sub? && PlainLabels(name) && ShortLabels(name) && NonemptyLabels(name) && |Wire(name)| <= 255
  }

  /** After `prefix`, the name is readable and its pointer, if any, refers to a prior occurrence of the rest. */
  ghost predicate Placeable(prefix: seq<Byte>, name: WireName) {
    && Readable(name.Name())
    && (name.Pointing? ==> name.target < 0x4000 && Spells(prefix, name.target, name.rest))
  }

  datatype Data = Address(bytes: seq<Byte>) | Alias(name: WireName) {
    function Bytes(): seq<Byte> {
      match this
      case Address(bytes) => bytes
      case Alias(name) => name.Bytes()
    }

    function View(): seq<Byte> {
      match this
      case Address(bytes) => bytes
      case Alias(name) => name.Text()
    }
  }

  datatype Answer = Answer(owner: WireName, rtype: Word, rclass: Word, ttl: LongWord, data: Data) {
    /** Type, class, time to live and rdata length. */
    function FixedBytes(): (b: seq<Byte>)
      ensures |b| == RECORD_FIXED_LENGTH
    {
      Be16(rtype) + Be16(rclass) + Be32(ttl) + Be16(DataLength())
    }

    function DataLength(): Word {
      Field(|data.Bytes()|)
    }

    function Bytes(): seq<Byte> {
      owner.Bytes() + FixedBytes() + data.Bytes()
    }

    function View(): Record {
      Record(owner.Text(), rtype, rclass, ttl, DataLength(), data.View())
    }
  }

  /** The answer can follow `prefix`: an address goes with type A, any other type with a single name. */
  ghost predicate AnswerFits(prefix: seq<Byte>, a: Answer, nameOnly: bool) {
    && Placeable(prefix, a.owner)
    && |a.data.Bytes()| < 0x1_0000
    && (a.data.Address? <==> a.rtype == TYPE_A && !nameOnly)
    && (a.data.Alias? ==> Placeable(prefix + a.owner.Bytes() + a.FixedBytes(), a.data.name))
  }

  ghost predicate SectionFits(prefix: seq<Byte>, section: seq<Answer>, nameOnly: bool)
    decreases |section|
  {
    section != [] ==>
      AnswerFits(prefix, section[0], nameOnly)
      && SectionFits(prefix + section[0].Bytes(), section[1..], nameOnly)
  }

  function SectionBytes(section: seq<Answer>): seq<Byte> {
    if section == [] then [] else section[0].Bytes() + SectionBytes(section[1..])
  }

  function Views(section: seq<Answer>): seq<Record> {
    if section == [] then [] else [section[0].View()] + Views(section[1..])
  }

  // ----- Reading back what was written -----

  lemma {:induction false} ExpandExtends(prefix: seq<Byte>, more: seq<Byte>, pos: nat, fuel: nat)
    requires Expand(prefix, pos, fuel).Some?
    ensures Expand(prefix + more, pos, fuel) == Expand(prefix, pos, fuel)
    decreases fuel
  {
    var packet := prefix + more;
    assert packet[pos] == prefix[pos];
    if prefix[pos] != 0 {
      if IsPointer(prefix, pos) {
        assert packet[pos + 1] == prefix[pos + 1];
        ExpandExtends(prefix, more, Target(prefix, pos), fuel - 1);
      } else {
        var end := pos + 1 + prefix[pos];
        assert packet[pos + 1..end] == prefix[pos + 1..end];
        ExpandExtends(prefix, more, end, fuel - 1);
      }
    }
  }

  lemma SpellsExtends(prefix: seq<Byte>, more: seq<Byte>, pos: nat, name: Name)
    requires Spells(prefix, pos, name)
    ensures Spells(prefix + more, pos, name)
  {
    var fuel: nat :| Expand(prefix, pos, fuel) == Some(name);
    ExpandExtends(prefix, more, pos, fuel);
  }

  lemma {:induction false} AppendLabels(a: Name, b: Name)
    ensures PlainLabels(Append(a, b)) <==> PlainLabels(a) && PlainLabels(b)
    ensures ShortLabels(Append(a, b)) <==> ShortLabels(a) && ShortLabels(b)
    ensures NonemptyLabels(Append(a, b)) <==> NonemptyLabels(a) && NonemptyLabels(b)
  {
    if a.Sub? {
      AppendLabels(a.parent, b);
    }
  }

  lemma PointerReads(packet: seq<Byte>, pos: nat, target: nat)
    requires target < 0x4000 && Holds(packet, pos, PointerBytes(target))
    ensures IsPointer(packet, pos) && Target(packet, pos) == target
  {
    var b := PointerBytes(target);
    assert packet[pos] == packet[pos..pos + 2][0] && packet[pos + 1] == packet[pos..pos + 2][1];
    assert target / 256 % 64 == target / 256;
  }

  /** Wherever it stands, a placeable name is spelled there. */
  lemma WireNameSpells(packet: seq<Byte>, prefix: seq<Byte>, name: WireName)
    requires prefix <= packet && Placeable(prefix, name) && Holds(packet, |prefix|, name.Bytes())
    ensures Spells(packet, |prefix|, name.Name())
  {
    var pos := |prefix|;
    match name
    case Full(all) =>
      SpellsInFull(packet, pos, all);
    case Pointing(front, rest, target) =>
      var end := pos + |Wire(front)|;
      HoldsConcat(packet, pos, Wire(front), PointerBytes(target));
      PointerReads(packet, end, target);
      assert packet == prefix + packet[pos..];
      SpellsExtends(prefix, packet[pos..], target, rest);
      var fuel: nat :| Expand(packet, target, fuel) == Some(rest);
      assert Expand(packet, end, fuel + 1) == Some(rest);
      AppendLabels(front, rest);
      var f := ExpandOfWire(packet, pos, front, rest, fuel + 1);
  }

  lemma SpanPlain(packet: seq<Byte>, pos: nat)
    requires pos < |packet| && IsPlain(packet[pos])
    ensures Span(packet, pos) == 1 + Span(packet, pos + 1)
  {
  }

  lemma {:induction false} SpanOverPlain(packet: seq<Byte>, pos: nat, bytes: seq<Byte>)
    requires Holds(packet, pos, bytes) && AllPlain(bytes)
    ensures Span(packet, pos) == |bytes| + Span(packet, pos + |bytes|)
    decreases |bytes|
  {
    hide Span;
    if bytes != [] {
      var b, bs := bytes[0], bytes[1..];
      assert bytes == [b] + bs && b in bytes;
      HoldsConcat(packet, pos, [b], bs);
      assert packet[pos] == packet[pos..pos + 1][0];
      SpanPlain(packet, pos);
      SpanOverPlain(packet, pos + 1, bs);
    }
  }

  /** `count` of `read_name` is the number of bytes the name was written with. */
  lemma WireNameSpan(packet: seq<Byte>, pos: nat, name: WireName)
    requires Readable(name.Name()) && Holds(packet, pos, name.Bytes())
    ensures Span(packet, pos) == |name.Bytes()|
  {
    match name
    case Full(all) =>
      HoldsConcat(packet, pos, Wire(all), [0]);
      WireIsPlain(all);
      SpanOverPlain(packet, pos, Wire(all));
      var end := pos + |Wire(all)|;
      assert packet[end] == packet[end..end + 1][0];
    case Pointing(front, rest, target) =>
      HoldsConcat(packet, pos, Wire(front), PointerBytes(target));
      AppendLabels(front, rest);
      WireIsPlain(front);
      SpanOverPlain(packet, pos, Wire(front));
      var end := pos + |Wire(front)|;
      assert packet[end] == packet[end..end + 2][0];
  }

  /** A name written in full or compressed is read back as its text, over exactly its own bytes. */
  lemma WireNameRoundTrip(packet: seq<Byte>, prefix: seq<Byte>, name: WireName)
    requires prefix <= packet && Placeable(prefix, name) && Holds(packet, |prefix|, name.Bytes())
    ensures Decode(packet, |prefix|) == Some(name.Text())
    ensures Span(packet, |prefix|) == |name.Bytes()|
  {
    WireNameSpells(packet, prefix, name);
    WireNameSpan(packet, |prefix|, name);
    DecodeMeetsRfc(packet, |prefix|, name.Name());
  }

  lemma FixedFields(packet: seq<Byte>, at: nat, a: Answer)
    requires Holds(packet, at, a.FixedBytes())
    ensures Get16(packet, at) == a.rtype && Get16(packet, at + 2) == a.rclass
    ensures Get32(packet, at + 4) == a.ttl && Get16(packet, at + 8) == a.DataLength()
  {
    var w0, w1, l, w2 := Be16(a.rtype), Be16(a.rclass), Be32(a.ttl), Be16(a.DataLength());
    HoldsConcat(packet, at, w0 + w1 + l, w2);
    HoldsConcat(packet, at, w0 + w1, l);
    HoldsConcat(packet, at, w0, w1);
    Get16OfBe16(packet, at, a.rtype);
    Get16OfBe16(packet, at + 2, a.rclass);
    Get32OfBe32(packet, at + 4, a.ttl);
    Get16OfBe16(packet, at + 8, a.DataLength());
  }

  lemma {:induction false} HoldsExtends(packet: seq<Byte>, prefix: seq<Byte>, b: seq<Byte>)
    requires prefix <= packet && Holds(packet, |prefix|, b)
    ensures prefix + b <= packet
  {
    assert packet[..|prefix + b|] == packet[..|prefix|] + packet[|prefix|..|prefix| + |b|];
  }

  /** The owner and the rdata of an answer at `pos` read back as written. */
  ghost predicate NamesRead(packet: seq<Byte>, pos: nat, a: Answer) {
    var at := pos + |a.owner.Bytes()|;
    var data := at + RECORD_FIXED_LENGTH;
    && Decode(packet, pos) == Some(a.owner.Text()) && Span(packet, pos) == |a.owner.Bytes()|
    && Holds(packet, at, a.FixedBytes()) && Holds(packet, data, a.data.Bytes())
    && (a.data.Alias? ==>
          Decode(packet, data) == Some(a.data.name.Text()) && Span(packet, data) == |a.data.name.Bytes()|)
  }

  lemma AnswerReads(packet: seq<Byte>, prefix: seq<Byte>, a: Answer, nameOnly: bool)
    requires prefix <= packet && AnswerFits(prefix, a, nameOnly) && Holds(packet, |prefix|, a.Bytes())
    ensures NamesRead(packet, |prefix|, a)
  {
    hide Decode;
    hide Span;
    hide WireName.Bytes;
    hide Answer.FixedBytes;
    var pos, owner, fixed := |prefix|, a.owner.Bytes(), a.FixedBytes();
    HoldsConcat(packet, pos, owner + fixed, a.data.Bytes());
    HoldsConcat(packet, pos, owner, fixed);
    WireNameRoundTrip(packet, prefix, a.owner);
    if a.data.Alias? {
      HoldsExtends(packet, prefix, owner + fixed);
      assert prefix + (owner + fixed) == prefix + owner + fixed;
      WireNameRoundTrip(packet, prefix + owner + fixed, a.data.name);
    }
  }

  lemma RecordRoundTrip(packet: seq<Byte>, pos: nat, a: Answer, nameOnly: bool)
    requires NamesRead(packet, pos, a) && |a.data.Bytes()| < 0x1_0000
    requires a.data.Address? <==> a.rtype == TYPE_A && !nameOnly
    ensures ParseRecord(packet, pos, nameOnly) == Parsed(a.View(), pos + |a.Bytes()|)
  {
    hide Decode;
    hide Span;
    hide WireName.Bytes;
    hide WireName.Text;
    hide Answer.FixedBytes;
    var at := pos + |a.owner.Bytes()|;
    FixedFields(packet, at, a);
    var data := at + RECORD_FIXED_LENGTH;
    assert |a.Bytes()| == data - pos + |a.data.Bytes()|;
    match a.data
    case Address(bytes) =>
      assert packet[data..data + |bytes|] == bytes == a.data.View();
    case Alias(name) =>
      assert a.data.View() == name.Text() && |a.data.Bytes()| == |name.Bytes()|;
  }

  /** A written answer is parsed as its record and over exactly its own bytes. */
  lemma AnswerRoundTrip(packet: seq<Byte>, prefix: seq<Byte>, a: Answer, nameOnly: bool)
    requires prefix <= packet && AnswerFits(prefix, a, nameOnly) && Holds(packet, |prefix|, a.Bytes())
    ensures ParseRecord(packet, |prefix|, nameOnly) == Parsed(a.View(), |prefix| + |a.Bytes()|)
  {
    hide ParseRecord;
    hide NamesRead;
    hide Placeable;
    hide Answer.Bytes;
    AnswerReads(packet, prefix, a, nameOnly);
    RecordRoundTrip(packet, |prefix|, a, nameOnly);
  }

  /** Every record of a section at `pos` reads back as written. */
  ghost predicate RecordsRead(packet: seq<Byte>, pos: nat, section: seq<Answer>, nameOnly: bool)
    decreases |section|
  {
    section != [] ==>
      var next := pos + |section[0].Bytes()|;
      && ParseRecord(packet, pos, nameOnly) == Parsed(section[0].View(), next)
      && RecordsRead(packet, next, section[1..], nameOnly)
  }

  lemma {:induction false} SectionReads(packet: seq<Byte>, prefix: seq<Byte>, section: seq<Answer>, nameOnly: bool)
    requires prefix <= packet && SectionFits(prefix, section, nameOnly)
    requires Holds(packet, |prefix|, SectionBytes(section))
    ensures RecordsRead(packet, |prefix|, section, nameOnly)
    decreases |section|
  {
    hide ParseRecord;
    hide Answer.Bytes;
    hide Answer.View;
    hide AnswerFits;
    if section != [] {
      var b, rest := section[0].Bytes(), section[1..];
      HoldsConcat(packet, |prefix|, b, SectionBytes(rest));
      AnswerRoundTrip(packet, prefix, section[0], nameOnly);
      HoldsExtends(packet, prefix, b);
      SectionReads(packet, prefix + b, rest, nameOnly);
    }
  }

  lemma {:induction false} SectionOfRecords(packet: seq<Byte>, pos: nat, section: seq<Answer>, nameOnly: bool)
    requires RecordsRead(packet, pos, section, nameOnly)
    ensures ParseSection(packet, pos, |section|, nameOnly) == Section(Views(section), pos + |SectionBytes(section)|)
    decreases |section|
  {
    hide ParseRecord;
    hide Answer.Bytes;
    hide Answer.View;
    if section != [] {
      SectionOfRecords(packet, pos + |section[0].Bytes()|, section[1..], nameOnly);
    }
  }

  /** Parsing a written section gives back its records, in order, and ends exactly at its end. */
  lemma {:induction false} SectionRoundTrip(packet: seq<Byte>, prefix: seq<Byte>, section: seq<Answer>, nameOnly: bool)
    requires prefix <= packet && SectionFits(prefix, section, nameOnly)
    requires Holds(packet, |prefix|, SectionBytes(section))
    ensures ParseSection(packet, |prefix|, |section|, nameOnly)
         == Section(Views(section), |prefix| + |SectionBytes(section)|)
  {
    SectionReads(packet, prefix, section, nameOnly);
    SectionOfRecords(packet, |prefix|, section, nameOnly);
  }

  // ----- Whole messages -----

  /** A response with one question: `head` is the identifier and the flags. */
  datatype Message = Message(head: seq<Byte>, question: Name, qtype: Word, qclass: Word,
                             answers: seq<Answer>, authority: seq<Answer>, additional: seq<Answer>) {
    function Header(): seq<Byte> {
      head + Be16(1) + Be16(Field(|answers|)) + Be16(Field(|authority|)) + Be16(Field(|additional|))
    }

    function Question(): seq<Byte> {
      Wire(question) + [0] + (Be16(qtype) + Be16(qclass))
    }

    /** Everything before the answers. */
    function Start(): seq<Byte> {
      Header() + Question()
    }

    function ToAuthority(): seq<Byte> {
      Start() + SectionBytes(answers)
    }

    function ToAdditional(): seq<Byte> {
      ToAuthority() + SectionBytes(authority)
    }

    function Bytes(): seq<Byte> {
      ToAdditional() + SectionBytes(additional)
    }

    /** The counts fit their fields, and `strlen` can measure the question name. */
    predicate Headed() {
      && |head| == 4
      && |answers| < 0x1_0000 && |authority| < 0x1_0000 && |additional| < 0x1_0000
      && 0 !in Wire(question)
    }
  }

  lemma HeaderReads(m: Message, packet: seq<Byte>)
    requires |m.head| == 4 && m.Header() <= packet
    requires |m.answers| < 0x1_0000 && |m.authority| < 0x1_0000 && |m.additional| < 0x1_0000
    ensures Get16(packet, 6) == |m.answers| && Get16(packet, 8) == |m.authority|
    ensures Get16(packet, 10) == |m.additional|
  {
    var h := m.Header();
    assert forall k :: 0 <= k < 12 ==> packet[k] == h[k];
    assert h[6..8] == Be16(|m.answers|) && h[8..10] == Be16(|m.authority|) && h[10..12] == Be16(|m.additional|);
    assert packet[6..8] == h[6..8] && packet[8..10] == h[8..10] && packet[10..12] == h[10..12];
    Get16OfBe16(packet, 6, |m.answers|);
    Get16OfBe16(packet, 8, |m.authority|);
    Get16OfBe16(packet, 10, |m.additional|);
  }

  /** `strlen` over the question finds where the answers start. */
  lemma QuestionReads(m: Message, packet: seq<Byte>)
    requires |m.head| == 4 && m.Start() <= packet && 0 !in Wire(m.question)
    ensures HasQuestion(packet) && AnswerStart(packet) == |m.Start()|
  {
    var h, w, fixed := m.Header(), Wire(m.question), Be16(m.qtype) + Be16(m.qclass);
    assert |h| == HEADER_LENGTH;
    assert packet[0..|m.Start()|] == h + (w + [0] + fixed);
    HoldsConcat(packet, 0, h, w + [0] + fixed);
    HoldsConcat(packet, HEADER_LENGTH, w + [0], fixed);
    StrEndOfHeld(packet, HEADER_LENGTH, w);
  }

  lemma PrefixHolds(packet: seq<Byte>, prefix: seq<Byte>, b: seq<Byte>)
    requires prefix + b <= packet
    ensures prefix <= packet && Holds(packet, |prefix|, b)
  {
    assert packet[0..|prefix + b|] == prefix + b;
    HoldsConcat(packet, 0, prefix, b);
  }

  /**
   Parsing the wire form of any message whose records can follow one another, with whatever follows it in the receive
   buffer, gives back the records of all three sections in order, and the cursor ends exactly at the message's length.
   */
  lemma MessageRoundTrip(m: Message, packet: seq<Byte>)
    requires m.Bytes() <= packet && m.Headed()
    requires SectionFits(m.Start(), m.answers, false)
    requires SectionFits(m.ToAuthority(), m.authority, true)
    requires SectionFits(m.ToAdditional(), m.additional, false)
    ensures ParseResponse(packet) == Section(Views(m.answers), |m.ToAuthority()|)
    ensures ParseReply(packet)
         == Reply(Views(m.answers), Views(m.authority), Views(m.additional), |m.Bytes()|)
  {
    hide ParseSection;
    hide SectionFits;
    hide SectionBytes;
    hide Views;
    hide Wire;
    hide Message.Header;
    hide Message.Question;
    PrefixHolds(packet, m.ToAdditional(), SectionBytes(m.additional));
    PrefixHolds(packet, m.ToAuthority(), SectionBytes(m.authority));
    PrefixHolds(packet, m.Start(), SectionBytes(m.answers));
    PrefixHolds(packet, m.Header(), m.Question());
    HeaderReads(m, packet);
    QuestionReads(m, packet);
    SectionRoundTrip(packet, m.Start(), m.answers, false);
    SectionRoundTrip(packet, m.ToAuthority(), m.authority, true);
    SectionRoundTrip(packet, m.ToAdditional(), m.additional, false);
  }
}
