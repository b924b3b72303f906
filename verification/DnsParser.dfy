/** The record-reading loops: `parse_response` of `lib/asyncdns.cpp` and the three sections of `dns.c`. */
module DnsParser {
  import opened Bytes
  import opened DnsName
  import opened DnsCodec
  import opened DnsMessage

  /** One round of a section loop: owner name, fixed fields, then address bytes or a name. */
  method ReadRecord(data: seq<Byte>, start: nat, nameOnly: bool) returns (record: Record, reader: nat)
    requires ParseRecord(data, start, nameOnly).Parsed?
    ensures ParseRecord(data, start, nameOnly) == Parsed(record, reader)
  {
    reader := start;
    var name, stop := ReadName(data, reader);
    TextOfHeld(name[..], Decode(data, start).value);
    var owner := name[..StrEnd(name[..], 0)];
    reader := reader + stop;
    var resource := reader;
    reader := reader + RECORD_FIXED_LENGTH;
    var rtype, resourceLength := Get16(data, resource), Get16(data, resource + 8);
    var rdata;
    if rtype == TYPE_A && !nameOnly {
      var bytes := ReadAddress(data, reader, resourceLength);
      rdata := bytes[..resourceLength];
      reader := reader + resourceLength;
    } else {
      var alias, more := ReadName(data, reader);
      TextOfHeld(alias[..], Decode(data, reader).value);
      rdata := alias[..StrEnd(alias[..], 0)];
      reader := reader + more;
    }
    record := Record(owner, rtype, Get16(data, resource + 2), Get32(data, resource + 4), resourceLength, rdata);
  }

  /** Copies the rdata and terminates it; the terminator needs one byte more than the rdata. */
  method ReadAddress(data: seq<Byte>, reader: nat, length: Word) returns (rdata: array<Byte>)
    requires reader + length <= |data|
    ensures fresh(rdata) && rdata.Length == length + 1
    ensures rdata[..] == data[reader..reader + length] + [0]
  {
    rdata := new Byte[length + 1];
    for j := 0 to length
      invariant rdata[..j] == data[reader..reader + j]
    {
      rdata[j] := data[reader + j];
    }
    rdata[length] := 0;
  }

  /** Fills `records` with `count` records from `start` on and returns the cursor after them. */
  method ReadSection(data: seq<Byte>, start: nat, count: nat, nameOnly: bool, records: array<Record>)
    returns (reader: nat)
    requires count <= records.Length && ParseSection(data, start, count, nameOnly).Section?
    modifies records
    ensures ParseSection(data, start, count, nameOnly) == Section(records[..count], reader)
    ensures records[count..] == old(records[count..])
  {
    hide ParseRecord;
    ghost var all := ParseSection(data, start, count, nameOnly);
    ghost var rest := all.records;
    reader := start;
    for i := 0 to count
      invariant ParseSection(data, reader, count - i, nameOnly) == Section(rest, all.end)
      invariant records[..i] + rest == all.records
      invariant records[count..] == old(records[count..])
    {
      ghost var before := records[..i];
      var record, next := ReadRecord(data, reader, nameOnly);
      assert rest == [record] + rest[1..];
      records[i] := record;
      reader := next;
      assert records[..i + 1] == before + [record];
      assert before + rest == before + [record] + rest[1..];
      rest := rest[1..];
    }
    assert records[..count] + rest == records[..count];
  }

  /** `parse_response`. */
  method ReadResponse(data: seq<Byte>) returns (answers: array<Record>, count: nat)
    requires ParseResponse(data).Section?
    ensures fresh(answers) && count == answers.Length
    ensures answers[..] == ParseResponse(data).records
  {
    var queryLength := StrEnd(data, HEADER_LENGTH) - HEADER_LENGTH + 1;
    var readerStart := HEADER_LENGTH + queryLength + QUESTION_FIXED_LENGTH;
    count := Get16(data, 6);
    answers := new Record[count];
    var end := ReadSection(data, readerStart, count, false, answers);
    assert answers[..count] == answers[..];
  }

  /** The section loops of `ngethostbyname`, over its arrays of twenty records each. */
  method ReadReply(data: seq<Byte>, answers: array<Record>, auth: array<Record>, addit: array<Record>)
    returns (reader: nat)
    requires ParseReply(data).Reply?
    requires answers.Length == 20 && auth.Length == 20 && addit.Length == 20
    requires Get16(data, 6) <= 20 && Get16(data, 8) <= 20 && Get16(data, 10) <= 20
    requires answers != auth && answers != addit && auth != addit
    modifies answers, auth, addit
    ensures ParseReply(data)
         == Reply(answers[..Get16(data, 6)], auth[..Get16(data, 8)], addit[..Get16(data, 10)], reader)
  {
    hide ParseSection;
    var readerStart := StrEnd(data, HEADER_LENGTH) + 1 + QUESTION_FIXED_LENGTH;
    reader := ReadSection(data, readerStart, Get16(data, 6), false, answers);
    reader := ReadSection(data, reader, Get16(data, 8), true, auth);
    reader := ReadSection(data, reader, Get16(data, 10), false, addit);
  }
}
