/** The buffer-level name routines of `lib/asyncdns.cpp` and `dns.c`. */
module DnsCodec {
  import opened Wrappers
  import opened Bytes
  import opened DnsName

  /** First loop of `read_name`: follows the name at `start` and collects its bytes, NUL-terminated. */
  method CollectName(buffer: seq<Byte>, start: nat, name: array<Byte>) returns (count: nat)
    requires name.Length == 256
    requires Collected(buffer, start).Some? && |Collected(buffer, start).value| <= 255
    modifies name
    ensures HoldsString(name[..], 0, Collected(buffer, start).value)
    ensures count == Span(buffer, start)
  {
    hide HoldsString;
    ghost var raw := Collected(buffer, start).value;
    ghost var fuel: nat := |buffer|;
    ghost var rest := raw;
    var reader: int, p, jumped := start, 0, false;
    count := 1;
    while buffer[reader] != 0
      invariant 0 <= reader < |buffer|
      invariant Walk(buffer, reader, fuel) == Some(rest)
      invariant p + |rest| == |raw| && name[..p] + rest == raw
      invariant if jumped then count + 1 == Span(buffer, start)
                else count + Span(buffer, reader) == Span(buffer, start) + 1
      decreases fuel
    {
      ghost var after := Walk(buffer, Next(buffer, reader), fuel - 1).value;
      assert rest == (if buffer[reader] >= 192 then [] else [buffer[reader]]) + after;
      if buffer[reader] >= 192 {
        assert rest == after;
        var offset := buffer[reader] as int * 256 + buffer[reader + 1] - 49152;
        reader := offset - 1;
        jumped := true;
      } else {
        ghost var before := name[..p];
        name[p] := buffer[reader];
        p := p + 1;
        assert name[..p] == before + [buffer[reader]];
        assert before + rest == before + [buffer[reader]] + after;
        rest := after;
      }
      reader := reader + 1;
      if !jumped {
        count := count + 1;
      }
      fuel := fuel - 1;
    }
    name[p] := 0;
    if jumped {
      count := count + 1;
    }
    TerminatedText(name[..], raw);
  }

  lemma TerminatedText(s: seq<Byte>, raw: seq<Byte>)
    requires |raw| < |s| && s[..|raw|] == raw && s[|raw|] == 0 && 0 !in raw
    ensures HoldsString(s, 0, raw)
  {
    assert s[0..0 + |raw| + 1] == raw + [0];
  }

  /** One round of the second loop: shifts the label at `at` one place to the left and puts a dot after it. */
  method ShiftLabel(name: array<Byte>, at: nat) returns (next: nat)
    requires at < name.Length && at + 1 + name[at] <= name.Length
    modifies name
    ensures next == at + 1 + old(name[at])
    ensures name[..] == old(name[..at] + (name[at + 1..at + 1 + name[at]] + [DOT]) + name[at + 1 + name[at]..])
  {
    var i := at;
    var p: nat := name[i];
    var j := 0;
    while j < p
      invariant 0 <= j <= p && i == at + j
      invariant forall k :: at <= k < i ==> name[k] == old(name[k + 1])
      invariant forall k :: 0 <= k < at || i < k < name.Length ==> name[k] == old(name[k])
    {
      name[i] := name[i + 1];
      i := i + 1;
      j := j + 1;
    }
    name[i] := DOT;
    next := i + 1;
  }

  /**
   Second loop of `read_name`: turns the length-prefixed labels in `name` into dotted text in place. `strlen` is
   recomputed every round, as in the source.
   */
  method ConvertLabels(name: array<Byte>, ghost raw: seq<Byte>)
    requires HoldsString(name[..], 0, raw) && raw != [] && Labels(raw).Some?
    modifies name
    ensures HoldsString(name[..], 0, Join(Labels(raw).value))
    ensures name[|raw|..] == old(name[|raw|..])
  {
    hide Dotted;
    hide StrEnd;
    hide Labels;
    ghost var all, tail := Labels(raw).value, name[|raw|..];
    ghost var done, rest := [], raw;
    assert name[..] == name[0..|raw| + 1] + tail[1..];
    assert name[..] == done + rest + tail;
    var i := 0;
    while i < StrEnd(name[..], 0)
      invariant i == |done|
      invariant HalfDone(name[..], done, rest, tail, all)
      decreases |rest|
    {
      StrEndIs(name[..], done + rest);
      i, done, rest := ConvertLabel(name, i, done, rest, tail, all);
    }
    StrEndIs(name[..], done + rest);
    AllDone(raw, name[..], done, rest, tail);
    name[i - 1] := 0;
    assert name[..] == Join(all) + [0] + tail;
  }

  /** One round of the loop of `ConvertLabels`. */
  method ConvertLabel(name: array<Byte>, i: nat, ghost done: seq<Byte>, ghost rest: seq<Byte>, ghost tail: seq<Byte>,
                      ghost all: Name)
    returns (next: nat, ghost done': seq<Byte>, ghost rest': seq<Byte>)
    requires HalfDone(name[..], done, rest, tail, all) && i == |done| && rest != []
    modifies name
    ensures HalfDone(name[..], done', rest', tail, all) && next == |done'| && |rest'| < |rest|
  {
    ghost var before := name[..];
    assert before[i] == rest[0] && i + 1 + rest[0] <= |before|;
    next := ShiftLabel(name, i);
    RoundKeeps(before, name[..], done, rest, tail, all);
    ghost var n := rest[0];
    done', rest' := done + (rest[1..1 + n] + [DOT]), rest[1 + n..];
  }

  /** `s` is dotted text, then labels still to convert, then the NUL and what follows it. */
  ghost predicate HalfDone(s: seq<Byte>, done: seq<Byte>, rest: seq<Byte>, tail: seq<Byte>, all: Name) {
    && s == done + rest + tail
    && tail != [] && tail[0] == 0
    && 0 !in done + rest
    && Labels(rest).Some?
    && Dotted(all) == done + Dotted(Labels(rest).value)
  }

  lemma RoundKeeps(s: seq<Byte>, t: seq<Byte>, done: seq<Byte>, rest: seq<Byte>, tail: seq<Byte>, all: Name)
    requires HalfDone(s, done, rest, tail, all) && rest != []
    requires var at, n := |done|, rest[0];
             t == s[..at] + (s[at + 1..at + 1 + n] + [DOT]) + s[at + 1 + n..]
    ensures HalfDone(t, done + (rest[1..1 + rest[0]] + [DOT]), rest[1 + rest[0]..], tail, all)
  {
    var head, more := rest[1..1 + rest[0]], rest[1 + rest[0]..];
    RoundMoves(s, t, done, rest, tail);
    FirstLabel(rest);
    var d := Dotted(Labels(more).value);
    assert done + (head + [DOT] + d) == done + (head + [DOT]) + d;
    assert forall x :: x in head || x in more ==> x in rest;
  }

  lemma AllDone(raw: seq<Byte>, s: seq<Byte>, done: seq<Byte>, rest: seq<Byte>, tail: seq<Byte>)
    requires raw != [] && Labels(raw).Some? && HalfDone(s, done, rest, tail, Labels(raw).value) && rest == []
    ensures Labels(raw).value.Sub? && s == Join(Labels(raw).value) + [DOT] + tail
  {
    DottedIsJoin(Labels(raw).value);
  }

  lemma RoundMoves(s: seq<Byte>, t: seq<Byte>, done: seq<Byte>, rest: seq<Byte>, tail: seq<Byte>)
    requires s == done + rest + tail && rest != [] && 1 + rest[0] <= |rest|
    requires var at, n := |done|, rest[0];
             t == s[..at] + (s[at + 1..at + 1 + n] + [DOT]) + s[at + 1 + n..]
    ensures t == done + (rest[1..1 + rest[0]] + [DOT]) + rest[1 + rest[0]..] + tail
  {
    var at, n := |done|, rest[0];
    assert s[..at] == done && s[at + 1..at + 1 + n] == rest[1..1 + n];
    assert s[at + 1 + n..] == rest[1 + n..] + tail;
  }

  lemma FirstLabel(rest: seq<Byte>)
    requires rest != [] && Labels(rest).Some?
    ensures 1 + rest[0] <= |rest| && Labels(rest[1 + rest[0]..]).Some?
    ensures Dotted(Labels(rest).value)
         == rest[1..1 + rest[0]] + [DOT] + Dotted(Labels(rest[1 + rest[0]..]).value)
  {
  }

  lemma StrEndIs(s: seq<Byte>, text: seq<Byte>)
    requires |text| < |s| && s[..|text|] == text && s[|text|] == 0 && 0 !in text
    ensures StrEnd(s, 0) == |text|
  {
    TerminatedText(s, text);
    StrEndOfHeld(s, 0, text);
  }

  /** `read_name` (and its twin `ReadName`): the decoded text and the bytes the name occupies at `start`. */
  method ReadName(buffer: seq<Byte>, start: nat) returns (name: array<Byte>, count: nat)
    requires Decode(buffer, start).Some?
    ensures fresh(name) && name.Length == 256
    ensures HoldsString(name[..], 0, Decode(buffer, start).value)
    ensures count == Span(buffer, start)
  {
    name := new Byte[256];
    name[0] := 0;
    count := CollectName(buffer, start, name);
    ConvertLabels(name, Collected(buffer, start).value);
  }
}
