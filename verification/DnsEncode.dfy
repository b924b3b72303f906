/** The two name encoders: `change_to_dns_name_format` of `lib/asyncdns.cpp` and `ChangetoDnsNameFormat` of `dns.c`. */
module DnsEncode {
  import opened Bytes
  import opened DnsName

  /** Index of the first dot of `host` at or after `k`, or |host| when there is none. */
  function NextDot(host: seq<Byte>, k: nat): (d: nat)
    requires k <= |host|
    ensures k <= d <= |host|
    ensures forall j :: k <= j < d ==> host[j] != DOT
    ensures d < |host| ==> host[d] == DOT
    decreases |host| - k
  {
    if k == |host| || host[k] == DOT then k else NextDot(host, k + 1)
  }

  /** A length octet stands at the front and in the place of every dot. */
  predicate IsOctetIndex(host: seq<Byte>, k: nat)
    requires k <= |host|
  {
    k == 0 || host[k - 1] == DOT
  }

  /** Byte `k` of the encoded host, from the dots of the host alone. */
  function EncodedByte(host: seq<Byte>, k: nat): Byte
    requires k <= |host|
  {
    if IsOctetIndex(host, k) then (NextDot(host, k) - k) % 256 else host[k - 1]
  }

  lemma {:induction false} NextDotShift(host: seq<Byte>, k: nat)
    requires host != [] && 1 <= k <= |host|
    ensures NextDot(host, k) == NextDot(host[1..], k - 1) + 1
    decreases |host| - k
  {
    if k < |host| && host[k] != DOT {
      NextDotShift(host, k + 1);
    }
  }

  lemma {:induction false} FirstPart(host: seq<Byte>)
    ensures |Split(host).head| == NextDot(host, 0)
  {
    if host != [] && host[0] != DOT {
      FirstPart(host[1..]);
      NextDotShift(host, 1);
    }
  }

  lemma WireOfLonger(c: Byte, rest: Name)
    requires rest.Sub?
    ensures var head := [c] + rest.head;
            Wire(Sub(head, rest.parent)) == [LengthOctet(head), c] + Wire(rest)[1..]
  {
    var head, tail := [c] + rest.head, rest.head + Wire(rest.parent);
    assert [LengthOctet(rest.head)] + rest.head + Wire(rest.parent) == [LengthOctet(rest.head)] + tail;
    assert [LengthOctet(head)] + head + Wire(rest.parent) == [LengthOctet(head), c] + tail;
  }

  /** The encoded host, byte by byte. */
  lemma {:induction false} EncodedBytes(host: seq<Byte>, k: nat)
    requires k <= |host|
    ensures EncodeHost(host)[k] == EncodedByte(host, k)
    decreases |host|
  {
    FirstPart(host);
    if host != [] && k > 0 {
      EncodedBytes(host[1..], k - 1);
      NextDotShift(host, k);
      if host[0] != DOT {
        WireOfLonger(host[0], Split(host[1..]));
      }
    }
  }

  lemma EncodedForm(host: seq<Byte>)
    ensures forall k :: 0 <= k <= |host| ==> EncodeHost(host)[k] == EncodedByte(host, k)
  {
    forall k | 0 <= k <= |host| ensures EncodeHost(host)[k] == EncodedByte(host, k) {
      EncodedBytes(host, k);
    }
  }

  /** `s` with the bytes `b` written from index `at`. */
  function Splice(s: seq<Byte>, at: nat, b: seq<Byte>): (t: seq<Byte>)
    requires at + |b| <= |s|
    ensures |t| == |s|
    ensures forall k :: 0 <= k < |s| ==> t[k] == if at <= k < at + |b| then b[k - at] else s[k]
  {
    s[..at] + b + s[at + |b|..]
  }

  /** What the C++ encoder leaves: it skips one byte between the name and the terminator. */
  function CxxEncoded(s: seq<Byte>, at: nat, host: seq<Byte>): (t: seq<Byte>)
    requires at + |host| + 3 <= |s|
    ensures |t| == |s|
  {
    Splice(Splice(s, at, EncodeHost(host)), at + |host| + 2, [0])
  }

  /** What the C encoder leaves: the terminator directly follows the name. */
  function CEncoded(s: seq<Byte>, at: nat, host: seq<Byte>): (t: seq<Byte>)
    requires at + |host| + 2 <= |s|
    ensures |t| == |s|
  {
    Splice(s, at, EncodeHost(host) + [0])
  }

  /** The C++ encoder terminates the name exactly when the skipped byte was zero beforehand. */
  lemma CxxTerminates(s: seq<Byte>, at: nat, host: seq<Byte>)
    requires at + |host| + 3 <= |s|
    ensures Holds(CxxEncoded(s, at, host), at, EncodeHost(host) + [0]) <==> s[at + |host| + 1] == 0
  {
    var t, w := CxxEncoded(s, at, host), EncodeHost(host);
    HoldsConcat(t, at, w, [0]);
    assert t[at..at + |w|] == w;
    assert t[at + |w|..at + |w| + 1] == [t[at + |w|]];
    assert t[at + |w|] == s[at + |host| + 1];
  }

  /** A buffer on which the C++ encoder leaves the name of the host `a` without its terminator. */
  lemma UnterminatedName()
    ensures !Holds(CxxEncoded([9, 9, 9, 9], 0, [97]), 0, EncodeHost([97]) + [0])
  {
    CxxTerminates([9, 9, 9, 9], 0, [97]);
  }

  /** The two encoders leave the same buffer exactly when both bytes after the name were zero beforehand. */
  lemma EncodersAgree(s: seq<Byte>, at: nat, host: seq<Byte>)
    requires at + |host| + 3 <= |s|
    ensures CxxEncoded(s, at, host) == CEncoded(s, at, host)
            <==> s[at + |host| + 1] == 0 && s[at + |host| + 2] == 0
  {
    var x, c := CxxEncoded(s, at, host), CEncoded(s, at, host);
    var n := at + |host| + 1;
    assert x[n] == s[n] && c[n] == 0 && x[n + 1] == 0 && c[n + 1] == s[n + 1];
    assert forall k :: 0 <= k < |s| && k != n && k != n + 1 ==> x[k] == c[k];
  }

  /** `lock` starts a part of `text` whose dot does not come before `i`; the last dot is the appended one. */
  ghost predicate InPart(text: seq<Byte>, lock: nat, i: nat) {
    && lock <= i <= |text| + 1
    && (lock <= |text| ==> i <= |text| && IsOctetIndex(text, lock) && NextDot(text, lock) >= i)
  }

  lemma NextInPart(text: seq<Byte>, lock: nat, i: nat)
    requires InPart(text, lock, i) && i <= |text|
    ensures lock <= i
    ensures if (text + [DOT])[i] == DOT then
              IsOctetIndex(text, lock) && NextDot(text, lock) == i && InPart(text, i + 1, i + 1)
            else InPart(text, lock, i + 1)
  {
  }

  lemma FirstInPart(text: seq<Byte>, lock: nat)
    requires lock <= |text| && IsOctetIndex(text, lock)
    ensures InPart(text, lock, lock)
  {
  }

  lemma LastPart(text: seq<Byte>, lock: nat, i: nat)
    requires InPart(text, lock, i) && i == |text| + 1
    ensures lock == i
  {
  }

  /** The length octet of a part is known once its end is reached. */
  lemma PartEnds(text: seq<Byte>, lock: nat, i: nat)
    requires InPart(text, lock, i) && lock <= |text| && (i == |text| || text[i] == DOT)
    ensures EncodedByte(text, lock) == (i - lock) % 256
  {
  }

  lemma PartGrows(text: seq<Byte>, lock: nat, i: nat)
    requires InPart(text, lock, i) && i < |text| && text[i] != DOT
    ensures InPart(text, lock, i + 1) && EncodedByte(text, i + 1) == text[i]
    ensures (i + 1 - lock) % 256 == ((i - lock) % 256 + 1) % 256
  {
  }

  /** `change_to_dns_name_format`: one pass, patching each length octet when its label ends. */
  method ChangeToDnsNameFormat(dns: array<Byte>, at: nat, host: seq<Byte>)
    requires 0 !in host && at + |host| + 3 <= dns.Length
    modifies dns
    ensures dns[..] == CxxEncoded(old(dns[..]), at, host)
  {
    hide EncodeHost;
    hide EncodedByte;
    hide InPart;
    ghost var before := dns[..];
    var labelLen: Byte := 0;
    var labelLenPtr := at;
    var d := at + 1;
    var h := 0;
    FirstInPart(host, 0);
    while h < |host|
      invariant 0 <= h <= |host| && d == at + 1 + h
      invariant at <= labelLenPtr < d && InPart(host, labelLenPtr - at, h)
      invariant labelLen == (h - (labelLenPtr - at)) % 256
      invariant forall k :: 0 <= k <= h && at + k != labelLenPtr ==> dns[at + k] == EncodedByte(host, k)
      invariant forall k :: 0 <= k < at || d <= k < dns.Length ==> dns[k] == before[k]
    {
      var v := host[h];
      if v == DOT {
        PartEnds(host, labelLenPtr - at, h);
        FirstInPart(host, h + 1);
        dns[labelLenPtr] := labelLen;
        labelLen := 0;
        labelLenPtr := d;
      } else {
        PartGrows(host, labelLenPtr - at, h);
        dns[d] := host[h];
        labelLen := (labelLen + 1) % 256;
      }
      h := h + 1;
      d := d + 1;
    }
    PartEnds(host, labelLenPtr - at, h);
    dns[labelLenPtr] := labelLen;
    EncodedForm(host);
    assert dns[..] == Splice(before, at, EncodeHost(host));
    d := d + 1;
    dns[d] := 0;
  }

  /** One part as the C encoder writes it: the truncated length, then the bytes before its dot. */
  function PartBytes(dotted: seq<Byte>, lock: nat, i: nat): (b: seq<Byte>)
    requires lock <= i <= |dotted|
    ensures |b| == i - lock + 1
  {
    [(i - lock) % 256] + dotted[lock..i]
  }

  /** The parts written so far are a prefix of the encoded host. */
  lemma PartExtends(text: seq<Byte>, lock: nat, i: nat)
    requires lock <= i <= |text| && IsOctetIndex(text, lock) && NextDot(text, lock) == i
    ensures EncodeHost(text)[..lock] + PartBytes(text + [DOT], lock, i) == EncodeHost(text)[..i + 1]
  {
    EncodedForm(text);
    var w, b := EncodeHost(text), PartBytes(text + [DOT], lock, i);
    forall k | lock <= k <= i ensures w[k] == b[k - lock] {
      if k > lock {
        assert !IsOctetIndex(text, k);
      }
    }
    assert w[lock..i + 1] == b;
    assert w[..lock] + w[lock..i + 1] == w[..i + 1];
  }

  /** The body of the dot branch: the length octet, then the look-back copy. */
  method WritePart(dns: array<Byte>, d: nat, host: array<Byte>, lock: nat, i: nat)
    requires dns != host && lock <= i <= host.Length && d + (i - lock) < dns.Length
    modifies dns
    ensures dns[..] == Splice(old(dns[..]), d, PartBytes(host[..], lock, i))
  {
    dns[d] := (i - lock) % 256;
    var e, l := d + 1, lock;
    while l < i
      invariant lock <= l <= i && e == d + 1 + (l - lock)
      invariant dns[d] == (i - lock) % 256
      invariant forall k :: lock <= k < l ==> dns[d + 1 + (k - lock)] == host[k]
      invariant forall k :: 0 <= k < d || e <= k < dns.Length ==> dns[k] == old(dns[k])
    {
      dns[e] := host[l];
      e := e + 1;
      l := l + 1;
    }
    ghost var b := PartBytes(host[..], lock, i);
    assert forall k :: 0 < k < |b| ==> b[k] == host[lock + (k - 1)];
  }

  lemma SpliceByte(s: seq<Byte>, at: nat, b: Byte)
    requires at < |s|
    ensures s[at := b] == Splice(s, at, [b])
  {
  }

  lemma SpliceNothing(s: seq<Byte>, at: nat)
    requires at <= |s|
    ensures Splice(s, at, []) == s
  {
  }

  lemma SpliceTwice(s: seq<Byte>, at: nat, a: seq<Byte>, b: seq<Byte>)
    requires at + |a| + |b| <= |s|
    ensures Splice(Splice(s, at, a), at + |a|, b) == Splice(s, at, a + b)
  {
  }

  lemma PartWritten(s: seq<Byte>, at: nat, text: seq<Byte>, host: seq<Byte>, lock: nat, i: nat)
    requires at + |text| + 1 <= |s| && text + [DOT] <= host
    requires lock <= i <= |text| && IsOctetIndex(text, lock) && NextDot(text, lock) == i
    ensures var w := EncodeHost(text);
            Splice(Splice(s, at, w[..lock]), at + lock, PartBytes(host, lock, i)) == Splice(s, at, w[..i + 1])
  {
    assert host[lock..i] == (text + [DOT])[lock..i];
    PartExtends(text, lock, i);
    SpliceTwice(s, at, EncodeHost(text)[..lock], PartBytes(host, lock, i));
  }

  /** `ChangetoDnsNameFormat`: appends a dot to the host, then looks back over each part when its dot is found. */
  method ChangetoDnsNameFormatC(dns: array<Byte>, at: nat, host: array<Byte>, ghost text: seq<Byte>)
    requires dns != host && HoldsString(host[..], 0, text) && |text| + 2 <= host.Length
    requires at + |text| + 2 <= dns.Length
    modifies dns, host
    ensures dns[..] == CEncoded(old(dns[..]), at, text)
    ensures host[..] == Splice(old(host[..]), 0, text + [DOT, 0])
  {
    hide EncodeHost;
    hide StrEnd;
    hide HoldsString;
    hide PartBytes;
    hide NextDot;
    hide InPart;
    hide Splice;
    ghost var before, dotted, w := dns[..], text + [DOT], EncodeHost(text);
    AppendDot(host, text);
    ghost var held := host[..];
    var lock, i, d := 0, 0, at;
    FirstInPart(text, 0);
    SpliceNothing(before, at);
    while i < StrEnd(host[..], 0)
      invariant InPart(text, lock, i) && lock <= i <= |dotted| && d == at + lock
      invariant dns[..] == Splice(before, at, w[..lock])
      invariant host[..] == held
      decreases |dotted| - i
    {
      assert host[i] == held[i] == dotted[i];
      NextInPart(text, lock, i);
      if host[i] == DOT {
        WritePart(dns, d, host, lock, i);
        PartWritten(before, at, text, held, lock, i);
        d := d + 1 + (i - lock);
        lock := i + 1;
      }
      i := i + 1;
    }
    LastPart(text, lock, i);
    SpliceByte(dns[..], d, 0);
    dns[d] := 0;
    SpliceTwice(before, at, w, [0]);
  }

  /** `strcat(host, ".")`. */
  method AppendDot(host: array<Byte>, ghost text: seq<Byte>)
    requires HoldsString(host[..], 0, text) && |text| + 2 <= host.Length
    modifies host
    ensures host[..] == Splice(old(host[..]), 0, text + [DOT, 0])
    ensures text + [DOT] <= host[..] && StrEnd(host[..], 0) == |text| + 1
  {
    StrEndOfHeld(host[..], 0, text);
    var n := StrEnd(host[..], 0);
    assert forall k :: 0 <= k < n ==> host[k] == host[0..n + 1][k];
    host[n], host[n + 1] := DOT, 0;
    ghost var dotted := text + [DOT];
    assert host[0..0 + |dotted + [0]|] == dotted + [0];
    StrEndOfHeld(host[..], 0, dotted);
  }
}
