/** Octets, big-endian fields and NUL-terminated text, as the DNS code sees them. */
module Bytes {

  type Byte = x: int | 0 <= x < 256

  type Word = x: int | 0 <= x < 0x1_0000

  type LongWord = x: int | 0 <= x < 0x1_0000_0000

  const DOT: Byte := 46

  /** Index of the first NUL at or after `at` (what `strlen` measures), or |s| when there is none. */
  function StrEnd(s: seq<Byte>, at: nat): (e: nat)
    requires at <= |s|
    ensures at <= e <= |s|
    ensures forall k :: at <= k < e ==> s[k] != 0
    ensures e < |s| ==> s[e] == 0
    decreases |s| - at
  {
    if at == |s| || s[at] == 0 then at else StrEnd(s, at + 1)
  }

  /** `s` holds the bytes `b` from index `at`. */
  predicate Holds(s: seq<Byte>, at: nat, b: seq<Byte>) {
    at + |b| <= |s| && s[at..at + |b|] == b
  }

  lemma HoldsConcat(s: seq<Byte>, at: nat, a: seq<Byte>, b: seq<Byte>)
    ensures Holds(s, at, a + b) <==> Holds(s, at, a) && Holds(s, at + |a|, b)
  {
    if at + |a| + |b| <= |s| {
      var slice := s[at..at + |a + b|];
      assert slice == s[at..at + |a|] + s[at + |a|..at + |a| + |b|];
      assert slice[..|a|] == s[at..at + |a|] && slice[|a|..] == s[at + |a|..at + |a| + |b|];
      assert (a + b)[..|a|] == a && (a + b)[|a|..] == b;
    }
  }

  /** `s` holds the NUL-terminated string `text` from index `at`. */
  predicate HoldsString(s: seq<Byte>, at: nat, text: seq<Byte>) {
    Holds(s, at, text + [0]) && 0 !in text
  }

  /** A held string is the only one `strlen` can find there. */
  lemma StrEndOfHeld(s: seq<Byte>, at: nat, text: seq<Byte>)
    requires HoldsString(s, at, text)
    ensures StrEnd(s, at) == at + |text|
  {
    var e := StrEnd(s, at);
    HoldsConcat(s, at, text, [0]);
    assert s[at + |text|] == s[at + |text|..at + |text| + 1][0];
    forall k | at <= k < at + |text| ensures s[k] != 0 {
      assert s[k] == text[k - at];
    }
  }

  /** A count as a 16-bit field holds it; every use keeps the count in range. */
  function Field(n: nat): (w: Word)
    ensures n < 0x1_0000 ==> w == n
  {
    if n < 0x1_0000 then n else 0xFFFF
  }

  /** A 16-bit field in network order. */
  function Be16(n: Word): (b: seq<Byte>)
    ensures |b| == 2
  {
    [n / 256, n % 256]
  }

  /** A 32-bit field in network order. */
  function Be32(n: LongWord): (b: seq<Byte>)
    ensures |b| == 4
  {
    Be16(n / 0x1_0000) + Be16(n % 0x1_0000)
  }

  /** `ntohs` of the two bytes at `at`. */
  function Get16(s: seq<Byte>, at: nat): (n: Word)
    requires at + 2 <= |s|
  {
    s[at] as int * 256 + s[at + 1]
  }

  /** `ntohl` of the four bytes at `at`. */
  function Get32(s: seq<Byte>, at: nat): (n: LongWord)
    requires at + 4 <= |s|
  {
    Get16(s, at) as int * 0x1_0000 + Get16(s, at + 2)
  }

  lemma Get16OfBe16(s: seq<Byte>, at: nat, n: Word)
    requires Holds(s, at, Be16(n))
    ensures Get16(s, at) == n
  {
    assert s[at] == s[at..at + 2][0] && s[at + 1] == s[at..at + 2][1];
  }

  lemma Get32OfBe32(s: seq<Byte>, at: nat, n: LongWord)
    requires Holds(s, at, Be32(n))
    ensures Get32(s, at) == n
  {
    HoldsConcat(s, at, Be16(n / 0x1_0000), Be16(n % 0x1_0000));
    Get16OfBe16(s, at, n / 0x1_0000);
    Get16OfBe16(s, at + 2, n % 0x1_0000);
  }

  lemma TextOfHeld(s: seq<Byte>, text: seq<Byte>)
    requires HoldsString(s, 0, text)
    ensures s[..StrEnd(s, 0)] == text
  {
    StrEndOfHeld(s, 0, text);
    HoldsConcat(s, 0, text, [0]);
    assert s[..|text|] == s[0..0 + |text|];
  }
}
