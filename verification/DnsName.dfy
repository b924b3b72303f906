/**
 Domain names on the wire: section 3.1 and section 4.1.4 of RFC 1035, and the
 byte-by-byte walk that `read_name` makes over them.
 */
module DnsName {
  import opened Wrappers
  import opened Bytes

  type Label = seq<Byte>

  /** A domain name: the root, or a label below a parent domain. */
  datatype Name = Root | Sub(head: Label, parent: Name)

  /** The labels of `a` below the domain `b`. */
  function Append(a: Name, b: Name): Name {
    match a
    case Root => b
    case Sub(head, parent) => Sub(head, Append(parent, b))
  }

  /** The length octet of a label, truncated to eight bits as both encoders do. */
  function LengthOctet(part: Label): (b: Byte)
    ensures |part| < 256 ==> b == |part|
  {
    |part| % 256
  }

  /** The length octet and the bytes of each label, without the terminating zero octet. */
  function Wire(name: Name): seq<Byte> {
    match name
    case Root => []
    case Sub(head, parent) => [LengthOctet(head)] + head + Wire(parent)
  }

  /** Each label followed by a dot. */
  function Dotted(name: Name): seq<Byte> {
    match name
    case Root => []
    case Sub(head, parent) => head + [DOT] + Dotted(parent)
  }

  lemma {:induction false} SameLength(name: Name)
    ensures |Wire(name)| == |Dotted(name)|
  {
    if name.Sub? {
      SameLength(name.parent);
    }
  }

  /** The labels joined by dots: how a host name is written. */
  function Join(name: Name): seq<Byte>
    requires name.Sub?
  {
    if name.parent.Root? then name.head else name.head + [DOT] + Join(name.parent)
  }

  lemma {:induction false} DottedIsJoin(name: Name)
    requires name.Sub?
    ensures Dotted(name) == Join(name) + [DOT]
  {
    if name.parent.Sub? {
      DottedIsJoin(name.parent);
    }
  }

  /** The dot-separated parts of a host name; there is always at least one. */
  function Split(host: seq<Byte>): (name: Name)
    ensures name.Sub?
  {
    if host == [] then Sub([], Root)
    else if host[0] == DOT then Sub([], Split(host[1..]))
    else var rest := Split(host[1..]); Sub([host[0]] + rest.head, rest.parent)
  }

  /** A byte that the loop neither stops at nor takes for a pointer. */
  predicate IsPlain(b: Byte) {
    1 <= b < 192
  }

  predicate AllPlain(s: seq<Byte>) {
    forall b :: b in s ==> IsPlain(b)
  }

  predicate PlainLabels(name: Name) {
    name.Sub? ==> AllPlain(name.head) && PlainLabels(name.parent)
  }

  predicate ShortLabels(name: Name) {
    name.Sub? ==> |name.head| < 192 && ShortLabels(name.parent)
  }

  predicate NonemptyLabels(name: Name) {
    name.Sub? ==> name.head != [] && NonemptyLabels(name.parent)
  }

  predicate DotFree(name: Name) {
    name.Sub? ==> DOT !in name.head && DotFree(name.parent)
  }

  // ----- The walk of read_name's first loop -----

  predicate IsPointer(packet: seq<Byte>, pos: nat) {
    pos < |packet| && packet[pos] >= 192
  }

  /** The 14-bit offset of the pointer at `pos`. */
  function Target(packet: seq<Byte>, pos: nat): (t: nat)
    requires IsPointer(packet, pos) && pos + 1 < |packet|
    ensures t < 0x4000
  {
    packet[pos] as int * 256 + packet[pos + 1] - 49152
  }

  /** The loop can make one more round at `pos`: a nonzero byte, and both bytes of a pointer, are there. */
  predicate CanStep(packet: seq<Byte>, pos: nat) {
    pos < |packet| && packet[pos] != 0 && (IsPointer(packet, pos) ==> pos + 1 < |packet|)
  }

  /** Where one round moves the reader. */
  function Next(packet: seq<Byte>, pos: nat): nat
    requires CanStep(packet, pos)
  {
    if IsPointer(packet, pos) then Target(packet, pos) else pos + 1
  }

  /** The bytes the loop collects from `pos`, or None if it leaves the packet or needs `fuel` tests or more. */
  function Walk(packet: seq<Byte>, pos: nat, fuel: nat): (raw: Option<seq<Byte>>)
    ensures raw.Some? ==> pos < |packet| && forall b :: b in raw.value ==> 1 <= b < 192
    decreases fuel
  {
    if fuel == 0 || pos >= |packet| then None
    else if packet[pos] == 0 then Some([])
    else if !CanStep(packet, pos) then None
    else
      match Walk(packet, Next(packet, pos), fuel - 1)
      case None => None
      case Some(rest) => Some((if IsPointer(packet, pos) then [] else [packet[pos]]) + rest)
  }

  /** What the loop collects; by `FuelIsEnough`, None exactly when the loop does not end inside the packet. */
  function Collected(packet: seq<Byte>, pos: nat): Option<seq<Byte>> {
    Walk(packet, pos, |packet|)
  }

  /** How many times the loop tests its guard from `pos`. */
  ghost function Tests(packet: seq<Byte>, pos: nat, fuel: nat): (n: nat)
    requires Walk(packet, pos, fuel).Some?
    ensures 1 <= n <= fuel
    ensures Walk(packet, pos, n) == Walk(packet, pos, fuel)
    decreases fuel
  {
    if packet[pos] == 0 then 1 else 1 + Tests(packet, Next(packet, pos), fuel - 1)
  }

  lemma {:induction false} MoreFuel(packet: seq<Byte>, pos: nat, fuel: nat, more: nat)
    requires Walk(packet, pos, fuel).Some? && fuel <= more
    ensures Walk(packet, pos, more) == Walk(packet, pos, fuel)
    ensures Tests(packet, pos, more) == Tests(packet, pos, fuel)
    decreases fuel
  {
    if packet[pos] != 0 {
      MoreFuel(packet, Next(packet, pos), fuel - 1, more - 1);
    }
  }

  /** The positions the reader takes. */
  ghost function Visited(packet: seq<Byte>, pos: nat, fuel: nat): set<nat>
    requires Walk(packet, pos, fuel).Some?
    decreases fuel
  {
    if packet[pos] == 0 then {pos} else {pos} + Visited(packet, Next(packet, pos), fuel - 1)
  }

  lemma {:induction false} VisitedCostsLess(packet: seq<Byte>, pos: nat, fuel: nat, q: nat)
    requires Walk(packet, pos, fuel).Some? && q in Visited(packet, pos, fuel)
    ensures q < |packet|
    ensures Walk(packet, q, fuel).Some?
    ensures Tests(packet, q, fuel) <= Tests(packet, pos, fuel)
    decreases fuel
  {
    if q != pos {
      VisitedCostsLess(packet, Next(packet, pos), fuel - 1, q);
      MoreFuel(packet, q, fuel - 1, fuel);
    }
  }

  /** A walk that ends never visits a position twice. */
  lemma {:induction false} VisitedCount(packet: seq<Byte>, pos: nat, fuel: nat)
    requires Walk(packet, pos, fuel).Some?
    ensures |Visited(packet, pos, fuel)| == Tests(packet, pos, fuel)
    decreases fuel
  {
    if packet[pos] != 0 {
      var next := Next(packet, pos);
      VisitedCount(packet, next, fuel - 1);
      if pos in Visited(packet, next, fuel - 1) {
        VisitedCostsLess(packet, next, fuel - 1, pos);
        MoreFuel(packet, pos, fuel - 1, fuel);
        assert false;
      }
    }
  }

  lemma {:induction false} SubsetOfRange(s: set<nat>, n: nat)
    requires forall x :: x in s ==> x < n
    ensures |s| <= n
    decreases n
  {
    if n == 0 {
      assert s == {};
    } else {
      SubsetOfRange(s - {n - 1}, n - 1);
      assert s <= (s - {n - 1}) + {n - 1};
    }
  }

  /** If the walk ends inside the packet at all, it does so within |packet| tests of its guard. */
  lemma FuelIsEnough(packet: seq<Byte>, pos: nat, fuel: nat)
    requires Walk(packet, pos, fuel).Some?
    ensures Collected(packet, pos) == Walk(packet, pos, fuel)
  {
    VisitedCount(packet, pos, fuel);
    forall q | q in Visited(packet, pos, fuel) ensures q < |packet| {
      VisitedCostsLess(packet, pos, fuel, q);
    }
    SubsetOfRange(Visited(packet, pos, fuel), |packet|);
    MoreFuel(packet, pos, Tests(packet, pos, fuel), |packet|);
  }

  // ----- Why the walk does not end -----

  /** Where the reader stands after `n` rounds, or None if the loop makes fewer. */
  function ReaderAt(packet: seq<Byte>, pos: nat, n: nat): Option<nat>
    decreases n
  {
    if n == 0 then Some(pos)
    else if CanStep(packet, pos) then ReaderAt(packet, Next(packet, pos), n - 1)
    else None
  }

  /** The reader leaves the packet, or stands at a pointer whose second byte is outside it. */
  ghost predicate GetsStuck(packet: seq<Byte>, pos: nat) {
    exists n: nat :: ReaderAt(packet, pos, n).Some? &&
                     var p := ReaderAt(packet, pos, n).value; p >= |packet| || (packet[p] != 0 && !CanStep(packet, p))
  }

  /** The reader stands at one position twice. */
  ghost predicate Revisits(packet: seq<Byte>, pos: nat) {
    exists i: nat, j: nat :: i < j && ReaderAt(packet, pos, i).Some? &&
                             ReaderAt(packet, pos, i) == ReaderAt(packet, pos, j)
  }

  /** A walk that ends has one test less to make after every round. */
  lemma {:induction false} TestsLeft(packet: seq<Byte>, pos: nat, fuel: nat, n: nat)
    requires Walk(packet, pos, fuel).Some? && ReaderAt(packet, pos, n).Some?
    ensures var p := ReaderAt(packet, pos, n).value;
            Walk(packet, p, fuel).Some? && n + Tests(packet, p, fuel) == Tests(packet, pos, fuel)
    decreases n
  {
    if n > 0 {
      TestsLeft(packet, Next(packet, pos), fuel - 1, n - 1);
      MoreFuel(packet, ReaderAt(packet, pos, n).value, fuel - 1, fuel);
    }
  }

  /** A walk that has not ended, without getting stuck, is still inside the packet. */
  lemma {:induction false} WalksOn(packet: seq<Byte>, pos: nat, fuel: nat, n: nat)
    requires n <= fuel && Walk(packet, pos, fuel).None? && !GetsStuck(packet, pos)
    ensures ReaderAt(packet, pos, n).Some? && ReaderAt(packet, pos, n).value < |packet|
    decreases n
  {
    assert ReaderAt(packet, pos, 0) == Some(pos);
    if n > 0 {
      var next := Next(packet, pos);
      assert forall k: nat :: ReaderAt(packet, next, k) == ReaderAt(packet, pos, k + 1);
      WalksOn(packet, next, fuel - 1, n - 1);
    }
  }

  /** The positions of the first `n` rounds. */
  ghost function Positions(packet: seq<Byte>, pos: nat, n: nat): set<nat>
    requires forall k :: 0 <= k < n ==> ReaderAt(packet, pos, k).Some?
  {
    if n == 0 then {} else Positions(packet, pos, n - 1) + {ReaderAt(packet, pos, n - 1).value}
  }

  lemma {:induction false} PositionIsRead(packet: seq<Byte>, pos: nat, n: nat, p: nat) returns (k: nat)
    requires forall k :: 0 <= k < n ==> ReaderAt(packet, pos, k).Some?
    requires p in Positions(packet, pos, n)
    ensures k < n && ReaderAt(packet, pos, k) == Some(p)
  {
    if p == ReaderAt(packet, pos, n - 1).value {
      k := n - 1;
    } else {
      k := PositionIsRead(packet, pos, n - 1, p);
    }
  }

  lemma {:induction false} DistinctPositions(packet: seq<Byte>, pos: nat, n: nat)
    requires !Revisits(packet, pos) && forall k :: 0 <= k < n ==> ReaderAt(packet, pos, k).Some?
    ensures |Positions(packet, pos, n)| == n
  {
    if n > 0 {
      DistinctPositions(packet, pos, n - 1);
      var p := ReaderAt(packet, pos, n - 1).value;
      if p in Positions(packet, pos, n - 1) {
        var k := PositionIsRead(packet, pos, n - 1, p);
        assert false;
      }
    }
  }

  /**
   The loop ends inside the packet, after however many rounds, exactly when it does within |packet| tests; and the two
   ways not to are to run out of the packet and to come back to a position.
   */
  lemma EndsExactly(packet: seq<Byte>, pos: nat)
    ensures (exists fuel: nat :: Walk(packet, pos, fuel).Some?) <==> Collected(packet, pos).Some?
    ensures Collected(packet, pos).None? <==> GetsStuck(packet, pos) || Revisits(packet, pos)
  {
    if fuel: nat :| Walk(packet, pos, fuel).Some? {
      FuelIsEnough(packet, pos, fuel);
    }
    if Collected(packet, pos).Some? {
      forall n: nat | ReaderAt(packet, pos, n).Some?
        ensures Walk(packet, ReaderAt(packet, pos, n).value, |packet|).Some?
        ensures n + Tests(packet, ReaderAt(packet, pos, n).value, |packet|) == Tests(packet, pos, |packet|)
      {
        TestsLeft(packet, pos, |packet|, n);
      }
    } else if !GetsStuck(packet, pos) && !Revisits(packet, pos) {
      forall n | 0 <= n <= |packet|
        ensures ReaderAt(packet, pos, n).Some? && ReaderAt(packet, pos, n).value < |packet|
      {
        WalksOn(packet, pos, |packet|, n);
      }
      var n := |packet| + 1;
      DistinctPositions(packet, pos, n);
      forall p | p in Positions(packet, pos, n) ensures p < |packet| {
        var k := PositionIsRead(packet, pos, n, p);
      }
      SubsetOfRange(Positions(packet, pos, n), |packet|);
      assert false;
    }
  }

  /** A pointer to itself: the loop never ends, and nothing in the code checks for it. */
  lemma {:induction false} PointerToItself(packet: seq<Byte>, pos: nat, fuel: nat)
    requires IsPointer(packet, pos) && pos + 1 < |packet| && Target(packet, pos) == pos
    ensures Walk(packet, pos, fuel).None?
    decreases fuel
  {
    if fuel > 0 {
      PointerToItself(packet, pos, fuel - 1);
    }
  }

  /** Every pointer met from `pos` targets an offset strictly below the start of the run being read. */
  predicate Backward(packet: seq<Byte>, runStart: nat, pos: nat)
    decreases runStart, |packet| - pos
  {
    && pos < |packet|
    && (packet[pos] == 0
        || (CanStep(packet, pos)
            && if IsPointer(packet, pos)
               then Target(packet, pos) < runStart && Backward(packet, Target(packet, pos), Target(packet, pos))
               else Backward(packet, runStart, pos + 1)))
  }

  lemma {:induction false} BackwardEnds(packet: seq<Byte>, runStart: nat, pos: nat) returns (fuel: nat)
    requires Backward(packet, runStart, pos)
    ensures Walk(packet, pos, fuel).Some?
    decreases runStart, |packet| - pos
  {
    if packet[pos] == 0 {
      fuel := 1;
    } else if IsPointer(packet, pos) {
      fuel := BackwardEnds(packet, Target(packet, pos), Target(packet, pos));
      fuel := fuel + 1;
    } else {
      fuel := BackwardEnds(packet, runStart, pos + 1);
      fuel := fuel + 1;
    }
  }

  /** Under the prior-occurrence rule of section 4.1.4 the walk always ends. */
  lemma BackwardCollects(packet: seq<Byte>, pos: nat)
    requires Backward(packet, pos, pos)
    ensures Collected(packet, pos).Some?
  {
    var fuel := BackwardEnds(packet, pos, pos);
    FuelIsEnough(packet, pos, fuel);
  }

  /** How many bytes the name at `pos` occupies in place: up to its zero octet or its pointer, inclusive. */
  function Span(packet: seq<Byte>, pos: nat): nat
    decreases |packet| - pos
  {
    if pos >= |packet| then 0
    else if packet[pos] == 0 then 1
    else if IsPointer(packet, pos) then 2
    else 1 + Span(packet, pos + 1)
  }

  // ----- The names of section 4.1.4, label by label -----

  /**
   The name at `pos`: a zero octet is the root, a pointer continues it elsewhere, any other octet is a length. RFC
   1035 reserves the lengths 64 to 191; the code under study takes them as lengths and so does this.
   */
  function Expand(packet: seq<Byte>, pos: nat, fuel: nat): Option<Name>
    decreases fuel
  {
    if fuel == 0 || pos >= |packet| then None
    else if packet[pos] == 0 then Some(Root)
    else if !CanStep(packet, pos) then None
    else if IsPointer(packet, pos) then Expand(packet, Target(packet, pos), fuel - 1)
    else if pos + 1 + packet[pos] > |packet| then None
    else
      var end := pos + 1 + packet[pos];
      match Expand(packet, end, fuel - 1)
      case None => None
      case Some(parent) => Some(Sub(packet[pos + 1..end], parent))
  }

  /** The name at `pos` reads `name` under section 4.1.4. */
  ghost predicate Spells(packet: seq<Byte>, pos: nat, name: Name) {
    exists fuel: nat :: Expand(packet, pos, fuel) == Some(name)
  }

  lemma {:induction false} ExpandedLabels(packet: seq<Byte>, pos: nat, fuel: nat)
    requires Expand(packet, pos, fuel).Some?
    ensures var name := Expand(packet, pos, fuel).value; ShortLabels(name) && NonemptyLabels(name)
    decreases fuel
  {
    if packet[pos] == 0 {
    } else if IsPointer(packet, pos) {
      ExpandedLabels(packet, Target(packet, pos), fuel - 1);
    } else {
      ExpandedLabels(packet, pos + 1 + packet[pos], fuel - 1);
    }
  }

  lemma WalkPlain(packet: seq<Byte>, pos: nat, fuel: nat, rest: seq<Byte>)
    requires pos < |packet| && IsPlain(packet[pos]) && Walk(packet, pos + 1, fuel) == Some(rest)
    ensures Walk(packet, pos, fuel + 1) == Some([packet[pos]] + rest)
  {
  }

  lemma WalkEnds(packet: seq<Byte>, pos: nat)
    requires pos < |packet| && packet[pos] == 0
    ensures Walk(packet, pos, 1) == Some([])
  {
  }

  lemma WalkPointer(packet: seq<Byte>, pos: nat, fuel: nat, rest: seq<Byte>)
    requires IsPointer(packet, pos) && pos + 1 < |packet| && Walk(packet, Target(packet, pos), fuel) == Some(rest)
    ensures Walk(packet, pos, fuel + 1) == Some(rest)
  {
    assert [] + rest == rest;
  }

  lemma {:induction false} WalkOverPlain(packet: seq<Byte>, pos: nat, bytes: seq<Byte>, fuel: nat, rest: seq<Byte>)
    requires Holds(packet, pos, bytes) && AllPlain(bytes)
    requires Walk(packet, pos + |bytes|, fuel) == Some(rest)
    ensures Walk(packet, pos, fuel + |bytes|) == Some(bytes + rest)
    decreases |bytes|
  {
    hide Walk;
    if bytes == [] {
      assert bytes + rest == rest;
    } else {
      var b, bs := bytes[0], bytes[1..];
      assert bytes == [b] + bs && b in bytes;
      HoldsConcat(packet, pos, [b], bs);
      assert packet[pos] == packet[pos..pos + 1][0];
      WalkOverPlain(packet, pos + 1, bs, fuel, rest);
      WalkPlain(packet, pos, fuel + |bs|, bs + rest);
      assert [b] + (bs + rest) == bytes + rest;
    }
  }

  lemma WalkOverLabel(packet: seq<Byte>, pos: nat, head: Label, fuel: nat, rest: seq<Byte>)
    requires 1 <= |head| < 192 && AllPlain(head) && Holds(packet, pos, [|head|] + head)
    requires Walk(packet, pos + 1 + |head|, fuel) == Some(rest)
    ensures Walk(packet, pos, fuel + |head| + 1) == Some([|head|] + head + rest)
  {
    WalkOverPlain(packet, pos, [|head|] + head, fuel, rest);
  }

  /** Where all label bytes are plain, the byte-wise walk collects exactly the wire form of the labels. */
  lemma {:induction false} WalkOfExpand(packet: seq<Byte>, pos: nat, fuel: nat) returns (f: nat)
    requires Expand(packet, pos, fuel).Some? && PlainLabels(Expand(packet, pos, fuel).value)
    ensures Walk(packet, pos, f) == Some(Wire(Expand(packet, pos, fuel).value))
    decreases fuel
  {
    hide Walk;
    var name := Expand(packet, pos, fuel).value;
    if packet[pos] == 0 {
      f := 1;
      WalkEnds(packet, pos);
    } else if IsPointer(packet, pos) {
      f := WalkOfExpand(packet, Target(packet, pos), fuel - 1);
      WalkPointer(packet, pos, f, Wire(name));
      f := f + 1;
    } else {
      var len: nat := packet[pos];
      f := WalkOfExpand(packet, pos + 1 + len, fuel - 1);
      assert Holds(packet, pos, [len] + name.head);
      WalkOverLabel(packet, pos, name.head, f, Wire(name.parent));
      f := f + len + 1;
    }
  }

  lemma ExpandLabel(packet: seq<Byte>, pos: nat, fuel: nat, head: Label, parent: Name)
    requires 1 <= |head| < 192 && Holds(packet, pos, [|head|] + head)
    requires Expand(packet, pos + 1 + |head|, fuel) == Some(parent)
    ensures Expand(packet, pos, fuel + 1) == Some(Sub(head, parent))
  {
    HoldsConcat(packet, pos, [|head|], head);
    assert packet[pos] == packet[pos..pos + 1][0];
  }

  /** Literal labels followed, in place, by the rest of a name. */
  lemma {:induction false} ExpandOfWire(packet: seq<Byte>, pos: nat, name: Name, rest: Name, fuel: nat)
    returns (f: nat)
    requires ShortLabels(name) && NonemptyLabels(name) && Holds(packet, pos, Wire(name))
    requires Expand(packet, pos + |Wire(name)|, fuel) == Some(rest)
    ensures Expand(packet, pos, f) == Some(Append(name, rest))
    decreases name
  {
    hide Expand;
    if name.Root? {
      f := fuel;
    } else {
      var head := name.head;
      HoldsConcat(packet, pos, [|head|] + head, Wire(name.parent));
      f := ExpandOfWire(packet, pos + 1 + |head|, name.parent, rest, fuel);
      ExpandLabel(packet, pos, f, head, Append(name.parent, rest));
      f := f + 1;
    }
  }

  lemma {:induction false} AppendRoot(name: Name)
    ensures Append(name, Root) == name
  {
    if name.Sub? {
      AppendRoot(name.parent);
    }
  }

  /** A name written in full, with its zero octet, is spelled where it stands. */
  lemma SpellsInFull(packet: seq<Byte>, pos: nat, name: Name)
    requires ShortLabels(name) && NonemptyLabels(name) && Holds(packet, pos, Wire(name) + [0])
    ensures Spells(packet, pos, name)
  {
    HoldsConcat(packet, pos, Wire(name), [0]);
    var end := pos + |Wire(name)|;
    assert packet[end] == packet[end..end + 1][0];
    var f := ExpandOfWire(packet, pos, name, Root, 1);
    AppendRoot(name);
  }

  // ----- What read_name returns -----

  /** Cuts collected bytes into labels by their length octets; None when the last one is short. */
  function Labels(raw: seq<Byte>): Option<Name> {
    if raw == [] then Some(Root)
    else if 1 + raw[0] > |raw| then None
    else
      match Labels(raw[1 + raw[0]..])
      case None => None
      case Some(parent) => Some(Sub(raw[1..1 + raw[0]], parent))
  }

  /**
   The text `read_name` returns for the name at `pos`. None where the C++ code has no defined result: the walk does
   not end inside the packet, its 256-byte buffer overflows, the name is the root, or a label is cut short.
   */
  function Decode(packet: seq<Byte>, pos: nat): Option<seq<Byte>> {
    match Collected(packet, pos)
    case None => None
    case Some(raw) =>
      if raw == [] || |raw| > 255 then None
      else
        match Labels(raw)
        case None => None
        case Some(name) => Some(Join(name))
  }

  lemma {:induction false} LabelsOfWire(name: Name)
    requires ShortLabels(name)
    ensures Labels(Wire(name)) == Some(name)
  {
    if name.Sub? {
      var w := Wire(name);
      assert w[1..1 + |name.head|] == name.head;
      assert w[1 + |name.head|..] == Wire(name.parent);
      LabelsOfWire(name.parent);
    }
  }

  lemma {:induction false} LabelsCut(raw: seq<Byte>)
    requires AllPlain(raw) && Labels(raw).Some?
    ensures var name := Labels(raw).value; PlainLabels(name) && ShortLabels(name) && |Dotted(name)| == |raw|
    ensures Wire(Labels(raw).value) == raw
    decreases |raw|
  {
    if raw != [] {
      assert raw[0] in raw;
      var rest := raw[1 + raw[0]..];
      LabelsCut(rest);
      assert raw == [raw[0]] + raw[1..1 + raw[0]] + rest;
    }
  }

  lemma AllPlainConcat(a: seq<Byte>, b: seq<Byte>)
    ensures AllPlain(a + b) <==> AllPlain(a) && AllPlain(b)
  {
    if AllPlain(a + b) {
      assert forall x :: x in a || x in b ==> x in a + b;
    }
  }

  lemma {:induction false} JoinIsPlain(name: Name)
    requires name.Sub?
    ensures AllPlain(Join(name)) <==> PlainLabels(name)
  {
    if name.parent.Sub? {
      JoinIsPlain(name.parent);
      AllPlainConcat(name.head + [DOT], Join(name.parent));
      AllPlainConcat(name.head, [DOT]);
    }
  }

  /** A decoded name has only plain bytes, fits the buffer, and has no dot-free run of 192 bytes or more. */
  lemma DecodedText(packet: seq<Byte>, pos: nat)
    requires Decode(packet, pos).Some?
    ensures var text := Decode(packet, pos).value; AllPlain(text) && |text| <= 254 && ShortLabels(Split(text))
  {
    var raw := Collected(packet, pos).value;
    var name := Labels(raw).value;
    LabelsCut(raw);
    JoinIsPlain(name);
    DottedIsJoin(name);
    SplitRuns(name);
  }

  /** Splitting a joined name yields no part longer than its longest label, dots inside labels or not. */
  lemma {:induction false} SplitRuns(name: Name)
    requires name.Sub? && ShortLabels(name)
    ensures ShortLabels(Split(Join(name))) && |Split(Join(name)).head| <= |name.head|
    decreases |Dotted(name)|
  {
    var text := Join(name);
    if name.head == [] {
      if name.parent.Sub? {
        assert text[1..] == Join(name.parent);
        SplitRuns(name.parent);
      }
    } else {
      var shorter := name.(head := name.head[1..]);
      assert text[1..] == Join(shorter);
      SplitRuns(shorter);
    }
  }

  /**
   `read_name` reads a name as section 4.1.4 means it exactly when every label byte lies in 1..191 and the wire form
   fits its buffer: it tests label bytes, not only length octets, for the end mark and the pointer mark.
   */
  lemma DecodeMeetsRfc(packet: seq<Byte>, pos: nat, name: Name)
    requires Spells(packet, pos, name) && name.Sub?
    ensures Decode(packet, pos) == Some(Join(name)) <==> PlainLabels(name) && |Wire(name)| <= 255
  {
    var fuel: nat :| Expand(packet, pos, fuel) == Some(name);
    SameLength(name);
    DottedIsJoin(name);
    if PlainLabels(name) {
      var f := WalkOfExpand(packet, pos, fuel);
      FuelIsEnough(packet, pos, f);
      ExpandedLabels(packet, pos, fuel);
      LabelsOfWire(name);
    }
    if Decode(packet, pos) == Some(Join(name)) {
      DecodedText(packet, pos);
      JoinIsPlain(name);
    }
  }

  /** A name that section 4.1.4 allows and `read_name` misreads: its one label byte is taken for a pointer. */
  lemma HighByteMisread()
    ensures Spells([1, 200, 0], 0, Sub([200], Root)) && Decode([1, 200, 0], 0) != Some([200])
  {
    var packet: seq<Byte> := [1, 200, 0];
    assert Expand(packet, 2, 1) == Some(Root);
    assert packet[1..2] == [200];
    assert Expand(packet, 0, 2) == Some(Sub([200], Root));
    DecodeMeetsRfc(packet, 0, Sub([200], Root));
    assert 200 in [200 as Byte];
  }

  // ----- Encoding a host and reading it back -----

  lemma {:induction false} JoinOfSplit(host: seq<Byte>)
    ensures Join(Split(host)) == host
  {
    if host != [] {
      JoinOfSplit(host[1..]);
    }
  }

  lemma {:induction false} SplitIsDotFree(host: seq<Byte>)
    ensures DotFree(Split(host))
  {
    if host != [] {
      SplitIsDotFree(host[1..]);
    }
  }

  /** The length-prefixed form that both encoders write for a host, before the terminator. */
  function EncodeHost(host: seq<Byte>): (w: seq<Byte>)
    ensures |w| == |host| + 1
  {
    SameLength(Split(host));
    DottedIsJoin(Split(host));
    JoinOfSplit(host);
    Wire(Split(host))
  }

  /** Hosts that survive encoding and reading: at most 254 bytes, all plain, every part of 1 to 191 bytes. */
  predicate Survives(host: seq<Byte>) {
    |host| <= 254 && AllPlain(host) && ShortLabels(Split(host)) && NonemptyLabels(Split(host))
  }

  /**
   The encoded form of a host, followed by a zero octet anywhere in any packet, reads back as that host exactly when
   the host survives: the empty host, empty parts (so trailing dots), parts of 192 bytes or more, hosts over 254
   bytes and bytes of 192 or more all come back as something else or not at all.
   */
  lemma NameRoundTrip(packet: seq<Byte>, pos: nat, host: seq<Byte>)
    requires Holds(packet, pos, EncodeHost(host) + [0])
    ensures Decode(packet, pos) == Some(host) <==> Survives(host)
  {
    var name := Split(host);
    JoinOfSplit(host);
    JoinIsPlain(name);
    if Survives(host) {
      SpellsInFull(packet, pos, name);
      DecodeMeetsRfc(packet, pos, name);
    }
    if Decode(packet, pos) == Some(host) {
      DecodedText(packet, pos);
      if !NonemptyLabels(name) {
        HoldsConcat(packet, pos, Wire(name), [0]);
        EmptyPartCuts(packet, pos, name);
        assert false;
      }
    }
  }

  lemma WalkPlainByte(packet: seq<Byte>, pos: nat, fuel: nat)
    requires pos < |packet| && IsPlain(packet[pos]) && Walk(packet, pos, fuel).Some?
    ensures fuel > 0 && Walk(packet, pos + 1, fuel - 1).Some?
    ensures Walk(packet, pos, fuel).value == [packet[pos]] + Walk(packet, pos + 1, fuel - 1).value
  {
  }

  lemma {:induction false} WalkPastPlain(packet: seq<Byte>, pos: nat, bytes: seq<Byte>, fuel: nat)
    returns (rest: seq<Byte>)
    requires Holds(packet, pos, bytes) && AllPlain(bytes) && Walk(packet, pos, fuel).Some?
    ensures |bytes| <= fuel && Walk(packet, pos + |bytes|, fuel - |bytes|) == Some(rest)
    ensures Walk(packet, pos, fuel).value == bytes + rest
    decreases |bytes|
  {
    hide Walk;
    if bytes == [] {
      rest := Walk(packet, pos, fuel).value;
      assert bytes + rest == rest;
    } else {
      var b, bs := bytes[0], bytes[1..];
      assert bytes == [b] + bs && b in bytes;
      HoldsConcat(packet, pos, [b], bs);
      assert packet[pos] == packet[pos..pos + 1][0];
      WalkPlainByte(packet, pos, fuel);
      rest := WalkPastPlain(packet, pos + 1, bs, fuel - 1);
      assert [b] + (bs + rest) == bytes + rest;
    }
  }

  /** Plain bytes are collected as they stand. */
  lemma CollectedOverPlain(packet: seq<Byte>, pos: nat, bytes: seq<Byte>)
    requires Holds(packet, pos, bytes) && AllPlain(bytes)
    ensures var rest := Collected(packet, pos + |bytes|);
            Collected(packet, pos) == if rest.None? then None else Some(bytes + rest.value)
  {
    hide Walk;
    if Collected(packet, pos + |bytes|).Some? {
      WalkOverPlain(packet, pos, bytes, |packet|, Collected(packet, pos + |bytes|).value);
      FuelIsEnough(packet, pos, |packet| + |bytes|);
    }
    if Collected(packet, pos).Some? {
      var rest := WalkPastPlain(packet, pos, bytes, |packet|);
      FuelIsEnough(packet, pos + |bytes|, |packet| - |bytes|);
    }
  }

  /** A pointer collects what its target does. */
  lemma CollectedAtPointer(packet: seq<Byte>, pos: nat)
    requires IsPointer(packet, pos) && pos + 1 < |packet|
    ensures Collected(packet, pos) == Collected(packet, Target(packet, pos))
  {
    var target := Target(packet, pos);
    if Collected(packet, target).Some? {
      WalkPointer(packet, pos, |packet|, Collected(packet, target).value);
      FuelIsEnough(packet, pos, |packet| + 1);
    }
    if Collected(packet, pos).Some? {
      FuelIsEnough(packet, target, |packet| - 1);
    }
  }

  lemma {:induction false} WireIsPlain(name: Name)
    requires PlainLabels(name) && ShortLabels(name) && NonemptyLabels(name)
    ensures AllPlain(Wire(name))
  {
    if name.Sub? {
      WireIsPlain(name.parent);
      AllPlainConcat([LengthOctet(name.head)] + name.head, Wire(name.parent));
      AllPlainConcat([LengthOctet(name.head)], name.head);
    }
  }

  /** Nothing is collected exactly at a zero octet and at pointers to where nothing is. */
  lemma CollectedNothing(packet: seq<Byte>, pos: nat)
    requires pos + 1 < |packet|
    ensures Collected(packet, pos) == Some([]) <==>
            packet[pos] == 0 || (IsPointer(packet, pos) && Collected(packet, Target(packet, pos)) == Some([]))
  {
    if IsPointer(packet, pos) {
      CollectedAtPointer(packet, pos);
    }
  }

  /** An encoded host, whatever follows it, reads back as itself exactly when nothing more is collected after it. */
  lemma ReadsExactly(packet: seq<Byte>, pos: nat, host: seq<Byte>)
    requires Survives(host) && Holds(packet, pos, EncodeHost(host))
    ensures Decode(packet, pos) == Some(host) <==> Collected(packet, pos + |EncodeHost(host)|) == Some([])
  {
    hide Walk;
    var name, w := Split(host), EncodeHost(host);
    JoinOfSplit(host);
    JoinIsPlain(name);
    WireIsPlain(name);
    LabelsOfWire(name);
    CollectedOverPlain(packet, pos, w);
    assert w + [] == w;
    if Decode(packet, pos) == Some(host) {
      var raw := Collected(packet, pos).value;
      LabelsCut(raw);
      DottedIsJoin(Labels(raw).value);
      assert |raw| == |host| + 1;
    }
  }

  /** A host that is not read back: of `a.` only `a` comes back. */
  lemma TrailingDotLost()
    ensures EncodeHost([97, 46]) + [0] == [1, 97, 0, 0]
    ensures Decode([1, 97, 0, 0], 0) == Some([97])
  {
    var packet: seq<Byte> := [1, 97, 0, 0];
    assert Split([DOT]) == Sub([], Sub([], Root)) by {
      assert [DOT][1..] == [];
    }
    assert [97, DOT][1..] == [DOT];
    assert Split([97, DOT]) == Sub([97], Sub([], Root));
    assert packet[0..3] == Wire(Sub([97], Root)) + [0];
    SpellsInFull(packet, 0, Sub([97], Root));
    assert AllPlain([97]);
    DecodeMeetsRfc(packet, 0, Sub([97], Root));
  }

  /** The labels before the first empty one. */
  function BeforeEmpty(name: Name): Name {
    if name.Root? || name.head == [] then Root else Sub(name.head, BeforeEmpty(name.parent))
  }

  lemma {:induction false} BeforeEmptyIsShorter(name: Name)
    requires PlainLabels(name) && ShortLabels(name) && !NonemptyLabels(name)
    ensures var good := BeforeEmpty(name);
            PlainLabels(good) && ShortLabels(good) && NonemptyLabels(good)
            && (good.Sub? ==> |Join(good)| < |Join(name)|)
            && Wire(good) + [0] <= Wire(name)
  {
    if name.head != [] {
      BeforeEmptyIsShorter(name.parent);
      var good := BeforeEmpty(name.parent);
      var octets := [LengthOctet(name.head)] + name.head;
      assert Wire(BeforeEmpty(name)) + [0] == octets + (Wire(good) + [0]);
    }
  }

  /** Reading stops at the zero length octet of an empty part and returns less than the host. */
  lemma EmptyPartCuts(packet: seq<Byte>, pos: nat, name: Name)
    requires Holds(packet, pos, Wire(name))
    requires PlainLabels(name) && ShortLabels(name) && !NonemptyLabels(name)
    ensures Decode(packet, pos) != Some(Join(name))
  {
    var good := BeforeEmpty(name);
    BeforeEmptyIsShorter(name);
    var w := Wire(good) + [0];
    assert Wire(name) == w + Wire(name)[|w|..];
    HoldsConcat(packet, pos, w, Wire(name)[|w|..]);
    SpellsInFull(packet, pos, good);
    var fuel: nat :| Expand(packet, pos, fuel) == Some(good);
    var f := WalkOfExpand(packet, pos, fuel);
    FuelIsEnough(packet, pos, f);
    LabelsOfWire(good);
  }

  /** Encoding a joined name gives back its labels exactly when no label holds a dot. */
  lemma SplitOfJoin(name: Name)
    requires name.Sub?
    ensures Split(Join(name)) == name <==> DotFree(name)
  {
    SplitIsDotFree(Join(name));
    if DotFree(name) {
      SplitOfDotFree(name);
    }
  }

  lemma {:induction false} SplitOfDotFree(name: Name)
    requires name.Sub? && DotFree(name)
    ensures Split(Join(name)) == name
    decreases |Dotted(name)|
  {
    var text := Join(name);
    if name.head == [] {
      if name.parent.Sub? {
        assert text[1..] == Join(name.parent);
        SplitOfDotFree(name.parent);
      }
    } else {
      var first := name.head[0];
      assert first in name.head && name.head == [first] + name.head[1..];
      var shorter := name.(head := name.head[1..]);
      assert text[1..] == Join(shorter);
      SplitOfDotFree(shorter);
    }
  }

  /** Names with short labels have wire forms of their own. */
  lemma WireIsInjective(a: Name, b: Name)
    requires ShortLabels(a) && ShortLabels(b) && Wire(a) == Wire(b)
    ensures a == b
  {
    LabelsOfWire(a);
    LabelsOfWire(b);
  }

  /**
   Encoding the text read from an uncompressed name gives back the bytes it was read from exactly when no label holds a
   dot: `read_name` does not mark a dot inside a label, and the encoder takes it for the end of a label.
   */
  lemma EncodeOfDecoded(packet: seq<Byte>, pos: nat, name: Name)
    requires name.Sub? && PlainLabels(name) && ShortLabels(name) && NonemptyLabels(name)
    requires |Wire(name)| <= 255 && Holds(packet, pos, Wire(name) + [0])
    ensures Decode(packet, pos).Some?
    ensures Holds(packet, pos, EncodeHost(Decode(packet, pos).value) + [0]) <==> DotFree(name)
  {
    SpellsInFull(packet, pos, name);
    DecodeMeetsRfc(packet, pos, name);
    SplitOfJoin(name);
    SplitRuns(name);
    SameLength(name);
    DottedIsJoin(name);
    var again := EncodeHost(Join(name));
    if Holds(packet, pos, again + [0]) {
      assert again + [0] == Wire(name) + [0];
      assert again == (again + [0])[..|again|];
      WireIsInjective(Split(Join(name)), name);
    }
  }
}
