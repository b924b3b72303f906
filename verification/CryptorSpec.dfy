/** Sessions of `Cryptor`: the vector once at the front, then one continuous stream in any chunks. */
module CryptorSpec {
  import opened Cfb

  /** Key derivation and the block cipher, both left open. */
  datatype Suite<!Key(!new)> = Suite(derive: (string, string) -> Key, block: (Key, Block) -> Block) {
    /** The block function of a password and a method name. */
    function Block(password: string, cipherName: string): Block -> Block {
      var key := derive(password, cipherName);
      b => block(key, b)
    }
  }

  type Bytes = seq<bv8>

  /** The encrypting half: its vector, whether that has been sent, and the register. */
  datatype Sender = Sender(iv: Block, ivSent: bool, register: Register)

  function NewSender(iv: Block): Sender {
    Sender(iv, false, Register(iv, 0))
  }

  /** What `encrypt` puts out for one chunk. */
  function Sent(e: Block -> Block, s: Sender, chunk: Bytes): Bytes
    requires Ok(s.register)
  {
    if chunk == [] then []
    else (if s.ivSent then [] else s.iv) + Encrypt(e, s.register, chunk)
  }

  function AfterSend(e: Block -> Block, s: Sender, chunk: Bytes): (t: Sender)
    requires Ok(s.register)
    ensures Ok(t.register)
  {
    if chunk == [] then s
    else Sender(s.iv, true, AbsorbAll(e, s.register, Encrypt(e, s.register, chunk)))
  }

  /** The decrypting half: nothing yet, or the register. */
  datatype Receiver = Waiting | Receiving(register: Register)

  predicate ReceiverOk(r: Receiver) {
    r.Receiving? ==> Ok(r.register)
  }

  /** `decrypt` takes the whole vector from the first non-empty piece. */
  predicate Acceptable(r: Receiver, piece: Bytes) {
    r.Waiting? && piece != [] ==> |piece| >= BLOCK_LENGTH
  }

  function Received(e: Block -> Block, r: Receiver, piece: Bytes): Bytes
    requires ReceiverOk(r) && Acceptable(r, piece)
  {
    if piece == [] then []
    else if r.Waiting? then Decrypt(e, Register(piece[..BLOCK_LENGTH], 0), piece[BLOCK_LENGTH..])
    else Decrypt(e, r.register, piece)
  }

  function AfterReceive(e: Block -> Block, r: Receiver, piece: Bytes): (t: Receiver)
    requires ReceiverOk(r) && Acceptable(r, piece)
    ensures ReceiverOk(t)
  {
    if piece == [] then r
    else if r.Waiting? then Receiving(AbsorbAll(e, Register(piece[..BLOCK_LENGTH], 0), piece[BLOCK_LENGTH..]))
    else Receiving(AbsorbAll(e, r.register, piece))
  }

  // ----- Whole sessions -----

  function Concat(chunks: seq<Bytes>): Bytes {
    if chunks == [] then [] else chunks[0] + Concat(chunks[1..])
  }

  /** The concatenated output of `encrypt` over `chunks`. */
  function SentAll(e: Block -> Block, s: Sender, chunks: seq<Bytes>): Bytes
    requires Ok(s.register)
    decreases |chunks|
  {
    if chunks == [] then [] else Sent(e, s, chunks[0]) + SentAll(e, AfterSend(e, s, chunks[0]), chunks[1..])
  }

  predicate AllAcceptable(r: Receiver, pieces: seq<Bytes>) {
    r.Waiting? && pieces != [] ==>
      if pieces[0] == [] then AllAcceptable(r, pieces[1..]) else |pieces[0]| >= BLOCK_LENGTH
  }

  /** The concatenated output of `decrypt` over `pieces`. */
  function ReceivedAll(e: Block -> Block, r: Receiver, pieces: seq<Bytes>): Bytes
    requires ReceiverOk(r) && AllAcceptable(r, pieces)
    decreases |pieces|
  {
    if pieces == [] then []
    else Received(e, r, pieces[0]) + ReceivedAll(e, AfterReceive(e, r, pieces[0]), pieces[1..])
  }

  lemma {:induction false} SentStream(e: Block -> Block, s: Sender, chunks: seq<Bytes>)
    requires Ok(s.register)
    ensures SentAll(e, s, chunks) == Sent(e, s, Concat(chunks))
    decreases |chunks|
  {
    if chunks != [] {
      var first, rest := chunks[0], Concat(chunks[1..]);
      SentStream(e, AfterSend(e, s, first), chunks[1..]);
      SentTwo(e, s, first, rest);
    }
  }

  lemma SentTwo(e: Block -> Block, s: Sender, a: Bytes, b: Bytes)
    requires Ok(s.register)
    ensures Sent(e, s, a + b) == Sent(e, s, a) + Sent(e, AfterSend(e, s, a), b)
  {
    hide Encrypt;
    hide AbsorbAll;
    EncryptConcat(e, s.register, a, b);
    if a == [] {
      assert a + b == b;
    } else if b == [] {
      assert a + b == a;
    }
  }

  /**
   For every sequence of `encrypt` calls the whole output is empty if all chunks are, and otherwise the vector once and
   then the CFB stream of the concatenated plaintext: chunking leaves no trace.
   */
  lemma Framing(e: Block -> Block, iv: Block, chunks: seq<Bytes>)
    ensures SentAll(e, NewSender(iv), chunks)
         == if Concat(chunks) == [] then [] else iv + Encrypt(e, Register(iv, 0), Concat(chunks))
    ensures |SentAll(e, NewSender(iv), chunks)|
         == if Concat(chunks) == [] then 0 else BLOCK_LENGTH + |Concat(chunks)|
  {
    SentStream(e, NewSender(iv), chunks);
  }

  lemma {:induction false} ReceivedStream(e: Block -> Block, r: Receiver, pieces: seq<Bytes>)
    requires ReceiverOk(r) && AllAcceptable(r, pieces)
    ensures Acceptable(r, Concat(pieces))
    ensures ReceivedAll(e, r, pieces) == Received(e, r, Concat(pieces))
    decreases |pieces|
  {
    if pieces != [] {
      var first, rest := pieces[0], Concat(pieces[1..]);
      ReceivedStream(e, AfterReceive(e, r, first), pieces[1..]);
      ReceivedTwo(e, r, first, rest);
    }
  }

  lemma ReceivedTwo(e: Block -> Block, r: Receiver, a: Bytes, b: Bytes)
    requires ReceiverOk(r) && Acceptable(r, a) && Acceptable(AfterReceive(e, r, a), b)
    ensures Acceptable(r, a + b)
    ensures Received(e, r, a + b) == Received(e, r, a) + Received(e, AfterReceive(e, r, a), b)
  {
    hide Decrypt;
    hide AbsorbAll;
    if a == [] {
      assert a + b == b;
    } else if b == [] {
      assert a + b == a;
    } else if r.Waiting? {
      var iv, body := a[..BLOCK_LENGTH], a[BLOCK_LENGTH..];
      assert (a + b)[..BLOCK_LENGTH] == iv && (a + b)[BLOCK_LENGTH..] == body + b;
      DecryptConcat(e, Register(iv, 0), body, b);
    } else {
      DecryptConcat(e, r.register, a, b);
    }
  }

  /**
   At every moment of a session: when what has arrived, in any pieces the receiver accepts, is a prefix of what was
   sent, in any chunks, the receiver has put out exactly the prefix of the plaintext that goes with it.
   */
  lemma PrefixRecovery<Key(!new)>(suite: Suite<Key>, password: string, cipherName: string, iv: Block,
                                  chunks: seq<Bytes>, pieces: seq<Bytes>)
    requires AllAcceptable(Waiting, pieces)
    requires Concat(pieces) <= SentAll(suite.Block(password, cipherName), NewSender(iv), chunks)
    ensures ReceivedAll(suite.Block(password, cipherName), Waiting, pieces) <= Concat(chunks)
    ensures |ReceivedAll(suite.Block(password, cipherName), Waiting, pieces)|
         == if Concat(pieces) == [] then 0 else |Concat(pieces)| - BLOCK_LENGTH
  {
    var e := suite.Block(password, cipherName);
    Framing(e, iv, chunks);
    ReceivedStream(e, Waiting, pieces);
    ReceivedPrefix(e, iv, Concat(chunks), Concat(pieces));
  }

  lemma ReceivedPrefix(e: Block -> Block, iv: Block, plain: Bytes, arrived: Bytes)
    requires Acceptable(Waiting, arrived)
    requires arrived <= if plain == [] then [] else iv + Encrypt(e, Register(iv, 0), plain)
    ensures Received(e, Waiting, arrived) <= plain
    ensures |Received(e, Waiting, arrived)| == if arrived == [] then 0 else |arrived| - BLOCK_LENGTH
  {
    hide Encrypt;
    hide Decrypt;
    if arrived != [] {
      var n := |arrived| - BLOCK_LENGTH;
      var r, cipher := Register(iv, 0), Encrypt(e, Register(iv, 0), plain);
      assert arrived == (iv + cipher)[..|arrived|];
      assert arrived[..BLOCK_LENGTH] == iv;
      assert arrived[BLOCK_LENGTH..] == cipher[..n];
      EncryptPrefix(e, r, plain, n);
      DecryptOfEncrypt(e, r, plain[..n]);
    }
  }

  /** Once everything has arrived, the plaintexts of two parties with one password and method agree. */
  lemma SessionRecovery<Key(!new)>(suite: Suite<Key>, password: string, cipherName: string, iv: Block,
                                   chunks: seq<Bytes>, pieces: seq<Bytes>)
    requires AllAcceptable(Waiting, pieces)
    requires Concat(pieces) == SentAll(suite.Block(password, cipherName), NewSender(iv), chunks)
    ensures ReceivedAll(suite.Block(password, cipherName), Waiting, pieces) == Concat(chunks)
  {
    hide Encrypt;
    Framing(suite.Block(password, cipherName), iv, chunks);
    PrefixRecovery(suite, password, cipherName, iv, chunks, pieces);
  }

  // ----- Which bytes are on the wire -----

  /**
   All that a new sender puts out for `chunks`, byte by byte: the 16 bytes of the vector in clear; then each plaintext
   byte combined with its place in the block cipher's output for the previous 16 bytes on the wire, under the key
   derived from the password and the method.
   */
  lemma SentBytes<Key(!new)>(suite: Suite<Key>, password: string, cipherName: string, iv: Block, chunks: seq<Bytes>,
                             i: nat)
    requires i < |Concat(chunks)|
    ensures var wire := SentAll(suite.Block(password, cipherName), NewSender(iv), chunks);
            var j := i / 16;
            && |wire| == 16 + |Concat(chunks)| && wire[..16] == iv
            && wire[16 + i] ==
                 Concat(chunks)[i] ^ suite.block(suite.derive(password, cipherName), wire[16 * j..16 * (j + 1)])[i % 16]
  {
    hide Encrypt;
    hide SentAll;
    var e, plain := suite.Block(password, cipherName), Concat(chunks);
    var cipher := Encrypt(e, Register(iv, 0), plain);
    Framing(e, iv, chunks);
    EncryptIsStandard(e, iv, plain, i);
    WireBlock(iv, cipher, i);
  }

  /** What a new receiver puts out, byte by byte, for any bytes `wire` that arrive in pieces. */
  lemma ReceivedBytes<Key(!new)>(suite: Suite<Key>, password: string, cipherName: string, pieces: seq<Bytes>, i: nat)
    requires AllAcceptable(Waiting, pieces) && 16 + i < |Concat(pieces)|
    ensures var out, wire := ReceivedAll(suite.Block(password, cipherName), Waiting, pieces), Concat(pieces);
            var j := i / 16;
            && |out| == |wire| - 16
            && out[i] ==
                 wire[16 + i] ^ suite.block(suite.derive(password, cipherName), wire[16 * j..16 * (j + 1)])[i % 16]
  {
    hide Decrypt;
    hide ReceivedAll;
    var e, wire := suite.Block(password, cipherName), Concat(pieces);
    ReceivedStream(e, Waiting, pieces);
    DecryptIsStandard(e, wire[..16], wire[16..], i);
    assert wire == wire[..16] + wire[16..];
    WireBlock(wire[..16], wire[16..], i);
  }

  /** Input blocks are the 16-byte blocks of the wire, vector first. */
  lemma WireBlock(iv: Block, cipher: Bytes, i: nat)
    requires i < |cipher|
    ensures var j := i / 16;
            InputBlock(iv, cipher, j) == (iv + cipher)[16 * j..16 * (j + 1)] && (iv + cipher)[16 + i] == cipher[i]
  {
    var j := i / 16;
    if j > 0 {
      assert cipher[16 * (j - 1)..16 * j] == (iv + cipher)[16 * j..16 * (j + 1)];
    }
  }
}
