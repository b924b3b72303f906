/** `Cryptor` of `lib/cryptor.cpp` over a byte-stream cipher object. */
module Cryptor {
  import opened Cfb
  import opened CryptorSpec

  /** `crypto::Crypto::update` with CFB: the direction is fixed when the object is made. */
  class StreamCipher {
    const block: Block -> Block
    const encrypting: bool
    var ivec: Block
    var num: nat

    constructor (block: Block -> Block, iv: Block, encrypting: bool)
      ensures this.block == block && this.encrypting == encrypting
      ensures Feedback() == Register(iv, 0) && Ok(Feedback())
    {
      this.block, this.encrypting := block, encrypting;
      ivec, num := iv, 0;
    }

    function Feedback(): Register
      reads this
    {
      Register(ivec, num)
    }

    /** The stream this call produces for `data`. */
    ghost function Stream(data: Bytes): (out: Bytes)
      requires Ok(Feedback())
      reads this
      ensures |out| == |data|
    {
      StreamOf(encrypting, block, Feedback(), data)
    }

    /** The register after `data`. */
    ghost function Next(data: Bytes): Register
      requires Ok(Feedback())
      reads this
    {
      NextOf(encrypting, block, Feedback(), data)
    }

    /** One byte: refresh the register at a block boundary, combine, and feed the ciphertext byte back. */
    method UpdateByte(b: bv8) returns (o: bv8)
      requires Ok(Feedback())
      modifies this
      ensures Ok(Feedback())
      ensures o == Xor(b, KeyByte(block, old(Feedback())))
      ensures Feedback() == Absorb(block, old(Feedback()), if encrypting then o else b)
    {
      if num == 0 {
        ivec := block(ivec);
      }
      o := Xor(b, ivec[num]);
      ivec := ivec[num := if encrypting then o else b];
      num := (num + 1) % BLOCK_LENGTH;
    }

    /** Writes the stream for `data` to `out` from index `at` on. */
    method Update(data: Bytes, out: array<bv8>, at: nat) returns (size: nat)
      requires Ok(Feedback()) && at + |data| <= out.Length
      modifies this, out
      ensures Ok(Feedback()) && Feedback() == old(Next(data))
      ensures size == |data|
      ensures out[..] == old(out[..at] + Stream(data) + out[at + |data|..])
    {
      hide StreamOf;
      hide NextOf;
      hide Absorb;
      hide KeyByte;
      hide Xor;
      hide Filled;
      ghost var stream, last, before := Stream(data), Next(data), out[..];
      ghost var done: Bytes := [];
      size := 0;
      FilledParts(before, at, []);
      while size < |data|
        invariant size == |done| <= |data| && Ok(Feedback())
        invariant stream == done + Stream(data[size..])
        invariant Next(data[size..]) == last
        invariant out[..] == Filled(before, at, done)
      {
        StreamStep(encrypting, block, Feedback(), data[size..]);
        assert data[size..][1..] == data[size + 1..];
        var o := UpdateByte(data[size]);
        out[at + size] := o;
        assert out[..] == Filled(before, at, done)[at + size := o];
        WroteOne(before, at, done, o, Stream(data[size + 1..]));
        done := done + [o];
        size := size + 1;
      }
      StreamOfNothing(encrypting, block, Feedback());
      assert data[size..] == [];
      assert done + [] == done;
      FilledParts(before, at, done);
    }
  }

  /** `before` with `done` written to it from index `at` on. */
  function Filled(before: Bytes, at: nat, done: Bytes): (out: Bytes)
    requires at + |done| <= |before|
    ensures |out| == |before|
  {
    before[..at] + done + before[at + |done|..]
  }

  lemma FilledParts(before: Bytes, at: nat, done: Bytes)
    requires at + |done| <= |before|
    ensures Filled(before, at, done) == before[..at] + done + before[at + |done|..]
    ensures Filled(before, at, []) == before
  {
  }

  lemma WroteOne(before: Bytes, at: nat, done: Bytes, o: bv8, rest: Bytes)
    requires at + |done| < |before|
    ensures Filled(before, at, done)[at + |done| := o] == Filled(before, at, done + [o])
    ensures done + ([o] + rest) == done + [o] + rest
  {
  }

  function StreamOf(encrypting: bool, e: Block -> Block, r: Register, data: Bytes): (out: Bytes)
    requires Ok(r)
    ensures |out| == |data|
  {
    if encrypting then Encrypt(e, r, data) else Decrypt(e, r, data)
  }

  /** Both directions feed back the ciphertext. */
  function NextOf(encrypting: bool, e: Block -> Block, r: Register, data: Bytes): Register
    requires Ok(r)
  {
    AbsorbAll(e, r, if encrypting then Encrypt(e, r, data) else data)
  }

  lemma StreamOfNothing(encrypting: bool, e: Block -> Block, r: Register)
    requires Ok(r)
    ensures StreamOf(encrypting, e, r, []) == [] && NextOf(encrypting, e, r, []) == r
  {
  }

  lemma StreamStep(encrypting: bool, e: Block -> Block, r: Register, data: Bytes)
    requires Ok(r) && data != []
    ensures var o := Xor(data[0], KeyByte(e, r));
            var next := Absorb(e, r, if encrypting then o else data[0]);
            && StreamOf(encrypting, e, r, data) == [o] + StreamOf(encrypting, e, next, data[1..])
            && NextOf(encrypting, e, r, data) == NextOf(encrypting, e, next, data[1..])
  {
    hide Absorb;
    hide KeyByte;
    hide Xor;
    if encrypting {
      var c := Xor(data[0], KeyByte(e, r));
      var rest := Encrypt(e, Absorb(e, r, c), data[1..]);
      assert ([c] + rest)[0] == c && ([c] + rest)[1..] == rest;
    }
  }

  class Cryptor<Key(!new)> {
    const suite: Suite<Key>
    const password: string
    const cipherName: string
    var cipher: StreamCipher?
    var decipher: StreamCipher?
    var cipherIv: Block
    var decipherIv: Bytes
    var ivSent: bool

    ghost predicate Valid()
      reads this, cipher, decipher
    {
      && cipher != null && cipher.encrypting && cipher.block == suite.Block(password, cipherName)
      && Ok(cipher.Feedback())
      && (decipher != null ==>
            decipher != cipher && !decipher.encrypting && decipher.block == suite.Block(password, cipherName)
            && Ok(decipher.Feedback()))
    }

    /** The encrypting half. */
    ghost function SenderState(): (s: Sender)
      requires Valid()
      reads this, cipher, decipher
      ensures Ok(s.register)
    {
      Sender(cipherIv, ivSent, cipher.Feedback())
    }

    /** The decrypting half. */
    ghost function ReceiverState(): (r: Receiver)
      requires Valid()
      reads this, cipher, decipher
      ensures ReceiverOk(r)
    {
      if decipher == null then Waiting else Receiving(decipher.Feedback())
    }

    /** The random vector is a parameter. */
    constructor (suite: Suite<Key>, password: string, cipherName: string, iv: Block)
      ensures Valid() && SenderState() == NewSender(iv) && ReceiverState() == Waiting
      ensures this.suite == suite && this.password == password && this.cipherName == cipherName
      ensures fresh(cipher)
    {
      this.suite, this.password, this.cipherName := suite, password, cipherName;
      ivSent, cipherIv, decipherIv, decipher, cipher := false, iv, [], null, null;
      new;
      cipher := GetCipher(true, iv);
    }

    /** Derives the key and makes the cipher object; an encrypting one also sets the vector to send. */
    method GetCipher(encrypting: bool, iv: Block) returns (c: StreamCipher)
      modifies this`cipherIv
      ensures fresh(c) && c.encrypting == encrypting && c.block == suite.Block(password, cipherName)
      ensures forall b :: c.block(b) == suite.block(suite.derive(password, cipherName), b)
      ensures c.Feedback() == Register(iv, 0)
      ensures cipherIv == if encrypting then iv else old(cipherIv)
    {
      c := new StreamCipher(suite.Block(password, cipherName), iv, encrypting);
      if encrypting {
        cipherIv := iv;
      }
    }

    method Encrypt(buf: Bytes, out: array<bv8>) returns (outSize: nat)
      requires Valid()
      requires buf != [] ==> (if ivSent then 0 else BLOCK_LENGTH) + |buf| <= out.Length
      modifies this`ivSent, cipher, out
      ensures Valid() && SenderState() == AfterSend(suite.Block(password, cipherName), old(SenderState()), buf)
      ensures ReceiverState() == old(ReceiverState())
      ensures outSize <= out.Length
      ensures out[..outSize] == Sent(suite.Block(password, cipherName), old(SenderState()), buf)
      ensures out[outSize..] == old(out[..])[outSize..]
    {
      if |buf| == 0 {
        outSize := 0;
        return;
      }
      if ivSent {
        outSize := cipher.Update(buf, out, 0);
      } else {
        CopyVector(cipherIv, out);
        var encryptedLen := cipher.Update(buf, out, BLOCK_LENGTH);
        outSize := encryptedLen + BLOCK_LENGTH;
        ivSent := true;
      }
    }

    method Decrypt(buf: Bytes, out: array<bv8>) returns (outSize: nat)
      requires Valid() && Acceptable(ReceiverState(), buf)
      requires |buf| <= out.Length + (if decipher == null then BLOCK_LENGTH else 0)
      modifies this`decipher, this`decipherIv, this`cipherIv, decipher, out
      ensures Valid() && ReceiverState() == AfterReceive(suite.Block(password, cipherName), old(ReceiverState()), buf)
      ensures cipher == old(cipher) && SenderState() == old(SenderState())
      ensures outSize <= out.Length
      ensures out[..outSize] == Received(suite.Block(password, cipherName), old(ReceiverState()), buf)
      ensures out[outSize..] == old(out[..])[outSize..]
    {
      if |buf| == 0 {
        outSize := 0;
        return;
      }
      var rest := buf;
      if decipher == null {
        decipherIv := rest[..BLOCK_LENGTH];
        decipher := GetCipher(false, decipherIv);
        rest := rest[BLOCK_LENGTH..];
      }
      if |rest| == 0 {
        outSize := 0;
        return;
      }
      outSize := decipher.Update(rest, out, 0);
    }
  }

  /** `memcpy(out, iv, BLOCK_LENGTH)`. */
  method CopyVector(iv: Block, out: array<bv8>)
    requires BLOCK_LENGTH <= out.Length
    modifies out
    ensures out[..] == iv + old(out[BLOCK_LENGTH..])
  {
    for i := 0 to BLOCK_LENGTH
      invariant out[..i] == iv[..i]
      invariant out[BLOCK_LENGTH..] == old(out[BLOCK_LENGTH..])
    {
      out[i] := iv[i];
    }
  }
}
