/** CFB with 128-bit segments (section 6.3 of NIST SP 800-38A), one byte at a time, over any block function. */
module Cfb {

  const BLOCK_LENGTH := 16

  type Block = b: seq<bv8> | |b| == 16 witness seq(16, _ => 0)

  /** The feedback register and the position within the current block. */
  datatype Register = Register(iv: Block, num: nat)

  predicate Ok(r: Register) {
    r.num < BLOCK_LENGTH
  }

  /** The register after the block function has been applied, when a new block begins. */
  function Refreshed(e: Block -> Block, r: Register): Block {
    if r.num == 0 then e(r.iv) else r.iv
  }

  /** The byte the next data byte is combined with. */
  function KeyByte(e: Block -> Block, r: Register): bv8
    requires Ok(r)
  {
    Refreshed(e, r)[r.num]
  }

  function Xor(a: bv8, k: bv8): bv8 {
    a ^ k
  }

  /** The register after the ciphertext byte `c`, whichever side it is on. */
  function Absorb(e: Block -> Block, r: Register, c: bv8): (next: Register)
    requires Ok(r)
    ensures Ok(next)
  {
    Register(Refreshed(e, r)[r.num := c], (r.num + 1) % BLOCK_LENGTH)
  }

  function AbsorbAll(e: Block -> Block, r: Register, cipher: seq<bv8>): (next: Register)
    requires Ok(r)
    ensures Ok(next)
    decreases |cipher|
  {
    if cipher == [] then r else AbsorbAll(e, Absorb(e, r, cipher[0]), cipher[1..])
  }

  function Encrypt(e: Block -> Block, r: Register, plain: seq<bv8>): (cipher: seq<bv8>)
    requires Ok(r)
    ensures |cipher| == |plain|
    decreases |plain|
  {
    if plain == [] then []
    else
      var c := Xor(plain[0], KeyByte(e, r));
      [c] + Encrypt(e, Absorb(e, r, c), plain[1..])
  }

  function Decrypt(e: Block -> Block, r: Register, cipher: seq<bv8>): (plain: seq<bv8>)
    requires Ok(r)
    ensures |plain| == |cipher|
    decreases |cipher|
  {
    if cipher == [] then [] else [Xor(cipher[0], KeyByte(e, r))] + Decrypt(e, Absorb(e, r, cipher[0]), cipher[1..])
  }

  lemma XorTwice(a: bv8, k: bv8)
    ensures Xor(Xor(a, k), k) == a
  {
  }

  /** Decryption undoes encryption from the same register. */
  lemma {:induction false} DecryptOfEncrypt(e: Block -> Block, r: Register, plain: seq<bv8>)
    requires Ok(r)
    ensures Decrypt(e, r, Encrypt(e, r, plain)) == plain
    decreases |plain|
  {
    hide Absorb;
    hide KeyByte;
    hide Xor;
    if plain != [] {
      var c := Xor(plain[0], KeyByte(e, r));
      XorTwice(plain[0], KeyByte(e, r));
      var next := Absorb(e, r, c);
      DecryptOfEncrypt(e, next, plain[1..]);
      var rest := Encrypt(e, next, plain[1..]);
      assert Encrypt(e, r, plain) == [c] + rest;
      assert ([c] + rest)[0] == c && ([c] + rest)[1..] == rest;
      assert plain == [plain[0]] + plain[1..];
    }
  }

  lemma {:induction false} AbsorbConcat(e: Block -> Block, r: Register, a: seq<bv8>, b: seq<bv8>)
    requires Ok(r)
    ensures AbsorbAll(e, r, a + b) == AbsorbAll(e, AbsorbAll(e, r, a), b)
    decreases |a|
  {
    hide Absorb;
    hide KeyByte;
    hide Xor;
    if a == [] {
      assert a + b == b;
    } else {
      AbsorbConcat(e, Absorb(e, r, a[0]), a[1..], b);
      assert (a + b)[1..] == a[1..] + b;
    }
  }

  /** Encrypting in two calls gives the stream of one call. */
  lemma {:induction false} EncryptConcat(e: Block -> Block, r: Register, a: seq<bv8>, b: seq<bv8>)
    requires Ok(r)
    ensures Encrypt(e, r, a + b)
         == Encrypt(e, r, a) + Encrypt(e, AbsorbAll(e, r, Encrypt(e, r, a)), b)
    decreases |a|
  {
    hide Absorb;
    hide KeyByte;
    hide Xor;
    if a == [] {
      assert a + b == b;
    } else {
      var c := Xor(a[0], KeyByte(e, r));
      var next := Absorb(e, r, c);
      EncryptConcat(e, next, a[1..], b);
      assert (a + b)[0] == a[0] && (a + b)[1..] == a[1..] + b;
      var ca := Encrypt(e, next, a[1..]);
      assert Encrypt(e, r, a) == [c] + ca;
      assert ([c] + ca)[0] == c && ([c] + ca)[1..] == ca;
      var cb := Encrypt(e, AbsorbAll(e, next, ca), b);
      assert [c] + (ca + cb) == [c] + ca + cb;
    }
  }

  lemma {:induction false} DecryptConcat(e: Block -> Block, r: Register, a: seq<bv8>, b: seq<bv8>)
    requires Ok(r)
    ensures Decrypt(e, r, a + b) == Decrypt(e, r, a) + Decrypt(e, AbsorbAll(e, r, a), b)
    decreases |a|
  {
    hide Absorb;
    hide KeyByte;
    hide Xor;
    if a == [] {
      assert a + b == b;
    } else {
      var next := Absorb(e, r, a[0]);
      DecryptConcat(e, next, a[1..], b);
      assert (a + b)[0] == a[0] && (a + b)[1..] == a[1..] + b;
      var p, pa, pb := Xor(a[0], KeyByte(e, r)), Decrypt(e, next, a[1..]), Decrypt(e, AbsorbAll(e, next, a[1..]), b);
      assert [p] + (pa + pb) == [p] + pa + pb;
    }
  }

  // ----- The block-wise definition of the standard -----

  /** Input block j: the initialization vector, then the previous ciphertext segment. */
  function InputBlock(iv: Block, cipher: seq<bv8>, j: nat): Block
    requires BLOCK_LENGTH * j <= |cipher|
  {
    if j == 0 then iv else cipher[BLOCK_LENGTH * (j - 1)..BLOCK_LENGTH * j]
  }

  /** `r` after `cipher` from a fresh register: the segment so far, then what is left of the output block. */
  ghost predicate Shaped(e: Block -> Block, iv: Block, cipher: seq<bv8>, r: Register) {
    var j := |cipher| / BLOCK_LENGTH;
    && r.num == |cipher| % BLOCK_LENGTH
    && r.iv == if r.num == 0 then InputBlock(iv, cipher, j)
               else cipher[BLOCK_LENGTH * j..] + e(InputBlock(iv, cipher, j))[r.num..]
  }

  lemma {:induction false} RegisterShape(e: Block -> Block, iv: Block, cipher: seq<bv8>)
    ensures Shaped(e, iv, cipher, AbsorbAll(e, Register(iv, 0), cipher))
    decreases |cipher|
  {
    hide Shaped;
    hide Absorb;
    var r0 := Register(iv, 0);
    if cipher == [] {
      FreshShape(e, iv);
    } else {
      var n := |cipher| - 1;
      var before, c := cipher[..n], cipher[n];
      var r := AbsorbAll(e, r0, before);
      RegisterShape(e, iv, before);
      AbsorbConcat(e, r0, before, [c]);
      assert cipher == before + [c];
      assert AbsorbAll(e, r, [c]) == Absorb(e, r, c);
      AbsorbShape(e, iv, before, c, r);
    }
  }

  lemma FreshShape(e: Block -> Block, iv: Block)
    ensures Shaped(e, iv, [], Register(iv, 0))
  {
  }

  lemma NextByte(n: nat)
    ensures (n + 1) / BLOCK_LENGTH == n / BLOCK_LENGTH + if n % BLOCK_LENGTH == BLOCK_LENGTH - 1 then 1 else 0
    ensures (n + 1) % BLOCK_LENGTH == (n % BLOCK_LENGTH + 1) % BLOCK_LENGTH
    ensures n == BLOCK_LENGTH * (n / BLOCK_LENGTH) + n % BLOCK_LENGTH
  {
  }

  lemma AbsorbShape(e: Block -> Block, iv: Block, before: seq<bv8>, c: bv8, r: Register)
    requires Shaped(e, iv, before, r)
    ensures Shaped(e, iv, before + [c], Absorb(e, r, c))
  {
    var cipher, next, j := before + [c], Absorb(e, r, c), |before| / BLOCK_LENGTH;
    NextByte(|before|);
    assert InputBlock(iv, cipher, j) == InputBlock(iv, before, j);
    var part := before[BLOCK_LENGTH * j..];
    assert part + [c] == cipher[BLOCK_LENGTH * j..];
    OverwriteNext(part, e(InputBlock(iv, before, j)), c);
  }

  /** Overwriting the first byte of what is left of a block. */
  lemma OverwriteNext(part: seq<bv8>, out: seq<bv8>, c: bv8)
    requires |part| < |out|
    ensures |part| == 0 ==> out == part + out[|part|..]
    ensures (part + out[|part|..])[|part| := c] == part + [c] + out[|part| + 1..]
    ensures |part| + 1 == |out| ==> part + [c] + out[|part| + 1..] == part + [c]
  {
  }

  /** The first part of a ciphertext is the ciphertext of the first part. */
  lemma EncryptPrefix(e: Block -> Block, r: Register, plain: seq<bv8>, i: nat)
    requires Ok(r) && i <= |plain|
    ensures Encrypt(e, r, plain)[..i] == Encrypt(e, r, plain[..i])
    ensures i < |plain| ==>
              Encrypt(e, r, plain)[i] == Xor(plain[i], KeyByte(e, AbsorbAll(e, r, Encrypt(e, r, plain[..i]))))
  {
    hide Xor;
    hide KeyByte;
    hide AbsorbAll;
    assert plain == plain[..i] + plain[i..];
    EncryptConcat(e, r, plain[..i], plain[i..]);
  }

  /** Every ciphertext byte is the plaintext byte combined with its place in the output block of the standard. */
  lemma EncryptIsStandard(e: Block -> Block, iv: Block, plain: seq<bv8>, i: nat)
    requires i < |plain|
    ensures var cipher := Encrypt(e, Register(iv, 0), plain);
            cipher[i] == plain[i] ^ e(InputBlock(iv, cipher, i / BLOCK_LENGTH))[i % BLOCK_LENGTH]
  {
    hide AbsorbAll;
    hide Encrypt;
    hide Shaped;
    hide KeyByte;
    var r := Register(iv, 0);
    var cipher, before := Encrypt(e, r, plain), Encrypt(e, r, plain[..i]);
    EncryptPrefix(e, r, plain, i);
    RegisterShape(e, iv, before);
    InputBlockPrefix(iv, cipher, i);
    KeyByteOfShape(e, iv, before, AbsorbAll(e, r, before));
  }

  lemma InputBlockPrefix(iv: Block, cipher: seq<bv8>, i: nat)
    requires i <= |cipher|
    ensures InputBlock(iv, cipher[..i], i / BLOCK_LENGTH) == InputBlock(iv, cipher, i / BLOCK_LENGTH)
  {
    var j := i / BLOCK_LENGTH;
    if j > 0 {
      var lo, hi := BLOCK_LENGTH * (j - 1), BLOCK_LENGTH * j;
      assert cipher[..i][lo..hi] == cipher[lo..hi];
    }
  }

  lemma KeyByteOfShape(e: Block -> Block, iv: Block, cipher: seq<bv8>, r: Register)
    requires Shaped(e, iv, cipher, r)
    ensures r.num == |cipher| % BLOCK_LENGTH
    ensures KeyByte(e, r) == e(InputBlock(iv, cipher, |cipher| / BLOCK_LENGTH))[r.num]
  {
  }

  /** Each decrypted byte is the ciphertext byte combined with the key byte that the ciphertext before it leads to. */
  lemma DecryptAt(e: Block -> Block, r: Register, cipher: seq<bv8>, i: nat)
    requires Ok(r) && i < |cipher|
    ensures Decrypt(e, r, cipher)[i] == Xor(cipher[i], KeyByte(e, AbsorbAll(e, r, cipher[..i])))
  {
    hide Xor;
    hide KeyByte;
    hide AbsorbAll;
    assert cipher == cipher[..i] + cipher[i..];
    DecryptConcat(e, r, cipher[..i], cipher[i..]);
  }

  /** Every decrypted byte is the ciphertext byte combined with its place in the output block of the standard. */
  lemma DecryptIsStandard(e: Block -> Block, iv: Block, cipher: seq<bv8>, i: nat)
    requires i < |cipher|
    ensures Decrypt(e, Register(iv, 0), cipher)[i]
         == cipher[i] ^ e(InputBlock(iv, cipher, i / BLOCK_LENGTH))[i % BLOCK_LENGTH]
  {
    hide AbsorbAll;
    hide Decrypt;
    hide Shaped;
    hide KeyByte;
    var r, before := Register(iv, 0), cipher[..i];
    DecryptAt(e, r, cipher, i);
    RegisterShape(e, iv, before);
    InputBlockPrefix(iv, cipher, i);
    KeyByteOfShape(e, iv, before, AbsorbAll(e, r, before));
  }
}
