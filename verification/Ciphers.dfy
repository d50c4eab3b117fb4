/**
  * The inner and outer ciphers of the data path. A block cipher is any pair of functions on 16-byte
  * blocks of which one undoes the other; the XOR cipher is concrete.
  */
module Ciphers {
  import opened Wrappers
  import opened Bytes
  import opened Numbers

  const BLOCK_LEN: nat := 16
  const XOR_KEY_LEN: nat := 8

  type Block = b: seq<Byte> | |b| == BLOCK_LEN witness [0, 0, 0, 0, 0, 0, 0, 0, 0, 0, 0, 0, 0, 0, 0, 0]

  datatype BlockCipher = BlockCipher(encrypt: Block -> Block, decrypt: Block -> Block)
  {
    ghost predicate Inverts() {
      forall b: Block :: decrypt(encrypt(b)) == b
    }
  }

  datatype Error = BadLength | BadPadding

  // ----- block by block

  function CryptBlocks(f: Block -> Block, bytes: seq<Byte>): (r: seq<Byte>)
    ensures |r| == |bytes|
  {
    if |bytes| < BLOCK_LEN then bytes else f(bytes[..BLOCK_LEN]) + CryptBlocks(f, bytes[BLOCK_LEN..])
  }

  lemma {:induction false} BlocksInvert(cipher: BlockCipher, bytes: seq<Byte>)
    requires cipher.Inverts()
    ensures CryptBlocks(cipher.decrypt, CryptBlocks(cipher.encrypt, bytes)) == bytes
  {
    if |bytes| >= BLOCK_LEN {
      var head: seq<Byte>, rest: seq<Byte> := cipher.encrypt(bytes[..BLOCK_LEN]),
          CryptBlocks(cipher.encrypt, bytes[BLOCK_LEN..]);
      assert (head + rest)[..BLOCK_LEN] == head && (head + rest)[BLOCK_LEN..] == rest;
      BlocksInvert(cipher, bytes[BLOCK_LEN..]);
      assert bytes == bytes[..BLOCK_LEN] + bytes[BLOCK_LEN..];
    }
  }

  /** Each whole block is transformed by itself; what is shorter than a block at the end stays. */
  lemma {:induction false} BlockAt(f: Block -> Block, bytes: seq<Byte>, k: nat)
    requires BLOCK_LEN * (k + 1) <= |bytes|
    ensures CryptBlocks(f, bytes)[BLOCK_LEN * k..BLOCK_LEN * (k + 1)] == f(bytes[BLOCK_LEN * k..BLOCK_LEN * (k + 1)])
  {
    var rest := bytes[BLOCK_LEN..];
    if k > 0 {
      var at := BLOCK_LEN * (k - 1);
      BlockAt(f, rest, k - 1);
      assert rest[at..at + BLOCK_LEN] == bytes[at + BLOCK_LEN..at + 2 * BLOCK_LEN];
      assert CryptBlocks(f, bytes)[at + BLOCK_LEN..at + 2 * BLOCK_LEN] == CryptBlocks(f, rest)[at..at + BLOCK_LEN];
    }
  }

  lemma {:induction false} BlocksAppend(f: Block -> Block, done: seq<Byte>, b: Block)
    requires |done| % BLOCK_LEN == 0
    ensures CryptBlocks(f, done + b) == CryptBlocks(f, done) + f(b)
    decreases |done|
  {
    if done == [] {
      assert done + b == b && b[..BLOCK_LEN] == b && b[BLOCK_LEN..] == [];
    } else {
      assert (done + b)[..BLOCK_LEN] == done[..BLOCK_LEN];
      assert (done + b)[BLOCK_LEN..] == done[BLOCK_LEN..] + b;
      BlocksAppend(f, done[BLOCK_LEN..], b);
    }
  }

  /** Transform each whole block of the buffer in place. */
  method CryptInPlace(buffer: array<Byte>, f: Block -> Block)
    requires buffer.Length % BLOCK_LEN == 0
    modifies buffer
    ensures buffer[..] == CryptBlocks(f, old(buffer[..]))
  {
    var i := 0;
    while i < buffer.Length
      invariant 0 <= i <= buffer.Length && i % BLOCK_LEN == 0
      invariant buffer[..i] == CryptBlocks(f, old(buffer[..i]))
      invariant buffer[i..] == old(buffer[i..])
    {
      ghost var done, rest := buffer[..i], buffer[i + BLOCK_LEN..];
      var block: Block := buffer[i..i + BLOCK_LEN];
      assert block == old(buffer[i..])[..BLOCK_LEN] == old(buffer[i..i + BLOCK_LEN]);
      BlocksAppend(f, old(buffer[..i]), block);
      assert old(buffer[..i + BLOCK_LEN]) == old(buffer[..i]) + block;
      StoreBlock(buffer, i, f(block));
      i := i + BLOCK_LEN;
    }
    assert buffer[..] == buffer[..i] && old(buffer[..]) == old(buffer[..i]);
  }

  method StoreBlock(buffer: array<Byte>, at: nat, block: Block)
    requires at + BLOCK_LEN <= buffer.Length
    modifies buffer
    ensures buffer[..at + BLOCK_LEN] == old(buffer[..at]) + block
    ensures buffer[at + BLOCK_LEN..] == old(buffer[at + BLOCK_LEN..])
  {
    for j := 0 to BLOCK_LEN
      invariant buffer[..at] == old(buffer[..at])
      invariant buffer[at..at + j] == block[..j]
      invariant buffer[at + BLOCK_LEN..] == old(buffer[at + BLOCK_LEN..])
    {
      buffer[at + j] := block[j];
    }
    assert buffer[..at + BLOCK_LEN] == buffer[..at] + buffer[at..at + BLOCK_LEN];
  }

  // ----- xor

  /** The bitwise exclusive or of the low `width` bits. */
  function XorBits(a: nat, b: nat, width: nat): (r: nat)
    ensures r < Pow2(width)
  {
    if width == 0 then 0 else (a % 2 + b % 2) % 2 + 2 * XorBits(a / 2, b / 2, width - 1)
  }

  lemma XorBit(x: nat, y: nat, rest: nat)
    requires x < 2 && y < 2
    ensures var once := (x + y) % 2 + 2 * rest;
            once / 2 == rest && (once % 2 + y) % 2 == x
  {
  }

  lemma {:induction false} XorTwice(a: nat, b: nat, width: nat)
    requires a < Pow2(width)
    ensures XorBits(XorBits(a, b, width), b, width) == a
  {
    if width > 0 {
      XorTwice(a / 2, b / 2, width - 1);
      var rest := XorBits(a / 2, b / 2, width - 1);
      XorBit(a % 2, b % 2, rest);
      assert XorBits(a, b, width) == (a % 2 + b % 2) % 2 + 2 * rest;
    }
  }

  function BitOf(x: nat, j: nat): nat {
    if j == 0 then x % 2 else BitOf(x / 2, j - 1)
  }

  /** Each bit of the result is set where exactly one of the two is. */
  lemma {:induction false} XorBitAt(a: nat, b: nat, width: nat, j: nat)
    requires j < width
    ensures BitOf(XorBits(a, b, width), j) == 1 <==> BitOf(a, j) != BitOf(b, j)
  {
    var rest := XorBits(a / 2, b / 2, width - 1);
    XorBit(a % 2, b % 2, rest);
    assert XorBits(a, b, width) == (a % 2 + b % 2) % 2 + 2 * rest;
    if j > 0 {
      XorBitAt(a / 2, b / 2, width - 1, j - 1);
    }
  }

  function XorByte(a: Byte, b: Byte): Byte {
    EightBits();
    XorBits(a, b, 8)
  }

  lemma EightBits()
    ensures Pow2(8) == 0x100
  {
  }

  function XorApply(key: seq<Byte>, input: seq<Byte>): (r: seq<Byte>)
    requires |key| >= XOR_KEY_LEN
    ensures |r| == |input|
  {
    seq(|input|, i requires 0 <= i < |input| => XorByte(input[i], key[i % XOR_KEY_LEN]))
  }

  /** Byte for byte and bit for bit, the output differs from the input exactly where the cycled key has a one. */
  lemma XorApplyBits(key: seq<Byte>, input: seq<Byte>, i: nat, j: nat)
    requires |key| >= 8 && i < |input| && j < 8
    ensures BitOf(XorApply(key, input)[i], j) == 1 <==> BitOf(input[i], j) != BitOf(key[i % 8], j)
  {
    XorBitAt(input[i], key[i % XOR_KEY_LEN], 8, j);
  }

  lemma XorApplyTwice(key: seq<Byte>, input: seq<Byte>)
    requires |key| >= XOR_KEY_LEN
    ensures XorApply(key, XorApply(key, input)) == input
  {
    EightBits();
    forall i | 0 <= i < |input| ensures XorApply(key, XorApply(key, input))[i] == input[i] {
      XorTwice(input[i], key[i % XOR_KEY_LEN], 8);
    }
  }

  // ----- the session cipher

  type XorKey = k: seq<Byte> | |k| == 16 witness [0, 0, 0, 0, 0, 0, 0, 0, 0, 0, 0, 0, 0, 0, 0, 0]

  datatype DataCipher = NoCipher | XorCipher(key: XorKey) | AesCipher(blocks: BlockCipher)
  {
    ghost predicate Inverts() {
      AesCipher? ==> blocks.Inverts()
    }
  }

  function RoundUp(n: nat): nat {
    (n + BLOCK_LEN - 1) / BLOCK_LEN * BLOCK_LEN
  }

  function Encrypt(cipher: DataCipher, plain: seq<Byte>): seq<Byte> {
    match cipher
    case NoCipher => plain
    case XorCipher(key) => XorApply(key, plain)
    case AesCipher(blocks) => CryptBlocks(blocks.encrypt, plain + Zeros(RoundUp(|plain|) - |plain|))
  }

  function Decrypt(cipher: DataCipher, coded: seq<Byte>): Result<seq<Byte>, Error> {
    match cipher
    case NoCipher => Ok(coded)
    case XorCipher(key) => Ok(XorApply(key, coded))
    case AesCipher(blocks) =>
      if |coded| % BLOCK_LEN != 0 then Err(BadLength) else Ok(CryptBlocks(blocks.decrypt, coded))
  }

  /** Decryption gives the plaintext back, followed by padding for the block cipher only. */
  lemma DecryptOfEncrypt(cipher: DataCipher, plain: seq<Byte>) returns (padding: seq<Byte>)
    requires cipher.Inverts()
    ensures Decrypt(cipher, Encrypt(cipher, plain)) == Ok(plain + padding)
    ensures cipher.AesCipher? || padding == []
  {
    padding := [];
    assert plain + [] == plain;
    match cipher {
      case NoCipher =>
      case XorCipher(key) =>
        XorApplyTwice(key, plain);
      case AesCipher(blocks) =>
        padding := Zeros(RoundUp(|plain|) - |plain|);
        BlocksInvert(blocks, plain + padding);
    }
  }

  /** The block cipher runs over the plaintext filled up with zeros to whole blocks. */
  lemma AesEncryptsBlocks(blocks: BlockCipher, plain: seq<Byte>, k: nat)
    ensures var coded := Encrypt(AesCipher(blocks), plain);
            && |coded| % 16 == 0 && |plain| <= |coded| < |plain| + 16
            && (16 * (k + 1) <= |coded| ==>
                  coded[16 * k..16 * (k + 1)]
                      == blocks.encrypt((plain + Zeros(|coded| - |plain|))[16 * k..16 * (k + 1)]))
  {
    var padded := plain + Zeros(RoundUp(|plain|) - |plain|);
    if 16 * (k + 1) <= |padded| {
      BlockAt(blocks.encrypt, padded, k);
    }
  }

  /** Only the block cipher refuses anything: what is not whole blocks. */
  lemma DecryptRefuses(cipher: DataCipher, coded: seq<Byte>)
    ensures Decrypt(cipher, coded).Err? <==> cipher.AesCipher? && |coded| % 16 != 0
  {
  }

  lemma EncryptKeepsLength(cipher: DataCipher, plain: seq<Byte>)
    ensures |Encrypt(cipher, plain)| >= |plain|
  {
  }

  // ----- the outer cipher

  datatype Algorithm = Plain | Aes128 | Aes256

  datatype OuterCipher = OuterCipher(algorithm: Algorithm, blocks: BlockCipher)

  function OuterEncrypt(outer: OuterCipher, plain: seq<Byte>): (r: (seq<Byte>, Byte))
    ensures r.1 < BLOCK_LEN
  {
    if outer.algorithm.Plain? then (plain, 0) else
      var padding := (BLOCK_LEN - |plain| % BLOCK_LEN) % BLOCK_LEN;
      (CryptBlocks(outer.blocks.encrypt, plain + Zeros(padding)), padding)
  }

  function OuterDecrypt(outer: OuterCipher, coded: seq<Byte>, padding: Byte): Result<seq<Byte>, Error> {
    if outer.algorithm.Plain? then
      if padding != 0 then Err(BadPadding) else Ok(coded)
    else if coded == [] || |coded| % BLOCK_LEN != 0 then Err(BadLength)
    else if padding >= |coded| then Err(BadPadding)
    else
      var plain := CryptBlocks(outer.blocks.decrypt, coded);
      Ok(plain[..|plain| - padding])
  }

  /** The outer cipher does the same and says how much it filled up; without an algorithm it changes nothing. */
  lemma OuterEncryptsBlocks(outer: OuterCipher, plain: seq<Byte>, k: nat)
    ensures var (coded, padding) := OuterEncrypt(outer, plain);
            && (outer.algorithm.Plain? ==> coded == plain && padding == 0)
            && (!outer.algorithm.Plain? ==>
                  && |coded| == |plain| + padding && |coded| % 16 == 0 && padding < 16
                  && (16 * (k + 1) <= |coded| ==>
                        coded[16 * k..16 * (k + 1)]
                            == outer.blocks.encrypt((plain + Zeros(padding))[16 * k..16 * (k + 1)])))
  {
    if !outer.algorithm.Plain? {
      var padding := (BLOCK_LEN - |plain| % BLOCK_LEN) % BLOCK_LEN;
      if 16 * (k + 1) <= |plain| + padding {
        BlockAt(outer.blocks.encrypt, plain + Zeros(padding), k);
      }
    }
  }

  /**
    * What the outer layer refuses: padding without a cipher, or anything but whole blocks with less padding than that.
    */
  lemma OuterRefuses(outer: OuterCipher, coded: seq<Byte>, padding: Byte)
    ensures OuterDecrypt(outer, coded, padding).Ok? <==>
            if outer.algorithm.Plain? then padding == 0 else |coded| % 16 == 0 && padding < |coded|
    ensures OuterDecrypt(outer, coded, padding).Ok? ==>
              |OuterDecrypt(outer, coded, padding).value| == |coded| - padding as int
  {
  }

  /** The outer layer is undone exactly, padding included. */
  lemma OuterDecryptOfEncrypt(outer: OuterCipher, plain: seq<Byte>)
    requires outer.blocks.Inverts() && plain != []
    ensures var (coded, padding) := OuterEncrypt(outer, plain);
            OuterDecrypt(outer, coded, padding) == Ok(plain)
  {
    if !outer.algorithm.Plain? {
      var padding := (BLOCK_LEN - |plain| % BLOCK_LEN) % BLOCK_LEN;
      BlocksInvert(outer.blocks, plain + Zeros(padding));
      assert (plain + Zeros(padding))[..|plain|] == plain;
    }
  }
}
