/** Result and option values shared by every component. */
module Wrappers {
  datatype Option<+T> = None | Some(value: T)

  datatype Result<+T, +E> = Ok(value: T) | Err(error: E)
}

/** Which operations of a fallible environment fail: operation number n does exactly when `faults(n)`. */
module Faults {
  ghost predicate Faulty(faults: nat -> bool, from: nat, to: nat) {
    exists n | from <= n < to :: faults(n)
  }

  /** At least two of the operations fail. */
  ghost predicate TwiceFaulty(faults: nat -> bool, from: nat, to: nat) {
    exists m, n | from <= m < n < to :: faults(m) && faults(n)
  }

  lemma SecondFault(faults: nat -> bool, from: nat, at: nat, to: nat)
    requires from <= at && Faulty(faults, from, at) && Faulty(faults, at, to)
    ensures TwiceFaulty(faults, from, to)
  {
    var m :| from <= m < at && faults(m);
    var n :| at <= n < to && faults(n);
    assert from <= m < n < to && faults(m) && faults(n);
  }
}

/** Counting and powers of two. */
module Numbers {
  /** One if it holds, else nothing. */
  function One(b: bool): nat {
    if b then 1 else 0
  }

  function Pow2(n: nat): (r: nat)
    ensures r > 0
  {
    if n == 0 then 1 else 2 * Pow2(n - 1)
  }
}

/** Comparing maps key by key. */
module Maps {
  /** The key is absent from both maps, or present in both with one value. */
  predicate SameAt<K, V(==)>(a: map<K, V>, b: map<K, V>, key: K) {
    if key in a then key in b && a[key] == b[key] else key !in b
  }
}

/** Sizes of finite sets. */
module Sets {
  lemma {:induction false} SmallerSet<T>(a: set<T>, b: set<T>)
    requires a <= b
    ensures |a| <= |b|
  {
    if x :| x in a {
      SmallerSet(a - {x}, b - {x});
    }
  }
}

/**
  * Bytes, fixed-width words and their wire encodings.
  *
  * Words are natural numbers below a power of two. A shift is a division by a power of two, a mask of
  * low bits is a remainder, and an `or` of disjoint bit fields is a sum.
  */
module Bytes {
  type Byte = x: nat | x < 0x100
  type U16 = x: nat | x < 0x1_0000
  type U32 = x: nat | x < 0x1_0000_0000
  type U64 = x: nat | x < 0x1_0000_0000_0000_0000

  function Zeros(n: nat): (r: seq<Byte>)
    ensures |r| == n
  {
    seq(n, _ => 0)
  }

  function Big16(x: U16): (r: seq<Byte>)
    ensures |r| == 2
  {
    [x / 0x100, x % 0x100]
  }

  function FromBig16(b: seq<Byte>): (x: U16)
    requires |b| == 2
    ensures Big16(x) == b
  {
    var high: int, low: int := b[0], b[1];
    high * 0x100 + low
  }

  function Big32(x: U32): (r: seq<Byte>)
    ensures |r| == 4
  {
    Big16(x / 0x1_0000) + Big16(x % 0x1_0000)
  }

  function FromBig32(b: seq<Byte>): (x: U32)
    requires |b| == 4
    ensures Big32(x) == b
  {
    var high: int, low: int := FromBig16(b[..2]), FromBig16(b[2..]);
    var x := high * 0x1_0000 + low;
    assert x / 0x1_0000 == high && x % 0x1_0000 == low;
    assert b == b[..2] + b[2..];
    x
  }

  function Little16(x: U16): (r: seq<Byte>)
    ensures |r| == 2
  {
    [x % 0x100, x / 0x100]
  }

  function FromLittle16(b: seq<Byte>): (x: U16)
    requires |b| == 2
    ensures Little16(x) == b
  {
    var low: int, high: int := b[0], b[1];
    low + high * 0x100
  }

  function Little32(x: U32): (r: seq<Byte>)
    ensures |r| == 4
  {
    Little16(x % 0x1_0000) + Little16(x / 0x1_0000)
  }

  function FromLittle32(b: seq<Byte>): (x: U32)
    requires |b| == 4
    ensures Little32(x) == b
  {
    var low: int, high: int := FromLittle16(b[..2]), FromLittle16(b[2..]);
    var x := low + high * 0x1_0000;
    assert x % 0x1_0000 == low && x / 0x1_0000 == high;
    assert b == b[..2] + b[2..];
    x
  }

  function Little64(x: U64): (r: seq<Byte>)
    ensures |r| == 8
  {
    Little32(x % 0x1_0000_0000) + Little32(x / 0x1_0000_0000)
  }

  function FromLittle64(b: seq<Byte>): (x: U64)
    requires |b| == 8
    ensures Little64(x) == b
  {
    var low: int, high: int := FromLittle32(b[..4]), FromLittle32(b[4..]);
    var x := low + high * 0x1_0000_0000;
    assert x % 0x1_0000_0000 == low && x / 0x1_0000_0000 == high;
    assert b == b[..4] + b[4..];
    x
  }

  /** The number with these four digits in base 256. */
  function Number(a: int, b: int, c: int, d: int): int {
    0x100_0000 * a + 0x1_0000 * b + 0x100 * c + d
  }

  /** What the bytes of a word mean: most significant first, or least significant first. */
  lemma WordBytes(x: U32)
    ensures var b := Big32(x); Number(b[0], b[1], b[2], b[3]) == x
    ensures var b := Little32(x); Number(b[3], b[2], b[1], b[0]) == x
  {
    var high, low := x / 0x1_0000, x % 0x1_0000;
    assert x == 0x1_0000 * high + low;
    assert high == 0x100 * (high / 0x100) + high % 0x100 && low == 0x100 * (low / 0x100) + low % 0x100;
  }

  // Each encoder is undone by its decoder; the decoders' contracts give the other direction.

  lemma RoundTrip16(x: U16)
    ensures FromBig16(Big16(x)) == x && FromLittle16(Little16(x)) == x
  {
  }

  lemma RoundTrip32(x: U32)
    ensures FromBig32(Big32(x)) == x && FromLittle32(Little32(x)) == x
  {
    RoundTrip16(x / 0x1_0000);
    RoundTrip16(x % 0x1_0000);
    assert Big32(x)[..2] == Big16(x / 0x1_0000) && Big32(x)[2..] == Big16(x % 0x1_0000);
    assert Little32(x)[..2] == Little16(x % 0x1_0000) && Little32(x)[2..] == Little16(x / 0x1_0000);
  }

  lemma RoundTrip64(x: U64)
    ensures FromLittle64(Little64(x)) == x
  {
    var low, high := x % 0x1_0000_0000, x / 0x1_0000_0000;
    RoundTrip32(low);
    RoundTrip32(high);
    assert Little64(x)[..4] == Little32(low) && Little64(x)[4..] == Little32(high);
  }
}
