/** Bytes, little-endian words and the bitwise AND that NOR flash performs. */
module Bytes {
  datatype Option<+T> = None | Some(value: T)

  lemma ConcatAssoc<T>(a: seq<T>, b: seq<T>, c: seq<T>)
    ensures (a + b) + c == a + (b + c)
  {
  }

  type byte = x: int | 0 <= x < 256

  /** The 32-bit value stored little-endian in the first four bytes. */
  function Le32(b: seq<byte>): (x: word)
    requires |b| >= 4
  {
    var b0: int, b1: int, b2: int, b3: int := b[0], b[1], b[2], b[3];
    b0 + 0x100 * b1 + 0x1_0000 * b2 + 0x100_0000 * b3
  }

  function ToLe32(x: word): (b: seq<byte>)
    ensures |b| == 4 && Le32(b) == x
  {
    var high, low := x / 0x1_0000, x % 0x1_0000;
    [low % 0x100, low / 0x100, high % 0x100, high / 0x100]
  }

  type half = x: nat | x < 0x1_0000

  type word = x: nat | x < 0x1_0000_0000

  function Be16(high: byte, low: byte): half {
    var h: int, l: int := high, low;
    0x100 * h + l
  }

  /** Bitwise AND of two naturals. */
  function And(x: nat, y: nat): (r: nat)
    ensures r <= x && r <= y
    decreases x
  {
    if x == 0 then 0
    else (if x % 2 == 1 && y % 2 == 1 then 1 else 0) + 2 * And(x / 2, y / 2)
  }

  lemma {:induction false} AndComm(x: nat, y: nat)
    ensures And(x, y) == And(y, x)
    decreases x + y
  {
    if x == 0 {
      if y != 0 { AndComm(0, y / 2); }
    } else if y == 0 {
      AndComm(x / 2, 0);
    } else {
      AndComm(x / 2, y / 2);
    }
  }

  lemma {:induction false} AndAssoc(x: nat, y: nat, z: nat)
    ensures And(And(x, y), z) == And(x, And(y, z))
    decreases x
  {
    if x != 0 {
      AndAssoc(x / 2, y / 2, z / 2);
      AndHalves(x, y);
      AndHalves(y, z);
    }
  }

  lemma AndHalves(x: nat, y: nat)
    ensures And(x, y) / 2 == And(x / 2, y / 2)
    ensures And(x, y) % 2 == 1 <==> x % 2 == 1 && y % 2 == 1
  {
  }

  lemma {:induction false} AndSelf(x: nat)
    ensures And(x, x) == x
  {
    if x != 0 { AndSelf(x / 2); }
  }

  lemma AndFF(x: byte)
    ensures And(0xFF, x) == x
  {
    AndOnes(8, x);
  }

  function Pow2(n: nat): (p: nat)
    ensures p >= 1
  {
    if n == 0 then 1 else 2 * Pow2(n - 1)
  }

  /** A mask of n one bits keeps every n-bit value. */
  lemma {:induction false} AndOnes(n: nat, x: nat)
    requires x < Pow2(n)
    ensures And(Pow2(n) - 1, x) == x
    ensures Pow2(8) == 0x100
  {
    assert Pow2(8) == 0x100 by {
      assert Pow2(4) == 16;
      assert Pow2(7) == 8 * Pow2(4);
    }
    if n != 0 {
      AndOnes(n - 1, x / 2);
      assert (Pow2(n) - 1) / 2 == Pow2(n - 1) - 1;
    }
  }
}
