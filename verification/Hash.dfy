/** The pairing hashes of src/Hash.h in 32-bit unsigned arithmetic. */
module Hashing {
  import opened Nodes

  const WORD: nat := 0x1_0000_0000

  /** The cast to `uint32_t`, and the wrap-around of every 32-bit sum and product. */
  function U32(a: nat): (r: nat)
    ensures r < WORD
  {
    a % WORD
  }

  /** Half the product of a 32-bit sum and its successor, the part the hashes share. */
  function Pairing(a: nat, b: nat): nat {
    var s := U32(U32(a) + U32(b));
    U32(s * U32(s + 1)) / 2
  }

  function HashO2(a: nat, b: nat): nat {
    U32(Pairing(a, b) + U32(a))
  }

  function HashUO2(a: nat, b: nat): nat {
    U32(Pairing(a, b) + 1)
  }

  function HashO3(a: nat, b: nat, c: nat): nat {
    HashO2(c, HashO2(a, b))
  }

  function HashUOO3(a: nat, b: nat, c: nat): nat {
    HashO2(c, HashUO2(a, b))
  }

  /** The bucket of a key, `NodeTable::hash`. */
  function BucketIndex(c: Cell, tableSize: nat): (i: nat)
    requires tableSize > 0
    ensures i < tableSize
  {
    HashO3(c.level, c.low, c.high) % tableSize
  }

  /** Swapping the operands of a commutative operator leaves its cache slot unchanged. */
  lemma UnorderedHashIsSymmetric(a: nat, b: nat, c: nat)
    ensures HashUOO3(a, b, c) == HashUOO3(b, a, c)
  {
    assert U32(a) + U32(b) == U32(b) + U32(a);
  }

  // ---- Where nothing wraps around, the ordered hash is a pairing function

  /** The numbers from 0 to `n` added up. */
  function Triangle(n: nat): nat {
    if n == 0 then 0 else n + Triangle(n - 1)
  }

  lemma {:induction false} TriangleIsHalf(n: nat)
    ensures 2 * Triangle(n) == n * (n + 1)
  {
    if n > 0 {
      TriangleIsHalf(n - 1);
      assert n * (n + 1) == (n - 1) * n + 2 * n;
    }
  }

  /** The next triangular number is too far away to be reached by adding a part of the sum. */
  lemma {:induction false} TriangleGap(s: nat, t: nat)
    requires s < t
    ensures Triangle(s) + s < Triangle(t)
  {
    if s < t - 1 {
      TriangleGap(s, t - 1);
    }
  }

  lemma U32Small(a: nat)
    requires a < 0x1_0000_0000
    ensures U32(a) == a
  {
  }

  /** Up to a sum of 65535 no product wraps around. */
  lemma PairingIsTriangle(a: nat, b: nat)
    requires a + b <= 65535
    ensures Pairing(a, b) == Triangle(a + b) <= 2147450880
  {
    var s := a + b;
    TriangleIsHalf(s);
    TriangleIsHalf(65535);
    if s < 65535 {
      TriangleGap(s, 65535);
    }
    U32Small(a);
    U32Small(b);
    U32Small(s);
    U32Small(s + 1);
    U32Small(2 * Triangle(s));
    hide U32, Triangle;
    assert s * U32(s + 1) == 2 * Triangle(s);
  }

  lemma SmallPair(a: nat, b: nat)
    requires a + b <= 65535
    ensures HashO2(a, b) == Triangle(a + b) + a && HashUO2(a, b) == Triangle(a + b) + 1
  {
    hide U32, Triangle, Pairing;
    PairingIsTriangle(a, b);
    U32Small(a);
    U32Small(Triangle(a + b) + a);
    U32Small(Triangle(a + b) + 1);
  }

  /** There the hashes are the pairing functions they are named after. */
  lemma SmallHashes(a: nat, b: nat)
    requires a + b <= 65535
    ensures HashO2(a, b) == (a + b) * (a + b + 1) / 2 + a
    ensures HashUO2(a, b) == (a + b) * (a + b + 1) / 2 + 1
  {
    hide Triangle, HashO2, HashUO2;
    SmallPair(a, b);
    TriangleIsHalf(a + b);
  }

  /** Small pairs with one ordered hash are one pair; with one unordered hash they have one sum. */
  lemma SmallPairsDiffer(a: nat, b: nat, c: nat, d: nat)
    requires a + b <= 65535 && c + d <= 65535
    ensures HashO2(a, b) == HashO2(c, d) <==> a == c && b == d
    ensures HashUO2(a, b) == HashUO2(c, d) <==> a + b == c + d
  {
    hide HashO2, HashUO2, Triangle;
    SmallPair(a, b);
    SmallPair(c, d);
    if a + b < c + d {
      TriangleGap(a + b, c + d);
    } else if c + d < a + b {
      TriangleGap(c + d, a + b);
    }
  }

  lemma SmallTriple(a: nat, b: nat, c: nat)
    requires a + b <= 65535
    ensures var n := (a + b) * (a + b + 1) / 2 + a;
      c + n <= 65535 ==> HashO3(a, b, c) == (c + n) * (c + n + 1) / 2 + c
    ensures var n := (a + b) * (a + b + 1) / 2 + 1;
      c + n <= 65535 ==> HashUOO3(a, b, c) == (c + n) * (c + n + 1) / 2 + c
  {
    hide HashO2, HashUO2;
    SmallHashes(a, b);
    if c + HashO2(a, b) <= 65535 { SmallHashes(c, HashO2(a, b)); }
    if c + HashUO2(a, b) <= 65535 { SmallHashes(c, HashUO2(a, b)); }
  }

  /** So are keys, and queries, as long as neither pairing wraps around. */
  lemma SmallKeysDiffer(a: nat, b: nat, c: nat, a': nat, b': nat, c': nat)
    requires a + b <= 65535 && c + HashO2(a, b) <= 65535 && a' + b' <= 65535 && c' + HashO2(a', b') <= 65535
    ensures HashO3(a, b, c) == HashO3(a', b', c') <==> a == a' && b == b' && c == c'
  {
    hide HashO2;
    SmallPairsDiffer(a, b, a', b');
    SmallPairsDiffer(c, HashO2(a, b), c', HashO2(a', b'));
  }

  lemma SmallQueriesDiffer(a: nat, b: nat, c: nat, a': nat, b': nat, c': nat)
    requires a + b <= 65535 && c + HashUO2(a, b) <= 65535 && a' + b' <= 65535 && c' + HashUO2(a', b') <= 65535
    ensures HashUOO3(a, b, c) == HashUOO3(a', b', c') <==> a + b == a' + b' && c == c'
  {
    hide HashO2, HashUO2;
    SmallPairsDiffer(a, b, a', b');
    SmallPairsDiffer(c, HashUO2(a, b), c', HashUO2(a', b'));
  }

  /** With the next sum the product wraps around, and a pair with it collides with a small one. */
  lemma LargerPairsCollide()
    ensures HashO2(65535, 1) == HashO2(400, 42) == 98303
  {
    SmallHashes(400, 42);
    U32Small(65535);
    U32Small(1);
    U32Small(65536);
    U32Small(65537);
    U32Small(98303);
    WrapsTo65536();
    hide U32;
    assert Pairing(65535, 1) == 32768;
  }

  lemma WrapsTo65536()
    ensures U32(65536 * 65537) == 65536
  {
    assert 65536 * 65537 == 0x1_0000_0000 + 65536;
  }
}
