/**
 Machine integers as the event index uses them: 64-bit words with bit operations,
 and the fixed-width big-endian byte codec of Go's `encoding/binary`.

 A word is a natural number below 2^64; bits are numbered from the least
 significant one, as in the `bitset` package.
 */
module Words {

  const TWO_64: nat := 0x1_0000_0000_0000_0000

  type Byte = b: nat | b < 256
  type Word = w: nat | w < TWO_64

  const MAX_WORD: Word := TWO_64 - 1

  // ---------------------------------------------------------------- big-endian codec

  function Pow256(n: nat): (p: nat)
    ensures p > 0
  {
    if n == 0 then 1 else 256 * Pow256(n - 1)
  }

  /** The `n` low-order bytes of `x`, most significant byte first. */
  function PutBE(x: nat, n: nat): (bytes: seq<Byte>)
    ensures |bytes| == n
  {
    if n == 0 then [] else PutBE(x / 256, n - 1) + [x % 256]
  }

  function GetBE(bytes: seq<Byte>): (x: nat)
    ensures x < Pow256(|bytes|)
  {
    if bytes == [] then 0 else 256 * GetBE(bytes[..|bytes| - 1]) + bytes[|bytes| - 1]
  }

  lemma {:induction false} GetPut(x: nat, n: nat)
    requires x < Pow256(n)
    ensures GetBE(PutBE(x, n)) == x
  {
    if n > 0 {
      GetPut(x / 256, n - 1);
      assert PutBE(x, n)[..n - 1] == PutBE(x / 256, n - 1);
    }
  }

  lemma {:induction false} PutGet(bytes: seq<Byte>)
    ensures PutBE(GetBE(bytes), |bytes|) == bytes
  {
    if bytes != [] {
      PutGet(bytes[..|bytes| - 1]);
    }
  }

  lemma Pow256Values()
    ensures Pow256(1) == 0x100 && Pow256(2) == 0x1_0000
    ensures Pow256(4) == 0x1_0000_0000
    ensures Pow256(8) == TWO_64
  {
    assert Pow256(2) == 0x1_0000;
    assert Pow256(4) == 0x1_0000_0000;
    assert Pow256(6) == 0x1_0000_0000_0000;
  }

  /** Byte-string order, the order in which the key-value store keeps its keys. */
  predicate BytesLess(a: seq<Byte>, b: seq<Byte>) {
    b != [] && (a == [] || a[0] < b[0] || (a[0] == b[0] && BytesLess(a[1..], b[1..])))
  }

  /** Keys with prefixes of equal width sort by prefix first. */
  lemma {:induction false} BytesLessConcat(a: seq<Byte>, b: seq<Byte>, c: seq<Byte>, d: seq<Byte>)
    requires |a| == |b|
    ensures BytesLess(a + c, b + d) <==> BytesLess(a, b) || (a == b && BytesLess(c, d))
  {
    if a == [] {
      assert a + c == c && b + d == d;
    } else {
      assert (a + c)[1..] == a[1..] + c && (b + d)[1..] == b[1..] + d;
      BytesLessConcat(a[1..], b[1..], c, d);
      assert a == b <==> a[0] == b[0] && a[1..] == b[1..];
    }
  }

  /** Fixed-width big-endian keys sort like the numbers they encode. */
  lemma {:induction false} KeyOrder(x: nat, y: nat, n: nat)
    requires x < Pow256(n) && y < Pow256(n)
    ensures BytesLess(PutBE(x, n), PutBE(y, n)) <==> x < y
  {
    if n > 0 {
      KeyOrder(x / 256, y / 256, n - 1);
      BytesLessConcat(PutBE(x / 256, n - 1), PutBE(y / 256, n - 1), [x % 256], [y % 256]);
      assert [x % 256][1..] == [] && [y % 256][1..] == [];
      GetPut(x / 256, n - 1);
      GetPut(y / 256, n - 1);
    }
  }

  /** A row of a history bucket: a key prefix and a block number. Rows sort by prefix, then by number. */
  lemma RowOrder(p: seq<Byte>, q: seq<Byte>, x: Word, y: Word)
    requires |p| == |q|
    ensures BytesLess(p + PutBE(x, 8), q + PutBE(y, 8)) <==> BytesLess(p, q) || (p == q && x < y)
  {
    Pow256Values();
    KeyOrder(x, y, 8);
    BytesLessConcat(p, q, PutBE(x, 8), PutBE(y, 8));
  }

  /** An unsigned integer key in the shortest form of section 4.2.1 of RFC 8949. */
  function CborKey(x: Word): seq<Byte> {
    if x < 24 then [x]
    else if x < 0x100 then [24] + PutBE(x, 1)
    else if x < 0x1_0000 then [25] + PutBE(x, 2)
    else if x < 0x1_0000_0000 then [26] + PutBE(x, 4)
    else [27] + PutBE(x, 8)
  }

  /** Shortest-form keys sort like the numbers they encode, though their widths differ. */
  lemma CborKeyOrder(x: Word, y: Word)
    ensures BytesLess(CborKey(x), CborKey(y)) <==> x < y
  {
    hide PutBE;
    Pow256Values();
    var n := CborWidth(x);
    if n == CborWidth(y) && n > 0 {
      KeyOrder(x, y, n);
      assert CborKey(x)[1..] == PutBE(x, n) && CborKey(y)[1..] == PutBE(y, n);
    }
  }

  /** The number that a key of this form stands for: the low bits of its first byte, or the bytes that those announce. */
  function CborValue(bytes: seq<Byte>): nat {
    if bytes == [] then 0 else if |bytes| == 1 then bytes[0] % 32 else GetBE(bytes[1..])
  }

  lemma CborKeyReads(x: Word)
    ensures var key := CborKey(x);
            && CborValue(key) == x
            && key[0] < 32  // major type 0
            && (key[0] < 24 <==> |key| == 1) && (key[0] >= 24 ==> key[0] <= 27 && |key| == 1 + [1, 2, 4, 8][key[0] - 24])
  {
    hide PutBE, GetBE;
    Pow256Values();
    var n := CborWidth(x);
    if n > 0 {
      GetPut(x, n);
      assert CborKey(x)[1..] == PutBE(x, n);
    }
  }

  function CborWidth(x: Word): (n: nat)
    ensures n > 0 ==> x < Pow256(n)
  {
    Pow256Values();
    if x < 24 then 0 else if x < 0x100 then 1 else if x < 0x1_0000 then 2 else if x < 0x1_0000_0000 then 4 else 8
  }

  // ---------------------------------------------------------------- bits of a word

  predicate Bit(w: nat, i: nat)
    decreases i
  {
    if i == 0 then w % 2 == 1 else Bit(w / 2, i - 1)
  }

  function And(a: nat, b: nat): (r: nat)
    ensures r <= a
    ensures r <= b
  {
    if a == 0 || b == 0 then 0
    else 2 * And(a / 2, b / 2) + (if a % 2 == 1 && b % 2 == 1 then 1 else 0)
  }

  function Or(a: nat, b: nat): (r: nat)
    decreases a + b
  {
    if a == 0 then b else if b == 0 then a
    else 2 * Or(a / 2, b / 2) + (if a % 2 == 1 || b % 2 == 1 then 1 else 0)
  }

  function Pow2(n: nat): (p: nat)
    ensures p > 0
  {
    if n == 0 then 1 else 2 * Pow2(n - 1)
  }

  lemma Pow2Of64()
    ensures Pow2(64) == TWO_64
  {
    assert Pow2(8) == 0x100;
    assert Pow2(16) == 0x1_0000;
    assert Pow2(24) == 0x100_0000;
    assert Pow2(32) == 0x1_0000_0000;
    assert Pow2(40) == 0x100_0000_0000;
    assert Pow2(48) == 0x1_0000_0000_0000;
    assert Pow2(56) == 0x100_0000_0000_0000;
  }

  /** The bits of a number given by its bytes. */
  lemma {:induction false} BitOfBytes(bytes: seq<Byte>, k: nat)
    requires k < 8 * |bytes|
    ensures Bit(GetBE(bytes), k) <==> Bit(bytes[|bytes| - 1 - k / 8], k % 8)
  {
    var n := |bytes| - 1;
    BitOfSum(GetBE(bytes[..n]), bytes[n], k);
    if k >= 8 {
      BitOfBytes(bytes[..n], k - 8);
      assert (k - 8) / 8 == k / 8 - 1 && (k - 8) % 8 == k % 8;
    }
  }

  lemma BitOfSum(x: nat, b: Byte, k: nat)
    ensures Bit(256 * x + b, k) <==> if k < 8 then Bit(b, k) else Bit(x, k - 8)
  {
    assert Pow2(8) == 256;
    Joined(x, b, 8, k);
  }

  lemma {:induction false} Joined(x: nat, b: nat, n: nat, k: nat)
    requires b < Pow2(n)
    ensures Bit(Pow2(n) * x + b, k) <==> if k < n then Bit(b, k) else Bit(x, k - n)
    decreases n
  {
    if n > 0 {
      assert Pow2(n) * x == 2 * (Pow2(n - 1) * x);
      Shifted(Pow2(n - 1) * x, b, k);
      if k > 0 {
        Joined(x, b / 2, n - 1, k - 1);
      }
    }
  }

  lemma Shifted(y: nat, b: nat, k: nat)
    ensures Bit(2 * y + b, k) <==> if k == 0 then b % 2 == 1 else Bit(y + b / 2, k - 1)
  {
    assert (2 * y + b) / 2 == y + b / 2;
  }

  function WithBit(w: nat, i: nat, on: bool): (r: nat)
    decreases i
  {
    if i == 0 then w - w % 2 + (if on then 1 else 0)
    else 2 * WithBit(w / 2, i - 1, on) + w % 2
  }

  /** A word with bit `i` alone is the i-th power of two. */
  lemma {:induction false} OneBit(i: nat)
    ensures WithBit(0, i, true) == Pow2(i)
  {
    if i > 0 { OneBit(i - 1); }
  }

  lemma {:induction false} BitZero(i: nat)
    ensures !Bit(0, i)
  {
    if i > 0 { BitZero(i - 1); }
  }

  lemma {:induction false} BitAnd(a: nat, b: nat, i: nat)
    ensures Bit(And(a, b), i) <==> Bit(a, i) && Bit(b, i)
    decreases i
  {
    if a == 0 || b == 0 {
      BitZero(i);
    } else if i > 0 {
      BitAnd(a / 2, b / 2, i - 1);
    }
  }

  lemma {:induction false} BitOr(a: nat, b: nat, i: nat)
    ensures Bit(Or(a, b), i) <==> Bit(a, i) || Bit(b, i)
    decreases i
  {
    if a == 0 || b == 0 {
      BitZero(i);
    } else if i > 0 {
      BitOr(a / 2, b / 2, i - 1);
    }
  }

  lemma {:induction false} OrBound(a: nat, b: nat, n: nat)
    requires a < Pow2(n) && b < Pow2(n)
    ensures Or(a, b) < Pow2(n)
    decreases n
  {
    if a != 0 && b != 0 {
      OrBound(a / 2, b / 2, n - 1);
    }
  }

  function OrWord(a: Word, b: Word): (r: Word)
    ensures r == Or(a, b)
  {
    Pow2Of64();
    OrBound(a, b, 64);
    Or(a, b)
  }

  lemma {:induction false} BitWithBit(w: nat, i: nat, on: bool, k: nat)
    ensures Bit(WithBit(w, i, on), k) <==> (if k == i then on else Bit(w, k))
    decreases i
  {
    if i > 0 && k > 0 {
      BitWithBit(w / 2, i - 1, on, k - 1);
    }
  }

  lemma {:induction false} WithBitBound(w: nat, i: nat, on: bool, n: nat)
    requires w < Pow2(n) && i < n
    ensures WithBit(w, i, on) < Pow2(n)
    decreases n
  {
    if i > 0 {
      WithBitBound(w / 2, i - 1, on, n - 1);
    }
  }

  lemma {:induction false} BitAllOnes(n: nat, i: nat)
    requires i < n
    ensures Bit(Pow2(n) - 1, i)
  {
    if i > 0 {
      BitAllOnes(n - 1, i - 1);
      assert (Pow2(n) - 1) / 2 == Pow2(n - 1) - 1;
    }
  }
}
