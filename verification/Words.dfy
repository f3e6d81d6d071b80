/**
  Machine words and their bytes. Words are integers with an explicit range, so that
  truncation and wrap-around are visible in the model; the bitwise operators are defined
  bit by bit.
 */
module Words {
  type Byte = x: int | 0 <= x < 0x100
  type U16 = x: int | 0 <= x < 0x1_0000
  type U32 = x: int | 0 <= x < 0x1_0000_0000
  type Bytes4 = s: seq<Byte> | |s| == 4 witness [0, 0, 0, 0]

  function Pow2(n: nat): (r: nat)
    ensures r > 0
  {
    if n == 0 then 1 else 2 * Pow2(n - 1)
  }

  // ----- Bitwise operators -----

  function And(x: nat, y: nat): nat {
    if x == 0 || y == 0 then 0
    else (if x % 2 == 1 && y % 2 == 1 then 1 else 0) + 2 * And(x / 2, y / 2)
  }

  function Or(x: nat, y: nat): nat {
    if x == 0 then y else if y == 0 then x
    else (if x % 2 == 1 || y % 2 == 1 then 1 else 0) + 2 * Or(x / 2, y / 2)
  }

  lemma {:induction false} AndBound(x: nat, y: nat)
    ensures And(x, y) <= x && And(x, y) <= y
  {
    if x == 0 || y == 0 {
    } else {
      AndBound(x / 2, y / 2);
    }
  }

  /** y * 2^k, written so that proofs about it stay linear. */
  function Shl(y: nat, k: nat): nat {
    if k == 0 then y else 2 * Shl(y, k - 1)
  }

  /** `&` works on the low k bits and on the rest independently. */
  lemma {:induction false} AndSplit(k: nat, x: nat, y: nat, a: nat, b: nat)
    requires x < Pow2(k) && a < Pow2(k)
    ensures And(x + Shl(y, k), a + Shl(b, k)) == And(x, a) + Shl(And(y, b), k)
  {
    if k == 0 {
    } else {
      hide And;
      AndSplit(k - 1, x / 2, y, a / 2, b);
      AndDouble(x, a, Shl(y, k - 1), Shl(b, k - 1));
    }
  }

  lemma AndDouble(x: nat, a: nat, q: nat, r: nat)
    ensures And(x + 2 * q, a + 2 * r) == And(x, a) - 2 * And(x / 2, a / 2) + 2 * And(x / 2 + q, a / 2 + r)
  {
    hide And;
    AndStep(x + 2 * q, a + 2 * r);
    AndStep(x, a);
    Halves(x, q);
    Halves(a, r);
  }

  lemma Halves(x: nat, q: nat)
    ensures (x + 2 * q) / 2 == x / 2 + q && (x + 2 * q) % 2 == x % 2
  {
  }

  lemma AndStep(x: nat, y: nat)
    ensures And(x, y) == (if x % 2 == 1 && y % 2 == 1 then 1 else 0) + 2 * And(x / 2, y / 2)
  {
  }

  /** `|` of a multiple of 2^k with a number below 2^k is their sum. */
  lemma {:induction false} OrDisjoint(k: nat, d: nat, y: nat)
    requires y < Pow2(k)
    ensures Or(Shl(d, k), y) == Shl(d, k) + y
  {
    if k == 0 {
    } else {
      var q := Shl(d, k - 1);
      OrDisjoint(k - 1, d, y / 2);
      assert (2 * q) / 2 == q && (2 * q) % 2 == 0;
    }
  }

  // ----- Contiguous masks -----

  /** x without its low k bits, shifted down. */
  function High(x: nat, k: nat): nat {
    if k == 0 then x else High(x / 2, k - 1)
  }

  lemma {:induction false} HighBounds(x: nat, k: nat)
    ensures Shl(High(x, k), k) <= x < Shl(High(x, k), k) + Pow2(k)
  {
    if k == 0 {
    } else {
      HighBounds(x / 2, k - 1);
    }
  }

  /** Two numbers share their high bits exactly when they lie in one block of 2^k. */
  lemma {:induction false} SameBlock(x: nat, y: nat, k: nat)
    ensures High(x, k) == High(y, k) <==> Shl(High(y, k), k) <= x < Shl(High(y, k), k) + Pow2(k)
    ensures High(x, k) == High(y, k) <==> Shl(High(x, k), k) == Shl(High(y, k), k)
  {
    if k == 0 {
    } else {
      SameBlock(x / 2, y / 2, k - 1);
      var q := Shl(High(y / 2, k - 1), k - 1);
      assert 2 * q <= x < 2 * q + Pow2(k) <==> q <= x / 2 < q + Pow2(k - 1);
    }
  }

  lemma {:induction false} Pow2Monotone(k: nat, n: nat)
    requires k <= n
    ensures Pow2(k) <= Pow2(n)
  {
    if k == n {
    } else {
      Pow2Monotone(k, n - 1);
    }
  }

  /** An n-bit mask whose low k bits are clear keeps the high bits in place. */
  lemma {:induction false} AndMask(x: nat, n: nat, k: nat)
    requires x < Pow2(n) && k <= n
    ensures Pow2(k) <= Pow2(n)
    ensures And(x, Pow2(n) - Pow2(k)) == Shl(High(x, k), k)
  {
    Pow2Monotone(k, n);
    if n == 0 {
    } else {
      var j := if k == 0 then 0 else k - 1;
      AndMask(x / 2, n - 1, j);
      HalfMask(n, k);
      AndStep(x, Pow2(n) - Pow2(k));
    }
  }

  lemma HalfMask(n: nat, k: nat)
    requires 0 < n && k <= n
    ensures Pow2(k) <= Pow2(n)
    ensures (Pow2(n) - Pow2(k)) / 2 == if k == 0 then Pow2(n - 1) - 1 else Pow2(n - 1) - Pow2(k - 1)
    ensures (Pow2(n) - Pow2(k)) % 2 == if k == 0 then 1 else 0
  {
    Pow2Monotone(k, n);
  }

  lemma Pow2Of32(n: nat)
    requires n == 32
    ensures Pow2(n) == 0x1_0000_0000
  {
    assert Pow2(8) == 0x100;
    assert Pow2(16) == 0x1_0000;
    assert Pow2(24) == 0x100_0000;
  }

  /** The two facts about masks for 32-bit words. */
  lemma AndMask32(x: U32, k: nat)
    requires k <= 32
    ensures Pow2(k) <= 0x1_0000_0000
    ensures And(x, 0x1_0000_0000 - Pow2(k)) == Shl(High(x, k), k)
    ensures Shl(High(x, k), k) + Pow2(k) <= 0x1_0000_0000
  {
    hide And, Shl, High, Pow2;
    var n := 32;
    Pow2Of32(n);
    AndMask(x, n, k);
    AlignedFits(x, n, k);
  }

  /** Rounding down to a block leaves room for the block. */
  lemma {:induction false} AlignedFits(x: nat, n: nat, k: nat)
    requires x < Pow2(n) && k <= n
    ensures Shl(High(x, k), k) + Pow2(k) <= Pow2(n)
  {
    if k == 0 {
    } else {
      AlignedFits(x / 2, n - 1, k - 1);
    }
  }

  // ----- Loads and stores -----

  function Word(b0: int, b1: int, b2: int, b3: int): int {
    b0 + 0x100 * b1 + 0x1_0000 * b2 + 0x100_0000 * b3
  }

  function LoadLE32(b: Bytes4): U32 { Word(b[0], b[1], b[2], b[3]) }

  function LoadBE32(b: Bytes4): U32 { Word(b[3], b[2], b[1], b[0]) }

  function StoreLE32(w: U32): Bytes4 {
    [w % 0x100, w / 0x100 % 0x100, w / 0x1_0000 % 0x100, w / 0x100_0000]
  }

  function StoreBE32(w: U32): Bytes4 {
    [w / 0x100_0000, w / 0x1_0000 % 0x100, w / 0x100 % 0x100, w % 0x100]
  }

  function LoadLE16(lo: Byte, hi: Byte): U16 { lo as int + 0x100 * hi }

  function StoreLE16(w: U16): seq<Byte> { [w % 0x100, w / 0x100] }

  /** What `bpf_ntohs` does on a little-endian host. */
  function Swap16(w: U16): U16 { 0x100 * (w % 0x100) + w / 0x100 }

  lemma LoadStore32(w: U32, b: Bytes4)
    ensures LoadLE32(StoreLE32(w)) == w && LoadBE32(StoreBE32(w)) == w
    ensures StoreLE32(LoadLE32(b)) == b && StoreBE32(LoadBE32(b)) == b
  {
    SplitBytes(w);
    SplitWord(b[0], b[1], b[2], b[3]);
    SplitWord(b[3], b[2], b[1], b[0]);
  }

  lemma SplitBytes(w: U32)
    ensures w == Word(w % 0x100, w / 0x100 % 0x100, w / 0x1_0000 % 0x100, w / 0x100_0000)
  {
    var h := w / 0x100;
    var g := h / 0x100;
    assert w == 0x100 * h + w % 0x100;
    assert h == 0x100 * g + h % 0x100;
    assert g == 0x100 * (g / 0x100) + g % 0x100;
    assert w / 0x1_0000 == g && w / 0x100_0000 == g / 0x100;
  }

  lemma SplitWord(a: Byte, b: Byte, c: Byte, d: Byte)
    ensures var w := Word(a, b, c, d);
            w % 0x100 == a && w / 0x100 % 0x100 == b && w / 0x1_0000 % 0x100 == c && w / 0x100_0000 == d
  {
    var w := Word(a, b, c, d);
    var h := b + 0x100 * (c + 0x100 * d);
    assert w == a + 0x100 * h;
    assert w / 0x100 == h;
    assert w / 0x1_0000 == h / 0x100 == c + 0x100 * d;
    assert w / 0x100_0000 == (h / 0x100) / 0x100;
  }

  /** Both loads are byte-wise for `&`: the order of the bytes does not matter to a mask. */
  lemma AndLoads(a: Bytes4, b: Bytes4) returns (c: Bytes4)
    ensures And(LoadLE32(a), LoadLE32(b)) == LoadLE32(c)
    ensures And(LoadBE32(a), LoadBE32(b)) == LoadBE32(c)
  {
    AndBound(a[0], b[0]);
    AndBound(a[1], b[1]);
    AndBound(a[2], b[2]);
    AndBound(a[3], b[3]);
    c := [And(a[0], b[0]), And(a[1], b[1]), And(a[2], b[2]), And(a[3], b[3])];
    AndWord(a[0], a[1], a[2], a[3], b[0], b[1], b[2], b[3]);
    AndWord(a[3], a[2], a[1], a[0], b[3], b[2], b[1], b[0]);
  }

  lemma AndWord(a0: Byte, a1: Byte, a2: Byte, a3: Byte, b0: Byte, b1: Byte, b2: Byte, b3: Byte)
    ensures And(Word(a0, a1, a2, a3), Word(b0, b1, b2, b3))
         == Word(And(a0, b0), And(a1, b1), And(a2, b2), And(a3, b3))
  {
    hide And;
    var h, k: nat := a2 + 0x100 * a3, b2 + 0x100 * b3;
    var i, j: nat := a1 + 0x100 * h, b1 + 0x100 * k;
    AndByte(a2, a3, b2, b3);
    AndByte(a1, h, b1, k);
    AndByte(a0, i, b0, j);
    assert Word(a0, a1, a2, a3) == a0 + 0x100 * i && Word(b0, b1, b2, b3) == b0 + 0x100 * j;
  }

  lemma AndByte(x: Byte, y: nat, a: Byte, b: nat)
    ensures And(x + 0x100 * y, a + 0x100 * b) == And(x, a) + 0x100 * And(y, b)
  {
    assert Pow2(8) == 0x100;
    ShlByte(y);
    ShlByte(b);
    ShlByte(And(y, b));
    AndSplit(8, x, y, a, b);
  }

  lemma ShlByte(z: nat)
    ensures Shl(z, 8) == 0x100 * z
  {
    assert Shl(z, 1) == 2 * z;
    assert Shl(z, 2) == 4 * z;
    assert Shl(z, 4) == 16 * z;
    assert Shl(z, 6) == 64 * z;
  }
}
