/** Bytes, little-endian words and the bit operators that the image writer relies on. */
module Bytes {
  type byte = x: int | 0 <= x < 256
  type bytes = seq<byte>

  function Zeros(n: nat): (z: bytes)
    ensures |z| == n && forall i :: 0 <= i < n ==> z[i] == 0
  {
    seq(n, _ => 0)
  }

  lemma AppendAssoc(a: bytes, b: bytes, c: bytes)
    ensures a + b + c == a + (b + c)
  {}

  // ---------- bit operators on non-negative Python integers ----------

  function Pow2(k: nat): (p: nat)
    ensures p >= 1
  {
    if k == 0 then 1 else 2 * Pow2(k - 1)
  }

  function BitAnd(x: nat, y: nat): (r: nat)
    ensures r <= x && r <= y
  {
    if x == 0 || y == 0 then 0
    else 2 * BitAnd(x / 2, y / 2) + (if x % 2 == 1 && y % 2 == 1 then 1 else 0)
  }

  function BitOr(x: nat, y: nat): nat
  {
    if x == 0 then y
    else if y == 0 then x
    else 2 * BitOr(x / 2, y / 2) + (if x % 2 == 1 || y % 2 == 1 then 1 else 0)
  }

  function Shl(x: nat, k: nat): nat {
    if k == 0 then x else 2 * Shl(x, k - 1)
  }

  function Shr(x: nat, k: nat): nat {
    if k == 0 then x else Shr(x / 2, k - 1)
  }

  lemma DivModUnique(x: int, m: int, q: int, r: int)
    requires m > 0 && x == m * q + r && 0 <= r < m
    ensures x / m == q && x % m == r
  {
    var d := q - x / m;
    assert m * d == x % m - r;
    assert d >= 1 ==> m * d >= m;
    assert d <= -1 ==> m * d <= -m;
  }

  lemma {:induction false} ShlMultiplies(x: nat, k: nat)
    ensures Shl(x, k) == Pow2(k) * x
  {
    if k > 0 {
      ShlMultiplies(x, k - 1);
      assert 2 * (Pow2(k - 1) * x) == 2 * Pow2(k - 1) * x;
    }
  }

  lemma HalveSum(s: nat, lo: nat)
    ensures (2 * s + lo) / 2 == s + lo / 2 && (2 * s + lo) % 2 == lo % 2
  {}

  // A mask of k ones keeps the low k bits.
  lemma {:induction false} AndLowBits(hi: nat, lo: nat, k: nat)
    requires lo < Pow2(k)
    ensures BitAnd(Shl(hi, k) + lo, Pow2(k) - 1) == lo
  {
    if k > 0 {
      var h, m := Shl(hi, k - 1) + lo / 2, Pow2(k - 1) - 1;
      AndLowBits(hi, lo / 2, k - 1);
      assert Shl(hi, k) + lo == 2 * h + lo % 2 && Pow2(k) - 1 == 2 * m + 1;
      AndOdd(h, lo % 2, m);
      assert BitAnd(h, m) == lo / 2;
    } else {
      assert Shl(hi, k) + lo == hi && Pow2(k) - 1 == 0 && BitAnd(hi, 0) == 0;
    }
  }

  lemma AndOdd(h: nat, b: nat, m: nat)
    requires b < 2
    ensures BitAnd(2 * h + b, 2 * m + 1) == 2 * BitAnd(h, m) + b
  {
    assert (2 * h + b) / 2 == h && (2 * m + 1) / 2 == m;
  }

  // A shift drops the bits below.
  lemma {:induction false} ShrDropsLowBits(hi: nat, lo: nat, k: nat)
    requires lo < Pow2(k)
    ensures Shr(Shl(hi, k) + lo, k) == hi
  {
    if k > 0 {
      ShrDropsLowBits(hi, lo / 2, k - 1);
      HalveSum(Shl(hi, k - 1), lo);
    }
  }

  // So masking with 2^k - 1 is the remainder modulo 2^k.
  lemma AndMask(x: nat, k: nat)
    ensures BitAnd(x, Pow2(k) - 1) == x % Pow2(k)
  {
    var p := Pow2(k);
    var q, r := x / p, x % p;
    assert x == p * q + r;
    DivModUnique(x, p, q, r);
    QuotientNotNegative(x, p);
    ShlMultiplies(q, k);
    AndLowBits(q, r, k);
  }

  lemma QuotientNotNegative(x: nat, p: nat)
    requires p > 0
    ensures x / p >= 0
  {}

  // Or-ing a value below 2^k into a word whose low k bits are clear adds it.
  lemma {:induction false} OrDisjoint(hi: nat, lo: nat, k: nat)
    requires lo < Pow2(k)
    ensures BitOr(Shl(hi, k), lo) == Shl(hi, k) + lo
  {
    if k > 0 {
      assert Shl(hi, k) == 2 * Shl(hi, k - 1);
      OrDisjoint(hi, lo / 2, k - 1);
    }
  }

  // A positive number shares no bit with its predecessor exactly when it is a power of two.
  lemma {:induction false} AndPredecessor(p: nat)
    requires p > 0
    ensures BitAnd(p, p - 1) == 0 <==> exists k: nat :: p == Pow2(k)
  {
    if p == 1 {
      assert p == Pow2(0);
    } else if p % 2 == 0 {
      AndPredecessor(p / 2);
      assert BitAnd(p, p - 1) == 2 * BitAnd(p / 2, p / 2 - 1);
      if k: nat :| p / 2 == Pow2(k) {
        assert p == Pow2(k + 1);
      }
      if k: nat :| p == Pow2(k) {
        assert k > 0 && p / 2 == Pow2(k - 1);
        assert exists j: nat :: p / 2 == Pow2(j);
      }
    } else {
      AndSelf(p / 2);
      forall k: nat ensures p != Pow2(k) {
        if k > 0 {
          assert Pow2(k) == 2 * Pow2(k - 1);
        }
      }
    }
  }

  lemma AndSelf(x: nat)
    ensures BitAnd(x, x) == x
  {}

  // ---------- little-endian words ----------

  function Pow256(k: nat): (p: nat)
    ensures p >= 1
  {
    if k == 0 then 1 else 256 * Pow256(k - 1)
  }

  // The k low bytes of n, least significant first.
  function LE(n: int, k: nat): (b: bytes)
    ensures |b| == k
    decreases k
  {
    if k == 0 then [] else [n % 256] + LE(n / 256, k - 1)
  }

  function Word(b: bytes): (n: nat)
    ensures n < Pow256(|b|)
  {
    if b == [] then 0 else b[0] + 256 * Word(b[1..])
  }

  lemma {:induction false} WordOfLE(n: int, k: nat)
    requires 0 <= n < Pow256(k)
    ensures Word(LE(n, k)) == n
  {
    if k > 0 {
      WordOfLE(n / 256, k - 1);
      assert LE(n, k)[1..] == LE(n / 256, k - 1);
    }
  }

  lemma {:induction false} LEOfWord(b: bytes)
    ensures LE(Word(b), |b|) == b
  {
    if b != [] {
      var w := Word(b[1..]);
      DivModUnique(b[0] + 256 * w, 256, w, b[0]);
      LEOfWord(b[1..]);
      assert LE(b[0] + 256 * w, |b|) == [b[0]] + LE(w, |b| - 1);
    }
  }

  // ---------- NUL-terminated strings ----------

  predicate NulFree(s: bytes) {
    forall i :: 0 <= i < |s| ==> s[i] != 0
  }

  // What a C reader sees in a fixed-size field: everything before the first NUL.
  function CStr(b: bytes): (s: bytes)
    ensures NulFree(s) && s <= b
    ensures s == b || b[|s|] == 0
  {
    if b == [] || b[0] == 0 then [] else [b[0]] + CStr(b[1..])
  }

  // A NUL-free string is read back from any field that holds it followed by a NUL.
  lemma {:induction false} CStrOfTerminated(s: bytes, tail: bytes)
    requires NulFree(s) && (tail == [] || tail[0] == 0)
    ensures CStr(s + tail) == s
  {
    if s == [] {
      assert s + tail == tail;
    } else {
      assert (s + tail)[1..] == s[1..] + tail;
      CStrOfTerminated(s[1..], tail);
    }
  }

  // bytes.rstrip(b'\x00')
  function RStrip(b: bytes): (s: bytes)
    ensures s <= b
    ensures s == [] || s[|s| - 1] != 0
    ensures forall i :: |s| <= i < |b| ==> b[i] == 0
  {
    if b != [] && b[|b| - 1] == 0 then RStrip(b[..|b| - 1]) else b
  }

  lemma {:induction false} RStripOfPadded(b: bytes, n: nat)
    ensures RStrip(b + Zeros(n)) == RStrip(b)
  {
    if n == 0 {
      assert b + Zeros(n) == b;
    } else {
      var p := b + Zeros(n);
      assert p[..|p| - 1] == b + Zeros(n - 1);
      RStripOfPadded(b, n - 1);
    }
  }
}
