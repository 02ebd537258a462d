/**
 Addresses as sequences of bytes, most significant first: their numbers, and what masking them does.
 */
module Bytes {
  import opened Text

  type Octet = n: nat | n < 256

  // Bitwise AND of two bytes.
  function And(x: nat, y: nat): (r: nat)
    ensures r <= x && r <= y
  {
    if x == 0 then 0 else 2 * And(x / 2, y / 2) + (if x % 2 == 1 && y % 2 == 1 then 1 else 0)
  }

  // ^byte(0xff >> k)
  function MaskByte(k: nat): Octet
    requires k <= 8
  {
    255 - 255 / Pow2(k)
  }

  // Byte `i` of a mask of `ones` leading ones.
  function OnesInByte(ones: nat, i: nat): (k: nat)
    ensures k <= 8
  {
    if ones <= 8 * i then 0 else if ones >= 8 * i + 8 then 8 else ones - 8 * i
  }

  // CIDRMask, for an address of n bytes.
  function CIDRMask(ones: nat, n: nat): (m: seq<Octet>)
    ensures |m| == n
  {
    seq(n, i requires 0 <= i < n => MaskByte(OnesInByte(ones, i)))
  }

  // IP.Mask
  function Masked(x: seq<Octet>, mask: seq<Octet>): (r: seq<Octet>)
    requires |x| == |mask|
    ensures |r| == |x|
  {
    seq(|x|, i requires 0 <= i < |x| => And(x[i], mask[i]))
  }

  /* ---------- Numbers ---------- */

  function Num(x: seq<Octet>): nat {
    if x == [] then 0 else 256 * Num(x[..|x| - 1]) + x[|x| - 1]
  }

  function Pow2(n: nat): (p: nat)
    ensures p > 0
  {
    if n == 0 then 1 else 2 * Pow2(n - 1)
  }

  lemma Pow2Of8()
    ensures Pow2(0) == 1 && Pow2(1) == 2 && Pow2(2) == 4 && Pow2(3) == 8 && Pow2(4) == 16
    ensures Pow2(5) == 32 && Pow2(6) == 64 && Pow2(7) == 128 && Pow2(8) == 256
  {
    assert Pow2(4) == 2 * Pow2(3);
    assert Pow2(6) == 2 * Pow2(5);
    assert Pow2(8) == 2 * Pow2(7);
  }

  lemma {:induction false} Pow2Add(a: nat, b: nat)
    ensures Pow2(a + b) == Pow2(a) * Pow2(b)
  {
    if a > 0 {
      Pow2Add(a - 1, b);
      assert Pow2(a + b) == 2 * (Pow2(a - 1) * Pow2(b));
    }
  }

  // ANDing a w-bit number with w - j ones followed by j zeros clears its low j bits.
  lemma {:induction false} AndHighOnes(x: nat, w: nat, j: nat)
    requires j <= w && x < Pow2(w)
    ensures Pow2(j) <= Pow2(w) && And(x, Pow2(w) - Pow2(j)) == x - x % Pow2(j)
  {
    if w > 0 {
      AndHighOnes(x / 2, w - 1, if j > 0 then j - 1 else 0);
      if j > 0 {
        var p := Pow2(j - 1);
        var y: nat := Pow2(w) - Pow2(j);
        assert y / 2 == Pow2(w - 1) - p && y % 2 == 0;
        HalfMod(x, p);
      } else {
        var y: nat := Pow2(w) - 1;
        assert y / 2 == Pow2(w - 1) - 1 && y % 2 == 1;
      }
    }
  }

  lemma HalfMod(x: nat, p: nat)
    requires p > 0
    ensures x - x % (2 * p) == 2 * (x / 2 - (x / 2) % p)
  {
    var h := x / 2;
    assert h == (h / p) * p + h % p;
    assert x == (h / p) * (2 * p) + (2 * (h % p) + x % 2);
    ModUnique(x, h / p, 2 * p, 2 * (h % p) + x % 2);
  }

  lemma MaskByteIs(k: nat)
    requires k <= 8
    ensures MaskByte(k) == 256 - Pow2(8 - k)
  {
    Pow2Of8();
    if k < 4 {
      assert k == 0 || k == 1 || k == 2 || k == 3;
    } else {
      assert k == 4 || k == 5 || k == 6 || k == 7 || k == 8;
    }
  }

  lemma MaskOneByte(x: Octet, k: nat)
    requires k <= 8
    ensures And(x, MaskByte(k)) == x - x % Pow2(8 - k)
  {
    MaskByteIs(k);
    Pow2Is256();
    AndHighOnes(x, 8, 8 - k);
  }

  lemma Pow2Is256()
    ensures Pow2(8) == 256
  {
    Pow2Of8();
  }

  lemma ModUnique(x: nat, q: nat, m: nat, r: nat)
    requires m > 0 && r < m && x == q * m + r
    ensures x % m == r
  {
    var d := x / m - q;
    assert x == (x / m) * m + x % m;
    assert d * m == r - x % m by {
      assert d * m == (x / m) * m - q * m;
    }
    MulBound(d, m);
  }

  lemma MulBound(d: int, m: nat)
    ensures d >= 1 ==> d * m >= m
    ensures d <= -1 ==> d * m <= 0 - m
  {
  }

  lemma MulMono(a: nat, b: nat, m: nat)
    ensures a <= b ==> a * m <= b * m
  {
  }

  lemma MulSucc(a: nat, m: nat)
    ensures (a + 1) * m == a * m + m
  {
  }

  lemma MulAssoc(a: nat, b: nat, c: nat)
    ensures a * (b * c) == (a * b) * c
  {
  }

  lemma ByteQuotient(hi: nat, o: nat, p: nat, c: nat)
    requires c * p == 256 && p > 0
    ensures (hi * c + o / p) * p == hi * 256 + (o - o % p)
  {
    assert o == (o / p) * p + o % p;
    MulAssoc(hi, c, p);
  }

  lemma NumSnoc(x: seq<Octet>, o: Octet)
    ensures Num(x + [o]) == 256 * Num(x) + o
  {
    assert (x + [o])[..|x|] == x;
  }

  lemma MaskSnoc(x: seq<Octet>, o: Octet, ones: nat)
    ensures Masked(x + [o], CIDRMask(ones, |x| + 1))
         == Masked(x, CIDRMask(ones, |x|)) + [And(o, MaskByte(OnesInByte(ones, |x|)))]
  {
  }

  lemma MaskFull(x: seq<Octet>, ones: nat)
    requires 8 * |x| <= ones
    ensures CIDRMask(ones, |x|) == CIDRMask(8 * |x|, |x|)
  {
  }

  ghost predicate RoundsDown(x: seq<Octet>, ones: nat)
    requires ones <= 8 * |x|
  {
    Num(Masked(x, CIDRMask(ones, |x|))) == Num(x) - Num(x) % Pow2(8 * |x| - ones)
  }

  // The mask of prefix length `ones` rounds an address down to a multiple of the block size.
  lemma {:induction false} MaskedIsAligned(x: seq<Octet>, ones: nat)
    requires ones <= 8 * |x|
    ensures RoundsDown(x, ones)
  {
    if x == [] {
      Pow2Of8();
    } else {
      var n := |x| - 1;
      assert x == x[..n] + [x[n]];
      if ones <= 8 * n {
        MaskedIsAligned(x[..n], ones);
        MaskBefore(x[..n], x[n], ones);
      } else {
        MaskedIsAligned(x[..n], 8 * n);
        MaskInside(x[..n], x[n], ones);
      }
    }
  }

  // The mask ends before the last byte.
  lemma MaskBefore(front: seq<Octet>, last: Octet, ones: nat)
    requires ones <= 8 * |front| && RoundsDown(front, ones)
    ensures RoundsDown(front + [last], ones)
  {
    hide And, MaskByte, Pow2;
    MaskSnoc(front, last, ones);
    NumSnoc(front, last);
    NumSnoc(Masked(front, CIDRMask(ones, |front|)), And(last, MaskByte(OnesInByte(ones, |front|))));
    MaskOneByte(last, 0);
    LastByteCleared(Num(front), last, 8 * |front| - ones);
  }

  // It ends in the last byte.
  lemma MaskInside(front: seq<Octet>, last: Octet, ones: nat)
    requires 8 * |front| < ones <= 8 * |front| + 8 && RoundsDown(front, 8 * |front|)
    ensures RoundsDown(front + [last], ones)
  {
    hide And, MaskByte, Pow2;
    MaskFull(front, ones);
    MaskSnoc(front, last, ones);
    NumSnoc(front, last);
    NumSnoc(Masked(front, CIDRMask(ones, |front|)), And(last, MaskByte(OnesInByte(ones, |front|))));
    MaskOneByte(last, ones - 8 * |front|);
    ModEnds(Num(front), last);
    LastByteMasked(Num(front), last, 8 * |front| + 8 - ones);
  }

  lemma ModEnds(front: nat, last: Octet)
    ensures front % Pow2(0) == 0 && last % Pow2(8) == last
  {
    Pow2Of8();
  }

  lemma LastByteCleared(front: nat, last: Octet, k: nat)
    ensures last % Pow2(8) == last
    ensures (256 * front + last) - (256 * front + last) % Pow2(8 + k) == 256 * (front - front % Pow2(k))
  {
    ModEnds(front, last);
    Pow2Of8();
    Pow2Add(8, k);
    ModOfProduct(front, last, Pow2(k));
  }

  lemma ModOfProduct(front: nat, last: Octet, p: nat)
    requires p > 0
    ensures (256 * front + last) % (256 * p) == 256 * (front % p) + last
  {
    var q, r := front / p, front % p;
    assert front == q * p + r;
    MulAssoc(q, 256, p);
    MulAssoc(256, q, p);
    ModUnique(256 * front + last, q, 256 * p, 256 * r + last);
  }

  lemma LastByteMasked(front: nat, last: Octet, k: nat)
    requires k < 8
    ensures (256 * front + last) - (256 * front + last) % Pow2(k) == 256 * front + (last - last % Pow2(k))
  {
    Pow2Of8();
    Pow2Add(8 - k, k);
    ModOfDivisor(front, last, Pow2(k), Pow2(8 - k));
  }

  lemma ModOfDivisor(front: nat, last: nat, p: nat, c: nat)
    requires p > 0 && c * p == 256
    ensures (256 * front + last) % p == last % p
  {
    ByteQuotient(front, last, p, c);
    ModUnique(256 * front + last, front * c + last / p, p, last % p);
  }

  lemma SameDigits(h: nat, l: nat, h': nat, l': nat)
    requires l < 256 && l' < 256 && h * 256 + l == h' * 256 + l'
    ensures h == h' && l == l'
  {
  }

  lemma {:induction false} NumInjective(x: seq<Octet>, y: seq<Octet>)
    requires |x| == |y| && Num(x) == Num(y)
    ensures x == y
  {
    if x != [] {
      var n := |x| - 1;
      SameDigits(Num(x[..n]), x[n], Num(y[..n]), y[n]);
      NumInjective(x[..n], y[..n]);
      assert x == x[..n] + [x[n]] && y == y[..n] + [y[n]];
    }
  }

  lemma {:induction false} AndIdempotent(x: nat, y: nat)
    ensures And(And(x, y), y) == And(x, y)
  {
    if x > 0 {
      AndIdempotent(x / 2, y / 2);
      assert And(x, y) / 2 == And(x / 2, y / 2);
    }
  }

  lemma AlignDown(n: nat, m: nat)
    requires m > 0
    ensures (n - n % m) % m == 0 && n - n % m <= n < n - n % m + m
  {
    assert n - n % m == (n / m) * m;
    ModUnique(n - n % m, n / m, m, 0);
  }

  lemma AlignedBase(base: nat, n: nat, m: nat)
    requires m > 0 && base % m == 0 && base <= n < base + m
    ensures n - n % m == base
  {
    assert base == (base / m) * m;
    ModUnique(n, base / m, m, n - base);
  }

  // Of two aligned intervals that share x, the one whose size is a multiple of the other's starts first.
  lemma NestedBase(b: nat, big: nat, c: nat, m: nat, x: nat)
    requires m > 0 && big > 0 && big % m == 0 && b % big == 0 && c % m == 0
    requires b <= x < b + big && c <= x < c + m
    ensures b <= c < b + big
  {
    ModTransitive(b, big, m);
    MultiplesApart(b, c, m);
  }

  lemma ModTransitive(b: nat, big: nat, m: nat)
    requires m > 0 && big > 0 && big % m == 0 && b % big == 0
    ensures b % m == 0
  {
    var k, r := b / big, big / m;
    assert b == k * big && big == r * m;
    MulAssoc(k, r, m);
    ModUnique(b, k * r, m, 0);
  }

  lemma MultiplesApart(b: nat, c: nat, m: nat)
    requires m > 0 && b % m == 0 && c % m == 0 && b < c + m
    ensures b <= c
  {
    var k, l := b / m, c / m;
    assert b == k * m && c == l * m;
    MulMono(l + 1, k, m);
    MulSucc(l, m);
  }

  /* ---------- Leading bits ---------- */

  // The first `ones` bits of two addresses are the same.
  ghost predicate SameLeading(x: seq<Octet>, y: seq<Octet>, ones: nat) {
    && |x| == |y| && ones <= 8 * |x|
    && Num(x) / Pow2(8 * |x| - ones) == Num(y) / Pow2(8 * |x| - ones)
  }

  lemma SameQuotient(a: nat, b: nat, m: nat)
    requires m > 0
    ensures a - a % m == b - b % m <==> a / m == b / m
  {
    assert a - a % m == (a / m) * m && b - b % m == (b / m) * m;
    assert (a / m - b / m) * m == (a / m) * m - (b / m) * m;
    MulBound(a / m - b / m, m);
  }

  // Masking keeps the leading bits and forgets the others.
  lemma SameMasked(x: seq<Octet>, y: seq<Octet>, ones: nat)
    requires |x| == |y| && ones <= 8 * |x|
    ensures Masked(x, CIDRMask(ones, |x|)) == Masked(y, CIDRMask(ones, |y|)) <==> SameLeading(x, y, ones)
  {
    hide Num, Masked, CIDRMask, Pow2;
    var mask := CIDRMask(ones, |x|);
    MaskedIsAligned(x, ones);
    MaskedIsAligned(y, ones);
    SameQuotient(Num(x), Num(y), Pow2(8 * |x| - ones));
    if SameLeading(x, y, ones) {
      NumInjective(Masked(x, mask), Masked(y, mask));
    }
  }

  lemma QuotientOfProduct(n: nat, c: nat, p: nat)
    requires c > 0 && p > 0
    ensures n / (c * p) == (n / p) / c
  {
    var q, r := n / p, n % p;
    var k, l := q / c, q % c;
    DivMod(n, p);
    DivMod(q, c);
    MulAssoc(k, c, p);
    Distribute(k * c, l, p);
    MulMono(l + 1, c, p);
    MulSucc(l, p);
    MulPositive(c, p);
    DivUnique(n, k, c * p, l * p + r);
  }

  lemma DivMod(n: nat, m: nat)
    requires m > 0
    ensures n == (n / m) * m + n % m
  {
  }

  lemma Distribute(a: nat, b: nat, p: nat)
    ensures (a + b) * p == a * p + b * p
  {
  }

  lemma MulPositive(a: nat, b: nat)
    requires a > 0 && b > 0
    ensures a * b > 0
  {
  }

  lemma DivUnique(x: nat, q: nat, m: nat, r: nat)
    requires m > 0 && r < m && x == q * m + r
    ensures x / m == q
  {
    ModUnique(x, q, m, r);
    assert x == (x / m) * m + x % m;
    assert (x / m - q) * m == (x / m) * m - q * m == 0;
    MulBound(x / m - q, m);
  }

  // Fewer leading bits agree when more do.
  lemma FewerLeading(x: seq<Octet>, y: seq<Octet>, more: nat, fewer: nat)
    requires SameLeading(x, y, more) && fewer <= more
    ensures SameLeading(x, y, fewer)
  {
    hide Num, Pow2;
    var n := 8 * |x|;
    Pow2Add(more - fewer, n - more);
    QuotientOfProduct(Num(x), Pow2(more - fewer), Pow2(n - more));
    QuotientOfProduct(Num(y), Pow2(more - fewer), Pow2(n - more));
  }
}
