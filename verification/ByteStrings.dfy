// Byte strings: little-endian integers, concatenation of fixed-width fields, lexicographic order.
module ByteStrings {
  import opened Arithmetic
  import opened Basics

  type Byte = b: int | 0 <= b < 256

  type Bytes = seq<Byte>

  type Hash32 = s: Bytes | |s| == 32 witness seq(32, _ => 0)

  type Hash64 = s: Bytes | |s| == 64 witness seq(64, _ => 0)

  const U32 := 0x1_0000_0000

  // ---------- Little-endian integers ----------

  function Pow256(k: nat): (p: nat)
    ensures p > 0
  {
    if k == 0 then 1 else 256 * Pow256(k - 1)
  }

  /** The k low-order bytes of n, least significant first. */
  function LittleEndian(n: nat, k: nat): (s: Bytes)
    ensures |s| == k
  {
    if k == 0 then [] else [n % 256] + LittleEndian(n / 256, k - 1)
  }

  /** Byte i is the digit of 256^i. */
  lemma {:induction false} LittleEndianDigit(n: nat, k: nat, i: nat)
    requires i < k
    ensures LittleEndian(n, k)[i] == n / Pow256(i) % 256
  {
    if i > 0 {
      LittleEndianDigit(n / 256, k - 1, i - 1);
      DivTwice(n, 256, Pow256(i - 1));
    }
  }

  lemma DivTwice(n: nat, a: nat, b: nat)
    requires a > 0 && b > 0
    ensures a * b > 0 && n / a / b == n / (a * b)
  {
    var m, q := n / a, n / a / b;
    DivBounds(n, a);
    DivBounds(m, b);
    NestedBounds(n, a, b, m, q);
    Quotient(n, a * b, q);
  }

  lemma NestedBounds(n: nat, a: nat, b: nat, m: nat, q: nat)
    requires a > 0 && b > 0 && a * m <= n < a * m + a && b * q <= m < b * q + b
    ensures a * b > 0 && (a * b) * q <= n < (a * b) * q + a * b
  {
    MulMonotone(a, b * q, m);
    MulMonotone(a, m + 1, b * q + b);
    MulMonotone(a, 1, b);
    TripleProduct(a, b, q);
  }

  lemma TripleProduct(a: nat, b: nat, q: nat)
    ensures a * (b * q) == (a * b) * q && a * (b * q + b) == (a * b) * q + a * b
  {
  }

  /** k bytes determine exactly n modulo 256^k. */
  lemma {:induction false} LittleEndianInjective(m: nat, n: nat, k: nat)
    ensures LittleEndian(m, k) == LittleEndian(n, k) <==> m % Pow256(k) == n % Pow256(k)
  {
    if k > 0 {
      LittleEndianInjective(m / 256, n / 256, k - 1);
      var s, t := LittleEndian(m / 256, k - 1), LittleEndian(n / 256, k - 1);
      assert LittleEndian(m, k)[1..] == s && LittleEndian(n, k)[1..] == t;
      assert LittleEndian(m, k)[0] == m % 256 && LittleEndian(n, k)[0] == n % 256;
      ModSplit(m, Pow256(k - 1));
      ModSplit(n, Pow256(k - 1));
    }
  }

  lemma ModSplit(n: nat, p: nat)
    requires p > 0
    ensures n % (256 * p) == 256 * (n / 256 % p) + n % 256
  {
    var q := n / 256;
    var r := 256 * (q % p) + n % 256;
    assert n == 256 * q + n % 256;
    assert q == p * (q / p) + q % p;
    assert n == (256 * p) * (q / p) + r;
    ModUnique(n, 256 * p, q / p, r);
  }

  lemma ModUnique(n: nat, d: nat, q: nat, r: nat)
    requires d > 0 && n == d * q + r && r < d
    ensures n % d == r
  {
    var m, e := n % d, n / d - q;
    assert n == d * (e + q) + m;
    assert d * e == r - m;
    MulAtLeast(d, e);
    MulAtLeast(d, -e);
  }

  lemma MulAtLeast(d: nat, e: int)
    ensures e >= 1 ==> d * e >= d
    ensures d * -e == -(d * e)
  {
  }

  lemma Widths()
    ensures Pow256(4) == U32 && Pow256(8) == U64
  {
    assert Pow256(2) == 0x1_0000;
    assert Pow256(4) == U32;
    assert Pow256(6) == 0x1_0000_0000_0000;
  }

  // ---------- Fields ----------

  /** The field stands at this place of the whole. */
  ghost predicate At(whole: Bytes, k: nat, field: Bytes) {
    k + |field| <= |whole| && whole[k..k + |field|] == field
  }

  lemma AtFront(field: Bytes, rest: Bytes)
    ensures At(field + rest, 0, field)
  {
  }

  lemma AtBehind(front: Bytes, rest: Bytes, k: nat, field: Bytes)
    requires At(rest, k, field)
    ensures At(front + rest, |front| + k, field)
  {
    assert (front + rest)[|front| + k..|front| + k + |field|] == rest[k..k + |field|];
  }

  lemma AtAfter(front: Bytes, field: Bytes, rest: Bytes)
    ensures At(front + (field + rest), |front|, field)
  {
    AtFront(field, rest);
    AtBehind(front, field + rest, 0, field);
  }

  lemma AtWhole(front: Bytes, rest: Bytes)
    ensures At(front + rest, |front|, rest)
  {
    assert front + rest == front + (rest + []);
    AtAfter(front, rest, []);
  }

  /** A field of a part stands where the part stands, further on by its place there. */
  lemma AtWithin(whole: Bytes, k: nat, part: Bytes, j: nat, field: Bytes)
    requires At(whole, k, part) && At(part, j, field)
    ensures At(whole, k + j, field)
  {
    forall i | 0 <= i < |field| ensures whole[k + j + i] == field[i] {
      assert whole[k..k + |part|][j + i] == part[j + i];
      assert part[j..j + |field|][i] == field[i];
    }
    assert whole[k + j..k + j + |field|] == field;
  }

  /** Two fields of equal width in front of anything. */
  lemma SplitField(a: Bytes, x: Bytes, b: Bytes, y: Bytes)
    requires |a| == |b|
    ensures a + x == b + y <==> a == b && x == y
  {
    if a + x == b + y {
      assert a == (a + x)[..|a|] && b == (b + y)[..|b|];
      assert x == (a + x)[|a|..] && y == (b + y)[|b|..];
    }
  }

  lemma U64Injective(m: u64, n: u64)
    ensures LittleEndian(m, 8) == LittleEndian(n, 8) <==> m == n
  {
    LittleEndianInjective(m, n, 8);
    Widths();
  }

  /** A 64-bit number in front of something can be read back. */
  lemma U64Field(m: u64, x: Bytes, n: u64, y: Bytes)
    ensures LittleEndian(m, 8) + x == LittleEndian(n, 8) + y <==> m == n && x == y
  {
    SplitField(LittleEndian(m, 8), x, LittleEndian(n, 8), y);
    U64Injective(m, n);
  }

  /** A name that ends at the first separator. */
  lemma SplitName(bar: Byte, a: Bytes, x: Bytes, b: Bytes, y: Bytes)
    requires bar !in a && bar !in b
    ensures a + [bar] + x == b + [bar] + y <==> a == b && x == y
  {
    var s, t := a + [bar] + x, b + [bar] + y;
    if s == t {
      assert s[|a|] == bar && t[|b|] == bar;
      assert forall i :: 0 <= i < |a| ==> s[i] == a[i];
      assert forall i :: 0 <= i < |b| ==> t[i] == b[i];
      assert |a| == |b|;
      SplitField(a, [bar] + x, b, [bar] + y);
      assert s == a + ([bar] + x) && t == b + ([bar] + y);
      SplitField([bar], x, [bar], y);
    }
  }

  function Concat(parts: seq<Bytes>): Bytes {
    if parts == [] then [] else parts[0] + Concat(parts[1..])
  }

  lemma {:induction false} ConcatLength(parts: seq<Bytes>, width: nat)
    requires forall i :: 0 <= i < |parts| ==> |parts[i]| == width
    ensures |Concat(parts)| == width * |parts|
  {
    if parts != [] {
      ConcatLength(parts[1..], width);
    }
  }

  /** Equally many fields of one width can be told apart. */
  lemma {:induction false} ConcatInjective(a: seq<Bytes>, b: seq<Bytes>, width: nat)
    requires |a| == |b|
    requires forall i :: 0 <= i < |a| ==> |a[i]| == width && |b[i]| == width
    ensures Concat(a) == Concat(b) <==> a == b
  {
    if a != [] {
      ConcatInjective(a[1..], b[1..], width);
      SplitField(a[0], Concat(a[1..]), b[0], Concat(b[1..]));
      assert a == [a[0]] + a[1..] && b == [b[0]] + b[1..];
    }
  }

  // ---------- Lexicographic order ----------

  predicate LexLess(a: Bytes, b: Bytes) {
    b != [] && (a == [] || a[0] < b[0] || (a[0] == b[0] && LexLess(a[1..], b[1..])))
  }

  lemma {:induction false} LexTotal(a: Bytes, b: Bytes)
    ensures LexLess(a, b) || LexLess(b, a) || a == b
    ensures !(LexLess(a, b) && LexLess(b, a))
    ensures LexLess(a, b) ==> a != b
  {
    if a != [] && b != [] {
      LexTotal(a[1..], b[1..]);
      assert a == [a[0]] + a[1..] && b == [b[0]] + b[1..];
    }
  }

  lemma {:induction false} LexTransitive(a: Bytes, b: Bytes, c: Bytes)
    requires LexLess(a, b) && LexLess(b, c)
    ensures LexLess(a, c)
  {
    if a != [] && a[0] == b[0] == c[0] {
      LexTransitive(a[1..], b[1..], c[1..]);
    }
  }
}
