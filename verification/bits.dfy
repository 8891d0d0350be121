/** Binary rendering of hypercube vertex labels.

    A vertex of the n-cube is the number i in [0, 2^n) written as an
    n-character string of '0' and '1', most significant bit first.  This
    module defines that rendering, the value a binary string denotes, and
    Python's ordering on strings, and proves how the three relate. */
module Bits {

  /** 2 to the power k. */
  function Pow2(k: nat): (r: nat)
    ensures r >= 1
  {
    if k == 0 then 1 else 2 * Pow2(k - 1)
  }

  /** The character Python's `str` produces for a single bit. */
  function Digit(b: nat): char
    requires b < 2
  {
    if b == 0 then '0' else '1'
  }

  /** Every character is '0' or '1'. */
  predicate IsBinary(s: string) {
    forall k :: 0 <= k < |s| ==> s[k] == '0' || s[k] == '1'
  }

  /** The low n bits of i, most significant first. */
  function Render(i: nat, n: nat): (s: string)
    ensures |s| == n
    ensures IsBinary(s)
  {
    if n == 0 then [] else Render(i / 2, n - 1) + [Digit(i % 2)]
  }

  /** The number a most-significant-first string of bits denotes; a
      character other than '1' reads as a zero bit. */
  function Value(s: string): (v: nat)
    ensures v < Pow2(|s|)
  {
    if |s| == 0 then 0 else 2 * Value(s[..|s| - 1]) + (if s[|s| - 1] == '1' then 1 else 0)
  }

  /** Python's `a < b` on strings, witnessed at position k: the first k
      characters agree and then either a ends while b goes on, or a has
      the smaller character at k. */
  predicate LexLessAt(a: string, b: string, k: nat) {
    && k <= |a| && k <= |b|
    && a[..k] == b[..k]
    && ((k == |a| && k < |b|) || (k < |a| && k < |b| && a[k] < b[k]))
  }

  predicate LexLess(a: string, b: string) {
    exists k: nat | k <= |a| :: LexLessAt(a, b, k)
  }

  // ---------------------------------------------------------------------
  // Arithmetic used by the bit extraction
  // ---------------------------------------------------------------------

  /** Euclidean division is determined by quotient and remainder. */
  lemma DivModUnique(x: int, d: int, q: int, r: int)
    requires d > 0 && 0 <= r < d && x == q * d + r
    ensures x / d == q && x % d == r
  {
    var q', r' := x / d, x % d;
    assert x == q' * d + r';
    if q' < q {
      assert (q - q') * d >= d by { MulAtLeast(q - q', d); }
      assert false;
    } else if q' > q {
      assert (q' - q) * d >= d by { MulAtLeast(q' - q, d); }
      assert false;
    }
  }

  lemma MulAtLeast(a: int, d: int)
    requires a >= 1 && d > 0
    ensures a * d >= d
  {
  }

  lemma MulSucc(d: int, x: int)
    ensures (d + 1) * x == d * x + x
  {
  }

  /** Dividing by a then by b is dividing by a * b. */
  lemma DivDiv(i: nat, a: nat, b: nat)
    requires a > 0 && b > 0
    ensures i / a / b == i / (a * b)
  {
    var q, r := i / a, i % a;
    var q2, r2 := q / b, q % b;
    assert i == (q2 * b + r2) * a + r;
    assert i == q2 * (a * b) + (r2 * a + r);
    assert r2 * a + r < a * b by {
      assert r2 <= b - 1;
      assert r2 * a <= (b - 1) * a;
    }
    DivModUnique(i, a * b, q2, r2 * a + r);
  }

  // ---------------------------------------------------------------------
  // Rendering and value
  // ---------------------------------------------------------------------

  /** Rendering k + 1 bits puts bit k, computed as `(i / 2^k) % 2`, in
      front of the rendering of the low k bits; this is how genVertices
      builds a vertex string one bit at a time. */
  lemma {:induction false} RenderPrepend(i: nat, k: nat)
    ensures Render(i, k + 1) == [Digit((i / Pow2(k)) % 2)] + Render(i, k)
  {
    if k > 0 {
      RenderPrepend(i / 2, k - 1);
      DivDiv(i, 2, Pow2(k - 1));
      assert Render(i, k + 1) == Render(i / 2, k) + [Digit(i % 2)];
    }
  }

  /** Appending a character shifts the value left by one bit. */
  lemma ValueSnoc(t: string, c: char)
    ensures Value(t + [c]) == 2 * Value(t) + (if c == '1' then 1 else 0)
  {
    assert (t + [c])[..|t|] == t;
  }

  /** Bit 0 of i followed by the low bits of i / 2 give i modulo 2m. */
  lemma ModDouble(i: nat, m: nat)
    requires m > 0
    ensures 2 * ((i / 2) % m) + i % 2 == i % (2 * m)
  {
    var h, r := i / 2, i % 2;
    var a, b := h / m, h % m;
    assert h == a * m + b;
    assert i == 2 * h + r;
    assert i == a * (2 * m) + (2 * b + r) by {
      assert 2 * (a * m) == a * (2 * m);
    }
    DivModUnique(i, 2 * m, a, 2 * b + r);
  }

  /** The rendering denotes i modulo 2^n. */
  lemma {:induction false} ValueOfRender(i: nat, n: nat)
    ensures Value(Render(i, n)) == i % Pow2(n)
  {
    if n > 0 {
      ValueSnoc(Render(i / 2, n - 1), Digit(i % 2));
      ValueOfRender(i / 2, n - 1);
      ModDouble(i, Pow2(n - 1));
    }
  }

  /** Rendering the value of a binary string gives the string back. */
  lemma {:induction false} RenderOfValue(s: string)
    requires IsBinary(s)
    ensures Render(Value(s), |s|) == s
  {
    if |s| > 0 {
      var init := s[..|s| - 1];
      var bit := if s[|s| - 1] == '1' then 1 else 0;
      assert IsBinary(init);
      RenderOfValue(init);
      DivModUnique(Value(s), 2, Value(init), bit);
      assert s == init + [s[|s| - 1]];
    }
  }

  /** The character at index n - 1 - d of the rendering is bit d of i:
      direction d of the cube names bit d of the vertex number. */
  lemma {:induction false} BitAt(i: nat, n: nat, d: nat)
    requires d < n
    ensures Render(i, n)[n - 1 - d] == Digit((i / Pow2(d)) % 2)
  {
    assert Render(i, n) == Render(i / 2, n - 1) + [Digit(i % 2)];
    if d > 0 {
      BitAt(i / 2, n - 1, d - 1);
      DivDiv(i, 2, Pow2(d - 1));
    }
  }

  /** Turning a '0' at index p into '1' adds the weight of that position,
      2^(|s| - 1 - p), to the value. */
  lemma {:induction false} SetBitValue(s: string, p: nat)
    requires p < |s| && s[p] == '0'
    ensures Value(s[p := '1']) == Value(s) + Pow2(|s| - 1 - p)
    decreases |s|
  {
    var t := s[p := '1'];
    var m := |s| - 1;
    if p == m {
      assert t[..m] == s[..m];
    } else {
      assert t[..m] == s[..m][p := '1'];
      SetBitValue(s[..m], p);
    }
  }

  /** Below 2^n, the rendering is a bijection onto binary strings. */
  lemma RenderRoundTrip(i: nat, n: nat)
    requires i < Pow2(n)
    ensures Value(Render(i, n)) == i
  {
    ValueOfRender(i, n);
    DivModUnique(i, Pow2(n), 0, i);
  }

  lemma RenderInjective(i: nat, j: nat, n: nat)
    requires i < Pow2(n) && j < Pow2(n)
    requires Render(i, n) == Render(j, n)
    ensures i == j
  {
    RenderRoundTrip(i, n);
    RenderRoundTrip(j, n);
  }

  /** Larger numbers render to lexicographically larger strings. */
  lemma {:induction false} RenderMonotone(i: nat, j: nat, n: nat)
    requires i < j < Pow2(n)
    ensures LexLess(Render(i, n), Render(j, n))
  {
    var a, b := Render(i / 2, n - 1), Render(j / 2, n - 1);
    assert Render(i, n) == a + [Digit(i % 2)];
    assert Render(j, n) == b + [Digit(j % 2)];
    if i / 2 < j / 2 {
      RenderMonotone(i / 2, j / 2, n - 1);
      var k: nat :| k <= |a| && LexLessAt(a, b, k);
      assert k < |a|;
      assert (a + [Digit(i % 2)])[..k] == a[..k];
      assert (b + [Digit(j % 2)])[..k] == b[..k];
      assert LexLessAt(Render(i, n), Render(j, n), k);
    } else {
      assert a == b;
      assert (a + [Digit(i % 2)])[..n - 1] == a;
      assert (b + [Digit(j % 2)])[..n - 1] == b;
      assert LexLessAt(Render(i, n), Render(j, n), n - 1);
    }
  }
}
