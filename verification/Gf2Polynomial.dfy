/** Polynomials over GF(2), written as their coefficients from the highest power down to
    the constant. Division is stated through its result, as `dividend == quotient *
    divisor + remainder`, and shown to have at most one answer.
 */
module Gf2Polynomial {

  type Polynomial = seq<bool>

  function Zeros(n: nat): (r: Polynomial)
    ensures |r| == n && forall i :: 0 <= i < n ==> !r[i]
  {
    seq(n, _ => false)
  }

  /** The sum of two polynomials written with the same number of coefficients. */
  function Sum(a: Polynomial, b: Polynomial): (r: Polynomial)
    requires |a| == |b|
    ensures |r| == |a| && forall i :: 0 <= i < |a| ==> r[i] == (a[i] != b[i])
  {
    seq(|a|, i requires 0 <= i < |a| => a[i] != b[i])
  }

  lemma SumAppend(a: Polynomial, b: Polynomial, x: Polynomial, y: Polynomial)
    requires |a| == |b| && |x| == |y|
    ensures Sum(a + x, b + y) == Sum(a, b) + Sum(x, y)
  {
  }

  function Scale(b: bool, g: Polynomial): (r: Polynomial)
    ensures |r| == |g| && forall i :: 0 <= i < |g| ==> r[i] == (b && g[i])
  {
    if b then g else Zeros(|g|)
  }

  /** Long multiplication: one row of `g` for each coefficient of `q`. */
  function Times(q: Polynomial, g: Polynomial): (r: Polynomial)
    requires |g| > 0
    ensures |r| == |q| + |g| - 1
  {
    if q == [] then Zeros(|g| - 1)
    else
      var n := |q| - 1;
      Sum(Times(q[..n], g) + [false], Zeros(n) + Scale(q[n], g))
  }

  /** The polynomial whose quotient by `g` is `q` and whose remainder is `r`. */
  function Compose(q: Polynomial, g: Polynomial, r: Polynomial): (d: Polynomial)
    requires |g| == |r| + 1
    ensures |d| == |q| + |r|
  {
    Sum(Times(q, g), Zeros(|q|) + r)
  }

  /** `r` is what division of `d` by `g` leaves. */
  ghost predicate IsRemainder(d: Polynomial, g: Polynomial, r: Polynomial)
    requires |g| == |r| + 1 && |r| <= |d|
  {
    exists q: Polynomial :: |q| == |d| - |r| && Compose(q, g, r) == d
  }

  /** The remainder one place higher up, before the last quotient coefficient `b` was taken out. */
  function Carry(b: bool, g: Polynomial, r: Polynomial): (c: Polynomial)
    requires |g| == |r| + 1 && |r| > 0
    ensures |c| == |r|
    ensures forall i :: 0 <= i < |r| ==> c[i] == ((b && g[i]) != (i > 0 && r[i - 1]))
  {
    Sum(Scale(b, g)[..|r|], [false] + r[..|r| - 1])
  }

  /** Long division, one place at a time. */
  lemma ComposeLast(q: Polynomial, b: bool, g: Polynomial, r: Polynomial)
    requires |g| == |r| + 1 && |r| > 0
    ensures Compose(q + [b], g, r)
         == Compose(q, g, Carry(b, g, r)) + [(b && g[|r|]) != r[|r| - 1]]
  {
    hide Times, Carry, Scale;
    var n, m := |q|, |r|;
    TimesLast(q, b, g);
    var left := Compose(q + [b], g, r);
    var right := Compose(q, g, Carry(b, g, r)) + [(b && g[m]) != r[m - 1]];
    var row, rest := Zeros(n) + Scale(b, g), Zeros(n + 1) + r;
    forall i | 0 <= i < |left|
      ensures left[i] == right[i]
    {
      assert left[i] == (((Times(q, g) + [false])[i] != row[i]) != rest[i]);
      if i < n + m {
        assert right[i] == (Times(q, g)[i] != (Zeros(n) + Carry(b, g, r))[i]);
      }
    }
    assert left == right;
  }

  lemma TimesLast(q: Polynomial, b: bool, g: Polynomial)
    requires |g| > 0
    ensures Times(q + [b], g) == Sum(Times(q, g) + [false], Zeros(|q|) + Scale(b, g))
  {
    assert (q + [b])[..|q|] == q;
    hide Sum, Scale, Zeros;
  }

  /** The last quotient coefficient and the remainder can be read off the carry. */
  lemma CarryInjective(b1: bool, r1: Polynomial, b2: bool, r2: Polynomial, g: Polynomial)
    requires |g| == |r1| + 1 == |r2| + 1 && |r1| > 0 && g[0]
    requires Carry(b1, g, r1) == Carry(b2, g, r2)
    requires ((b1 && g[|r1|]) != r1[|r1| - 1]) == ((b2 && g[|r2|]) != r2[|r2| - 1])
    ensures b1 == b2 && r1 == r2
  {
    assert Carry(b1, g, r1)[0] == b1 && Carry(b2, g, r2)[0] == b2;
    forall i | 0 <= i < |r1|
      ensures r1[i] == r2[i]
    {
      if i < |r1| - 1 {
        assert Carry(b1, g, r1)[i + 1] == Carry(b2, g, r2)[i + 1];
      }
    }
  }

  /** Division by a polynomial with leading coefficient one has only one answer. */
  lemma {:induction false} DivisionUnique(q1: Polynomial, r1: Polynomial,
                                          q2: Polynomial, r2: Polynomial, g: Polynomial)
    requires |g| == |r1| + 1 == |r2| + 1 && |r1| > 0 && g[0]
    requires |q1| == |q2|
    requires Compose(q1, g, r1) == Compose(q2, g, r2)
    ensures q1 == q2 && r1 == r2
    decreases |q1|
  {
    if q1 == [] {
      ComposeEmpty(g, r1);
      ComposeEmpty(g, r2);
    } else {
      hide Compose, Carry;
      var n := |q1| - 1;
      var p1, b1, p2, b2 := q1[..n], q1[n], q2[..n], q2[n];
      assert q1 == p1 + [b1] && q2 == p2 + [b2];
      ComposeLast(p1, b1, g, r1);
      ComposeLast(p2, b2, g, r2);
      LastAndRest(Compose(p1, g, Carry(b1, g, r1)), (b1 && g[|r1|]) != r1[|r1| - 1],
                  Compose(p2, g, Carry(b2, g, r2)), (b2 && g[|r2|]) != r2[|r2| - 1]);
      DivisionUnique(p1, Carry(b1, g, r1), p2, Carry(b2, g, r2), g);
      CarryInjective(b1, r1, b2, r2, g);
    }
  }

  lemma ComposeEmpty(g: Polynomial, r: Polynomial)
    requires |g| == |r| + 1
    ensures Compose([], g, r) == r
  {
  }

  lemma LastAndRest(a: Polynomial, x: bool, b: Polynomial, y: bool)
    requires a + [x] == b + [y]
    ensures a == b && x == y
  {
    assert |a| == |b| && (a + [x])[|a|] == (b + [y])[|b|];
    assert a == (a + [x])[..|a|] == (b + [y])[..|b|] == b;
  }

  /** A multiple of a polynomial with constant term one, by a quotient of at most `k`
      coefficients, is zero if its last `k` coefficients are. */
  lemma {:induction false} ShortMultipleIsZero(q: Polynomial, g: Polynomial, k: nat)
    requires |g| > 0 && g[|g| - 1]
    requires |q| <= k <= |Times(q, g)|
    requires var p := Times(q, g); forall i :: |p| - k <= i < |p| ==> !p[i]
    ensures Times(q, g) == Zeros(|q| + |g| - 1)
    decreases |q|
  {
    if q != [] {
      var n := |q| - 1;
      var p, p' := Times(q, g), Times(q[..n], g);
      assert p[|p| - 1] == q[n];
      assert p == Sum(p' + [false], Zeros(n) + Scale(q[n], g));
      assert forall i :: 0 <= i < |p'| ==> p[i] == p'[i];
      ShortMultipleIsZero(q[..n], g, k - 1);
      assert forall i :: 0 <= i < |p| ==> !p[i];
    }
  }
}
