// Polynomials over GF(2), written as bit strings with the highest power first.
// The cyclic checksums of the repository are remainders of such polynomials;
// this module is the independent definition they are compared with.
module Polynomials {

  type Poly = seq<bool>

  function Zeros(n: nat): (z: Poly)
    ensures |z| == n
  {
    seq(n, _ => false)
  }

  /** Adds p to the leading coefficients of d. Addition is exclusive or. */
  function AddFront(p: Poly, d: Poly): (r: Poly)
    requires |p| <= |d|
    ensures |r| == |d|
    ensures forall i :: 0 <= i < |d| ==> r[i] == (d[i] != (i < |p| && p[i]))
  {
    seq(|d|, i requires 0 <= i < |d| => d[i] != (i < |p| && p[i]))
  }

  /**
   * Schoolbook long division by x^n + g, where g holds the n coefficients
   * below the leading one: while the dividend is longer than n, subtract the
   * divisor if the leading coefficient is one and drop that coefficient.
   */
  function Remainder(g: Poly, d: Poly): (r: Poly)
    requires |d| >= |g|
    ensures |r| == |g|
    decreases |d|
  {
    if |d| == |g| then d
    else if d[0] then Remainder(g, AddFront(g, d[1..]))
    else Remainder(g, d[1..])
  }

  function Quotient(g: Poly, d: Poly): (q: Poly)
    requires |d| >= |g|
    ensures |q| == |d| - |g|
    decreases |d|
  {
    if |d| == |g| then []
    else if d[0] then [true] + Quotient(g, AddFront(g, d[1..]))
    else [false] + Quotient(g, d[1..])
  }

  /** q * (x^n + g) + r, for a remainder r of n coefficients. */
  function MultiplyAdd(q: Poly, g: Poly, r: Poly): (d: Poly)
    requires |r| == |g|
    ensures |d| == |q| + |g|
    decreases |q|
  {
    if q == [] then r
    else AddFront(if q[0] then [true] + g else [], [false] + MultiplyAdd(q[1..], g, r))
  }

  lemma AddFrontTwice(p: Poly, d: Poly)
    requires |p| <= |d|
    ensures AddFront(p, AddFront(p, d)) == d
  {
  }

  lemma AddNothing(d: Poly)
    ensures AddFront([], d) == d
  {
  }

  lemma AddZeros(p: Poly)
    ensures AddFront(p, Zeros(|p|)) == p
  {
  }

  lemma AddFrontHead(b: bool, g: Poly, m: Poly)
    requires |g| <= |m|
    ensures AddFront(if b then [true] + g else [], [false] + m)
         == [b] + (if b then AddFront(g, m) else m)
  {
    var s := AddFront(if b then [true] + g else [], [false] + m);
    var t := [b] + (if b then AddFront(g, m) else m);
    assert |s| == |t|;
    forall i | 0 <= i < |s| ensures s[i] == t[i] {
      if i > 0 {
        assert ([false] + m)[i] == m[i - 1];
      }
    }
  }

  lemma ConsEqual(a: bool, s: Poly, b: bool, t: Poly)
    ensures [a] + s == [b] + t <==> a == b && s == t
  {
    if [a] + s == [b] + t {
      assert ([a] + s)[0] == ([b] + t)[0] && ([a] + s)[1..] == ([b] + t)[1..];
    }
  }

  lemma AddFrontMoves(g: Poly, s: Poly, t: Poly)
    requires |g| <= |s| == |t|
    ensures s == AddFront(g, t) <==> AddFront(g, s) == t
  {
    hide AddFront;
    AddFrontTwice(g, s);
    AddFrontTwice(g, t);
  }

  /**
   * A shift register as a division step. s is its content, t the same with the
   * message bit b added in front, u what a shift with feedback g makes of t.
   */
  lemma ShiftDivides(g: Poly, s: Poly, t: Poly, u: Poly, b: bool, p: Poly)
    requires 0 < |g| == |s| == |t| == |u| <= |p|
    requires t[0] == (s[0] != b) && forall i :: 1 <= i < |g| ==> t[i] == s[i]
    requires forall i :: 0 <= i < |g| ==> u[i] == ((i + 1 < |g| && t[i + 1]) != (t[0] && g[i]))
    ensures var d := AddFront(s, [b] + p); AddFront(u, p) == if d[0] then AddFront(g, d[1..]) else d[1..]
  {
    hide AddFront;
    var d, e := AddFront(s, [b] + p), AddFront(u, p);
    var f := if d[0] then AddFront(g, d[1..]) else d[1..];
    assert d[0] == t[0];
    forall i | 0 <= i < |p| ensures e[i] == f[i] {
      assert ([b] + p)[i + 1] == p[i];
      assert d[1..][i] == d[i + 1] == (p[i] != (i + 1 < |g| && s[i + 1]));
    }
  }

  /** One step of the division. */
  lemma DivideStep(g: Poly, d: Poly, e: Poly)
    requires |d| > |g| && e == if d[0] then AddFront(g, d[1..]) else d[1..]
    ensures Quotient(g, d) == [d[0]] + Quotient(g, e) && Remainder(g, d) == Remainder(g, e)
  {}

  lemma MultiplyStep(q: Poly, g: Poly, r: Poly, m: Poly)
    requires q != [] && |r| == |g| && m == MultiplyAdd(q[1..], g, r)
    ensures MultiplyAdd(q, g, r) == [q[0]] + if q[0] then AddFront(g, m) else m
  {
    hide AddFront;
    AddFrontHead(q[0], g, m);
  }

  lemma SameAsCons(s: Poly, b: bool, t: Poly)
    requires s != []
    ensures s == [b] + t <==> s[0] == b && s[1..] == t
  {
    assert s == [s[0]] + s[1..];
    ConsEqual(s[0], s[1..], b, t);
  }

  /** Taking g away from the dividend, or putting it back on the quotient's side. */
  lemma HeadsAgree(g: Poly, d: Poly, b: bool, m: Poly, e: Poly)
    requires d != [] && |g| <= |m| == |d| - 1 && e == if d[0] then AddFront(g, d[1..]) else d[1..]
    ensures d == [b] + (if b then AddFront(g, m) else m) <==> d[0] == b && e == m
  {
    hide AddFront;
    SameAsCons(d, b, if b then AddFront(g, m) else m);
    AddFrontMoves(g, d[1..], m);
  }

  /** Long division yields the only quotient and remainder there are. */
  lemma {:induction false} DivisionUnique(g: Poly, d: Poly, q: Poly, r: Poly)
    requires |d| == |q| + |g| && |r| == |g|
    ensures d == MultiplyAdd(q, g, r) <==> q == Quotient(g, d) && r == Remainder(g, d)
    decreases |d|
  {
    if q != [] {
      hide AddFront, Quotient, Remainder, MultiplyAdd;
      var m := MultiplyAdd(q[1..], g, r);
      var e := if d[0] then AddFront(g, d[1..]) else d[1..];
      MultiplyStep(q, g, r, m);
      HeadsAgree(g, d, q[0], m, e);
      DivideStep(g, d, e);
      SameAsCons(q, d[0], Quotient(g, e));
      DivisionUnique(g, e, q[1..], r);
    }
  }
}
