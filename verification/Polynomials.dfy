/**
 Polynomials over any field of characteristic two, given by their coefficients,
 constant term first: Horner evaluation, division by a linear factor, unique
 interpolation and Lagrange interpolation at zero.
 */
module Polynomials {

  datatype Field<!T> = Field(zero: T, one: T, add: (T, T) -> T, mul: (T, T) -> T, div: (T, T) -> T)

  /** The laws of a field in which every element is its own negative, at three elements. */
  ghost predicate LawsAt<T>(F: Field<T>, a: T, b: T, c: T) {
    && F.add(a, b) == F.add(b, a)
    && F.add(F.add(a, b), c) == F.add(a, F.add(b, c))
    && F.add(a, F.zero) == a
    && F.add(a, a) == F.zero
    && F.mul(a, b) == F.mul(b, a)
    && F.mul(F.mul(a, b), c) == F.mul(a, F.mul(b, c))
    && F.mul(a, F.add(b, c)) == F.add(F.mul(a, b), F.mul(a, c))
    && F.mul(a, F.zero) == F.zero
    && F.mul(a, F.one) == a
    && (b != F.zero ==> F.mul(F.div(a, b), b) == a)
  }

  predicate Ask<T>(a: T, b: T, c: T) { true }

  ghost predicate IsField<T(!new)>(F: Field<T>) {
    forall a, b, c {:trigger Ask(a, b, c)} :: Ask(a, b, c) ==> LawsAt(F, a, b, c)
  }

  lemma Law<T(!new)>(F: Field<T>, a: T, b: T, c: T)
    requires IsField(F)
    ensures LawsAt(F, a, b, c)
  {
    assert Ask(a, b, c);
  }

  lemma AddCancel<T(!new)>(F: Field<T>, a: T, b: T)
    requires IsField(F)
    ensures F.add(b, F.add(b, a)) == a && F.add(F.add(a, b), b) == a
    ensures F.add(F.zero, a) == a
  {
    Law(F, b, b, a);
    Law(F, a, b, b);
    Law(F, a, F.zero, a);
    Law(F, F.zero, a, a);
  }

  lemma AddDiffers<T(!new)>(F: Field<T>, a: T, b: T)
    requires IsField(F) && a != b
    ensures F.add(a, b) != F.zero
  {
    if F.add(a, b) == F.zero {
      AddCancel(F, a, b);
      AddCancel(F, b, b);
    }
  }

  lemma AddSwap<T(!new)>(F: Field<T>, p: T, q: T, r: T, s: T)
    requires IsField(F)
    ensures F.add(F.add(p, q), F.add(r, s)) == F.add(F.add(p, r), F.add(q, s))
  {
    Law(F, p, q, F.add(r, s));
    Law(F, q, r, s);
    Law(F, r, q, s);
    Law(F, p, r, F.add(q, s));
  }

  lemma MulSwapLast<T(!new)>(F: Field<T>, b: T, f: T, g: T)
    requires IsField(F)
    ensures F.mul(F.mul(b, f), g) == F.mul(F.mul(b, g), f)
  {
    Law(F, b, f, g);
    Law(F, f, g, b);
    Law(F, b, g, f);
  }

  lemma MulCancel<T(!new)>(F: Field<T>, d: T, e: T, e': T)
    requires IsField(F) && d != F.zero && F.mul(d, e) == F.mul(d, e')
    ensures e == e'
  {
    var i := F.div(F.one, d);
    Law(F, F.one, d, d);
    Law(F, i, d, e);
    Law(F, i, d, e');
    Law(F, e, F.one, e);
    Law(F, e', F.one, e');
    Law(F, F.one, e, e);
    Law(F, F.one, e', e');
  }

  /** Horner evaluation. */
  function Eval<T>(F: Field<T>, p: seq<T>, x: T): T {
    if p == [] then F.zero else F.add(F.mul(Eval(F, p[1..], x), x), p[0])
  }

  ghost function Power<T>(F: Field<T>, x: T, e: nat): T { if e == 0 then F.one else F.mul(Power(F, x, e - 1), x) }

  /** The value of a polynomial term by term: the sum of p[i] times x to the power i. */
  ghost function TermSum<T>(F: Field<T>, p: seq<T>, x: T): T {
    if p == [] then F.zero
    else
      var n := |p| - 1;
      F.add(TermSum(F, p[..n], x), F.mul(p[n], Power(F, x, n)))
  }

  lemma EvalLastStep<T(!new)>(F: Field<T>, e: T, a: T, w: T, x: T, c: T)
    requires IsField(F)
    ensures F.add(F.mul(F.add(e, F.mul(a, w)), x), c) == F.add(F.add(F.mul(e, x), c), F.mul(a, F.mul(w, x)))
  {
    var ex, awx := F.mul(e, x), F.mul(a, F.mul(w, x));
    Law(F, x, e, F.mul(a, w));
    Law(F, x, F.add(e, F.mul(a, w)), x);
    Law(F, e, x, x);
    Law(F, F.mul(a, w), x, x);
    Law(F, a, w, x);
    Law(F, ex, awx, c);
    Law(F, awx, c, c);
    Law(F, ex, c, awx);
  }

  lemma {:induction false} EvalLast<T(!new)>(F: Field<T>, p: seq<T>, a: T, x: T)
    requires IsField(F)
    ensures Eval(F, p + [a], x) == F.add(Eval(F, p, x), F.mul(a, Power(F, x, |p|)))
  {
    if p == [] {
      assert p + [a] == [a] && [a][1..] == [];
      Law(F, x, F.zero, x);
      Law(F, F.zero, x, x);
      Law(F, a, F.one, a);
      assert Eval(F, [a][1..], x) == F.zero;
    } else {
      assert (p + [a])[1..] == p[1..] + [a];
      EvalLast(F, p[1..], a, x);
      EvalLastStep(F, Eval(F, p[1..], x), a, Power(F, x, |p| - 1), x, p[0]);
    }
  }

  /** Horner's scheme computes the sum of the terms. */
  lemma {:induction false} EvalIsTermSum<T(!new)>(F: Field<T>, p: seq<T>, x: T)
    requires IsField(F)
    ensures Eval(F, p, x) == TermSum(F, p, x)
  {
    if p != [] {
      var n := |p| - 1;
      EvalIsTermSum(F, p[..n], x);
      EvalLast(F, p[..n], p[n], x);
      assert p == p[..n] + [p[n]];
    }
  }

  lemma EvalZero<T(!new)>(F: Field<T>, p: seq<T>)
    requires IsField(F) && p != []
    ensures Eval(F, p, F.zero) == p[0]
  {
    Law(F, Eval(F, p[1..], F.zero), p[0], p[0]);
    AddCancel(F, p[0], p[0]);
  }

  ghost predicate Distinct<T>(xs: seq<T>) {
    forall i, j :: 0 <= i < j < |xs| ==> xs[i] != xs[j]
  }

  // ---- Division by a linear factor

  /** The polynomial r + (X + c) q. */
  function Attach<T>(F: Field<T>, q: seq<T>, c: T, r: T): (p: seq<T>)
    ensures |p| == |q| + 1
    decreases q
  {
    if q == [] then [r] else [F.add(r, F.mul(c, q[0]))] + Attach(F, q[1..], c, q[0])
  }

  lemma AttachStep<T(!new)>(F: Field<T>, e: T, c: T, r: T, q0: T, x: T)
    requires IsField(F)
    ensures F.add(F.mul(F.add(q0, F.mul(F.add(x, c), e)), x), F.add(r, F.mul(c, q0)))
         == F.add(r, F.mul(F.add(x, c), F.add(F.mul(e, x), q0)))
  {
    var d := F.add(x, c);
    var de := F.mul(d, e);
    Law(F, F.add(q0, de), x, x);
    Law(F, x, q0, de);
    Law(F, x, de, d);
    Law(F, d, e, x);
    Law(F, d, F.mul(e, x), q0);
    Law(F, d, q0, x);
    Law(F, q0, x, c);
    Law(F, q0, c, x);
    AddRegroup(F, F.mul(x, q0), F.mul(de, x), r, F.mul(c, q0));
  }

  lemma AddRegroup<T(!new)>(F: Field<T>, u: T, v: T, r: T, w: T)
    requires IsField(F)
    ensures F.add(F.add(u, v), F.add(r, w)) == F.add(r, F.add(v, F.add(u, w)))
  {
    AddSwap(F, u, v, r, w);
    Law(F, u, r, F.add(v, w));
    Law(F, r, u, F.add(v, w));
    Law(F, u, v, w);
    Law(F, v, u, w);
  }

  lemma {:induction false} EvalAttach<T(!new)>(F: Field<T>, q: seq<T>, c: T, r: T, x: T)
    requires IsField(F)
    ensures Eval(F, Attach(F, q, c, r), x) == F.add(r, F.mul(F.add(x, c), Eval(F, q, x)))
    decreases q
  {
    var p := Attach(F, q, c, r);
    if q == [] {
      Law(F, x, F.zero, r);
      Law(F, F.zero, x, r);
      Law(F, F.add(x, c), r, r);
      AddCancel(F, r, r);
      Law(F, r, r, r);
    } else {
      EvalAttach(F, q[1..], c, q[0], x);
      assert p[1..] == Attach(F, q[1..], c, q[0]);
      AttachStep(F, Eval(F, q[1..], x), c, r, q[0], x);
    }
  }

  lemma AttachAtRoot<T(!new)>(F: Field<T>, q: seq<T>, c: T, r: T)
    requires IsField(F)
    ensures Eval(F, Attach(F, q, c, r), c) == r
  {
    EvalAttach(F, q, c, r, c);
    Law(F, c, c, c);
    Law(F, Eval(F, q, c), F.zero, r);
    Law(F, r, r, r);
  }

  /** Synthetic division: p is Attach(q, c, r). */
  function Split<T>(F: Field<T>, p: seq<T>, c: T): (qr: (seq<T>, T))
    requires p != []
    ensures |qr.0| == |p| - 1
  {
    if |p| == 1 then ([], p[0])
    else
      var (q, r) := Split(F, p[1..], c);
      ([r] + q, F.add(p[0], F.mul(c, r)))
  }

  lemma {:induction false} SplitAttach<T(!new)>(F: Field<T>, p: seq<T>, c: T)
    requires IsField(F) && p != []
    ensures Attach(F, Split(F, p, c).0, c, Split(F, p, c).1) == p
    ensures Eval(F, p, c) == Split(F, p, c).1
    decreases p
  {
    var (q, r) := Split(F, p, c);
    if |p| > 1 {
      SplitAttach(F, p[1..], c);
      var (q', r') := Split(F, p[1..], c);
      AddCancel(F, p[0], F.mul(c, r'));
      assert q[0] == r' && q[1..] == q';
      assert p == [p[0]] + p[1..];
    }
    AttachAtRoot(F, q, c, r);
  }

  // ---- Interpolation

  lemma EqualQuotients<T(!new)>(F: Field<T>, q: seq<T>, q': seq<T>, c: T, r: T, x: T)
    requires IsField(F) && x != c
    requires Eval(F, Attach(F, q, c, r), x) == Eval(F, Attach(F, q', c, r), x)
    ensures Eval(F, q, x) == Eval(F, q', x)
  {
    var d, e, e' := F.add(x, c), Eval(F, q, x), Eval(F, q', x);
    AddDiffers(F, x, c);
    EvalAttach(F, q, c, r, x);
    EvalAttach(F, q', c, r, x);
    AddCancel(F, F.mul(d, e), r);
    AddCancel(F, F.mul(d, e'), r);
    MulCancel(F, d, e, e');
  }

  /** A polynomial with as many coefficients as points is determined by its values. */
  lemma {:induction false} Unique<T(!new)>(F: Field<T>, p: seq<T>, p': seq<T>, xs: seq<T>)
    requires IsField(F) && |p| == |p'| == |xs| && Distinct(xs)
    requires forall i :: 0 <= i < |xs| ==> Eval(F, p, xs[i]) == Eval(F, p', xs[i])
    ensures p == p'
    decreases xs
  {
    if xs != [] {
      var c, rest := xs[0], xs[1..];
      var (q, r) := Split(F, p, c);
      var (q', r') := Split(F, p', c);
      SplitAttach(F, p, c);
      SplitAttach(F, p', c);
      forall i | 0 <= i < |rest| ensures Eval(F, q, rest[i]) == Eval(F, q', rest[i]) {
        assert rest[i] == xs[i + 1];
        EqualQuotients(F, q, q', c, r, rest[i]);
      }
      Unique(F, q, q', rest);
    }
  }

  ghost function Quotient<T>(F: Field<T>, x: T, c: T, y: T, r: T): T {
    F.div(F.add(r, y), F.add(x, c))
  }

  /** If q takes the quotient value at x, r + (X + c) q takes the value y there. */
  lemma AttachValue<T(!new)>(F: Field<T>, q: seq<T>, c: T, r: T, x: T, y: T)
    requires IsField(F) && x != c && Eval(F, q, x) == Quotient(F, x, c, y, r)
    ensures Eval(F, Attach(F, q, c, r), x) == y
  {
    var d := F.add(x, c);
    AddDiffers(F, x, c);
    EvalAttach(F, q, c, r, x);
    Law(F, F.add(r, y), d, d);
    Law(F, d, Eval(F, q, x), d);
    AddCancel(F, y, r);
  }

  /** Any values at distinct points are taken by some polynomial with as many coefficients. */
  lemma {:induction false} Interpolate<T(!new)>(F: Field<T>, xs: seq<T>, ys: seq<T>) returns (p: seq<T>)
    requires IsField(F) && |xs| == |ys| && Distinct(xs)
    ensures |p| == |xs|
    ensures forall i :: 0 <= i < |xs| ==> Eval(F, p, xs[i]) == ys[i]
    decreases xs
  {
    if xs == [] {
      p := [];
    } else {
      var c, r := xs[0], ys[0];
      var zs := seq(|xs| - 1, i requires 0 <= i < |xs| - 1 => Quotient(F, xs[i + 1], c, ys[i + 1], r));
      var q := Interpolate(F, xs[1..], zs);
      p := Attach(F, q, c, r);
      forall i | 0 <= i < |xs| ensures Eval(F, p, xs[i]) == ys[i] {
        if i == 0 {
          AttachAtRoot(F, q, c, r);
        } else {
          assert xs[i] == xs[1..][i - 1];
          assert Eval(F, q, xs[1..][i - 1]) == zs[i - 1];
          AttachValue(F, q, c, r, xs[i], ys[i]);
        }
      }
    }
  }

  /** The polynomial takes the values ys at the points xs. */
  ghost predicate Through<T>(F: Field<T>, p: seq<T>, xs: seq<T>, ys: seq<T>)
    requires |xs| == |ys|
  {
    forall i :: 0 <= i < |xs| ==> Eval(F, p, xs[i]) == ys[i]
  }

  lemma ThroughZero<T(!new)>(F: Field<T>, p: seq<T>, xs: seq<T>, ys: seq<T>, s: T)
    requires IsField(F) && |xs| == |ys| && p != []
    ensures Through(F, p, [F.zero] + xs, [s] + ys) <==> p[0] == s && Through(F, p, xs, ys)
  {
    var xs0, ys0 := [F.zero] + xs, [s] + ys;
    EvalZero(F, p);
    assert forall i :: 0 <= i < |xs| ==> xs[i] == xs0[i + 1] && ys[i] == ys0[i + 1];
    if Through(F, p, xs0, ys0) {
      assert Eval(F, p, xs0[0]) == ys0[0];
      forall i | 0 <= i < |xs| ensures Eval(F, p, xs[i]) == ys[i] {
        assert Eval(F, p, xs0[i + 1]) == ys0[i + 1];
      }
    }
  }

  /** With one coefficient more than there are points, the constant term may be chosen freely, and fixes the rest. */
  lemma UniqueFit<T(!new)>(F: Field<T>, xs: seq<T>, ys: seq<T>, s: T) returns (p: seq<T>)
    requires IsField(F) && |xs| == |ys| && Distinct(xs) && F.zero !in xs
    ensures |p| == |xs| + 1 && p[0] == s && Through(F, p, xs, ys)
    ensures forall p': seq<T> :: |p'| == |xs| + 1 && p'[0] == s && Through(F, p', xs, ys) ==> p' == p
  {
    var xs0, ys0 := [F.zero] + xs, [s] + ys;
    p := Interpolate(F, xs0, ys0);
    ThroughZero(F, p, xs, ys, s);
    forall p': seq<T> | |p'| == |xs| + 1 && p'[0] == s && Through(F, p', xs, ys) ensures p' == p {
      ThroughZero(F, p', xs, ys, s);
      Unique(F, p', p, xs0);
    }
  }

  // ---- Lagrange interpolation at zero

  /** The factor that the point m contributes to the basis value of x at zero. */
  ghost function Factor<T>(F: Field<T>, x: T, m: T): T {
    if x == m then F.one else F.div(m, F.add(x, m))
  }

  /** The value at zero of the Lagrange basis polynomial of x for the points xs. */
  ghost function Basis<T>(F: Field<T>, x: T, xs: seq<T>): T {
    if xs == [] then F.one else F.mul(Basis(F, x, xs[..|xs| - 1]), Factor(F, x, xs[|xs| - 1]))
  }

  /** The sum of ys[j] times the basis value of sub[j] for the points all. */
  ghost function Combine<T>(F: Field<T>, sub: seq<T>, ys: seq<T>, all: seq<T>): T
    requires |sub| == |ys|
  {
    if sub == [] then F.zero
    else
      var n := |sub| - 1;
      F.add(Combine(F, sub[..n], ys[..n], all), F.mul(ys[n], Basis(F, sub[n], all)))
  }

  lemma CombineAppend<T>(F: Field<T>, s: seq<T>, us: seq<T>, x: T, y: T, all: seq<T>)
    requires |s| == |us|
    ensures Combine(F, s + [x], us + [y], all) == F.add(Combine(F, s, us, all), F.mul(y, Basis(F, x, all)))
  {
    assert (s + [x])[..|s|] == s && (us + [y])[..|s|] == us;
  }

  lemma {:induction false} CombineAdd<T(!new)>(F: Field<T>, sub: seq<T>, us: seq<T>, vs: seq<T>, ws: seq<T>,
                                               all: seq<T>)
    requires IsField(F) && |sub| == |us| == |vs| == |ws|
    requires forall i :: 0 <= i < |sub| ==> ws[i] == F.add(us[i], vs[i])
    ensures Combine(F, sub, ws, all) == F.add(Combine(F, sub, us, all), Combine(F, sub, vs, all))
  {
    if sub == [] {
      Law(F, F.zero, F.zero, F.zero);
    } else {
      var n := |sub| - 1;
      CombineAdd(F, sub[..n], us[..n], vs[..n], ws[..n], all);
      var b := Basis(F, sub[n], all);
      Law(F, b, us[n], vs[n]);
      Law(F, b, vs[n], us[n]);
      Law(F, b, ws[n], b);
      AddSwap(F, Combine(F, sub[..n], us[..n], all), Combine(F, sub[..n], vs[..n], all),
              F.mul(us[n], b), F.mul(vs[n], b));
    }
  }

  lemma {:induction false} CombineScale<T(!new)>(F: Field<T>, sub: seq<T>, us: seq<T>, ws: seq<T>, c: T, all: seq<T>)
    requires IsField(F) && |sub| == |us| == |ws|
    requires forall i :: 0 <= i < |sub| ==> ws[i] == F.mul(c, us[i])
    ensures Combine(F, sub, ws, all) == F.mul(c, Combine(F, sub, us, all))
  {
    if sub == [] {
      Law(F, c, c, c);
    } else {
      var n := |sub| - 1;
      CombineScale(F, sub[..n], us[..n], ws[..n], c, all);
      Law(F, c, us[n], Basis(F, sub[n], all));
      Law(F, c, Combine(F, sub[..n], us[..n], all), F.mul(us[n], Basis(F, sub[n], all)));
    }
  }

  lemma {:induction false} CombineConcat<T(!new)>(F: Field<T>, s: seq<T>, us: seq<T>, t: seq<T>, vs: seq<T>,
                                                  all: seq<T>)
    requires IsField(F) && |s| == |us| && |t| == |vs|
    ensures Combine(F, s + t, us + vs, all) == F.add(Combine(F, s, us, all), Combine(F, t, vs, all))
    decreases t
  {
    if t == [] {
      assert s + t == s && us + vs == us;
      Law(F, Combine(F, s, us, all), F.zero, F.zero);
    } else {
      var n := |t| - 1;
      CombineConcat(F, s, us, t[..n], vs[..n], all);
      assert s + t == (s + t[..n]) + [t[n]] && us + vs == (us + vs[..n]) + [vs[n]];
      CombineAppend(F, s + t[..n], us + vs[..n], t[n], vs[n], all);
      Law(F, Combine(F, s, us, all), Combine(F, t[..n], vs[..n], all), F.mul(vs[n], Basis(F, t[n], all)));
    }
  }

  /** A point in the middle of the list contributes its factor to the product. */
  lemma {:induction false} BasisMiddle<T(!new)>(F: Field<T>, x: T, s: seq<T>, c: T, t: seq<T>)
    requires IsField(F)
    ensures Basis(F, x, s + [c] + t) == F.mul(Basis(F, x, s + t), Factor(F, x, c))
    decreases t
  {
    if t == [] {
      assert s + [c] + t == s + [c] && s + t == s;
    } else {
      var n := |t| - 1;
      BasisMiddle(F, x, s, c, t[..n]);
      assert s + [c] + t == (s + [c] + t[..n]) + [t[n]] && s + t == (s + t[..n]) + [t[n]];
      MulSwapLast(F, Basis(F, x, s + t[..n]), Factor(F, x, c), Factor(F, x, t[n]));
    }
  }

  /** The factor of c cancels a linear factor X + c. */
  lemma DropFactor<T(!new)>(F: Field<T>, x: T, c: T, u: T, b: T)
    requires IsField(F) && x != c
    ensures F.mul(F.mul(F.add(x, c), u), F.mul(b, Factor(F, x, c))) == F.mul(c, F.mul(u, b))
  {
    var d, f := F.add(x, c), Factor(F, x, c);
    AddDiffers(F, x, c);
    Law(F, c, d, u);
    Law(F, f, d, u);
    Law(F, b, f, u);
    Law(F, u, d, F.mul(b, f));
    Law(F, d, f, b);
    Law(F, d, u, b);
    Law(F, u, c, b);
    Law(F, c, u, b);
  }

  lemma {:induction false} CombineDrop<T(!new)>(F: Field<T>, sub: seq<T>, us: seq<T>, ws: seq<T>, s: seq<T>, c: T,
                                                t: seq<T>)
    requires IsField(F) && |sub| == |us| == |ws|
    requires forall i :: 0 <= i < |sub| ==> sub[i] != c && ws[i] == F.mul(F.add(sub[i], c), us[i])
    ensures Combine(F, sub, ws, s + [c] + t) == F.mul(c, Combine(F, sub, us, s + t))
  {
    if sub == [] {
      Law(F, c, c, c);
    } else {
      var n := |sub| - 1;
      CombineDrop(F, sub[..n], us[..n], ws[..n], s, c, t);
      BasisMiddle(F, sub[n], s, c, t);
      DropFactor(F, sub[n], c, us[n], Basis(F, sub[n], s + t));
      Law(F, c, Combine(F, sub[..n], us[..n], s + t), F.mul(us[n], Basis(F, sub[n], s + t)));
    }
  }

  /** A point with value zero adds nothing. */
  lemma CombineHole<T(!new)>(F: Field<T>, s: seq<T>, c: T, t: seq<T>, w1: seq<T>, w2: seq<T>, all: seq<T>)
    requires IsField(F) && |w1| == |s| && |w2| == |t|
    ensures Combine(F, s + [c] + t, w1 + [F.zero] + w2, all) == F.add(Combine(F, s, w1, all), Combine(F, t, w2, all))
  {
    CombineConcat(F, s + [c], w1 + [F.zero], t, w2, all);
    CombineAppend(F, s, w1, c, F.zero, all);
    Law(F, Basis(F, c, all), F.zero, c);
    Law(F, Combine(F, s, w1, all), c, c);
  }

  lemma DistinctMiddle<T>(s: seq<T>, c: T, t: seq<T>)
    requires Distinct(s + [c] + t)
    ensures (forall i :: 0 <= i < |s| ==> s[i] != c) && (forall i :: 0 <= i < |t| ==> t[i] != c)
  {
    var all, k := s + [c] + t, |s|;
    forall i | 0 <= i < |s| ensures s[i] != c { assert all[i] != all[k]; }
    forall i | 0 <= i < |t| ensures t[i] != c { assert all[k] != all[k + 1 + i]; }
  }

  lemma {:induction false} DropParts<T(!new)>(F: Field<T>, s: seq<T>, c: T, t: seq<T>,
                           u1: seq<T>, u2: seq<T>, w1: seq<T>, w2: seq<T>)
    requires IsField(F) && |u1| == |w1| == |s| && |u2| == |w2| == |t|
    requires forall i :: 0 <= i < |s| ==> s[i] != c && w1[i] == F.mul(F.add(s[i], c), u1[i])
    requires forall i :: 0 <= i < |t| ==> t[i] != c && w2[i] == F.mul(F.add(t[i], c), u2[i])
    ensures Combine(F, s + [c] + t, w1 + [F.zero] + w2, s + [c] + t) == F.mul(c, Combine(F, s + t, u1 + u2, s + t))
  {
    CombineHole(F, s, c, t, w1, w2, s + [c] + t);
    CombineDrop(F, s, u1, w1, s, c, t);
    CombineDrop(F, t, u2, w2, s, c, t);
    CombineConcat(F, s, u1, t, u2, s + t);
    Gather(F, c, Combine(F, s, u1, s + t), Combine(F, t, u2, s + t), Combine(F, s + t, u1 + u2, s + t),
           Combine(F, s + [c] + t, w1 + [F.zero] + w2, s + [c] + t));
  }

  lemma Gather<T(!new)>(F: Field<T>, c: T, b1: T, b2: T, b: T, a: T)
    requires IsField(F) && b == F.add(b1, b2) && a == F.add(F.mul(c, b1), F.mul(c, b2))
    ensures a == F.mul(c, b)
  {
    Law(F, c, b1, b2);
  }

  /** Interpolating (X + c) q at points that include c leaves c times the interpolation of q at the others. */
  lemma DropPoint<T(!new)>(F: Field<T>, s: seq<T>, c: T, t: seq<T>, us: seq<T>, ws: seq<T>)
    requires IsField(F) && |us| == |s + t| && |ws| == |s + [c] + t| && Distinct(s + [c] + t)
    requires forall i :: 0 <= i < |s| ==> ws[i] == F.mul(F.add(s[i], c), us[i])
    requires ws[|s|] == F.zero
    requires forall i :: 0 <= i < |t| ==> ws[|s| + 1 + i] == F.mul(F.add(t[i], c), us[|s| + i])
    ensures Combine(F, s + [c] + t, ws, s + [c] + t) == F.mul(c, Combine(F, s + t, us, s + t))
  {
    var k := |s|;
    var w1, w2 := ws[..k], ws[k + 1..];
    assert ws == w1 + [F.zero] + w2;
    assert us == us[..k] + us[k..];
    DistinctMiddle(s, c, t);
    DropParts(F, s, c, t, us[..k], us[k..], w1, w2);
  }

  ghost function Repeat<T>(v: T, n: nat): (s: seq<T>)
    ensures |s| == n && forall i :: 0 <= i < n ==> s[i] == v
  {
    seq(n, _ => v)
  }

  /** The values of X + c at the points xs. */
  ghost function Shifted<T>(F: Field<T>, xs: seq<T>, c: T): (s: seq<T>)
    ensures |s| == |xs| && forall i :: 0 <= i < |xs| ==> s[i] == F.add(xs[i], c)
  {
    seq(|xs|, i requires 0 <= i < |xs| => F.add(xs[i], c))
  }

  ghost function Weights<T>(F: Field<T>, all: seq<T>): T {
    Combine(F, all, Repeat(F.one, |all|), all)
  }

  lemma CombineConstant<T(!new)>(F: Field<T>, xs: seq<T>, v: T)
    requires IsField(F)
    ensures Combine(F, xs, Repeat(v, |xs|), xs) == F.mul(v, Weights(F, xs))
  {
    Law(F, v, v, v);
    CombineScale(F, xs, Repeat(F.one, |xs|), Repeat(v, |xs|), v, xs);
  }

  /** X + c with c among the points interpolates to c, once the remaining weights add up to one. */
  lemma CombineShifted<T(!new)>(F: Field<T>, s: seq<T>, c: T, t: seq<T>)
    requires IsField(F) && Distinct(s + [c] + t) && Weights(F, s + t) == F.one
    ensures Combine(F, s + [c] + t, Shifted(F, s + [c] + t, c), s + [c] + t) == c
  {
    var all := s + [c] + t;
    var ws, us := Shifted(F, all, c), Repeat(F.one, |s + t|);
    forall i | 0 <= i < |s| ensures ws[i] == F.mul(F.add(s[i], c), us[i]) { ShiftedAt(F, all, c, i); }
    forall i | 0 <= i < |t| ensures ws[|s| + 1 + i] == F.mul(F.add(t[i], c), us[|s| + i]) {
      ShiftedAt(F, all, c, |s| + 1 + i);
    }
    Law(F, c, c, c);
    DropPoint(F, s, c, t, us, ws);
  }

  lemma ShiftedAt<T(!new)>(F: Field<T>, xs: seq<T>, c: T, i: nat)
    requires IsField(F) && i < |xs|
    ensures Shifted(F, xs, c)[i] == F.mul(F.add(xs[i], c), F.one)
  {
    Law(F, F.add(xs[i], c), c, c);
  }

  lemma WeightsOfOne<T(!new)>(F: Field<T>, x: T)
    requires IsField(F)
    ensures Weights(F, [x]) == F.one
  {
    assert [x] == [] + [x] && Repeat(F.one, 1) == [] + [F.one];
    CombineAppend(F, [], [], x, F.one, [x]);
    Law(F, F.one, F.one, F.one);
    AddCancel(F, F.one, F.one);
  }

  /** X + a and X + b differ by the constant a + b. */
  lemma ShiftedSum<T(!new)>(F: Field<T>, all: seq<T>, a: T, b: T)
    requires IsField(F)
    ensures F.add(Combine(F, all, Shifted(F, all, a), all), Combine(F, all, Shifted(F, all, b), all))
         == F.mul(F.add(a, b), Weights(F, all))
  {
    var k := F.add(a, b);
    forall i | 0 <= i < |all| ensures k == F.add(F.add(all[i], a), F.add(all[i], b)) {
      AddSwap(F, all[i], a, all[i], b);
      Law(F, all[i], all[i], all[i]);
      AddCancel(F, k, k);
    }
    CombineAdd(F, all, Shifted(F, all, a), Shifted(F, all, b), Repeat(k, |all|), all);
    CombineConstant(F, all, k);
  }

  lemma FirstShifted<T(!new)>(F: Field<T>, all: seq<T>)
    requires IsField(F) && Distinct(all) && all != [] && Weights(F, all[1..]) == F.one
    ensures Combine(F, all, Shifted(F, all, all[0]), all) == all[0]
  {
    assert all == [] + [all[0]] + all[1..] && [] + all[1..] == all[1..];
    CombineShifted(F, [], all[0], all[1..]);
  }

  lemma LastShifted<T(!new)>(F: Field<T>, all: seq<T>, n: nat)
    requires IsField(F) && Distinct(all) && |all| == n + 1 && Weights(F, all[..n]) == F.one
    ensures Combine(F, all, Shifted(F, all, all[n]), all) == all[n]
  {
    assert all == all[..n] + [all[n]] + [] && all[..n] + [] == all[..n];
    CombineShifted(F, all[..n], all[n], []);
  }

  /** Two points whose shifts interpolate to themselves force the weights to add up to one. */
  lemma TwoShifts<T(!new)>(F: Field<T>, all: seq<T>, a: T, b: T)
    requires IsField(F) && a != b
    requires Combine(F, all, Shifted(F, all, a), all) == a && Combine(F, all, Shifted(F, all, b), all) == b
    ensures Weights(F, all) == F.one
  {
    ShiftedSum(F, all, a, b);
    AddDiffers(F, a, b);
    Law(F, F.add(a, b), F.one, F.one);
    MulCancel(F, F.add(a, b), Weights(F, all), F.one);
  }

  /** The basis values at zero add up to one. */
  lemma {:induction false} WeightsSum<T(!new)>(F: Field<T>, all: seq<T>)
    requires IsField(F) && Distinct(all) && all != []
    ensures Weights(F, all) == F.one
    decreases |all|
  {
    var n := |all| - 1;
    if n == 0 {
      assert all == [all[0]];
      WeightsOfOne(F, all[0]);
    } else {
      WeightsSum(F, all[1..]);
      WeightsSum(F, all[..n]);
      FirstShifted(F, all);
      LastShifted(F, all, n);
      TwoShifts(F, all, all[0], all[n]);
    }
  }

  ghost function Values<T>(F: Field<T>, p: seq<T>, xs: seq<T>): (ys: seq<T>)
    ensures |ys| == |xs| && forall i :: 0 <= i < |xs| ==> ys[i] == Eval(F, p, xs[i])
  {
    seq(|xs|, i requires 0 <= i < |xs| => Eval(F, p, xs[i]))
  }

  /** The values of (X + c) q at the points xs. */
  ghost function FactorValues<T>(F: Field<T>, q: seq<T>, c: T, xs: seq<T>): (ys: seq<T>)
    ensures |ys| == |xs| && forall i :: 0 <= i < |xs| ==> ys[i] == F.mul(F.add(xs[i], c), Eval(F, q, xs[i]))
  {
    seq(|xs|, i requires 0 <= i < |xs| => F.mul(F.add(xs[i], c), Eval(F, q, xs[i])))
  }

  lemma CombineFactor<T(!new)>(F: Field<T>, q: seq<T>, c: T, s: seq<T>)
    requires IsField(F) && Distinct(s + [c])
    ensures Combine(F, s + [c], FactorValues(F, q, c, s + [c]), s + [c])
         == F.mul(c, Combine(F, s, Values(F, q, s), s))
  {
    assert s + [c] + [] == s + [c] && s + [] == s;
    Law(F, c, c, c);
    Law(F, Eval(F, q, c), F.zero, c);
    DropPoint(F, s, c, [], Values(F, q, s), FactorValues(F, q, c, s + [c]));
  }

  /**
   Lagrange interpolation at zero: the weighted sum of the values of a polynomial
   at distinct points, at least as many as it has coefficients, is its value at zero.
   */
  lemma {:induction false} Lagrange<T(!new)>(F: Field<T>, p: seq<T>, xs: seq<T>)
    requires IsField(F) && Distinct(xs) && |p| <= |xs|
    ensures Combine(F, xs, Values(F, p, xs), xs) == Eval(F, p, F.zero)
    decreases |p|
  {
    if p == [] {
      assert Values(F, p, xs) == Repeat(F.zero, |xs|);
      CombineConstant(F, xs, F.zero);
      Law(F, Weights(F, xs), F.zero, F.zero);
    } else {
      var n := |xs| - 1;
      var c, s := xs[n], xs[..n];
      assert xs == s + [c];
      var (q, r) := Split(F, p, c);
      SplitAttach(F, p, c);
      Lagrange(F, q, s);
      forall i | 0 <= i < |xs|
        ensures Values(F, p, xs)[i] == F.add(Repeat(r, |xs|)[i], FactorValues(F, q, c, xs)[i])
      {
        EvalAttach(F, q, c, r, xs[i]);
      }
      CombineAdd(F, xs, Repeat(r, |xs|), FactorValues(F, q, c, xs), Values(F, p, xs), xs);
      CombineConstant(F, xs, r);
      WeightsSum(F, xs);
      Law(F, r, r, r);
      CombineFactor(F, q, c, s);
      EvalAttach(F, q, c, r, F.zero);
      AddCancel(F, c, c);
    }
  }
}
