/** Cubic polynomials `a + b t + c t^2 + d t^3` (`Poly3`), evaluated exactly over the reals. */
module Polynomials {

  datatype Poly3 = Poly3(a: real, b: real, c: real, d: real) {

    /** `eval`: Horner's scheme. */
    function Eval(t: real): (r: real)
      ensures r == a + b * t + c * (t * t) + d * (t * t * t)
    {
      a + t * (b + t * (c + t * d))
    }

    /** `evalDerivative`. */
    function EvalDerivative(t: real): (r: real)
      ensures r == b + 2.0 * c * t + 3.0 * d * (t * t)
    {
      b + t * (2.0 * c + t * 3.0 * d)
    }

    /** `eval2ndDerivative`. */
    function Eval2ndDerivative(t: real): real
    {
      2.0 * c + t * 6.0 * d
    }

    /** `evalAntiDerivative`: the antiderivative that vanishes at 0. */
    function EvalAntiDerivative(t: real): (r: real)
      ensures r == a * t + b * (t * t) / 2.0 + c * (t * t * t) / 3.0 + d * (t * t * t * t) / 4.0
    {
      t * (a + t * ((1.0 / 2.0) * b + t * ((1.0 / 3.0) * c + t * (1.0 / 4.0) * d)))
    }

    /** `translate(offset)`. */
    function Translate(offset: real): (p: Poly3)
      ensures p.d == d
    {
      Poly3(-offset * offset * offset * d + offset * offset * c - offset * b + a,
            3.0 * offset * offset * d - 2.0 * offset * c + b,
            -3.0 * offset * d + c,
            d)
    }

    /** `scale(factor)`. */
    function Scale(factor: real): (p: Poly3)
      ensures p.a == a
    {
      Poly3(a, b * factor, c * (factor * factor), d * (factor * factor * factor))
    }
  }

  /** `operator+`, and `operator+=` which stores the same sum into its left operand. */
  function Add(p: Poly3, q: Poly3): (r: Poly3)
    ensures forall t: real {:trigger r.Eval(t)} :: r.Eval(t) == p.Eval(t) + q.Eval(t)
  {
    Poly3(p.a + q.a, p.b + q.b, p.c + q.c, p.d + q.d)
  }

  /** Exact Taylor expansion: the derivatives returned by `evalDerivative` and
      `eval2ndDerivative` are the first and second derivatives of `eval`. */
  lemma Taylor(p: Poly3, t: real, h: real)
    ensures p.Eval(t + h) == p.Eval(t) + h * p.EvalDerivative(t)
                             + (h * h) / 2.0 * p.Eval2ndDerivative(t) + (h * h * h) * p.d
  {
    var x := t + h;
    assert x * x == t * t + 2.0 * t * h + h * h;
    assert x * x * x == t * t * t + 3.0 * (t * t) * h + 3.0 * t * (h * h) + h * h * h;
  }

  /** `evalAntiDerivative` is 0 at 0 and its Taylor expansion has `eval`,
      `evalDerivative` and `eval2ndDerivative` as its first three derivatives. */
  lemma AntiDerivativeTaylor(p: Poly3, t: real, h: real)
    ensures p.EvalAntiDerivative(0.0) == 0.0
    ensures p.EvalAntiDerivative(t + h) == p.EvalAntiDerivative(t) + h * p.Eval(t)
              + (h * h) / 2.0 * p.EvalDerivative(t) + (h * h * h) / 6.0 * p.Eval2ndDerivative(t)
              + (h * h * h * h) / 4.0 * p.d
  {
    var x := t + h;
    AntiTermB(p.b, t, h);
    AntiTermC(p.c, t, h);
    AntiTermD(p.d, t, h);
    assert p.EvalAntiDerivative(x) == p.a * x + p.b * (x * x) / 2.0 + p.c * (x * x * x) / 3.0
                                      + p.d * (x * x * x * x) / 4.0;
    assert h * p.Eval(t) == h * p.a + h * (p.b * t) + h * (p.c * (t * t)) + h * (p.d * (t * t * t));
    assert (h * h) / 2.0 * p.EvalDerivative(t)
           == (h * h) / 2.0 * p.b + (h * h) / 2.0 * (2.0 * p.c * t) + (h * h) / 2.0 * (3.0 * p.d * (t * t));
    assert (h * h * h) / 6.0 * p.Eval2ndDerivative(t) == (h * h * h) / 6.0 * (2.0 * p.c) + (h * h * h) / 6.0 * (6.0 * p.d * t);
  }

  lemma AntiTermB(b: real, t: real, h: real)
    ensures b * ((t + h) * (t + h)) / 2.0 == b * (t * t) / 2.0 + h * (b * t) + (h * h) / 2.0 * b
  {
  }

  lemma AntiTermC(c: real, t: real, h: real)
    ensures c * ((t + h) * (t + h) * (t + h)) / 3.0
            == c * (t * t * t) / 3.0 + h * (c * (t * t)) + (h * h) / 2.0 * (2.0 * c * t) + (h * h * h) / 6.0 * (2.0 * c)
  {
    assert (t + h) * (t + h) * (t + h) == t * t * t + 3.0 * (t * t) * h + 3.0 * t * (h * h) + h * h * h;
  }

  lemma AntiTermD(d: real, t: real, h: real)
    ensures d * ((t + h) * (t + h) * (t + h) * (t + h)) / 4.0
            == d * (t * t * t * t) / 4.0 + h * (d * (t * t * t)) + (h * h) / 2.0 * (3.0 * d * (t * t))
               + (h * h * h) / 6.0 * (6.0 * d * t) + (h * h * h * h) / 4.0 * d
  {
    assert (t + h) * (t + h) == t * t + 2.0 * t * h + h * h;
    assert (t + h) * (t + h) * (t + h) * (t + h) == t * t * t * t + 4.0 * (t * t * t) * h + 6.0 * (t * t) * (h * h)
                                                    + 4.0 * t * (h * h * h) + h * h * h * h;
  }

  /** `translate(o)` shifts the graph by `o`: the result at `t` is the original at `t - o`. */
  lemma TranslateEval(p: Poly3, offset: real, t: real)
    ensures p.Translate(offset).Eval(t) == p.Eval(t - offset)
  {
    var x := t - offset;
    assert x * x == t * t - 2.0 * offset * t + offset * offset;
    assert x * x * x == t * t * t - 3.0 * offset * (t * t) + 3.0 * (offset * offset) * t
                        - offset * offset * offset;
  }

  /** The shift is the opposite of `eval(t + offset)`: for `p(t) = t` and offset 1 the two differ at 0. */
  lemma TranslateIsNotForwardShift()
    ensures Poly3(0.0, 1.0, 0.0, 0.0).Translate(1.0).Eval(0.0) != Poly3(0.0, 1.0, 0.0, 0.0).Eval(0.0 + 1.0)
  {
  }

  /** `scale(f)` stretches the argument: the result at `t` is the original at `t * f`. */
  lemma ScaleEval(p: Poly3, factor: real, t: real)
    ensures p.Scale(factor).Eval(t) == p.Eval(t * factor)
  {
    assert (t * factor) * (t * factor) == (factor * factor) * (t * t);
    assert (t * factor) * (t * factor) * (t * factor) == (factor * factor * factor) * (t * t * t);
  }

  /** `translate(0)` and `scale(1)` return the same coefficients. */
  lemma TranslateScaleIdentity(p: Poly3)
    ensures p.Translate(0.0) == p
    ensures p.Scale(1.0) == p
  {
  }
}
