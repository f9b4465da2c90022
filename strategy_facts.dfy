/**
 * The reducers against the reference definitions: every step they take
 * is a `Step`, they find a step whenever one exists, and a step never
 * introduces a free variable.
 */
module StrategyFacts {
  import opened Wrappers
  import opened Lambda
  import opened Strategy
  import LambdaFacts

  /** Every normal-order step contracts one redex and keeps everything else. */
  lemma {:induction false} ReduceNormalIsStep(t: Term)
    requires ReduceNormal(t).Some?
    ensures Step(t, ReduceNormal(t).value)
    decreases Size(t)
  {
    match t
    case Abstraction(_, b) => ReduceNormalIsStep(b);
    case Application(l, r) =>
      if !IsHead(l) {
        if ReduceNormal(l).Some? {
          ReduceNormalIsStep(l);
        } else {
          ReduceNormalIsStep(r);
        }
      }
    case Named(nt) => ReduceNormalIsStep(nt.term);
    case ChurchNum(_) =>
  }

  /** Every applicative-order step contracts one redex and keeps everything else. */
  lemma {:induction false} ReduceApplicativeIsStep(t: Term)
    requires ReduceApplicative(t).Some?
    ensures Step(t, ReduceApplicative(t).value)
    decreases Size(t)
  {
    match t
    case Abstraction(_, b) => ReduceApplicativeIsStep(b);
    case Application(l, r) =>
      if ReduceApplicative(l).Some? {
        ReduceApplicativeIsStep(l);
      }
      if ReduceApplicative(r).Some? {
        ReduceApplicativeIsStep(r);
      }
    case Named(nt) => ReduceApplicativeIsStep(nt.term);
    case ChurchNum(_) =>
  }

  /** A normal form admits no step at all. */
  lemma {:induction false} NormalFormNoStep(t: Term, u: Term)
    requires NormalForm(t)
    ensures !Step(t, u)
    decreases Size(t)
  {
    match t
    case Abstraction(_, b) =>
      if u.Abstraction? {
        NormalFormNoStep(b, u.body);
      }
    case Application(l, r) =>
      if u.Application? {
        NormalFormNoStep(l, u.left);
        NormalFormNoStep(r, u.right);
      }
    case Variable(_) =>
    case Macro(_, _) =>
    case Named(nt) => NormalFormNoStep(nt.term, u);
    case ChurchNum(d) =>
      ChurchNumeralNormal(d);
      NormalFormNoStep(ChurchNumeral(d), u);
  }

  /** Normal order (and applicative order) find a step whenever one exists. */
  lemma ReducersComplete(t: Term)
    ensures (exists u :: Step(t, u)) <==> ReduceNormal(t).Some?
    ensures (exists u :: Step(t, u)) <==> ReduceApplicative(t).Some?
  {
    if ReduceNormal(t).Some? {
      var u := ReduceNormal(t).value;
      ReduceNormalIsStep(t);
      assert Step(t, u);
      assert exists u' :: Step(t, u');
      assert ReduceApplicative(t).Some?;
    } else {
      forall u ensures !Step(t, u) {
        NormalFormNoStep(t, u);
      }
    }
  }

  /**
   * A step keeps stored terms closed and introduces no free variable: the
   * free variables of the result are among those of the input.
   */
  lemma {:induction false} StepFreeVars(t: Term, u: Term, y: string)
    requires NamedClosed(t) && Step(t, u)
    ensures NamedClosed(u)
    ensures ContainsFree(u, y) ==> ContainsFree(t, y)
    decreases Size(t)
  {
    match t
    case Abstraction(_, b) => StepFreeVars(b, u.body, y);
    case Application(l, r) =>
      if IsHead(l) && u == Contract(l, r) {
        assert NamedClosed(l) && NamedClosed(r);
      } else if u.Application? && Step(l, u.left) && u.right == r {
        StepFreeVars(l, u.left, y);
      } else {
        StepFreeVars(r, u.right, y);
      }
    case Named(nt) => StepFreeVars(nt.term, u, y);
    case ChurchNum(d) =>
      LambdaFacts.ResolvedNamedClosed(ChurchNumeral(d));
      StepFreeVars(ChurchNumeral(d), u, y);
  }

  /**
   * Normal order contracts a head redex whatever the argument is, and
   * otherwise reduces the left child if it can, else the right one.
   */
  lemma NormalOrderLeftmost(l: Term, r: Term)
    ensures IsHead(l) ==> ReduceNormal(Application(l, r)) == Some(Contract(l, r))
    ensures !IsHead(l) && !NormalForm(l) ==>
              ReduceNormal(l).Some? && ReduceNormal(Application(l, r)) == Some(Application(ReduceNormal(l).value, r))
    ensures !IsHead(l) && NormalForm(l) && NormalForm(r) ==> ReduceNormal(Application(l, r)).None?
    ensures !IsHead(l) && NormalForm(l) && !NormalForm(r) ==>
              ReduceNormal(r).Some? && ReduceNormal(Application(l, r)) == Some(Application(l, ReduceNormal(r).value))
  {
  }

  /**
   * Applicative order contracts `(\v . b) r` only once `b` and `r` are
   * normal, reducing `b` first and then `r`; a Named- or numeral-headed
   * redex is contracted whatever the argument is.
   */
  lemma ApplicativeOrderInnermost(v: string, b: Term, l: Term, r: Term)
    ensures NormalForm(b) && NormalForm(r) ==> ReduceApplicative(Application(Abstraction(v, b), r)) == Some(Substitute(b, v, r))
    ensures !NormalForm(b) ==>
              ReduceApplicative(b).Some?
              && ReduceApplicative(Application(Abstraction(v, b), r)) == Some(Application(Abstraction(v, ReduceApplicative(b).value), r))
    ensures NormalForm(b) && !NormalForm(r) ==>
              ReduceApplicative(r).Some?
              && ReduceApplicative(Application(Abstraction(v, b), r)) == Some(Application(Abstraction(v, b), ReduceApplicative(r).value))
    ensures IsHead(l) && !l.Abstraction? ==> ReduceApplicative(Application(l, r)) == Some(Contract(l, r))
  {
  }

  /**
   * `(\x . \y . x y') y` reduces in one step to `\y' . y y'`: the binder
   * `y` is renamed to the first primed name that is not free in the
   * argument, which captures the body's free `y'`.
   */
  lemma CaptureStep()
    ensures var t := Application(Abstraction("x", Abstraction("y", Application(Variable("x"), Variable("y'")))), Variable("y"));
            ReduceNormal(t) == Some(Abstraction("y'", Application(Variable("y"), Variable("y'"))))
            && ReduceApplicative(t) == ReduceNormal(t) && ReduceCbn(t) == ReduceNormal(t)
  {
    assert FreshName("y", Variable("y")) == "y'" by {
      assert "y" + "'" == "y'";
      assert FreshName("y'", Variable("y")) == "y'";
    }
  }

  /** The step count and the result of a terminating `normalize` are unique. */
  lemma {:induction false} ReduceStepsDeterministic(s: Strategy, t: Term, m: nat, n: nat)
    requires ReduceSteps(s, t, m).Some? && Reduce(s, ReduceSteps(s, t, m).value).None?
    requires ReduceSteps(s, t, n).Some? && Reduce(s, ReduceSteps(s, t, n).value).None?
    ensures m == n
    decreases m
  {
    if m > 0 && n > 0 {
      ReduceStepsDeterministic(s, Reduce(s, t).value, m - 1, n - 1);
    }
  }

  /** `!normalize ((\x . x) x)` gives `x` after one step, in the default strategy. */
  lemma IdentityOracle()
    ensures var t := Application(Abstraction("x", Variable("x")), Variable("x"));
            ReduceSteps(Default(), t, 1) == Some(Variable("x"))
            && Reduce(Default(), Variable("x")).None?
            && Show(Variable("x")) == "x"
  {
  }

  // The terms of the capture-avoidance oracle.

  function OracleArgument(): Term
  {
    Abstraction("x'", Application(Variable("x"), Application(Variable("x"), Variable("x'"))))
  }

  function OracleTwoBody(): Term
  {
    Abstraction("x", Application(Variable("f"), Application(Variable("f"), Variable("x"))))
  }

  function OracleContractum(): Term
  {
    Abstraction("x'", Application(OracleArgument(), Application(OracleArgument(), Variable("x'"))))
  }

  lemma OracleFreshName()
    ensures FreshName("x", OracleArgument()) == "x'"
  {
    assert "x" + "'" == "x'";
    assert !ContainsFree(OracleArgument(), "x'");
    assert FreshName("x'", OracleArgument()) == "x'";
  }

  lemma OracleSubstitute()
    ensures Substitute(OracleTwoBody(), "f", OracleArgument()) == OracleContractum()
  {
    OracleFreshName();
    var renamed := Application(Variable("f"), Application(Variable("f"), Variable("x'")));
    assert Substitute(OracleTwoBody().body, "x", Variable("x'")) == renamed;
    assert Substitute(renamed, "f", OracleArgument()) == OracleContractum().body;
  }

  lemma OracleStep()
    ensures ReduceApplicative(Application(Abstraction("f", OracleTwoBody()), OracleArgument()))
         == Some(OracleContractum())
  {
    assert NormalForm(OracleTwoBody()) && NormalForm(OracleArgument());
    OracleSubstitute();
  }

  lemma OracleShowArgument()
    ensures Show(OracleArgument()) == "\\x' . x (x x')"
  {
    var inner := Application(Variable("x"), Variable("x'"));
    assert ShowWithParenthesis(inner, false) == "(x x')";
    assert Show(Application(Variable("x"), inner)) == "x (x x')";
  }

  /** How `Show` prints `a (a x')` for an abstraction `a`. */
  lemma ShowSelfApplication(a: Term, sa: string)
    requires a.Abstraction? && Show(a) == sa
    ensures Show(Application(a, Application(a, Variable("x'")))) == "(" + sa + ") ((" + sa + ") x')"
  {
    assert ShowWithParenthesis(a, true) == "(" + sa + ")";
    assert Show(Application(a, Variable("x'"))) == "(" + sa + ") x'";
  }

  lemma OracleShow()
    ensures Show(Abstraction("x", OracleContractum()))
         == "\\x . \\x' . " + "(" + "\\x' . x (x x')" + ") ((" + "\\x' . x (x x')" + ") x')"
  {
    var sa := "\\x' . x (x x')";
    OracleShowArgument();
    ShowSelfApplication(OracleArgument(), sa);
    var sb := "(" + sa + ") ((" + sa + ") x')";
    assert Show(OracleContractum()) == "\\x' . " + sb;
  }

  /**
   * One applicative step on `\x . (\f . \x . f (f x)) (\x' . x (x x'))`
   * renames the inner binder to `x'` and prints as
   * `\x . \x' . (\x' . x (x x')) ((\x' . x (x x')) x')`.
   */
  lemma CaptureAvoidanceOracle()
    ensures var t := Abstraction("x", Application(Abstraction("f", OracleTwoBody()), OracleArgument()));
            ReduceApplicative(t).Some?
            && Show(ReduceApplicative(t).value)
               == "\\x . \\x' . " + "(" + "\\x' . x (x x')" + ") ((" + "\\x' . x (x x')" + ") x')"
  {
    OracleStep();
    OracleShow();
  }
}
