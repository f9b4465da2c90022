/**
 * `Macro::apply`: the arity check, then the term each macro evaluates to.
 * What the macros print (the De Bruijn form, the inferred type, timings,
 * the macro list) is output only; the terms they return are modelled.
 */
module MacroApply {
  import M = Macros
  import L = Lambda
  import S = Strategy
  import D = DeBruijn
  import Errors
  import opened Wrappers

  /**
   * What applying a macro comes to: a term, an error, or (for the
   * normalizing macros, whose loop need not end) no normal form within the
   * given number of steps.
   */
  datatype Outcome = Done(term: L.Term) | Failed(error: Errors.LashError) | OutOfFuel

  /** `\x . \y . x`, the answer of AlphaEq for alpha-equivalent terms. */
  function ChurchTrue(): L.Term
  {
    L.Abstraction("x", L.Abstraction("y", L.Variable("x")))
  }

  /** `\x . \y . y`, the answer of AlphaEq otherwise. */
  function ChurchFalse(): L.Term
  {
    L.Abstraction("x", L.Abstraction("y", L.Variable("y")))
  }

  predicate IsNormalizing(m: M.Macro)
  {
    m == M.CNormalize || m == M.Normalize || m == M.VNormalize
  }

  predicate ReturnsArgument(m: M.Macro)
  {
    m == M.DeBruijn || m == M.Debug || m == M.Time || m == M.Type
  }

  /**
   * Fails with MacroArgError when the number of terms is not the macro's
   * arity, before anything else. Otherwise AlphaEq answers `ChurchTrue`
   * exactly when the two terms have the same De Bruijn form as the
   * program's converter computes it (`DeBruijn.AlphaEqAsWritten`); Reduce and VReduce take one
   * step of the interpreter's strategy, or return the term unchanged when
   * there is no redex; Resolve resolves; Macros returns itself; the
   * normalizing macros run `normalize`; the rest return their argument.
   * AlphaEq, DeBruijn and Type convert or type their arguments, which stops
   * the program on a macro node, so those arguments must be macro-free.
   */
  method Apply(m: M.Macro, strategy: S.Strategy, terms: seq<L.Term>, fuel: nat) returns (o: Outcome)
    requires m in {M.AlphaEq, M.DeBruijn, M.Type} ==> forall i | 0 <= i < |terms| :: L.NoMacros(terms[i])
    ensures |terms| != M.NArgs(m) ==> o == Failed(Errors.NewMacroArgError(m, M.NArgs(m), |terms|))
    ensures |terms| == M.NArgs(m) ==> !o.Failed?
    ensures m == M.AlphaEq && |terms| == 2 ==>
              o == Done(if D.AlphaEqAsWritten(terms[0], terms[1]) then ChurchTrue() else ChurchFalse())
    ensures (m == M.Reduce || m == M.VReduce) && |terms| == 1 ==>
              o == Done(if S.Reduce(strategy, terms[0]).Some? then S.Reduce(strategy, terms[0]).value else terms[0])
    ensures m == M.Resolve && |terms| == 1 ==> o == Done(L.Resolve(terms[0]))
    ensures m == M.Macros && |terms| == 0 ==> o == Done(L.Macro(M.Macros, terms))
    ensures ReturnsArgument(m) && |terms| == 1 ==> o == Done(terms[0])
    ensures IsNormalizing(m) && |terms| == 1 && o.Done? ==>
              S.Reduce(strategy, o.term).None? && exists n :: S.ReduceSteps(strategy, terms[0], n) == Some(o.term)
    ensures IsNormalizing(m) && |terms| == 1 && o.OutOfFuel? ==> S.ReduceSteps(strategy, terms[0], fuel + 1).Some?
    ensures o.OutOfFuel? ==> IsNormalizing(m)
  {
    if |terms| != M.NArgs(m) {
      return Failed(Errors.NewMacroArgError(m, M.NArgs(m), |terms|));
    }
    match m
    case AlphaEq =>
      o := Done(if D.AlphaEqAsWritten(terms[0], terms[1]) then ChurchTrue() else ChurchFalse());
    case Macros =>
      o := Done(L.Macro(M.Macros, terms));
    case Reduce =>
      o := ReduceOnce(strategy, terms[0]);
    case VReduce =>
      o := ReduceOnce(strategy, terms[0]);
    case Resolve =>
      o := Done(L.Resolve(terms[0]));
    case CNormalize =>
      o := NormalizeTerm(strategy, terms[0], fuel);
    case Normalize =>
      o := NormalizeTerm(strategy, terms[0], fuel);
    case VNormalize =>
      o := NormalizeTerm(strategy, terms[0], fuel);
    case DeBruijn =>
      o := Done(terms[0]);
    case Debug =>
      o := Done(terms[0]);
    case Time =>
      o := Done(terms[0]);
    case Type =>
      o := Done(terms[0]);
  }

  /** The Reduce macros: the reduct, or the term itself when it has no redex. */
  method ReduceOnce(strategy: S.Strategy, t: L.Term) returns (o: Outcome)
    ensures o == Done(if S.Reduce(strategy, t).Some? then S.Reduce(strategy, t).value else t)
  {
    var reduced := S.Reduce(strategy, t);
    if reduced.Some? {
      o := Done(reduced.value);
    } else {
      o := Done(t);
    }
  }

  /** The normalizing macros: the normal form `normalize` reaches, if it does within `fuel` steps. */
  method NormalizeTerm(strategy: S.Strategy, t: L.Term, fuel: nat) returns (o: Outcome)
    ensures o.Done? || o.OutOfFuel?
    ensures o.Done? ==> S.Reduce(strategy, o.term).None? && exists n :: S.ReduceSteps(strategy, t, n) == Some(o.term)
    ensures o.OutOfFuel? ==> S.ReduceSteps(strategy, t, fuel + 1).Some?
  {
    var result, n := S.Normalize(strategy, t, fuel);
    if result.Some? {
      o := Done(result.value);
    } else {
      o := OutOfFuel;
    }
  }

  /** The two answers of AlphaEq differ, also up to renaming, under both comparisons. */
  lemma ChurchBooleansDiffer()
    ensures ChurchTrue() != ChurchFalse()
    ensures !D.AlphaEqAsWritten(ChurchTrue(), ChurchFalse())
    ensures !D.AlphaEq(ChurchTrue(), ChurchFalse())
  {
    assert D.ToDeBruijn(ChurchTrue()) == D.Abstraction(D.Abstraction(D.BoundVariable(2)));
    assert D.ToDeBruijn(ChurchFalse()) == D.Abstraction(D.Abstraction(D.BoundVariable(1)));
    assert D.ConvertScoped(ChurchTrue(), map[], 0) == D.Abstraction(D.Abstraction(D.BoundVariable(2)));
    assert D.ConvertScoped(ChurchFalse(), map[], 0) == D.Abstraction(D.Abstraction(D.BoundVariable(1)));
  }
}
