/**
 * Properties of the De Bruijn conversion. Resolving Named nodes and
 * numerals does not change either form. Because leaving a binder deletes
 * its name instead of restoring an outer binding, `\x . (\x . x) x`
 * converts to `\ (\ 1) x`: the last `x` comes out free, and `alpha_eq`
 * then equates that closed term with the open term `\y . (\x . x) x`,
 * which the lexically scoped comparison tells apart. Renaming a binder to
 * an unused name keeps the scoped form, so the scoped comparison is alpha
 * invariant; the program's comparison is not.
 */
module DeBruijnFacts {
  import L = Lambda
  import opened DeBruijn

  /** `\x . x` becomes `\ 1`, and so does `\y . y`: the two are alpha-equal. */
  lemma IdentityDeBruijn()
    ensures ToDeBruijn(L.Abstraction("x", L.Variable("x"))) == Abstraction(BoundVariable(1))
    ensures Show(ToDeBruijn(L.Abstraction("x", L.Variable("x")))) == "\\ 1"
    ensures AlphaEqAsWritten(L.Abstraction("x", L.Variable("x")), L.Abstraction("y", L.Variable("y")))
    ensures AlphaEq(L.Abstraction("x", L.Variable("x")), L.Abstraction("y", L.Variable("y")))
  {
    assert Text.NatToString(1) == "1";
  }

  /** Resolving Named nodes and numerals leaves the De Bruijn form and the binders unchanged. */
  lemma {:induction false} ConvertResolve(t: L.Term, m: map<string, nat>, depth: nat)
    requires L.NoMacros(t) && Below(m, depth)
    ensures L.NoMacros(L.Resolve(t))
    ensures Binders(L.Resolve(t)) == Binders(t)
    ensures Convert(L.Resolve(t), m, depth) == Convert(t, m, depth)
    decreases L.Size(t)
  {
    match t
    case Variable(_) =>
    case Abstraction(v, b) => ConvertResolve(b, m[v := depth], depth + 1);
    case Application(l, r) =>
      ConvertResolve(l, m, depth);
      ConvertResolve(r, m - Binders(l), depth);
    case Named(nt) => ConvertResolve(nt.term, m, depth);
    case ChurchNum(d) =>
  }

  /** The same holds for the scoped conversion. */
  lemma {:induction false} ConvertScopedResolve(t: L.Term, m: map<string, nat>, depth: nat)
    requires L.NoMacros(t) && Below(m, depth)
    ensures L.NoMacros(L.Resolve(t))
    ensures ConvertScoped(L.Resolve(t), m, depth) == ConvertScoped(t, m, depth)
    decreases L.Size(t)
  {
    match t
    case Variable(_) =>
    case Abstraction(v, b) => ConvertScopedResolve(b, m[v := depth], depth + 1);
    case Application(l, r) =>
      ConvertScopedResolve(l, m, depth);
      ConvertScopedResolve(r, m, depth);
    case Named(nt) => ConvertScopedResolve(nt.term, m, depth);
    case ChurchNum(d) =>
  }

  /** A term is alpha-equal to its resolution, for both comparisons. */
  lemma AlphaEqResolve(t: L.Term)
    requires L.NoMacros(t)
    ensures L.NoMacros(L.Resolve(t))
    ensures AlphaEqAsWritten(t, L.Resolve(t)) && AlphaEq(t, L.Resolve(t))
  {
    ConvertResolve(t, map[], 0);
    ConvertScopedResolve(t, map[], 0);
  }

  // ---------------------------------------------------------------------
  // Scoping

  /** `\x . (\x . x) x`: the last `x` is bound by the outer abstraction. */
  function Shadowing(): L.Term
  {
    L.Abstraction("x", L.Application(L.Abstraction("x", L.Variable("x")), L.Variable("x")))
  }

  /** `\y . (\x . x) x`: the last `x` is free. */
  function ShadowingRenamed(): L.Term
  {
    L.Abstraction("y", L.Application(L.Abstraction("x", L.Variable("x")), L.Variable("x")))
  }

  /**
   * The program converts `\x . (\x . x) x` to `\ (\ 1) x`, with a free `x`
   * although the term is closed, and so finds it alpha-equal to
   * `\y . (\x . x) x`, in which `x` is free.
   */
  lemma ShadowedBinderLost()
    ensures ToDeBruijn(Shadowing()) == Abstraction(Application(Abstraction(BoundVariable(1)), FreeVariable("x")))
    ensures Show(ToDeBruijn(Shadowing())) == "\\ (\\ 1) x"
    ensures HasFree(ToDeBruijn(Shadowing()), "x") && !L.ContainsFree(Shadowing(), "x")
    ensures AlphaEqAsWritten(Shadowing(), ShadowingRenamed()) && L.ContainsFree(ShadowingRenamed(), "x")
  {
    assert Binders(L.Abstraction("x", L.Variable("x"))) == {"x"};
    assert map["x" := 0][ "x" := 1] - {"x"} == map[];
    assert Text.NatToString(1) == "1";
    assert Show(Abstraction(BoundVariable(1))) == "\\ 1";
  }

  /** With lexical scoping the two terms of `ShadowedBinderLost` are told apart. */
  lemma ScopedSeparatesShadowing()
    ensures ConvertScoped(Shadowing(), map[], 0)
         == Abstraction(Application(Abstraction(BoundVariable(1)), BoundVariable(1)))
    ensures !AlphaEq(Shadowing(), ShadowingRenamed())
  {
    assert ConvertScoped(ShadowingRenamed(), map[], 0)
        == Abstraction(Application(Abstraction(BoundVariable(1)), FreeVariable("x")));
  }

  // ---------------------------------------------------------------------
  // Renaming a bound variable

  /** The scoped form of `t` depends only on the map entries of `t`'s free variables. */
  lemma {:induction false} ScopedAgree(t: L.Term, m1: map<string, nat>, m2: map<string, nat>, depth: nat)
    requires L.NoMacros(t) && Below(m1, depth) && Below(m2, depth)
    requires forall z | L.ContainsFree(t, z) :: (z in m1 <==> z in m2) && (z in m1 ==> m1[z] == m2[z])
    ensures ConvertScoped(t, m1, depth) == ConvertScoped(t, m2, depth)
    decreases L.Size(t)
  {
    match t
    case Variable(_) =>
    case Abstraction(v, b) => ScopedAgree(b, m1[v := depth], m2[v := depth], depth + 1);
    case Application(l, r) =>
      ScopedAgree(l, m1, m2, depth);
      ScopedAgree(r, m1, m2, depth);
    case Named(nt) => ScopedAgree(nt.term, m1, m2, depth);
    case ChurchNum(d) => ScopedAgree(L.ChurchNumeral(d), m1, m2, depth);
  }

  /**
   * Renaming `x` to a name `y` that `t` does not use gives the same scoped
   * form, when `y` is mapped where `x` was and all other names agree.
   */
  lemma {:induction false} ConvertScopedRename(t: L.Term, x: string, y: string,
                                               m1: map<string, nat>, m2: map<string, nat>, depth: nat)
    requires L.NoMacros(t) && !Mentions(t, y) && Below(m1, depth) && Below(m2, depth)
    requires x in m1 && y in m2 && m1[x] == m2[y]
    requires forall z | z != x && z != y :: (z in m1 <==> z in m2) && (z in m1 ==> m1[z] == m2[z])
    ensures ConvertScoped(Rename(t, x, y), m2, depth) == ConvertScoped(t, m1, depth)
    decreases L.Size(t)
  {
    match t
    case Variable(_) =>
    case Abstraction(v, b) =>
      if v == x {
        assert !L.ContainsFree(b, y) by { MentionsFree(b, y); }
        ScopedAgree(b, m1[v := depth], m2[v := depth], depth + 1);
      } else {
        ConvertScopedRename(b, x, y, m1[v := depth], m2[v := depth], depth + 1);
      }
    case Application(l, r) =>
      ConvertScopedRename(l, x, y, m1, m2, depth);
      ConvertScopedRename(r, x, y, m1, m2, depth);
    case Named(nt) => ConvertScopedRename(nt.term, x, y, m1, m2, depth);
    case ChurchNum(d) => ScopedAgree(L.ChurchNumeral(d), m1, m2, depth);
  }

  lemma {:induction false} MentionsFree(t: L.Term, y: string)
    requires L.NoMacros(t) && !Mentions(t, y)
    ensures !L.ContainsFree(t, y)
    decreases L.Size(t)
  {
    match t
    case Variable(_) =>
    case Abstraction(_, b) => MentionsFree(b, y);
    case Application(l, r) => MentionsFree(l, y); MentionsFree(r, y);
    case Named(nt) => MentionsFree(nt.term, y);
    case ChurchNum(d) =>
  }

  /**
   * Alpha invariance: renaming the binder of an abstraction, and its free
   * occurrences in the body, to a name the body does not use leaves the
   * scoped form unchanged, in any scope.
   */
  lemma ConvertScopedRenameBinder(x: string, y: string, b: L.Term, m: map<string, nat>, depth: nat)
    requires L.NoMacros(b) && !Mentions(b, y) && Below(m, depth)
    ensures ConvertScoped(L.Abstraction(y, Rename(b, x, y)), m, depth) == ConvertScoped(L.Abstraction(x, b), m, depth)
  {
    ConvertScopedRename(b, x, y, m[x := depth], m[y := depth], depth + 1);
  }

  /** So the scoped comparison finds an abstraction alpha-equal to its renamings. */
  lemma AlphaEqRenameBinder(x: string, y: string, b: L.Term)
    requires L.NoMacros(b) && !Mentions(b, y)
    ensures AlphaEq(L.Abstraction(x, b), L.Abstraction(y, Rename(b, x, y)))
  {
    ConvertScopedRenameBinder(x, y, b, map[], 0);
  }

  /**
   * The program's comparison is not invariant under renaming:
   * `\y . (\x . x) y` renames the binder of `\x . (\x . x) x` to the unused
   * `y`, yet the converter gives `\ (\ 1) x` for the first and `\ (\ 1) 1`
   * for the second, so `alpha_eq` answers false where the scoped comparison
   * answers true.
   */
  lemma RenamingNotAlphaEqAsWritten()
    ensures var b := L.Application(L.Abstraction("x", L.Variable("x")), L.Variable("x"));
            Rename(b, "x", "y") == L.Application(L.Abstraction("x", L.Variable("x")), L.Variable("y"))
            && !AlphaEqAsWritten(L.Abstraction("x", b), L.Abstraction("y", Rename(b, "x", "y")))
            && AlphaEq(L.Abstraction("x", b), L.Abstraction("y", Rename(b, "x", "y")))
  {
    var b := L.Application(L.Abstraction("x", L.Variable("x")), L.Variable("x"));
    assert !Mentions(b, "y");
    AlphaEqRenameBinder("x", "y", b);
    assert Binders(L.Abstraction("x", L.Variable("x"))) == {"x"};
    assert map["x" := 0][ "x" := 1] - {"x"} == map[];
    assert map["y" := 0][ "x" := 1] - {"x"} == map["y" := 0];
    assert ToDeBruijn(L.Abstraction("x", b)) == Abstraction(Application(Abstraction(BoundVariable(1)), FreeVariable("x")));
  }

  /**
   * A left operand is bracketed unless atomic or an application, a right
   * one unless atomic; either way in pairs, so the parentheses of a printed
   * De Bruijn term balance whenever its free names hold none.
   */
  lemma {:induction false} ShowBalanced(n: DeBruijnNode)
    requires PlainNames(n)
    ensures Text.Balanced(Show(n))
  {
    match n
    case FreeVariable(x) => Text.BalancedPlain(x);
    case BoundVariable(i) => Text.NatToStringBalanced(i);
    case Abstraction(b) =>
      ShowBalanced(b);
      Text.BalancedPlain("\\ ");
      Text.BalancedConcat("\\ ", Show(b));
    case Application(a, b) =>
      ShowBalanced(a);
      ShowBalanced(b);
      var s1 := if a.FreeVariable? || a.BoundVariable? || a.Application? then Show(a) else "(" + Show(a) + ")";
      var s2 := if b.FreeVariable? || b.BoundVariable? then Show(b) else "(" + Show(b) + ")";
      Text.BalancedBracketed(Show(a));
      Text.BalancedBracketed(Show(b));
      Text.BalancedPlain(" ");
      Text.BalancedConcat(s1, " ");
      Text.BalancedConcat(s1 + " ", s2);
  }
}
