/**
 * Properties of `substitute`. The binder `substitute` renames to avoids
 * only the free names of the replacement, not those of the body it renames
 * in; `SubstituteCaptures` shows a free variable being captured that way.
 * `SubstituteAvoiding` is the same operation choosing a name that also
 * avoids the body and the substituted name; for it the free variables of
 * the result are exactly those of the textbook definition.
 */
module Substitution {
  import opened Lambda

  /** Substituting never loses the Named-closedness of the term or the replacement. */
  lemma {:induction false} SubstituteNamedClosed(t: Term, x: string, r: Term)
    requires NamedClosed(t) && NamedClosed(r)
    ensures NamedClosed(Substitute(t, x, r))
    decreases Size(t)
  {
    match t
    case Abstraction(v, b) =>
      if v != x {
        if ContainsFree(r, v) {
          var f := FreshName(v, r);
          SubstituteNamedClosed(b, v, Variable(f));
          SubstituteNamedClosed(Substitute(b, v, Variable(f)), x, r);
        } else {
          SubstituteNamedClosed(b, x, r);
        }
      }
    case Application(a, c) => SubstituteNamedClosed(a, x, r); SubstituteNamedClosed(c, x, r);
    case Variable(_) =>
    case Macro(_, args) =>
      forall i | 0 <= i < |args|
        ensures NamedClosed(Substitute(args[i], x, r))
      {
        SubstituteNamedClosed(args[i], x, r);
      }
    case Named(_) =>
    case ChurchNum(_) =>
  }

  /**
   * A free variable of `t[x := r]` is a free variable of `t` other than `x`,
   * or a free variable of `r`: substitution introduces no other name.
   */
  lemma {:induction false} SubstituteFreeVars(t: Term, x: string, r: Term, y: string)
    requires NamedClosed(t)
    ensures ContainsFree(Substitute(t, x, r), y) ==> (ContainsFree(t, y) && y != x) || ContainsFree(r, y)
    decreases Size(t)
  {
    match t
    case Abstraction(v, b) =>
      if v != x {
        if ContainsFree(r, v) {
          var f := FreshName(v, r);
          var b' := Substitute(b, v, Variable(f));
          SubstituteNamedClosed(b, v, Variable(f));
          SubstituteFreeVars(b, v, Variable(f), y);
          SubstituteFreeVars(b', x, r, y);
        } else {
          SubstituteFreeVars(b, x, r, y);
        }
      }
    case Application(a, c) => SubstituteFreeVars(a, x, r, y); SubstituteFreeVars(c, x, r, y);
    case Variable(_) =>
    case Macro(_, args) =>
      forall i | 0 <= i < |args|
        ensures ContainsFree(Substitute(args[i], x, r), y) ==> (ContainsFree(args[i], y) && y != x) || ContainsFree(r, y)
      {
        SubstituteFreeVars(args[i], x, r, y);
      }
    case Named(nt) =>
      assert !ContainsFree(nt.term, y);
    case ChurchNum(_) =>
  }

  /** Both facts above, for every name at once. */
  lemma SubstituteClosedFreeVars(t: Term, x: string, r: Term)
    ensures NamedClosed(t) && NamedClosed(r) ==> NamedClosed(Substitute(t, x, r))
    ensures NamedClosed(t) ==>
              forall y | ContainsFree(Substitute(t, x, r), y) :: (ContainsFree(t, y) && y != x) || ContainsFree(r, y)
  {
    if NamedClosed(t) {
      if NamedClosed(r) {
        SubstituteNamedClosed(t, x, r);
      }
      forall y | ContainsFree(Substitute(t, x, r), y)
        ensures (ContainsFree(t, y) && y != x) || ContainsFree(r, y)
      {
        SubstituteFreeVars(t, x, r, y);
      }
    }
  }

  /** A binder that is free in the replacement is renamed: `(\y . x)[x := y]` is `\y' . y`. */
  lemma SubstituteRenamesBinder()
    ensures Substitute(Abstraction("y", Variable("x")), "x", Variable("y"))
         == Abstraction("y'", Variable("y"))
  {
    assert FreshName("y", Variable("y")) == "y'" by {
      assert FreshName("y'", Variable("y")) == "y'";
    }
  }

  /** A binder equal to the substituted name shadows it: `(\x . b)[x := r]` is `\x . b` whatever `b` and `r`. */
  lemma SubstituteShadowed(x: string, b: Term, r: Term)
    ensures Substitute(Abstraction(x, b), x, r) == Abstraction(x, b)
  {
  }

  /**
   * `(\y . x y')[x := y]` is `\y' . y y'`: the binder is renamed to `y'`,
   * which the body already uses freely, so `y'` is captured and is no
   * longer free in the result though it was free in the input.
   */
  lemma SubstituteCaptures()
    ensures var t := Abstraction("y", Application(Variable("x"), Variable("y'")));
            var s := Substitute(t, "x", Variable("y"));
            s == Abstraction("y'", Application(Variable("y"), Variable("y'")))
            && ContainsFree(t, "y'") && !ContainsFree(s, "y'")
  {
    assert FreshName("y", Variable("y")) == "y'" by {
      assert FreshName("y'", Variable("y")) == "y'";
    }
  }

  // ---------------------------------------------------------------------
  // The capture-avoiding variant

  lemma AvoidedNameBounded(v: string, r: Term, b: Term, x: string)
    requires ContainsFree(r, v) || ContainsFree(b, v) || v == x
    ensures |v| <= NameLength(r) + NameLength(b) + |x|
  {
    if ContainsFree(r, v) {
      FreeNameBounded(r, v);
    } else if ContainsFree(b, v) {
      FreeNameBounded(b, v);
    }
  }

  /** `v` with as few primes as make it free neither in `r` nor in `b`, and different from `x`. */
  function FreshNameAvoiding(v: string, r: Term, b: Term, x: string): (f: string)
    ensures |f| >= |v| && f == v + Primes(|f| - |v|)
    ensures !ContainsFree(r, f) && !ContainsFree(b, f) && f != x
    decreases NameLength(r) + NameLength(b) + |x| - |v|
  {
    if ContainsFree(r, v) || ContainsFree(b, v) || v == x then
      AvoidedNameBounded(v, r, b, x);
      var f := FreshNameAvoiding(v + "'", r, b, x);
      assert f == v + Primes(|f| - |v|) by {
        assert v + "'" + Primes(|f| - |v| - 1) == v + Primes(|f| - |v|);
      }
      f
    else
      v
  }

  /** `substitute` with the renamed binder chosen by `FreshNameAvoiding`. */
  function SubstituteAvoiding(t: Term, x: string, r: Term): (s: Term)
    ensures r.Variable? ==> Size(s) == Size(t)
    decreases Size(t), 0
  {
    match t
    case Abstraction(v, b) =>
      if v == x then t
      else if ContainsFree(r, v) then
        var f := FreshNameAvoiding(v, r, b, x);
        Abstraction(f, SubstituteAvoiding(SubstituteAvoiding(b, v, Variable(f)), x, r))
      else
        Abstraction(v, SubstituteAvoiding(b, x, r))
    case Application(a, c) => Application(SubstituteAvoiding(a, x, r), SubstituteAvoiding(c, x, r))
    case Variable(v) => if v == x then r else t
    case Macro(m, args) => Macro(m, SubstituteAvoidingAll(args, x, r))
    case Named(_) => t
    case ChurchNum(_) => t
  }

  function SubstituteAvoidingAll(ts: seq<Term>, x: string, r: Term): (ss: seq<Term>)
    ensures |ss| == |ts|
    ensures forall i | 0 <= i < |ts| :: ss[i] == SubstituteAvoiding(ts[i], x, r)
    ensures r.Variable? ==> SizeAll(ss) == SizeAll(ts)
    decreases SizeAll(ts), 1
  {
    if ts == [] then [] else [SubstituteAvoiding(ts[0], x, r)] + SubstituteAvoidingAll(ts[1..], x, r)
  }

  lemma {:induction false} SubstituteAvoidingNamedClosed(t: Term, x: string, r: Term)
    requires NamedClosed(t) && NamedClosed(r)
    ensures NamedClosed(SubstituteAvoiding(t, x, r))
    decreases Size(t)
  {
    match t
    case Abstraction(v, b) =>
      if v != x {
        if ContainsFree(r, v) {
          var f := FreshNameAvoiding(v, r, b, x);
          SubstituteAvoidingNamedClosed(b, v, Variable(f));
          SubstituteAvoidingNamedClosed(SubstituteAvoiding(b, v, Variable(f)), x, r);
        } else {
          SubstituteAvoidingNamedClosed(b, x, r);
        }
      }
    case Application(a, c) => SubstituteAvoidingNamedClosed(a, x, r); SubstituteAvoidingNamedClosed(c, x, r);
    case Variable(_) =>
    case Macro(_, args) =>
      forall i | 0 <= i < |args|
        ensures NamedClosed(SubstituteAvoiding(args[i], x, r))
      {
        SubstituteAvoidingNamedClosed(args[i], x, r);
      }
    case Named(_) =>
    case ChurchNum(_) =>
  }

  /**
   * The free variables of `t[x := r]` are exactly the free variables of `t`
   * other than `x`, together with those of `r` when `x` occurs free in `t`.
   */
  lemma {:induction false} SubstituteAvoidingFreeVars(t: Term, x: string, r: Term, y: string)
    requires NamedClosed(t)
    ensures ContainsFree(SubstituteAvoiding(t, x, r), y)
        <==> (ContainsFree(t, y) && y != x) || (ContainsFree(t, x) && ContainsFree(r, y))
    decreases Size(t)
  {
    match t
    case Abstraction(v, b) =>
      if v != x {
        if ContainsFree(r, v) {
          var f := FreshNameAvoiding(v, r, b, x);
          var b' := SubstituteAvoiding(b, v, Variable(f));
          SubstituteAvoidingNamedClosed(b, v, Variable(f));
          SubstituteAvoidingFreeVars(b, v, Variable(f), y);
          SubstituteAvoidingFreeVars(b, v, Variable(f), x);
          SubstituteAvoidingFreeVars(b', x, r, y);
        } else {
          SubstituteAvoidingFreeVars(b, x, r, y);
        }
      }
    case Application(a, c) => SubstituteAvoidingFreeVars(a, x, r, y); SubstituteAvoidingFreeVars(c, x, r, y);
    case Variable(_) =>
    case Macro(_, args) =>
      forall i | 0 <= i < |args|
        ensures ContainsFree(SubstituteAvoiding(args[i], x, r), y)
            <==> (ContainsFree(args[i], y) && y != x) || (ContainsFree(args[i], x) && ContainsFree(r, y))
      {
        SubstituteAvoidingFreeVars(args[i], x, r, y);
      }
    case Named(nt) =>
      assert !ContainsFree(nt.term, y) && !ContainsFree(nt.term, x);
    case ChurchNum(_) =>
  }

  /** On the input of `SubstituteCaptures` the variant keeps `y'` free: `\y'' . y y'`. */
  lemma SubstituteAvoidingKeepsFree()
    ensures var t := Abstraction("y", Application(Variable("x"), Variable("y'")));
            SubstituteAvoiding(t, "x", Variable("y"))
            == Abstraction("y''", Application(Variable("y"), Variable("y'")))
  {
    var b := Application(Variable("x"), Variable("y'"));
    assert FreshNameAvoiding("y", Variable("y"), b, "x") == "y''" by {
      assert "y" + "'" == "y'" && "y'" + "'" == "y''";
      assert !ContainsFree(b, "y''") && ContainsFree(b, "y'");
      assert FreshNameAvoiding("y''", Variable("y"), b, "x") == "y''";
      assert FreshNameAvoiding("y'", Variable("y"), b, "x") == "y''";
    }
  }
}
