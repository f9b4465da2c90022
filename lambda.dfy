/**
 * The term model of the shell: immutable lambda terms with named references
 * and numeral literals, free-variable queries, resolution of named terms and
 * numerals, linking of free variables to the named-term registry,
 * substitution (renaming a binder that clashes with the replacement) and
 * the textual form of a term.
 */
module Lambda {
  import opened Text
  import Macros

  /** A Church numeral's denominator is a `u32` in the program. */
  type U32 = n: int | 0 <= n < 0x1_0000_0000

  datatype Term =
    | Abstraction(binder: string, body: Term)
    | Application(left: Term, right: Term)
    | Macro(m: Macros.Macro, args: seq<Term>)
    | Named(named: NamedTerm)
    | Variable(name: string)
    | ChurchNum(n: U32)

  /** A registry entry: the name a term was assigned to, and the term. */
  datatype NamedTerm = NamedTerm(name: string, term: Term)

  /**
   * A size that also covers the expansion of numerals, so that every
   * function that looks into a numeral's encoding terminates.
   */
  function Size(t: Term): (n: nat)
    ensures n >= 1
    decreases t, 1
  {
    match t
    case Abstraction(_, b) => 1 + Size(b)
    case Application(l, r) => 1 + Size(l) + Size(r)
    case Macro(_, args) => 1 + SizeAll(args)
    case Named(nt) => 1 + Size(nt.term)
    case Variable(_) => 1
    case ChurchNum(n) => 2 * n + 4
  }

  function SizeAll(ts: seq<Term>): (n: nat)
    ensures forall i | 0 <= i < |ts| :: Size(ts[i]) <= n
    decreases ts, 0
  {
    if ts == [] then 0 else Size(ts[0]) + SizeAll(ts[1..])
  }

  // ---------------------------------------------------------------------
  // Queries

  /**
   * `contains_free_variable`: an occurrence of `x` not under a binder of the
   * same name; a Named node is looked through, a numeral has none.
   */
  predicate ContainsFree(t: Term, x: string)
  {
    match t
    case Abstraction(v, b) => if v == x then false else ContainsFree(b, x)
    case Application(l, r) => ContainsFree(l, x) || ContainsFree(r, x)
    case Variable(v) => v == x
    case Macro(_, args) => exists i | 0 <= i < |args| :: ContainsFree(args[i], x)
    case Named(nt) => ContainsFree(nt.term, x)
    case ChurchNum(_) => false
  }

  /** `has_church_nums`: a numeral literal occurs, also inside named terms. */
  predicate HasChurchNums(t: Term)
  {
    match t
    case Abstraction(_, b) => HasChurchNums(b)
    case Application(l, r) => HasChurchNums(l) || HasChurchNums(r)
    case Variable(_) => false
    case Macro(_, args) => exists i | 0 <= i < |args| :: HasChurchNums(args[i])
    case Named(nt) => HasChurchNums(nt.term)
    case ChurchNum(_) => true
  }

  /** No macro node occurs, also inside named terms. */
  predicate NoMacros(t: Term)
  {
    match t
    case Abstraction(_, b) => NoMacros(b)
    case Application(l, r) => NoMacros(l) && NoMacros(r)
    case Variable(_) => true
    case Macro(_, _) => false
    case Named(nt) => NoMacros(nt.term)
    case ChurchNum(_) => true
  }

  /** No Named and no numeral node occurs: the shape `resolve` produces. */
  predicate Resolved(t: Term)
  {
    match t
    case Abstraction(_, b) => Resolved(b)
    case Application(l, r) => Resolved(l) && Resolved(r)
    case Variable(_) => true
    case Macro(_, args) => forall i | 0 <= i < |args| :: Resolved(args[i])
    case Named(_) => false
    case ChurchNum(_) => false
  }

  ghost predicate Closed(t: Term)
  {
    forall y :: !ContainsFree(t, y)
  }

  /** Every named term reachable from `t` stores a closed term. */
  ghost predicate NamedClosed(t: Term)
  {
    match t
    case Abstraction(_, b) => NamedClosed(b)
    case Application(l, r) => NamedClosed(l) && NamedClosed(r)
    case Variable(_) => true
    case Macro(_, args) => forall i | 0 <= i < |args| :: NamedClosed(args[i])
    case Named(nt) => Closed(nt.term) && NamedClosed(nt.term)
    case ChurchNum(_) => true
  }

  // ---------------------------------------------------------------------
  // Church numerals

  /** `f (f (... (f x)))` with `k` applications of `f`. */
  function ChurchBody(k: nat): (t: Term)
    ensures Size(t) == 2 * k + 1
    ensures Resolved(t) && NoMacros(t) && !HasChurchNums(t)
    ensures forall y :: ContainsFree(t, y) ==> y == "f" || y == "x"
  {
    if k == 0 then Variable("x") else Application(Variable("f"), ChurchBody(k - 1))
  }

  /** The Church encoding `\f . \x . f (... (f x))` of `n`. */
  function ChurchNumeral(n: nat): (t: Term)
    ensures Size(t) == 2 * n + 3
    ensures Resolved(t) && NoMacros(t) && !HasChurchNums(t) && Closed(t)
  {
    var b := ChurchBody(n);
    assert forall y :: ContainsFree(Abstraction("x", b), y) ==> y == "f";
    Abstraction("f", Abstraction("x", b))
  }

  /** `unwrap_church_num`: builds the encoding with a counting loop. */
  method UnwrapChurchNum(d: U32) returns (t: Term)
    ensures t == ChurchNumeral(d)
  {
    var inner := Variable("x");
    for i := 0 to d
      invariant inner == ChurchBody(i)
    {
      inner := Application(Variable("f"), inner);
    }
    t := Abstraction("f", Abstraction("x", inner));
  }

  /** Counts the applications of `f` around `x`, if `t` has that shape. */
  function ChurchCount(t: Term): (k: int)
    ensures k >= -1
  {
    match t
    case Variable(v) => if v == "x" then 0 else -1
    case Application(Variable(v), r) =>
      if v == "f" && ChurchCount(r) >= 0 then ChurchCount(r) + 1 else -1
    case _ => -1
  }

  /** Reads a numeral back from its encoding; -1 when `t` is not one. */
  function ChurchValue(t: Term): (k: int)
    ensures k >= -1
  {
    match t
    case Abstraction(f, Abstraction(x, b)) => if f == "f" && x == "x" then ChurchCount(b) else -1
    case _ => -1
  }

  // ---------------------------------------------------------------------
  // Resolution and linking to the registry

  /**
   * `resolve`: inlines every Named node by its (resolved) stored term and
   * expands every numeral, keeping binders and application order.
   */
  function Resolve(t: Term): (u: Term)
    ensures Resolved(u)
    ensures NoMacros(t) ==> NoMacros(u)
    decreases Size(t), 0
  {
    match t
    case Abstraction(v, b) => Abstraction(v, Resolve(b))
    case Application(l, r) => Application(Resolve(l), Resolve(r))
    case Macro(m, args) => Macro(m, ResolveAll(args))
    case Variable(_) => t
    case Named(nt) => Resolve(nt.term)
    case ChurchNum(d) => ChurchNumeral(d)
  }

  function ResolveAll(ts: seq<Term>): (us: seq<Term>)
    ensures |us| == |ts|
    ensures forall i | 0 <= i < |ts| :: us[i] == Resolve(ts[i])
    decreases SizeAll(ts), 1
  {
    if ts == [] then [] else [Resolve(ts[0])] + ResolveAll(ts[1..])
  }

  /**
   * `set_named_terms_helper`: a variable that no enclosing abstraction binds
   * and that the registry knows becomes a Named node. The Rust code pushes
   * a binder on `bound_vars` before the body and pops it after; passing the
   * extended sequence down is the same thing.
   */
  function SetNamedTermsHelper(t: Term, registry: map<string, NamedTerm>, bound: seq<string>): Term
    decreases Size(t), 0
  {
    match t
    case Abstraction(v, b) => Abstraction(v, SetNamedTermsHelper(b, registry, bound + [v]))
    case Application(l, r) =>
      Application(SetNamedTermsHelper(l, registry, bound), SetNamedTermsHelper(r, registry, bound))
    case Variable(n) =>
      if n in bound then t
      else if n in registry then Named(registry[n])
      else t
    case Macro(m, args) => Macro(m, SetNamedTermsAll(args, registry, bound))
    case Named(_) => t
    case ChurchNum(_) => t
  }

  function SetNamedTermsAll(ts: seq<Term>, registry: map<string, NamedTerm>, bound: seq<string>): (us: seq<Term>)
    ensures |us| == |ts|
    ensures forall i | 0 <= i < |ts| :: us[i] == SetNamedTermsHelper(ts[i], registry, bound)
    decreases SizeAll(ts), 1
  {
    if ts == [] then [] else [SetNamedTermsHelper(ts[0], registry, bound)] + SetNamedTermsAll(ts[1..], registry, bound)
  }

  /** `set_named_terms`: starts with no enclosing binders. */
  function SetNamedTerms(t: Term, registry: map<string, NamedTerm>): Term
  {
    SetNamedTermsHelper(t, registry, [])
  }

  // ---------------------------------------------------------------------
  // Substitution

  /** The sum of the lengths of all variable names in `t`: no free name is longer. */
  function NameLength(t: Term): nat
    decreases Size(t), 0
  {
    match t
    case Abstraction(_, b) => NameLength(b)
    case Application(l, r) => NameLength(l) + NameLength(r)
    case Variable(v) => |v|
    case Macro(_, args) => NameLengthAll(args)
    case Named(nt) => NameLength(nt.term)
    case ChurchNum(_) => 0
  }

  function NameLengthAll(ts: seq<Term>): nat
    decreases SizeAll(ts), 1
  {
    if ts == [] then 0 else NameLength(ts[0]) + NameLengthAll(ts[1..])
  }

  lemma {:induction false} FreeNameBounded(t: Term, x: string)
    requires ContainsFree(t, x)
    ensures |x| <= NameLength(t)
    decreases Size(t), 0
  {
    match t
    case Abstraction(_, b) => FreeNameBounded(b, x);
    case Application(l, r) =>
      if ContainsFree(l, x) { FreeNameBounded(l, x); } else { FreeNameBounded(r, x); }
    case Variable(_) =>
    case Macro(_, args) =>
      var i :| 0 <= i < |args| && ContainsFree(args[i], x);
      FreeNameBoundedAll(args, i, x);
    case Named(nt) => FreeNameBounded(nt.term, x);
  }

  lemma {:induction false} FreeNameBoundedAll(ts: seq<Term>, i: nat, x: string)
    requires i < |ts| && ContainsFree(ts[i], x)
    ensures |x| <= NameLengthAll(ts)
    decreases SizeAll(ts), 1
  {
    if i == 0 {
      FreeNameBounded(ts[0], x);
    } else {
      FreeNameBoundedAll(ts[1..], i - 1, x);
    }
  }

  /** `k` prime marks. */
  function Primes(k: nat): (p: string)
    ensures |p| == k && forall i | 0 <= i < k :: p[i] == '\''
  {
    if k == 0 then "" else Primes(k - 1) + "'"
  }

  /**
   * The binder name `substitute` chooses: `v` followed by as few primes as
   * make it not free in the replacement `r`. Terminates because no free
   * name of `r` is longer than `NameLength(r)`.
   */
  function FreshName(v: string, r: Term): (f: string)
    ensures |f| >= |v| && f == v + Primes(|f| - |v|)
    ensures !ContainsFree(r, f)
    ensures forall k | 0 <= k < |f| - |v| :: ContainsFree(r, v + Primes(k))
    decreases NameLength(r) - |v|
  {
    if ContainsFree(r, v) then
      FreeNameBounded(r, v);
      var f := FreshName(v + "'", r);
      assert f == v + Primes(|f| - |v|) by {
        assert v + "'" + Primes(|f| - |v| - 1) == v + Primes(|f| - |v|);
      }
      assert forall k | 1 <= k < |f| - |v| :: v + Primes(k) == v + "'" + Primes(k - 1);
      assert v + Primes(0) == v;
      f
    else
      v
  }

  /** The `while` loop in `substitute` that appends primes to the binder name. */
  method FreshNameLoop(v: string, r: Term) returns (f: string)
    ensures f == FreshName(v, r)
  {
    f := v;
    while ContainsFree(r, f)
      invariant FreshName(f, r) == FreshName(v, r)
      decreases NameLength(r) - |f|
    {
      FreeNameBounded(r, f);
      f := f + "'";
    }
  }

  /**
   * `substitute`: replaces the free occurrences of `x` in `t` by `r`. At a
   * binder that is free in `r` the binder is renamed first (to
   * `FreshName`), then `x` is substituted in the renamed body. Named and
   * numeral nodes are left as they are. Substituting a variable keeps the
   * size, which is what makes the renaming step terminate.
   */
  function Substitute(t: Term, x: string, r: Term): (s: Term)
    ensures r.Variable? ==> Size(s) == Size(t)
    decreases Size(t), 0
  {
    match t
    case Abstraction(v, b) =>
      if v == x then t
      else if ContainsFree(r, v) then
        var f := FreshName(v, r);
        Abstraction(f, Substitute(Substitute(b, v, Variable(f)), x, r))
      else
        Abstraction(v, Substitute(b, x, r))
    case Application(a, c) => Application(Substitute(a, x, r), Substitute(c, x, r))
    case Variable(v) => if v == x then r else t
    case Macro(m, args) => Macro(m, SubstituteAll(args, x, r))
    case Named(_) => t
    case ChurchNum(_) => t
  }

  function SubstituteAll(ts: seq<Term>, x: string, r: Term): (ss: seq<Term>)
    ensures |ss| == |ts|
    ensures forall i | 0 <= i < |ts| :: ss[i] == Substitute(ts[i], x, r)
    ensures r.Variable? ==> SizeAll(ss) == SizeAll(ts)
    decreases SizeAll(ts), 1
  {
    if ts == [] then [] else [Substitute(ts[0], x, r)] + SubstituteAll(ts[1..], x, r)
  }

  // ---------------------------------------------------------------------
  // Display

  /** `needs_parenthesis`: atoms never, an application only right of another. */
  predicate NeedsParenthesis(t: Term, leftOfApplication: bool)
  {
    !(t.Named? || t.Variable? || t.ChurchNum? || (leftOfApplication && t.Application?))
  }

  /** No binder, variable or stored term's name contains a parenthesis. */
  predicate PlainNames(t: Term)
  {
    match t
    case Abstraction(v, b) => '(' !in v && ')' !in v && PlainNames(b)
    case Application(l, r) => PlainNames(l) && PlainNames(r)
    case Variable(v) => '(' !in v && ')' !in v
    case Macro(_, args) => forall i | 0 <= i < |args| :: PlainNames(args[i])
    case Named(nt) => '(' !in nt.name && ')' !in nt.name
    case ChurchNum(_) => true
  }

  /** The `Display` form of a term. */
  function Show(t: Term): string
    decreases Size(t), 0
  {
    match t
    case Abstraction(v, b) => "\\" + v + " . " + Show(b)
    case Application(l, r) => ShowWithParenthesis(l, true) + " " + ShowWithParenthesis(r, false)
    case Variable(v) => v
    case Macro(m, args) => "!" + Macros.Name(m) + " " + ShowMacroArgs(args)
    case Named(nt) => nt.name
    case ChurchNum(d) => "$" + NatToString(d)
  }

  /** `fmt_with_parenthesis`. */
  function ShowWithParenthesis(t: Term, leftOfApplication: bool): string
    decreases Size(t), 1
  {
    if NeedsParenthesis(t, leftOfApplication) then "(" + Show(t) + ")" else Show(t)
  }

  /** Macro arguments are written back to back: a variable bare, anything else in parentheses. */
  function ShowMacroArgs(ts: seq<Term>): string
    decreases SizeAll(ts), 2
  {
    if ts == [] then ""
    else (if ts[0].Variable? then ts[0].name else "(" + Show(ts[0]) + ")") + ShowMacroArgs(ts[1..])
  }
}
