/**
 * Conversion of terms to De Bruijn form, which is what `alpha_eq` compares.
 * The converter keeps one name-to-depth map for the whole walk: entering
 * an abstraction records its binder's depth, leaving it deletes the entry
 * (rather than restoring an outer entry for the same name), and the map
 * left behind by a function position is the one its argument is converted
 * with. `AlphaEqAsWritten`, which macro application uses, compares those
 * forms; `AlphaEq` compares the forms of the lexically scoped
 * `ConvertScoped`, the comparison the converter is meant to decide.
 */
module DeBruijn {
  import L = Lambda
  import Text

  datatype DeBruijnNode =
    | BoundVariable(index: nat)
    | FreeVariable(name: string)
    | Abstraction(body: DeBruijnNode)
    | Application(left: DeBruijnNode, right: DeBruijnNode)

  /** Every name the converter enters as a binder while walking `t`. */
  function Binders(t: L.Term): set<string>
    decreases L.Size(t)
  {
    match t
    case Abstraction(v, b) => {v} + Binders(b)
    case Application(l, r) => Binders(l) + Binders(r)
    case Variable(_) => {}
    case Macro(_, _) => {}
    case Named(nt) => Binders(nt.term)
    case ChurchNum(d) => Binders(L.ChurchNumeral(d))
  }

  /** Every recorded binder depth is below the current depth. */
  predicate Below(m: map<string, nat>, depth: nat)
  {
    forall x | x in m :: m[x] < depth
  }

  /**
   * What the converter produces for `t` at `depth` when its map is `m`:
   * a variable recorded at depth `k` becomes index `depth - k`, others stay
   * free; the argument of an application is converted with the map its
   * function position left behind.
   */
  function Convert(t: L.Term, m: map<string, nat>, depth: nat): (n: DeBruijnNode)
    requires L.NoMacros(t) && Below(m, depth)
    ensures IndicesWithin(n, depth)
    decreases L.Size(t)
  {
    match t
    case Variable(x) => if x in m then BoundVariable(depth - m[x]) else FreeVariable(x)
    case Abstraction(v, b) => Abstraction(Convert(b, m[v := depth], depth + 1))
    case Application(l, r) => Application(Convert(l, m, depth), Convert(r, m - Binders(l), depth))
    case Named(nt) => Convert(nt.term, m, depth)
    case ChurchNum(d) => Convert(L.ChurchNumeral(d), m, depth)
  }

  /** `From<LambdaTree>`: an empty map at depth 0; no index dangles. */
  function ToDeBruijn(t: L.Term): (n: DeBruijnNode)
    requires L.NoMacros(t)
    ensures IndicesWithin(n, 0)
  {
    Convert(t, map[], 0)
  }

  /**
   * `alpha_eq` as the program computes it: equality of the converter's
   * forms. On terms that never rebind a name already in scope it is alpha
   * equivalence.
   */
  function AlphaEqAsWritten(a: L.Term, b: L.Term): (r: bool)
    requires L.NoMacros(a) && L.NoMacros(b)
    ensures NoRebinding(a, {}) && NoRebinding(b, {}) ==> (r <==> AlphaEq(a, b))
  {
    assert NoRebinding(a, {}) && NoRebinding(b, {}) ==>
             ToDeBruijn(a) == ConvertScoped(a, map[], 0) && ToDeBruijn(b) == ConvertScoped(b, map[], 0) by {
      var empty: map<string, nat> := map[];
      assert empty.Keys == {};
      if NoRebinding(a, {}) && NoRebinding(b, {}) {
        ConvertAgreesWithoutRebinding(a, empty, 0);
        ConvertAgreesWithoutRebinding(b, empty, 0);
      }
    }
    ToDeBruijn(a) == ToDeBruijn(b)
  }

  /** Alpha equivalence: equality of the lexically scoped De Bruijn forms. Alpha-equal terms have the same free variables. */
  function AlphaEq(a: L.Term, b: L.Term): (r: bool)
    requires L.NoMacros(a) && L.NoMacros(b)
    ensures r ==> forall y :: L.ContainsFree(a, y) <==> L.ContainsFree(b, y)
  {
    ConvertScoped(a, map[], 0) == ConvertScoped(b, map[], 0)
  }

  /** The converter with its shared map, `to_debrujin_helper`. */
  class Converter {
    var binderDepth: map<string, nat>

    constructor ()
      ensures binderDepth == map[]
    {
      binderDepth := map[];
    }

    method Helper(t: L.Term, depth: nat) returns (n: DeBruijnNode)
      requires L.NoMacros(t) && Below(binderDepth, depth)
      modifies this
      ensures n == Convert(t, old(binderDepth), depth)
      ensures binderDepth == old(binderDepth) - Binders(t)
      decreases L.Size(t)
    {
      match t
      case Variable(x) =>
        if x in binderDepth {
          n := BoundVariable(depth - binderDepth[x]);
        } else {
          n := FreeVariable(x);
        }
      case Abstraction(v, b) =>
        ghost var before := binderDepth;
        binderDepth := binderDepth[v := depth];
        var inner := Helper(b, depth + 1);
        binderDepth := binderDepth - {v};
        assert binderDepth == before - Binders(t);
        n := Abstraction(inner);
      case Application(l, r) =>
        var left := Helper(l, depth);
        var right := Helper(r, depth);
        assert binderDepth == old(binderDepth) - Binders(t);
        n := Application(left, right);
      case Named(nt) =>
        n := Helper(nt.term, depth);
      case ChurchNum(d) =>
        var expansion := L.UnwrapChurchNum(d);
        n := Helper(expansion, depth);
    }
  }

  /** `DeBruijnNode::from`: converts with a fresh converter. */
  method FromTerm(t: L.Term) returns (n: DeBruijnNode)
    requires L.NoMacros(t)
    ensures n == ToDeBruijn(t)
  {
    var converter := new Converter();
    n := converter.Helper(t, 0);
  }

  // ---------------------------------------------------------------------
  // Display

  /** No free variable's name contains a parenthesis. */
  predicate PlainNames(n: DeBruijnNode)
  {
    match n
    case FreeVariable(x) => '(' !in x && ')' !in x
    case BoundVariable(_) => true
    case Abstraction(b) => PlainNames(b)
    case Application(a, b) => PlainNames(a) && PlainNames(b)
  }

  /** `Display`: a left operand is bracketed unless atomic or an application, a right one unless atomic. */
  function Show(n: DeBruijnNode): string
  {
    match n
    case FreeVariable(x) => x
    case BoundVariable(i) => Text.NatToString(i)
    case Abstraction(b) => "\\ " + Show(b)
    case Application(a, b) =>
      var s1 := if a.FreeVariable? || a.BoundVariable? || a.Application? then Show(a) else "(" + Show(a) + ")";
      var s2 := if b.FreeVariable? || b.BoundVariable? then Show(b) else "(" + Show(b) + ")";
      s1 + " " + s2
  }

  // ---------------------------------------------------------------------
  // Reference definitions

  /** Every index points at an enclosing abstraction when `k` binders enclose `n`. */
  predicate IndicesWithin(n: DeBruijnNode, k: nat)
  {
    match n
    case BoundVariable(i) => 1 <= i <= k
    case FreeVariable(_) => true
    case Abstraction(b) => IndicesWithin(b, k + 1)
    case Application(a, b) => IndicesWithin(a, k) && IndicesWithin(b, k)
  }

  predicate HasFree(n: DeBruijnNode, y: string)
  {
    match n
    case BoundVariable(_) => false
    case FreeVariable(x) => x == y
    case Abstraction(b) => HasFree(b, y)
    case Application(a, b) => HasFree(a, y) || HasFree(b, y)
  }

  /**
   * The conversion with lexical scoping: leaving an abstraction brings the
   * outer binding of its name back, and both children of an application
   * see the same map. A name is free in the result exactly when it is free
   * in the term and not in scope.
   */
  function ConvertScoped(t: L.Term, m: map<string, nat>, depth: nat): (n: DeBruijnNode)
    requires L.NoMacros(t) && Below(m, depth)
    ensures IndicesWithin(n, depth)
    ensures forall y :: HasFree(n, y) <==> L.ContainsFree(t, y) && y !in m
    decreases L.Size(t)
  {
    match t
    case Variable(x) => if x in m then BoundVariable(depth - m[x]) else FreeVariable(x)
    case Abstraction(v, b) => Abstraction(ConvertScoped(b, m[v := depth], depth + 1))
    case Application(l, r) => Application(ConvertScoped(l, m, depth), ConvertScoped(r, m, depth))
    case Named(nt) => ConvertScoped(nt.term, m, depth)
    case ChurchNum(d) => ConvertScoped(L.ChurchNumeral(d), m, depth)
  }

  /** `y` is used in `t`, as a variable or as a binder (numeral literals use no names). */
  predicate Mentions(t: L.Term, y: string)
  {
    match t
    case Variable(v) => v == y
    case Abstraction(v, b) => v == y || Mentions(b, y)
    case Application(l, r) => Mentions(l, y) || Mentions(r, y)
    case Macro(_, _) => false
    case Named(nt) => Mentions(nt.term, y)
    case ChurchNum(_) => false
  }

  /**
   * Renaming: every free `x` of `t` becomes `y`; an abstraction binding
   * `x` again is left as it is.
   */
  function Rename(t: L.Term, x: string, y: string): (u: L.Term)
    requires L.NoMacros(t)
    ensures L.NoMacros(u)
    ensures x != y ==> !L.ContainsFree(u, x)
    decreases L.Size(t)
  {
    match t
    case Variable(v) => if v == x then L.Variable(y) else t
    case Abstraction(v, b) => if v == x then t else L.Abstraction(v, Rename(b, x, y))
    case Application(l, r) => L.Application(Rename(l, x, y), Rename(r, x, y))
    case Named(nt) => L.Named(L.NamedTerm(nt.name, Rename(nt.term, x, y)))
    case ChurchNum(_) => t
  }

  /** No abstraction in `t` reuses a name that is already bound around it. */
  predicate NoRebinding(t: L.Term, bound: set<string>)
    decreases L.Size(t)
  {
    match t
    case Variable(_) => true
    case Abstraction(v, b) => v !in bound && NoRebinding(b, bound + {v})
    case Application(l, r) => NoRebinding(l, bound) && NoRebinding(r, bound)
    case Macro(_, _) => true
    case Named(nt) => NoRebinding(nt.term, bound)
    case ChurchNum(d) => NoRebinding(L.ChurchNumeral(d), bound)
  }

  lemma {:induction false} NoRebindingDisjoint(t: L.Term, bound: set<string>)
    requires NoRebinding(t, bound)
    ensures Binders(t) !! bound
    decreases L.Size(t)
  {
    match t
    case Variable(_) =>
    case Abstraction(v, b) => NoRebindingDisjoint(b, bound + {v});
    case Application(l, r) => NoRebindingDisjoint(l, bound); NoRebindingDisjoint(r, bound);
    case Macro(_, _) =>
    case Named(nt) => NoRebindingDisjoint(nt.term, bound);
    case ChurchNum(d) => NoRebindingDisjoint(L.ChurchNumeral(d), bound);
  }

  /** Where no name is rebound while in scope, the program's conversion is the scoped one. */
  lemma {:induction false} ConvertAgreesWithoutRebinding(t: L.Term, m: map<string, nat>, depth: nat)
    requires L.NoMacros(t) && Below(m, depth) && NoRebinding(t, m.Keys)
    ensures Convert(t, m, depth) == ConvertScoped(t, m, depth)
    decreases L.Size(t)
  {
    match t
    case Variable(_) =>
    case Abstraction(v, b) =>
      assert m[v := depth].Keys == m.Keys + {v};
      ConvertAgreesWithoutRebinding(b, m[v := depth], depth + 1);
    case Application(l, r) =>
      NoRebindingDisjoint(l, m.Keys);
      assert m - Binders(l) == m;
      ConvertAgreesWithoutRebinding(l, m, depth);
      ConvertAgreesWithoutRebinding(r, m, depth);
    case Named(nt) => ConvertAgreesWithoutRebinding(nt.term, m, depth);
    case ChurchNum(d) => ConvertAgreesWithoutRebinding(L.ChurchNumeral(d), m, depth);
  }
}
