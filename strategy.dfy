/**
 * The three one-step reducers, the `normalize` loop that repeats one of
 * them, and the reference definitions they are proved against: `Step`, the
 * single-step beta relation (any one redex, anywhere), and `NormalForm`,
 * the terms without a redex.
 */
module Strategy {
  import opened Wrappers
  import opened Lambda
  import LambdaFacts
  import Substitution

  datatype Strategy = Applicative | Normal | CallByName

  /** `Default`: applicative order. */
  function Default(): (s: Strategy)
    ensures FromStr(Name(s)) == Some(s) && s.Applicative?
  {
    Applicative
  }

  /** The lower-case name a strategy is selected by. */
  function Name(s: Strategy): string
  {
    match s
    case Applicative => "applicative"
    case Normal => "normal"
    case CallByName => "callbyname"
  }

  /** `FromStr`: exactly the three names, anything else is an error. */
  function FromStr(s: string): (r: Option<Strategy>)
    ensures r.Some? <==> s in {"applicative", "normal", "callbyname"}
    ensures r.Some? ==> Name(r.value) == s
  {
    match s
    case "applicative" => Some(Applicative)
    case "normal" => Some(Normal)
    case "callbyname" => Some(CallByName)
    case _ => None
  }

  lemma FromStrName(s: Strategy)
    ensures FromStr(Name(s)) == Some(s)
  {
  }

  // ---------------------------------------------------------------------
  // Redexes

  /**
   * A term that, on the left of an application, forms a redex: an
   * abstraction, a Named node storing an abstraction, or a numeral (whose
   * expansion is an abstraction).
   */
  predicate IsHead(l: Term)
  {
    l.Abstraction? || (l.Named? && l.named.term.Abstraction?) || l.ChurchNum?
  }

  /**
   * The contractum of the redex `l r`: the head's body with its binder
   * replaced by `r`, using the program's `Substitute` (which can capture a
   * free variable of the body, see `Substitution.SubstituteCaptures`). It
   * introduces no free variable and keeps stored terms closed.
   */
  function Contract(l: Term, r: Term): (u: Term)
    requires IsHead(l)
    ensures NamedClosed(l) && NamedClosed(r) ==> NamedClosed(u)
    ensures NamedClosed(l) ==> forall y | ContainsFree(u, y) :: ContainsFree(l, y) || ContainsFree(r, y)
  {
    match l
    case Abstraction(v, b) =>
      Substitution.SubstituteClosedFreeVars(b, v, r);
      Substitute(b, v, r)
    case Named(nt) =>
      assert NamedClosed(l) ==> NamedClosed(nt.term) && NamedClosed(nt.term.body);
      assert forall y :: ContainsFree(l, y) == ContainsFree(nt.term, y);
      Substitution.SubstituteClosedFreeVars(nt.term.body, nt.term.binder, r);
      Substitute(nt.term.body, nt.term.binder, r)
    case ChurchNum(d) =>
      LambdaFacts.ResolvedNamedClosed(ChurchNumeral(d));
      assert ChurchNumeral(d) == Abstraction("f", Abstraction("x", ChurchBody(d)));
      assert forall y | y != "f" :: !ContainsFree(Abstraction("x", ChurchBody(d)), y);
      Substitution.SubstituteClosedFreeVars(Abstraction("x", ChurchBody(d)), "f", r);
      Substitute(Abstraction("x", ChurchBody(d)), "f", r)
  }

  // ---------------------------------------------------------------------
  // The reducers

  /** `reduce_normal`: the leftmost-outermost redex, also under binders. */
  function ReduceNormal(t: Term): (o: Option<Term>)
    ensures o.None? <==> NormalForm(t)
    decreases Size(t)
  {
    match t
    case Abstraction(v, b) =>
      (match ReduceNormal(b)
       case Some(b') => Some(Abstraction(v, b'))
       case None => None)
    case Application(l, r) =>
      if IsHead(l) then Some(Contract(l, r))
      else
        (match ReduceNormal(l)
         case Some(l') => Some(Application(l', r))
         case None =>
           (match ReduceNormal(r)
            case Some(r') => Some(Application(l, r'))
            case None => None))
    case Variable(_) => None
    case Macro(_, _) => None
    case Named(nt) => ReduceNormal(nt.term)
    case ChurchNum(d) => ChurchNumeralNormal(d); ReduceNormal(ChurchNumeral(d))
  }

  /**
   * `reduce_applicative`: an abstraction-headed redex is contracted only
   * once its body and its argument are irreducible; a Named- or
   * numeral-headed redex is contracted at once.
   */
  function ReduceApplicative(t: Term): (o: Option<Term>)
    ensures o.None? <==> NormalForm(t)
    decreases Size(t)
  {
    match t
    case Abstraction(v, b) =>
      (match ReduceApplicative(b)
       case Some(b') => Some(Abstraction(v, b'))
       case None => None)
    case Application(l, r) =>
      var contractNow :=
        match l
        case Abstraction(_, b) =>
          assert Size(b) < Size(l);
          ReduceApplicative(b).None? && ReduceApplicative(r).None?
        case _ => IsHead(l);
      if contractNow then
        Some(Contract(l, r))
      else
        (match ReduceApplicative(l)
         case Some(l') => Some(Application(l', r))
         case None =>
           (match ReduceApplicative(r)
            case Some(r') => Some(Application(l, r'))
            case None => None))
    case Variable(_) => None
    case Macro(_, _) => None
    case Named(nt) => ReduceApplicative(nt.term)
    case ChurchNum(d) => ChurchNumeralNormal(d); ReduceApplicative(ChurchNumeral(d))
  }

  /**
   * `reduce_cbn`: an abstraction is irreducible; an application is reduced
   * like in normal order, its children with `reduce_normal`; a Named node
   * or numeral is reduced with `reduce_normal` too.
   */
  function ReduceCbn(t: Term): (o: Option<Term>)
    ensures o == (if t.Abstraction? then None else ReduceNormal(t))
    ensures o.None? <==> WeakNormalForm(t)
  {
    match t
    case Abstraction(_, _) => None
    case Application(l, r) =>
      if IsHead(l) then Some(Contract(l, r))
      else
        (match ReduceNormal(l)
         case Some(l') => Some(Application(l', r))
         case None =>
           (match ReduceNormal(r)
            case Some(r') => Some(Application(l, r'))
            case None => None))
    case Variable(_) => None
    case Macro(_, _) => None
    case Named(nt) => ReduceNormal(nt.term)
    case ChurchNum(d) => ChurchNumeralNormal(d); ReduceNormal(ChurchNumeral(d))
  }

  /** `reduce`: one step of the chosen strategy, none exactly on the strategy's normal forms. */
  function Reduce(s: Strategy, t: Term): (o: Option<Term>)
    ensures o.None? <==> (if s.CallByName? then WeakNormalForm(t) else NormalForm(t))
  {
    match s
    case Applicative => ReduceApplicative(t)
    case Normal => ReduceNormal(t)
    case CallByName => ReduceCbn(t)
  }

  // ---------------------------------------------------------------------
  // Reference definitions

  /** No redex anywhere, also inside stored named terms. */
  predicate NormalForm(t: Term)
    decreases Size(t)
  {
    match t
    case Abstraction(_, b) => NormalForm(b)
    case Application(l, r) => !IsHead(l) && NormalForm(l) && NormalForm(r)
    case Variable(_) => true
    case Macro(_, _) => true
    case Named(nt) => NormalForm(nt.term)
    case ChurchNum(_) => true
  }

  /** No redex outside abstractions. */
  predicate WeakNormalForm(t: Term)
  {
    match t
    case Abstraction(_, _) => true
    case Application(l, r) => !IsHead(l) && NormalForm(l) && NormalForm(r)
    case Variable(_) => true
    case Macro(_, _) => true
    case Named(nt) => NormalForm(nt.term)
    case ChurchNum(_) => true
  }

  lemma {:induction false} ChurchBodyNormal(k: nat)
    ensures NormalForm(ChurchBody(k))
  {
    if k > 0 {
      ChurchBodyNormal(k - 1);
    }
  }

  /** A numeral's expansion contains no redex. */
  lemma ChurchNumeralNormal(d: nat)
    ensures NormalForm(ChurchNumeral(d))
  {
    ChurchBodyNormal(d);
  }

  /**
   * `t` reduces to `u` by contracting one redex: the binder of an
   * abstraction and the untouched child of an application stay as they are.
   */
  ghost predicate Step(t: Term, u: Term)
    decreases Size(t)
  {
    match t
    case Abstraction(v, b) => u.Abstraction? && u.binder == v && Step(b, u.body)
    case Application(l, r) =>
      (IsHead(l) && u == Contract(l, r))
      || (u.Application? && Step(l, u.left) && u.right == r)
      || (u.Application? && u.left == l && Step(r, u.right))
    case Variable(_) => false
    case Macro(_, _) => false
    case Named(nt) => Step(nt.term, u)
    case ChurchNum(d) => Step(ChurchNumeral(d), u)
  }

  // ---------------------------------------------------------------------
  // The normalize loop

  /** The term reached after `k` successful steps, if there are that many. */
  function ReduceSteps(s: Strategy, t: Term, k: nat): Option<Term>
    decreases k
  {
    if k == 0 then Some(t)
    else
      match Reduce(s, t)
      case None => None
      case Some(u) => ReduceSteps(s, u, k - 1)
  }

  /**
   * `normalize`: reduces until the strategy finds no redex and counts the
   * steps. The loop of the program need not stop; here it gives up with
   * `None` once `fuel` steps have been taken and a further step exists.
   */
  method Normalize(s: Strategy, t: Term, fuel: nat) returns (result: Option<Term>, n: nat)
    ensures n <= fuel
    ensures result.Some? ==> ReduceSteps(s, t, n) == result && Reduce(s, result.value).None?
    ensures result.None? ==> n == fuel && ReduceSteps(s, t, fuel + 1).Some?
  {
    var current := t;
    n := 0;
    while true
      invariant n <= fuel
      invariant ReduceSteps(s, t, n) == Some(current)
      decreases fuel - n
    {
      var next := Reduce(s, current);
      if next.None? {
        return Some(current), n;
      }
      if n == fuel {
        StepsExtend(s, t, n, current);
        return None, n;
      }
      StepsExtend(s, t, n, current);
      current := next.value;
      n := n + 1;
    }
  }

  /** One more successful step extends a run of `k` steps. */
  lemma {:induction false} StepsExtend(s: Strategy, t: Term, k: nat, u: Term)
    requires ReduceSteps(s, t, k) == Some(u) && Reduce(s, u).Some?
    ensures ReduceSteps(s, t, k + 1) == Reduce(s, u)
    decreases k
  {
    if k > 0 {
      StepsExtend(s, Reduce(s, t).value, k - 1, u);
    }
  }
}
