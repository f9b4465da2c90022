/**
 * Properties of the term operations: numerals read back to their value,
 * `resolve` removes exactly the Named and numeral nodes and nothing else,
 * and linking to the registry binds exactly the free names it knows.
 */
module LambdaFacts {
  import opened Lambda
  import Text

  lemma {:induction false} ChurchCountBody(k: nat)
    ensures ChurchCount(ChurchBody(k)) == k
  {
    if k > 0 {
      ChurchCountBody(k - 1);
    }
  }

  /** Reading a numeral's encoding back gives the numeral. */
  lemma ChurchRoundTrip(n: nat)
    ensures ChurchValue(ChurchNumeral(n)) == n
  {
    ChurchCountBody(n);
  }

  /** Distinct numerals have distinct encodings. */
  lemma ChurchNumeralInjective(a: nat, b: nat)
    requires ChurchNumeral(a) == ChurchNumeral(b)
    ensures a == b
  {
    ChurchRoundTrip(a);
    ChurchRoundTrip(b);
  }

  /** `resolve` leaves a term without Named and numeral nodes unchanged. */
  lemma {:induction false} ResolveResolved(t: Term)
    requires Resolved(t)
    ensures Resolve(t) == t
    decreases Size(t)
  {
    match t
    case Abstraction(_, b) => ResolveResolved(b);
    case Application(l, r) => ResolveResolved(l); ResolveResolved(r);
    case Variable(_) =>
    case Macro(m, args) =>
      forall i | 0 <= i < |args|
        ensures Resolve(args[i]) == args[i]
      {
        ResolveResolved(args[i]);
      }
      assert ResolveAll(args) == args;
  }

  /** `resolve` is idempotent. */
  lemma ResolveIdempotent(t: Term)
    ensures Resolve(Resolve(t)) == Resolve(t)
  {
    ResolveResolved(Resolve(t));
  }

  /** A resolved term has no numeral literals left. */
  lemma {:induction false} ResolvedHasNoNumerals(t: Term)
    requires Resolved(t)
    ensures !HasChurchNums(t)
  {
    match t
    case Abstraction(_, b) => ResolvedHasNoNumerals(b);
    case Application(l, r) => ResolvedHasNoNumerals(l); ResolvedHasNoNumerals(r);
    case Variable(_) =>
    case Macro(_, args) =>
      forall i | 0 <= i < |args|
        ensures !HasChurchNums(args[i])
      {
        ResolvedHasNoNumerals(args[i]);
      }
  }

  /** `resolve` keeps the free variables: Named nodes are looked through by both, numerals are closed. */
  lemma {:induction false} ResolveKeepsFree(t: Term, y: string)
    ensures ContainsFree(Resolve(t), y) <==> ContainsFree(t, y)
    decreases Size(t)
  {
    match t
    case Abstraction(_, b) => ResolveKeepsFree(b, y);
    case Application(l, r) => ResolveKeepsFree(l, y); ResolveKeepsFree(r, y);
    case Variable(_) =>
    case Macro(_, args) =>
      forall i | 0 <= i < |args|
        ensures ContainsFree(Resolve(args[i]), y) <==> ContainsFree(args[i], y)
      {
        ResolveKeepsFree(args[i], y);
      }
    case Named(nt) => ResolveKeepsFree(nt.term, y);
    case ChurchNum(_) =>
  }

  /** Linking against an empty registry changes nothing. */
  lemma {:induction false} SetNamedTermsEmpty(t: Term, bound: seq<string>)
    ensures SetNamedTermsHelper(t, map[], bound) == t
    decreases Size(t)
  {
    match t
    case Abstraction(v, b) => SetNamedTermsEmpty(b, bound + [v]);
    case Application(l, r) => SetNamedTermsEmpty(l, bound); SetNamedTermsEmpty(r, bound);
    case Variable(_) =>
    case Macro(_, args) =>
      forall i | 0 <= i < |args|
        ensures SetNamedTermsHelper(args[i], map[], bound) == args[i]
      {
        SetNamedTermsEmpty(args[i], bound);
      }
      assert SetNamedTermsAll(args, map[], bound) == args;
    case Named(_) =>
    case ChurchNum(_) =>
  }

  /** Linking twice against the same registry is the same as linking once. */
  lemma {:induction false} SetNamedTermsIdempotent(t: Term, registry: map<string, NamedTerm>, bound: seq<string>)
    ensures SetNamedTermsHelper(SetNamedTermsHelper(t, registry, bound), registry, bound)
         == SetNamedTermsHelper(t, registry, bound)
    decreases Size(t)
  {
    match t
    case Abstraction(v, b) => SetNamedTermsIdempotent(b, registry, bound + [v]);
    case Application(l, r) =>
      SetNamedTermsIdempotent(l, registry, bound);
      SetNamedTermsIdempotent(r, registry, bound);
    case Variable(_) =>
    case Macro(_, args) =>
      var once := SetNamedTermsAll(args, registry, bound);
      forall i | 0 <= i < |args|
        ensures SetNamedTermsHelper(once[i], registry, bound) == once[i]
      {
        SetNamedTermsIdempotent(args[i], registry, bound);
      }
      assert SetNamedTermsAll(once, registry, bound) == once;
    case Named(_) =>
    case ChurchNum(_) =>
  }

  ghost predicate ClosedRegistry(registry: map<string, NamedTerm>)
  {
    forall k | k in registry :: Closed(registry[k].term) && NamedClosed(registry[k].term)
  }

  /**
   * With a registry of closed terms, a name stays free after linking exactly
   * when it was free and the registry does not know it, or an enclosing
   * binder of the context shadows it.
   */
  lemma {:induction false} SetNamedTermsFree(t: Term, registry: map<string, NamedTerm>, bound: seq<string>, y: string)
    requires ClosedRegistry(registry) && NamedClosed(t)
    ensures ContainsFree(SetNamedTermsHelper(t, registry, bound), y)
        <==> ContainsFree(t, y) && (y !in registry || y in bound)
    decreases Size(t)
  {
    match t
    case Abstraction(v, b) =>
      SetNamedTermsFree(b, registry, bound + [v], y);
      assert y in bound + [v] <==> y in bound || y == v;
    case Application(l, r) =>
      SetNamedTermsFree(l, registry, bound, y);
      SetNamedTermsFree(r, registry, bound, y);
    case Variable(n) =>
      if n !in bound && n in registry {
        assert !ContainsFree(registry[n].term, y);
      }
    case Macro(_, args) =>
      forall i | 0 <= i < |args|
        ensures ContainsFree(SetNamedTermsHelper(args[i], registry, bound), y)
            <==> ContainsFree(args[i], y) && (y !in registry || y in bound)
      {
        SetNamedTermsFree(args[i], registry, bound, y);
      }
    case Named(nt) =>
      assert !ContainsFree(nt.term, y);
    case ChurchNum(_) =>
  }

  /** Linking against a registry of closed terms keeps stored terms closed. */
  lemma {:induction false} SetNamedTermsNamedClosed(t: Term, registry: map<string, NamedTerm>, bound: seq<string>)
    requires ClosedRegistry(registry) && NamedClosed(t)
    ensures NamedClosed(SetNamedTermsHelper(t, registry, bound))
    decreases Size(t)
  {
    match t
    case Abstraction(v, b) => SetNamedTermsNamedClosed(b, registry, bound + [v]);
    case Application(l, r) =>
      SetNamedTermsNamedClosed(l, registry, bound);
      SetNamedTermsNamedClosed(r, registry, bound);
    case Variable(_) =>
    case Macro(_, args) =>
      forall i | 0 <= i < |args|
        ensures NamedClosed(SetNamedTermsHelper(args[i], registry, bound))
      {
        SetNamedTermsNamedClosed(args[i], registry, bound);
      }
    case Named(_) =>
    case ChurchNum(_) =>
  }

  /** The numeral zero prints as `\f . \x . x`. */
  lemma ShowChurchZero()
    ensures Show(ChurchNumeral(0)) == "\\f . \\x . x"
  {
  }

  /** A numeral literal prints as `$` and its decimal digits. */
  lemma ShowNumeral(n: U32)
    ensures Show(ChurchNum(n)) == "$" + Text.NatToString(n)
    ensures Show(ChurchNum(42)) == "$42"
  {
    assert Text.NatToString(42) == "42";
  }

  /** A term is bracketed exactly when it is no atom and not an application to the left of another. */
  lemma ShowWithParenthesisBare(t: Term, leftOfApplication: bool)
    ensures ShowWithParenthesis(t, leftOfApplication) == Show(t)
        <==> t.Named? || t.Variable? || t.ChurchNum? || (leftOfApplication && t.Application?)
  {
    if NeedsParenthesis(t, leftOfApplication) {
      assert |ShowWithParenthesis(t, leftOfApplication)| == |Show(t)| + 2;
    }
  }

  /**
   * Brackets are only ever added in pairs, so the parentheses of a printed
   * term balance whenever its names hold none.
   */
  lemma {:induction false} ShowBalanced(t: Term)
    requires PlainNames(t)
    ensures Text.Balanced(Show(t))
    decreases Size(t), 0
  {
    match t
    case Abstraction(v, b) =>
      ShowBalanced(b);
      Text.BalancedPlain("\\");
      Text.BalancedPlain(v);
      Text.BalancedPlain(" . ");
      Text.BalancedConcat("\\", v);
      Text.BalancedConcat("\\" + v, " . ");
      Text.BalancedConcat("\\" + v + " . ", Show(b));
    case Application(l, r) =>
      ShowWithParenthesisBalanced(l, true);
      ShowWithParenthesisBalanced(r, false);
      Text.BalancedPlain(" ");
      Text.BalancedConcat(ShowWithParenthesis(l, true), " ");
      Text.BalancedConcat(ShowWithParenthesis(l, true) + " ", ShowWithParenthesis(r, false));
    case Variable(v) => Text.BalancedPlain(v);
    case Macro(m, args) =>
      var name := Macros.Name(m);
      assert forall i | 0 <= i < |name| :: name[i] != '(' && name[i] != ')';
      ShowMacroArgsBalanced(args);
      Text.BalancedPlain("!" + name + " ");
      Text.BalancedConcat("!" + name + " ", ShowMacroArgs(args));
    case Named(nt) => Text.BalancedPlain(nt.name);
    case ChurchNum(d) =>
      Text.BalancedPlain("$");
      Text.NatToStringBalanced(d);
      Text.BalancedConcat("$", Text.NatToString(d));
  }

  lemma {:induction false} ShowWithParenthesisBalanced(t: Term, leftOfApplication: bool)
    requires PlainNames(t)
    ensures Text.Balanced(ShowWithParenthesis(t, leftOfApplication))
    decreases Size(t), 1
  {
    ShowBalanced(t);
    if NeedsParenthesis(t, leftOfApplication) {
      Text.BalancedBracketed(Show(t));
    }
  }

  lemma {:induction false} ShowMacroArgsBalanced(ts: seq<Term>)
    requires forall i | 0 <= i < |ts| :: PlainNames(ts[i])
    ensures Text.Balanced(ShowMacroArgs(ts))
    decreases SizeAll(ts), 2
  {
    if ts == [] {
      Text.BalancedPlain("");
    } else {
      assert PlainNames(ts[0]);
      assert forall i | 0 <= i < |ts[1..]| :: PlainNames(ts[1..][i]) by {
        forall i | 0 <= i < |ts[1..]| ensures PlainNames(ts[1..][i]) {
          assert ts[1..][i] == ts[i + 1];
        }
      }
      var first := if ts[0].Variable? then ts[0].name else "(" + Show(ts[0]) + ")";
      if ts[0].Variable? {
        Text.BalancedPlain(ts[0].name);
      } else {
        ShowBalanced(ts[0]);
        Text.BalancedBracketed(Show(ts[0]));
      }
      ShowMacroArgsBalanced(ts[1..]);
      Text.BalancedConcat(first, ShowMacroArgs(ts[1..]));
    }
  }

  /** A term without Named nodes trivially stores only closed terms. */
  lemma {:induction false} ResolvedNamedClosed(t: Term)
    requires Resolved(t)
    ensures NamedClosed(t)
  {
    match t
    case Abstraction(_, b) => ResolvedNamedClosed(b);
    case Application(l, r) => ResolvedNamedClosed(l); ResolvedNamedClosed(r);
    case Variable(_) =>
    case Macro(_, args) =>
      forall i | 0 <= i < |args|
        ensures NamedClosed(args[i])
      {
        ResolvedNamedClosed(args[i]);
      }
  }
}
