/**
 * The parser's own logic outside the combinator grammar: folding a list of
 * terms into left-nested applications, currying the variables of an
 * abstraction, the character class of variable names, the choice between
 * two parse errors, the end-of-input check, and the display of statements.
 */
module Parsing {
  import opened Wrappers
  import L = Lambda
  import I = Interpreter

  // ---------------------------------------------------------------------
  // Applications

  /** `vec_to_application`: `t1 t2 … tn` as `((t1 t2) …) tn`; a single term as itself. */
  function VecToApplication(terms: seq<L.Term>): (t: L.Term)
    requires |terms| > 0
    ensures |terms| == 1 ==> t == terms[0]
    ensures |terms| > 1 ==> t.Application? && t.right == terms[|terms| - 1]
  {
    if |terms| == 1 then terms[0]
    else L.Application(VecToApplication(terms[..|terms| - 1]), terms[|terms| - 1])
  }

  /** The head and arguments of an application chain, left to right. */
  function Spine(t: L.Term): (ts: seq<L.Term>)
    ensures |ts| > 0 && !ts[0].Application?
  {
    if t.Application? then Spine(t.left) + [t.right] else [t]
  }

  /** Folding a list whose head is not an application, then unfolding it, gives the list back. */
  lemma {:induction false} SpineOfApplication(terms: seq<L.Term>)
    requires |terms| > 0 && !terms[0].Application?
    ensures Spine(VecToApplication(terms)) == terms
  {
    if |terms| > 1 {
      SpineOfApplication(terms[..|terms| - 1]);
      assert terms[..|terms| - 1] + [terms[|terms| - 1]] == terms;
    }
  }

  /** Every term is the fold of its own spine. */
  lemma {:induction false} ApplicationOfSpine(t: L.Term)
    ensures VecToApplication(Spine(t)) == t
  {
    if t.Application? {
      ApplicationOfSpine(t.left);
      var s := Spine(t.left) + [t.right];
      assert s[..|s| - 1] == Spine(t.left);
    }
  }

  // ---------------------------------------------------------------------
  // Abstractions

  /** `\v1 v2 … vn . b` as `\v1 . \v2 . … \vn . b`. */
  function Abstractions(variables: seq<string>, body: L.Term): L.Term
  {
    if variables == [] then body else L.Abstraction(variables[0], Abstractions(variables[1..], body))
  }

  /**
   * The nesting loop of `match_abstraction`: the last variable binds the
   * body, then each earlier variable, taken from the back, wraps the
   * abstraction built so far.
   */
  method Curry(variables: seq<string>, inner: L.Term) returns (t: L.Term)
    requires |variables| > 0
    ensures t == Abstractions(variables, inner)
  {
    var rest := variables[..|variables| - 1];
    t := L.Abstraction(variables[|variables| - 1], inner);
    assert variables[|variables| - 1..][1..] == [];
    while |rest| > 0
      invariant rest == variables[..|rest|]
      invariant t == Abstractions(variables[|rest|..], inner)
      decreases |rest|
    {
      var k := |rest|;
      assert variables[k - 1..][1..] == variables[k..];
      t := L.Abstraction(rest[k - 1], t);
      rest := rest[..k - 1];
    }
  }

  /** The first `n` binders of `t` and what lies under them, if `t` has that many leading abstractions. */
  function Uncurry(t: L.Term, n: nat): Option<(seq<string>, L.Term)>
  {
    if n == 0 then Some(([], t))
    else if !t.Abstraction? then None
    else
      match Uncurry(t.body, n - 1)
      case None => None
      case Some(p) => Some(([t.binder] + p.0, p.1))
  }

  /** Currying loses nothing: the variables and the body can be read back in order. */
  lemma {:induction false} UncurryAbstractions(variables: seq<string>, body: L.Term)
    ensures Uncurry(Abstractions(variables, body), |variables|) == Some((variables, body))
  {
    if variables != [] {
      UncurryAbstractions(variables[1..], body);
      assert [variables[0]] + variables[1..] == variables;
    }
  }

  // ---------------------------------------------------------------------
  // Variable names

  /** nom's `is_alphanumeric` on a byte: an ASCII digit or letter. */
  predicate IsAlphanumericByte(b: int)
  {
    0x30 <= b <= 0x39 || 0x41 <= b <= 0x5A || 0x61 <= b <= 0x7A
  }

  /**
   * The class `match_variable_name` accepts, as written: the character is
   * cast `as u8` first, which keeps only the low eight bits of its code.
   */
  predicate IsVariableChar(c: char)
  {
    IsAlphanumericByte(c as int % 256) || c == '-' || c == '_' || c == '\''
  }

  /** The class evidently intended: ASCII letters and digits, `-`, `_` and `'`. */
  predicate IsVariableCharAscii(c: char)
  {
    IsAlphanumericByte(c as int) || c == '-' || c == '_' || c == '\''
  }

  /** `take_while1`: the longest non-empty prefix of characters in the class, and the rest. */
  function TakeWhile1(s: string, p: char -> bool): (r: Option<(string, string)>)
    ensures r.Some? <==> |s| > 0 && p(s[0])
    ensures r.Some? ==> r.value.0 + r.value.1 == s && |r.value.0| > 0
    ensures r.Some? ==> (forall i | 0 <= i < |r.value.0| :: p(r.value.0[i]))
    ensures r.Some? ==> r.value.1 == [] || !p(r.value.1[0])
  {
    if |s| == 0 || !p(s[0]) then None
    else
      match TakeWhile1(s[1..], p)
      case None => Some(([s[0]], s[1..]))
      case Some(q) => Some(([s[0]] + q.0, q.1))
  }

  /** `match_variable_name` as written. */
  function MatchVariableName(s: string): (r: Option<(string, string)>)
    ensures r.Some? ==> forall i | 0 <= i < |r.value.0| :: IsVariableChar(r.value.0[i])
  {
    TakeWhile1(s, IsVariableChar)
  }

  /** `match_variable_name` with the intended class. */
  function MatchVariableNameAscii(s: string): (r: Option<(string, string)>)
    ensures r.Some? ==> forall i | 0 <= i < |r.value.0| :: (r.value.0[i] as int) < 128
  {
    TakeWhile1(s, IsVariableCharAscii)
  }

  /** On characters below 256 the written class and the intended one agree. */
  lemma ClassesAgreeOnBytes(c: char)
    requires (c as int) < 256
    ensures IsVariableChar(c) <==> IsVariableCharAscii(c)
  {
  }

  /**
   * 'Ł' (U+0141) has low byte 0x41, the code of 'A': the written class
   * accepts it as a one-letter variable name; the intended class does not.
   */
  lemma NonAsciiAccepted()
    ensures IsVariableChar('Ł') && !IsVariableCharAscii('Ł')
    ensures MatchVariableName("Ł") == Some(("Ł", ""))
    ensures MatchVariableNameAscii("Ł").None?
  {
    assert ('Ł' as int) % 256 == 0x41;
  }

  // ---------------------------------------------------------------------
  // Errors and the end of input

  /** A position in the input: the text still to parse, its offset and its line (from 1). */
  datatype Span = Span(fragment: string, offset: nat, line: nat)

  datatype ParseError = ParseError(span: Span, message: string)

  /** Error `a` was raised strictly later in the input than error `b`. */
  predicate Later(a: ParseError, b: ParseError)
  {
    a.span.line > b.span.line || (a.span.line == b.span.line && a.span.offset > b.span.offset)
  }

  /**
   * `ParseError::or`: keeps the error further into the input, comparing
   * lines and then offsets; on a tie the second error is kept.
   */
  function Or(a: ParseError, b: ParseError): (e: ParseError)
    ensures e == a || e == b
    ensures !Later(a, e) && !Later(b, e)
    ensures e == a <==> Later(a, b) || a == b
  {
    match if a.span.line < b.span.line then -1 else if a.span.line > b.span.line then 1 else 0
    case 0 => if a.span.offset > b.span.offset then a else b
    case 1 => a
    case _ => b
  }

  /** Combining errors is associative: a chain of alternatives keeps the last of the furthest errors. */
  lemma OrAssociative(a: ParseError, b: ParseError, c: ParseError)
    ensures Or(Or(a, b), c) == Or(a, Or(b, c))
  {
  }

  predicate IsMultispace(c: char)
  {
    c == ' ' || c == '\t' || c == '\r' || c == '\n'
  }

  function CountNewlines(s: string): nat
  {
    if s == [] then 0 else CountNewlines(s[..|s| - 1]) + (if s[|s| - 1] == '\n' then 1 else 0)
  }

  /** How many leading characters of `s` are whitespace. */
  function MultispaceLength(s: string): (n: nat)
    ensures n <= |s|
    ensures forall i | 0 <= i < n :: IsMultispace(s[i])
    ensures n < |s| ==> !IsMultispace(s[n])
  {
    if s == [] || !IsMultispace(s[0]) then 0 else 1 + MultispaceLength(s[1..])
  }

  /** The span after its first `n` characters were consumed. */
  function Advance(sp: Span, n: nat): Span
    requires n <= |sp.fragment|
  {
    Span(sp.fragment[n..], sp.offset + n, sp.line + CountNewlines(sp.fragment[..n]))
  }

  /**
   * `finish`: after skipping whitespace the input must be exhausted;
   * otherwise the error sits at the first other character and quotes the
   * remainder.
   */
  function Finish(sp: Span): (r: Result<Span, ParseError>)
    ensures r.Ok? <==> forall i | 0 <= i < |sp.fragment| :: IsMultispace(sp.fragment[i])
    ensures r.Ok? ==> r.value.fragment == [] && r.value.offset == sp.offset + |sp.fragment|
    ensures r.Err? ==> r.error.span.fragment != [] && !IsMultispace(r.error.span.fragment[0])
                       && |r.error.span.fragment| <= |sp.fragment|
                       && sp.fragment[|sp.fragment| - |r.error.span.fragment|..] == r.error.span.fragment
                       && r.error.span.offset == sp.offset + |sp.fragment| - |r.error.span.fragment|
  {
    var remErr := Advance(sp, MultispaceLength(sp.fragment));
    if remErr.fragment != [] then
      Err(ParseError(remErr, "unable to parse remainder '" + remErr.fragment + "'"))
    else
      Ok(remErr)
  }

  // ---------------------------------------------------------------------
  // Statements

  datatype Statement =
    | Assignment(name: string, term: L.Term)
    | Comment
    | Directive(directive: I.InterpreterDirective)
    | Lambda(term: L.Term)

  /** `Display`: `name := term` for an assignment, nothing for a comment, the term or directive otherwise. */
  function ShowStatement(s: Statement): (r: string)
    ensures s.Comment? ==> r == ""
    ensures s.Assignment? ==> |r| >= |s.name| + 4 && r[..|s.name| + 4] == s.name + " := "
                              && r[|s.name| + 4..] == L.Show(s.term)
    ensures s.Lambda? ==> r == L.Show(s.term)
    ensures s.Directive? ==> r == I.ShowDirective(s.directive)
  {
    match s
    case Assignment(name, term) => name + " := " + L.Show(term)
    case Comment => ""
    case Lambda(term) => L.Show(term)
    case Directive(d) => I.ShowDirective(d)
  }
}
