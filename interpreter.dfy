/**
 * The interpreter's own state: whether numerals are enabled, the registry
 * of named terms, and the reduction strategy, with the `@set` directive
 * that changes the latter two and the processing every parsed term goes
 * through before it is stored or evaluated.
 */
module Interpreter {
  import opened Wrappers
  import L = Lambda
  import S = Strategy
  import Errors

  datatype InterpreterDirective =
    | Echo(msg: string)
    | Include(file: string)
    | Set(key: string, value: string)
    | UseStd

  /** `Display`: the directive as it is written, `@` and its keyword first; the arguments can be read back. */
  function ShowDirective(d: InterpreterDirective): (s: string)
    ensures d.Echo? ==> |s| == |d.msg| + 8 && s[..7] == "@echo \"" && s[7..|s| - 1] == d.msg && s[|s| - 1] == '"'
    ensures d.Include? ==> |s| == |d.file| + 11 && s[..10] == "@include \"" && s[10..|s| - 1] == d.file && s[|s| - 1] == '"'
    ensures d.Set? ==> |s| == |d.key| + |d.value| + 6 && s[..5] == "@set " && s[5..5 + |d.key|] == d.key
                       && s[|s| - |d.value|..] == d.value
    ensures d.UseStd? ==> s == "@usestd"
  {
    match d
    case Echo(msg) => "@echo \"" + msg + "\""
    case Set(key, value) => "@set " + key + " " + value
    case Include(file) => "@include \"" + file + "\""
    case UseStd => "@usestd"
  }

  /** `str::parse::<bool>`: exactly "true" and "false". */
  function ParseBool(s: string): (r: Option<bool>)
    ensures r.Some? <==> s == "true" || s == "false"
    ensures r.Some? ==> (r.value <==> s == "true")
  {
    if s == "true" then Some(true) else if s == "false" then Some(false) else None
  }

  class Interpreter {
    var churchNumEnabled: bool
    var namedTerms: map<string, L.NamedTerm>
    var strategy: S.Strategy

    /** `Interpreter::new`: numerals off, no named terms, the default strategy. */
    constructor ()
      ensures !churchNumEnabled && namedTerms == map[] && strategy == S.Default()
    {
      churchNumEnabled := false;
      namedTerms := map[];
      strategy := S.Default();
    }

    method SetChurchNumEnabled(b: bool)
      modifies this
      ensures churchNumEnabled == b
      ensures namedTerms == old(namedTerms) && strategy == old(strategy)
    {
      churchNumEnabled := b;
    }

    method SetStrategy(s: S.Strategy)
      modifies this
      ensures strategy == s
      ensures namedTerms == old(namedTerms) && churchNumEnabled == old(churchNumEnabled)
    {
      strategy := s;
    }

    /**
     * `set`: key "strategy" takes a strategy name, key "numerals" takes
     * "true" or "false"; a value that does not parse is a SetValueError and
     * any other key a SetKeyError, and an error changes nothing.
     */
    method SetOption(key: string, value: string) returns (r: Result<(), Errors.LashError>)
      modifies this
      ensures namedTerms == old(namedTerms)
      ensures key == "strategy" && S.FromStr(value).Some? ==>
                r.Ok? && strategy == S.FromStr(value).value && churchNumEnabled == old(churchNumEnabled)
      ensures key == "numerals" && ParseBool(value).Some? ==>
                r.Ok? && churchNumEnabled == ParseBool(value).value && strategy == old(strategy)
      ensures (key == "strategy" && S.FromStr(value).None?) || (key == "numerals" && ParseBool(value).None?) ==>
                r == Err(Errors.NewSetValueError(value))
      ensures key != "strategy" && key != "numerals" ==> r == Err(Errors.NewSetKeyError(key))
      ensures r.Err? ==> strategy == old(strategy) && churchNumEnabled == old(churchNumEnabled)
    {
      r := Ok(());
      match key
      case "strategy" =>
        var strat := S.FromStr(value);
        if strat.None? {
          return Err(Errors.NewSetValueError(value));
        }
        SetStrategy(strat.value);
      case "numerals" =>
        var b := ParseBool(value);
        if b.None? {
          return Err(Errors.NewSetValueError(value));
        }
        SetChurchNumEnabled(b.value);
      case _ =>
        return Err(Errors.NewSetKeyError(key));
    }

    /**
     * `process_lambda_term`: a term with numerals is refused while they are
     * disabled; otherwise its free variables are linked to the registry.
     * The macro evaluation that follows is not part of this model.
     */
    method ProcessLambdaTerm(t: L.Term) returns (r: Result<L.Term, Errors.LashError>)
      ensures !churchNumEnabled && L.HasChurchNums(t) ==> r == Err(Errors.NewChurchNumError())
      ensures churchNumEnabled || !L.HasChurchNums(t) ==> r == Ok(L.SetNamedTerms(t, namedTerms))
    {
      if !churchNumEnabled && L.HasChurchNums(t) {
        return Err(Errors.NewChurchNumError());
      }
      r := Ok(L.SetNamedTerms(t, namedTerms));
    }

    /**
     * An assignment statement: the processed term is stored under its name,
     * replacing any earlier entry and leaving every other entry alone; a
     * refused term stores nothing.
     */
    method Assign(name: string, t: L.Term) returns (r: Result<L.Term, Errors.LashError>)
      modifies this
      ensures strategy == old(strategy) && churchNumEnabled == old(churchNumEnabled)
      ensures r.Ok? ==> namedTerms == old(namedTerms)[name := L.NamedTerm(name, r.value)]
      ensures r.Err? ==> namedTerms == old(namedTerms)
      ensures r.Ok? <==> old(churchNumEnabled) || !L.HasChurchNums(t)
      ensures r.Ok? ==> r.value == L.SetNamedTerms(t, old(namedTerms))
    {
      r := ProcessLambdaTerm(t);
      if r.Ok? {
        namedTerms := namedTerms[name := L.NamedTerm(name, r.value)];
      }
    }
  }
}
