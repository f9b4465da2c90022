/**
 * The shell's session state: the history of entered lines, the
 * configuration and the user variables. The line kinds, parser kinds and
 * legacy strategy type this file refers to are not part of the crate;
 * they are given the minimal shape the code here relies on.
 */
module State {
  import opened Wrappers
  import L = Lambda
  import S = Strategy

  /** The kind of an entered line: a lambda term, an error, or any other kind. */
  datatype LineType = Lambda(term: L.Term) | Error(message: string) | Other

  datatype Parser = DefaultParser

  datatype Config = Config(parser: Parser, strategy: S.Strategy, interactive: bool)

  datatype HistoryEntry = HistoryEntry(input: string, parsed: LineType, output: string,
                                       nbeta: nat, varSubs: nat, biSubs: nat)

  /** `Config::default`: the default parser, normal order, interactive. */
  function DefaultConfig(): (c: Config)
    ensures c.parser == DefaultParser && c.strategy == S.Normal && c.interactive
  {
    Config(DefaultParser, S.Normal, true)
  }

  /**
   * `HistoryEntry::to_string`: a lambda line shows its input and, on the
   * next line, `=>` and the output; an error line the output in brackets
   * after the input; any other line its input alone.
   */
  function EntryToString(e: HistoryEntry): (s: string)
    ensures |s| >= |e.input| && s[..|e.input|] == e.input
    ensures e.parsed.Lambda? ==> s[|e.input|..] == "\n    => " + e.output
    ensures e.parsed.Error? ==> s[|e.input|..] == " [" + e.output + "]"
    ensures e.parsed.Other? ==> s == e.input
  {
    match e.parsed
    case Lambda(_) => e.input + "\n    => " + e.output
    case Error(_) => e.input + " [" + e.output + "]"
    case Other => e.input
  }

  /** The index of the last lambda line of `history`, if there is one. */
  function LastLambdaIndex(history: seq<HistoryEntry>): (r: Option<nat>)
    ensures r.Some? ==> r.value < |history| && history[r.value].parsed.Lambda?
    ensures r.Some? ==> forall k | r.value < k < |history| :: !history[k].parsed.Lambda?
    ensures r.None? ==> forall k | 0 <= k < |history| :: !history[k].parsed.Lambda?
  {
    if history == [] then None
    else if history[|history| - 1].parsed.Lambda? then Some(|history| - 1)
    else LastLambdaIndex(history[..|history| - 1])
  }

  class State {
    var history: seq<HistoryEntry>
    var config: Config
    var variables: map<string, string>

    /** `State::init`: no history, the default configuration, no variables. */
    constructor Init()
      ensures history == [] && config == DefaultConfig() && variables == map[]
    {
      history := [];
      config := DefaultConfig();
      variables := map[];
    }

    /** `add_variable`: sets one variable, replacing its old value, and nothing else. */
    method AddVariable(name: string, value: string)
      modifies this
      ensures variables == old(variables)[name := value]
      ensures history == old(history) && config == old(config)
    {
      variables := variables[name := value];
    }

    /**
     * `last_lambda`: scans the history from the newest entry back and
     * returns the first lambda line it meets.
     */
    method LastLambda() returns (r: Option<HistoryEntry>)
      ensures r == (match LastLambdaIndex(history) case Some(k) => Some(history[k]) case None => None)
    {
      if |history| > 0 {
        var lastIndex := |history| - 1;
        for i := 0 to |history|
          invariant forall k | lastIndex - i < k < |history| :: !history[k].parsed.Lambda?
        {
          var entry := history[lastIndex - i];
          if entry.parsed.Lambda? {
            LastLambdaIndexIs(history, lastIndex - i);
            return Some(entry);
          }
        }
      }
      LastLambdaIndexIs(history, -1);
      r := None;
    }
  }

  /** When entry `k` is a lambda line and no later one is, `LastLambdaIndex` finds `k`; with `k == -1`, none. */
  lemma {:induction false} LastLambdaIndexIs(history: seq<HistoryEntry>, k: int)
    requires -1 <= k < |history|
    requires k >= 0 ==> history[k].parsed.Lambda?
    requires forall j | k < j < |history| :: !history[j].parsed.Lambda?
    ensures LastLambdaIndex(history) == if k >= 0 then Some(k as nat) else None
  {
    if history != [] && k < |history| - 1 {
      LastLambdaIndexIs(history[..|history| - 1], k);
    }
  }
}
