/**
 * The user-invokable macros (`!name` in the shell): the enumeration, its
 * `VALUES`/`SIZE` constants, the display names, name lookup with unique-prefix
 * completion, and the number of arguments each macro takes.
 */
module Macros {
  import opened Wrappers

  datatype Macro =
    | AlphaEq
    | CNormalize
    | DeBruijn
    | Debug
    | Macros
    | Normalize
    | Reduce
    | Resolve
    | Time
    | Type
    | VNormalize
    | VReduce

  /** `Macro::VALUES`: every variant, in declaration order. */
  const Values: seq<Macro> :=
    [AlphaEq, CNormalize, DeBruijn, Debug, Macros, Normalize, Reduce, Resolve, Time, Type, VNormalize, VReduce]

  /** `Macro::SIZE`, counted the way the `count!` macro does. */
  const Count: nat := 12

  /** The `Display` name of a macro: a non-empty word of lower-case letters. */
  function Name(m: Macro): (s: string)
    ensures |s| > 0 && forall i | 0 <= i < |s| :: 'a' <= s[i] <= 'z'
  {
    match m
    case AlphaEq => "alphaeq"
    case CNormalize => "cnormalize"
    case DeBruijn => "debruijn"
    case Debug => "debug"
    case Macros => "macros"
    case Normalize => "normalize"
    case Reduce => "reduce"
    case Resolve => "resolve"
    case Time => "time"
    case VNormalize => "vnormalize"
    case VReduce => "vreduce"
    case Type => "type"
  }

  /** `nargs`: AlphaEq takes two terms, Macros none, every other macro one. */
  function NArgs(m: Macro): (n: nat)
    ensures n == 2 <==> m == AlphaEq
    ensures n == 0 <==> m == Macros
    ensures m != AlphaEq && m != Macros ==> n == 1
  {
    match m
    case AlphaEq => 2
    case Macros => 0
    case _ => 1
  }

  /** The macros, in `VALUES` order, whose name starts with `s`. */
  function Candidates(s: string, ms: seq<Macro>): (r: seq<Macro>)
    ensures forall m :: m in r <==> m in ms && s <= Name(m)
    ensures |r| <= |ms|
  {
    if ms == [] then []
    else if s <= Name(ms[0]) then [ms[0]] + Candidates(s, ms[1..])
    else Candidates(s, ms[1..])
  }

  /**
   * `Macro::from_str`: nine names are matched exactly; any other string
   * selects the only macro whose name it is a prefix of, and fails when
   * there is none or more than one. Whatever it selects has a name that
   * starts with `s`.
   */
  function FromStr(s: string): (r: Option<Macro>)
    ensures r.Some? ==> s <= Name(r.value)
  {
    match s
    case "cnormalize" => Some(CNormalize)
    case "debug" => Some(Debug)
    case "macros" => Some(Macros)
    case "normalize" => Some(Normalize)
    case "reduce" => Some(Reduce)
    case "resolve" => Some(Resolve)
    case "time" => Some(Time)
    case "vnormalize" => Some(VNormalize)
    case "vreduce" => Some(VReduce)
    case _ =>
      var candidates := Candidates(s, Values);
      if |candidates| == 1 then Some(candidates[0]) else None
  }

  /** `s` is a prefix of exactly one macro name, that of `m`. */
  ghost predicate UniquePrefixOf(s: string, m: Macro)
  {
    s <= Name(m) && forall m' :: m' != m ==> !(s <= Name(m'))
  }

  predicate Distinct(ms: seq<Macro>)
  {
    forall i, j | 0 <= i < j < |ms| :: ms[i] != ms[j]
  }

  lemma ValuesComplete(m: Macro)
    ensures m in Values
  {
  }

  /** `VALUES` lists the twelve variants once each, and `SIZE` counts them. */
  lemma ValuesDistinct()
    ensures |Values| == Count
    ensures Distinct(Values)
  {
  }

  /** The first four characters of every name already tell the macros apart. */
  function Key(m: Macro): (k: string)
    ensures |k| == 4 && k <= Name(m)
  {
    Name(m)[..4]
  }

  function FromKey(k: string): Option<Macro>
  {
    match k
    case "alph" => Some(AlphaEq)
    case "cnor" => Some(CNormalize)
    case "debr" => Some(DeBruijn)
    case "debu" => Some(Debug)
    case "macr" => Some(Macros)
    case "norm" => Some(Normalize)
    case "redu" => Some(Reduce)
    case "reso" => Some(Resolve)
    case "time" => Some(Time)
    case "type" => Some(Type)
    case "vnor" => Some(VNormalize)
    case "vred" => Some(VReduce)
    case _ => None
  }

  lemma FromKeyKey(m: Macro)
    ensures FromKey(Key(m)) == Some(m)
  {
    match m
    case AlphaEq => assert Key(m) == "alph";
    case CNormalize => assert Key(m) == "cnor";
    case DeBruijn => assert Key(m) == "debr";
    case Debug => assert Key(m) == "debu";
    case Macros => assert Key(m) == "macr";
    case Normalize => assert Key(m) == "norm";
    case Reduce => assert Key(m) == "redu";
    case Resolve => assert Key(m) == "reso";
    case Time => assert Key(m) == "time";
    case Type => assert Key(m) == "type";
    case VNormalize => assert Key(m) == "vnor";
    case VReduce => assert Key(m) == "vred";
  }

  /** No macro name is a prefix of another one: the names are prefix-free. */
  lemma NamePrefixFree(m: Macro, m': Macro)
    requires Name(m) <= Name(m')
    ensures m == m'
  {
    assert Key(m) == Name(m)[..4] == Name(m')[..4] == Key(m');
    FromKeyKey(m);
    FromKeyKey(m');
  }

  /** A name in the exact-match list is the name of the only macro it prefixes. */
  lemma ExactNamesUnique(s: string, m: Macro)
    requires s in ExactNames
    requires s <= Name(m)
    ensures s == Name(m)
  {
    var m0 :| Name(m0) == s;
    NamePrefixFree(m0, m);
  }

  const ExactNames: seq<string> :=
    ["cnormalize", "debug", "macros", "normalize", "reduce", "resolve", "time", "vnormalize", "vreduce"]

  lemma ExactNamesAreNames(s: string)
    requires s in ExactNames
    ensures exists m :: Name(m) == s
  {
    if s == "cnormalize" { assert Name(CNormalize) == s; }
    else if s == "debug" { assert Name(Debug) == s; }
    else if s == "macros" { assert Name(Macros) == s; }
    else if s == "normalize" { assert Name(Normalize) == s; }
    else if s == "reduce" { assert Name(Reduce) == s; }
    else if s == "resolve" { assert Name(Resolve) == s; }
    else if s == "time" { assert Name(Time) == s; }
    else if s == "vnormalize" { assert Name(VNormalize) == s; }
    else { assert Name(VReduce) == s; }
  }

  lemma FromStrExact(s: string)
    requires s in ExactNames
    ensures FromStr(s).Some? && Name(FromStr(s).value) == s
  {
  }

  lemma FromStrOther(s: string)
    requires s !in ExactNames
    ensures FromStr(s) == (var cs := Candidates(s, Values); if |cs| == 1 then Some(cs[0]) else None)
  {
  }

  lemma {:induction false} ExactUniquePrefix(s: string, m: Macro)
    requires s in ExactNames
    ensures FromStr(s) == Some(m) <==> UniquePrefixOf(s, m)
  {
    FromStrExact(s);
    var m0 := FromStr(s).value;
    forall m' | s <= Name(m') ensures m' == m0 {
      NamePrefixFree(m0, m');
    }
  }

  lemma {:induction false} CandidatesOfUniquePrefix(s: string, m: Macro)
    requires UniquePrefixOf(s, m)
    ensures Candidates(s, Values) == [m]
  {
    var cs := Candidates(s, Values);
    ValuesComplete(m);
    ValuesDistinct();
    forall x | x in Values && s <= Name(x) ensures x == m { }
    CandidatesOnly(s, Values, m);
  }

  lemma {:induction false} UniquePrefixOfCandidates(s: string, m: Macro)
    requires Candidates(s, Values) == [m]
    ensures UniquePrefixOf(s, m)
  {
    var cs := Candidates(s, Values);
    assert m in cs;
    forall m' | m' != m ensures !(s <= Name(m')) {
      ValuesComplete(m');
      assert m' !in cs;
    }
  }

  lemma {:induction false} OtherUniquePrefix(s: string, m: Macro)
    requires s !in ExactNames
    ensures FromStr(s) == Some(m) <==> UniquePrefixOf(s, m)
  {
    var cs := Candidates(s, Values);
    FromStrOther(s);
    if FromStr(s) == Some(m) {
      assert cs == [cs[0]];
      UniquePrefixOfCandidates(s, m);
    }
    if UniquePrefixOf(s, m) {
      CandidatesOfUniquePrefix(s, m);
    }
  }

  /**
   * The lookup accepts a string exactly when it is a prefix of one macro
   * name only, and then yields that macro.
   */
  lemma FromStrUniquePrefix(s: string, m: Macro)
    ensures FromStr(s) == Some(m) <==> UniquePrefixOf(s, m)
  {
    if s in ExactNames {
      ExactUniquePrefix(s, m);
    } else {
      OtherUniquePrefix(s, m);
    }
  }

  lemma {:induction false} CandidatesNone(s: string, ms: seq<Macro>)
    requires forall x :: x in ms ==> !(s <= Name(x))
    ensures Candidates(s, ms) == []
  {
    if ms != [] {
      CandidatesNone(s, ms[1..]);
    }
  }

  lemma {:induction false} CandidatesOnly(s: string, ms: seq<Macro>, m: Macro)
    requires m in ms && Distinct(ms) && s <= Name(m)
    requires forall x :: x in ms && s <= Name(x) ==> x == m
    ensures Candidates(s, ms) == [m]
  {
    if ms[0] == m {
      assert m !in ms[1..];
      CandidatesNone(s, ms[1..]);
    } else {
      CandidatesOnly(s, ms[1..], m);
    }
  }

  /** Every macro's own name looks it up again: `from_str(m.to_string()) == m`. */
  lemma FromStrName(m: Macro)
    ensures FromStr(Name(m)) == Some(m)
  {
    forall m' | m' != m ensures !(Name(m) <= Name(m')) {
      if Name(m) <= Name(m') { NamePrefixFree(m, m'); }
    }
    FromStrUniquePrefix(Name(m), m);
  }

  /** The empty string and "de" prefix more than one name, so the lookup fails. */
  lemma AmbiguousPrefixes()
    ensures FromStr("") == None
    ensures FromStr("de") == None
  {
    assert "" <= Name(AlphaEq) && "" <= Name(Debug);
    if FromStr("") != None {
      FromStrUniquePrefix("", FromStr("").value);
    }
    assert "de" <= Name(DeBruijn) && "de" <= Name(Debug);
    if FromStr("de") != None {
      FromStrUniquePrefix("de", FromStr("de").value);
    }
  }
}
