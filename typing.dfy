/**
 * Simple-type inference by unification. Type variables are mutable cells,
 * here an arena `cells` indexed by `TypeVar`: a cell is `Unbound` (with a
 * generated name and a level) or a `Link` to the type it was unified with.
 * A ghost `rank` per cell witnesses that following links never cycles.
 */
module Typing {
  import opened Wrappers
  import L = Lambda
  import Text

  datatype Type = TypeVar(cell: nat) | TypeArrow(from: Type, to: Type)

  datatype TypeVariable = Unbound(name: string, level: nat) | Link(target: Type)

  // ---------------------------------------------------------------------
  // Names

  /** `gensym`: "A" to "Z" for the first 26 counters, then "T" and the counter. */
  function GensymName(n: nat): (s: string)
    ensures n < 26 ==> |s| == 1 && 'A' <= s[0] <= 'Z'
    ensures n >= 26 ==> |s| >= 3 && s[0] == 'T'
  {
    if n < 26 then [(65 + n) as char] else "T" + Text.NatToString(n)
  }

  /** Generated names never repeat. */
  lemma GensymInjective(m: nat, n: nat)
    requires GensymName(m) == GensymName(n)
    ensures m == n
  {
    if m >= 26 && n >= 26 {
      assert GensymName(m)[1..] == Text.NatToString(m);
      assert GensymName(n)[1..] == Text.NatToString(n);
      Text.NatToStringInjective(m, n);
    } else if m < 26 && n < 26 {
      assert GensymName(m)[0] == GensymName(n)[0];
    }
  }

  lemma GensymExamples()
    ensures GensymName(0) == "A" && GensymName(25) == "Z" && GensymName(26) == "T26"
  {
    assert Text.NatToString(26) == "26";
  }

  // ---------------------------------------------------------------------
  // Measures and well-formedness of the arena

  function TypeSize(t: Type): nat
  {
    match t
    case TypeVar(_) => 1
    case TypeArrow(a, b) => 1 + TypeSize(a) + TypeSize(b)
  }

  /** Every cell index in `t` is below `n`. */
  predicate Within(n: nat, t: Type)
  {
    match t
    case TypeVar(j) => j < n
    case TypeArrow(a, b) => Within(n, a) && Within(n, b)
  }

  lemma WithinGrows(n: nat, n': nat, t: Type)
    requires Within(n, t) && n <= n'
    ensures Within(n', t)
  {
  }

  function Max(a: nat, b: nat): nat
  {
    if a < b then b else a
  }

  /** One more than the highest rank of a cell `t` mentions directly. */
  function MaxRank(rank: seq<nat>, t: Type): nat
  {
    match t
    case TypeVar(j) => if j < |rank| then rank[j] + 1 else 0
    case TypeArrow(a, b) => Max(MaxRank(rank, a), MaxRank(rank, b))
  }

  /** A link points at a type whose cells all have a lower rank: links never cycle. */
  ghost predicate Ranked(cells: seq<TypeVariable>, rank: seq<nat>)
  {
    |cells| == |rank|
    && forall i | 0 <= i < |cells| && cells[i].Link? :: MaxRank(rank, cells[i].target) <= rank[i]
  }

  /** The cells `TypeMachine` keeps: named by their index, at level 1, links within the arena. */
  ghost predicate WellFormed(cells: seq<TypeVariable>, rank: seq<nat>)
  {
    Ranked(cells, rank)
    && (forall i | 0 <= i < |cells| && cells[i].Unbound? :: cells[i] == Unbound(GensymName(i), 1))
    && (forall i | 0 <= i < |cells| && cells[i].Link? :: Within(|cells|, cells[i].target))
  }

  /** Cells only ever go from unbound to linked; new cells may be added at the end. */
  ghost predicate Refines(cells: seq<TypeVariable>, cells': seq<TypeVariable>)
  {
    |cells| <= |cells'|
    && forall i | 0 <= i < |cells| :: cells'[i] == cells[i] || (cells[i].Unbound? && cells'[i].Link?)
  }

  function UnboundCells(cells: seq<TypeVariable>): set<nat>
  {
    set i | 0 <= i < |cells| && cells[i].Unbound?
  }

  // ---------------------------------------------------------------------
  // Functions over the arena

  /** `inst`: the type with every link followed. */
  function Inst(cells: seq<TypeVariable>, ghost rank: seq<nat>, t: Type): (u: Type)
    requires Ranked(cells, rank)
    ensures Unlinked(cells, u)
    ensures Within(|cells|, t) && WellFormed(cells, rank) ==> Within(|cells|, u)
    decreases MaxRank(rank, t), t
  {
    match t
    case TypeVar(j) => if j < |cells| && cells[j].Link? then Inst(cells, rank, cells[j].target) else t
    case TypeArrow(a, b) => TypeArrow(Inst(cells, rank, a), Inst(cells, rank, b))
  }

  /** No variable of `t` is a linked cell. */
  predicate Unlinked(cells: seq<TypeVariable>, t: Type)
  {
    match t
    case TypeVar(j) => !(j < |cells| && cells[j].Link?)
    case TypeArrow(a, b) => Unlinked(cells, a) && Unlinked(cells, b)
  }

  /** The size of `t` with links followed. */
  ghost function Weight(cells: seq<TypeVariable>, rank: seq<nat>, t: Type): nat
    requires Ranked(cells, rank)
    decreases MaxRank(rank, t), t
  {
    match t
    case TypeVar(j) => if j < |cells| && cells[j].Link? then 1 + Weight(cells, rank, cells[j].target) else 1
    case TypeArrow(a, b) => 1 + Weight(cells, rank, a) + Weight(cells, rank, b)
  }

  /** Cell `i` can be reached from `t` through arrows and links. */
  ghost predicate OccursIn(cells: seq<TypeVariable>, rank: seq<nat>, i: nat, t: Type)
    requires Ranked(cells, rank)
    decreases MaxRank(rank, t), t
  {
    match t
    case TypeVar(j) => j == i || (j < |cells| && cells[j].Link? && OccursIn(cells, rank, i, cells[j].target))
    case TypeArrow(a, b) => OccursIn(cells, rank, i, a) || OccursIn(cells, rank, i, b)
  }

  /**
   * The derived `PartialEq` on types: two variables are equal when their
   * cells' contents are (name and level, or equal link targets), not when
   * they are the same cell.
   */
  predicate TypeEq(cells: seq<TypeVariable>, ghost rank: seq<nat>, t1: Type, t2: Type)
    requires Ranked(cells, rank)
    decreases MaxRank(rank, t1) + MaxRank(rank, t2), TypeSize(t1) + TypeSize(t2)
  {
    match (t1, t2)
    case (TypeVar(i), TypeVar(j)) =>
      if i < |cells| && j < |cells| then
        match (cells[i], cells[j])
        case (Unbound(n1, l1), Unbound(n2, l2)) => n1 == n2 && l1 == l2
        case (Link(x), Link(y)) => TypeEq(cells, rank, x, y)
        case _ => false
      else i == j
    case (TypeArrow(a1, b1), TypeArrow(a2, b2)) => TypeEq(cells, rank, a1, a2) && TypeEq(cells, rank, b1, b2)
    case _ => false
  }

  /** `Display` for types: a variable shows its cell (its name, or the linked type), an arrow `(a -> b)`. */
  function ShowType(cells: seq<TypeVariable>, ghost rank: seq<nat>, t: Type): string
    requires Ranked(cells, rank)
    decreases MaxRank(rank, t), t
  {
    match t
    case TypeVar(j) =>
      if j < |cells| then
        match cells[j]
        case Unbound(name, _) => name
        case Link(target) => ShowType(cells, rank, target)
      else GensymName(j)
    case TypeArrow(a, b) => "(" + ShowType(cells, rank, a) + " -> " + ShowType(cells, rank, b) + ")"
  }

  /** The display of a link-free type: each variable by its generated name. */
  function ShowPlain(t: Type): string
  {
    match t
    case TypeVar(j) => GensymName(j)
    case TypeArrow(a, b) => "(" + ShowPlain(a) + " -> " + ShowPlain(b) + ")"
  }

  // ---------------------------------------------------------------------
  // The typing judgement inference is sound for

  /** Simple types: `t` has type `ty` when its free variables have the types `env` gives them. */
  ghost predicate Typed(env: map<string, Type>, t: L.Term, ty: Type)
    decreases L.Size(t)
  {
    match t
    case Variable(x) => x in env && env[x] == ty
    case Abstraction(x, b) => ty.TypeArrow? && Typed(env[x := ty.from], b, ty.to)
    case Application(l, r) => exists a :: Typed(env, l, TypeArrow(a, ty)) && Typed(env, r, a)
    case Macro(_, _) => false
    case Named(nt) => Typed(env, nt.term, ty)
    case ChurchNum(d) => Typed(env, L.ChurchNumeral(d), ty)
  }

  ghost function InstEnv(cells: seq<TypeVariable>, rank: seq<nat>, env: map<string, Type>): map<string, Type>
    requires Ranked(cells, rank)
  {
    map x | x in env :: Inst(cells, rank, env[x])
  }

  predicate EnvWithin(n: nat, env: map<string, Type>)
  {
    forall x | x in env :: Within(n, env[x])
  }

  /** `t` is made of variables and abstractions only, looking through named terms. */
  predicate ApplicationFree(t: L.Term)
    decreases L.Size(t)
  {
    match t
    case Variable(_) => true
    case Abstraction(_, b) => ApplicationFree(b)
    case Named(nt) => ApplicationFree(nt.term)
    case Application(_, _) => false
    case Macro(_, _) => false
    case ChurchNum(_) => false
  }

  // ---------------------------------------------------------------------
  // The machine

  function Min(a: nat, b: nat): nat
  {
    if a < b then a else b
  }

  class TypeMachine {
    var gensymCounter: nat
    var currentLevel: nat
    var cells: seq<TypeVariable>
    ghost var rank: seq<nat>

    ghost predicate Valid()
      reads this
    {
      gensymCounter == |cells| && currentLevel == 1 && WellFormed(cells, rank)
    }

    /** `TypeMachine::new`: counter 0, level 1, no cells. */
    constructor ()
      ensures Valid() && cells == [] && gensymCounter == 0 && currentLevel == 1
    {
      gensymCounter := 0;
      currentLevel := 1;
      cells := [];
      rank := [];
    }

    /** `gensym`: the name for the current counter, which then goes up by one. */
    method Gensym() returns (name: string)
      modifies this
      ensures name == GensymName(old(gensymCounter))
      ensures gensymCounter == old(gensymCounter) + 1
      ensures cells == old(cells) && rank == old(rank) && currentLevel == old(currentLevel)
    {
      var n := gensymCounter;
      gensymCounter := gensymCounter + 1;
      if n < 26 {
        name := [(65 + n) as char];
      } else {
        name := "T" + Text.NatToString(n);
      }
    }

    /** `newvar`: a fresh unbound cell at the current level. */
    method NewVar() returns (t: Type)
      requires Valid()
      modifies this
      ensures Valid()
      ensures t == TypeVar(|old(cells)|)
      ensures cells == old(cells) + [Unbound(GensymName(|old(cells)|), 1)]
      ensures rank[..|old(cells)|] == old(rank)
    {
      ghost var oldRank := rank;
      var name := Gensym();
      cells := cells + [Unbound(name, currentLevel)];
      rank := rank + [0];
      forall k | 0 <= k < |cells| - 1 && cells[k].Link?
        ensures MaxRank(rank, cells[k].target) <= rank[k]
      {
        MaxRankExtends(oldRank, rank, cells[k].target);
      }
      forall k | 0 <= k < |cells| - 1 && cells[k].Link?
        ensures Within(|cells|, cells[k].target)
      {
        WithinGrows(|cells| - 1, |cells|, cells[k].target);
      }
      t := TypeVar(|cells| - 1);
    }

    /**
     * `occurs`: fails when cell `i` is reachable from `t`; every other
     * unbound cell it meets gets the smaller of the two levels (always 1,
     * so the cells stay as they are).
     */
    method Occurs(i: nat, t: Type) returns (r: Result<(), string>)
      requires Valid() && i < |cells| && cells[i].Unbound? && Within(|cells|, t)
      modifies this
      ensures Valid()
      ensures cells == old(cells) && rank == old(rank) && gensymCounter == old(gensymCounter)
      ensures r.Ok? <==> !OccursIn(cells, rank, i, t)
      decreases MaxRank(rank, t), t
    {
      match t
      case TypeVar(j) =>
        if cells[j] == cells[i] {
          GensymInjective(i, j);
          r := Err("occurs check failed - " + cells[i].name + " == " + cells[j].name);
        } else if cells[j].Unbound? {
          var minLevel := Min(cells[j].level, cells[i].level);
          cells := cells[j := Unbound(cells[j].name, minLevel)];
          r := Ok(());
        } else {
          r := Occurs(i, cells[j].target);
        }
      case TypeArrow(a, b) =>
        r := Occurs(i, a);
        if r.Ok? {
          r := Occurs(i, b);
        }
    }

    /** Links unbound cell `i` to `t`, re-ranking the cells that reach `i`. */
    method Bind(i: nat, t: Type)
      requires Valid() && i < |cells| && cells[i].Unbound? && Within(|cells|, t)
      requires !OccursIn(cells, rank, i, t)
      modifies this
      ensures Valid()
      ensures cells == old(cells)[i := Link(t)] && gensymCounter == old(gensymCounter)
      ensures UnboundCells(cells) == UnboundCells(old(cells)) - {i}
    {
      ghost var rank' := Rerank(cells, rank, i, MaxRank(rank, t) + 1);
      BindRanked(cells, rank, i, t);
      cells := cells[i := Link(t)];
      rank := rank';
    }

    /**
     * `unify`: equal types unify at once; a link on the left, then on the
     * right, is followed; an unbound variable on the left, then on the
     * right, is linked to the other side after the occurs check; two
     * arrows unify their arguments, then their results. Every type is a
     * variable or an arrow, so the final "unable to unify" error of the
     * program cannot be reached and has no branch here.
     */
    method Unify(t1: Type, t2: Type) returns (r: Result<(), string>)
      requires Valid() && Within(|cells|, t1) && Within(|cells|, t2)
      modifies this
      ensures Valid()
      ensures |cells| == |old(cells)| && gensymCounter == old(gensymCounter)
      ensures Refines(old(cells), cells)
      ensures UnboundCells(cells) <= UnboundCells(old(cells))
      ensures UnboundCells(cells) == UnboundCells(old(cells)) ==> cells == old(cells) && rank == old(rank)
      ensures r.Ok? ==> Inst(cells, rank, t1) == Inst(cells, rank, t2)
      ensures t1.TypeVar? && old(cells)[t1.cell].Unbound? && !OccursIn(old(cells), old(rank), t1.cell, t2) ==> r.Ok?
      ensures t2.TypeVar? && old(cells)[t2.cell].Unbound? && !OccursIn(old(cells), old(rank), t2.cell, t1) ==> r.Ok?
      ensures TypeEq(old(cells), old(rank), t1, t2) ==> r.Ok? && cells == old(cells) && rank == old(rank)
      decreases |UnboundCells(cells)|, Weight(cells, rank, t1) + Weight(cells, rank, t2)
    {
      if TypeEq(cells, rank, t1, t2) {
        TypeEqSound(cells, rank, t1, t2);
        return Ok(());
      }
      if t1.TypeVar? && cells[t1.cell].Link? {
        r := Unify(cells[t1.cell].target, t2);
        return;
      }
      if t2.TypeVar? && cells[t2.cell].Link? {
        r := Unify(t1, cells[t2.cell].target);
        return;
      }
      if t1.TypeVar? {
        r := Occurs(t1.cell, t2);
        if r.Ok? {
          Bind(t1.cell, t2);
        }
        return;
      }
      if t2.TypeVar? {
        r := Occurs(t2.cell, t1);
        if r.Ok? {
          Bind(t2.cell, t1);
        }
        return;
      }
      ghost var cells0, rank0 := cells, rank;
      r := Unify(t1.from, t2.from);
      if r.Err? {
        return;
      }
      ghost var cells1, rank1 := cells, rank;
      if UnboundCells(cells1) != UnboundCells(cells0) {
        SubsetSmaller(UnboundCells(cells1), UnboundCells(cells0));
      }
      r := Unify(t1.to, t2.to);
      InstRefines(cells1, rank1, cells, rank, t1.from);
      InstRefines(cells1, rank1, cells, rank, t2.from);
    }

    /**
     * `infer`: a variable gets its environment type with links followed, an
     * abstraction an arrow from a fresh variable, an application a fresh
     * result variable after unifying the function type with
     * argument -> result; Named nodes and numerals are inferred through
     * their stored term or expansion.
     */
    method Infer(env: map<string, Type>, t: L.Term) returns (r: Result<Type, string>)
      requires Valid() && L.NoMacros(t) && EnvWithin(|cells|, env)
      modifies this
      ensures Valid() && Refines(old(cells), cells)
      ensures r.Ok? ==> Within(|cells|, r.value) && Typed(InstEnv(cells, rank, env), t, Inst(cells, rank, r.value))
      ensures t.Variable? ==> (r.Ok? <==> t.name in env) && cells == old(cells) && rank == old(rank)
      ensures t.Abstraction? && r.Ok? ==> r.value.TypeArrow? && r.value.from == TypeVar(|old(cells)|)
      ensures t.Abstraction? && t.body.Variable? ==> cells == old(cells) + [Unbound(GensymName(|old(cells)|), 1)]
      ensures ApplicationFree(t) ==> (r.Ok? <==> forall y :: L.ContainsFree(t, y) ==> y in env)
      decreases L.Size(t)
    {
      match t
      case Variable(x) =>
        if x !in env {
          return Err("unable to instantiate " + x);
        }
        var ty := Inst(cells, rank, env[x]);
        VariableTyped(cells, rank, env, x);
        r := Ok(ty);
      case Abstraction(x, e) =>
        ghost var cells0, rank0 := cells, rank;
        var tyX := NewVar();
        EnvGrows(cells0, rank0, cells, rank, env);
        var nextEnv := env[x := tyX];
        var tyE := Infer(nextEnv, e);
        ghost var scoped := forall y :: L.ContainsFree(e, y) ==> y in nextEnv;
        assert ApplicationFree(t) ==> (tyE.Ok? <==> scoped);
        assert scoped <==> forall y :: L.ContainsFree(t, y) ==> y in env by {
          forall y ensures (L.ContainsFree(e, y) ==> y in nextEnv) <==> (y != x && L.ContainsFree(e, y) ==> y in env) {}
        }
        if tyE.Err? {
          return Err(tyE.error);
        }
        AbstractionTyped(cells, rank, env, x, e, tyX, tyE.value);
        r := Ok(TypeArrow(tyX, tyE.value));
      case Application(e1, e2) =>
        ghost var cells0 := cells;
        var tyFun := Infer(env, e1);
        if tyFun.Err? {
          return Err(tyFun.error);
        }
        ghost var cells1, rank1 := cells, rank;
        EnvGrows(cells0, rank, cells, rank, env);
        var tyArg := Infer(env, e2);
        if tyArg.Err? {
          return Err(tyArg.error);
        }
        ghost var cells2, rank2 := cells, rank;
        WithinGrows(|cells1|, |cells|, tyFun.value);
        var tyRes := NewVar();
        WithinGrows(|cells2|, |cells|, tyFun.value);
        WithinGrows(|cells2|, |cells|, tyArg.value);
        var unified := Unify(tyFun.value, TypeArrow(tyArg.value, tyRes));
        if unified.Err? {
          return Err(unified.error);
        }
        Transport(cells1, rank1, cells, rank, env, e1, tyFun.value);
        Transport(cells2, rank2, cells, rank, env, e2, tyArg.value);
        ApplicationTyped(cells, rank, env, e1, e2, tyFun.value, tyArg.value, tyRes);
        r := Ok(tyRes);
      case Named(nt) =>
        r := Infer(env, nt.term);
      case ChurchNum(d) =>
        var expansion := L.UnwrapChurchNum(d);
        r := Infer(env, expansion);
    }
  }

  /** `infer`: a new machine and an empty environment; the type comes back with its links followed. */
  method InferType(t: L.Term) returns (r: Result<Type, string>)
    requires L.NoMacros(t)
    ensures r.Ok? ==> Typed(map[], t, r.value)
    ensures ApplicationFree(t) ==> (r.Ok? <==> forall y :: !L.ContainsFree(t, y))
    ensures t.Abstraction? && t.body == L.Variable(t.binder) ==> r == Ok(TypeArrow(TypeVar(0), TypeVar(0)))
  {
    var machine := new TypeMachine();
    var res := machine.Infer(map[], t);
    assert t.Abstraction? && t.body == L.Variable(t.binder) ==> res.Ok? by {
      if t.Abstraction? && t.body == L.Variable(t.binder) {
        forall y ensures !L.ContainsFree(t, y) {
          assert L.ContainsFree(t, y) == (y != t.binder && L.ContainsFree(t.body, y));
        }
        assert ApplicationFree(t);
      }
    }
    match res
    case Ok(ty) =>
      assert InstEnv(machine.cells, machine.rank, map[]) == map[];
      r := Ok(Inst(machine.cells, machine.rank, ty));
      if t.Abstraction? && t.body == L.Variable(t.binder) {
        assert machine.cells == [Unbound(GensymName(0), 1)];
        assert Inst(machine.cells, machine.rank, TypeVar(0)) == TypeVar(0);
        assert map[][t.binder := r.value.from][t.binder] == r.value.from;
      }
    case Err(e) =>
      r := Err(e);
  }

  // ---------------------------------------------------------------------
  // Lemmas the machine relies on

  lemma MaxRankExtends(rank: seq<nat>, rank': seq<nat>, t: Type)
    requires |rank| <= |rank'| && rank'[..|rank|] == rank && Within(|rank|, t)
    ensures MaxRank(rank', t) == MaxRank(rank, t)
  {
    match t
    case TypeVar(j) => assert rank'[j] == rank'[..|rank|][j];
    case TypeArrow(a, b) => MaxRankExtends(rank, rank', a); MaxRankExtends(rank, rank', b);
  }

  lemma SubsetSmaller(a: set<nat>, b: set<nat>)
    requires a <= b && a != b
    ensures |a| < |b|
  {
    var x :| x in b && x !in a;
    var c := b - {x};
    assert c == a + (c - a);
    assert b == c + {x};
  }

  /** Content equality of types implies they have the same instance, because names are unique per cell. */
  lemma {:induction false} TypeEqSound(cells: seq<TypeVariable>, rank: seq<nat>, t1: Type, t2: Type)
    requires WellFormed(cells, rank) && TypeEq(cells, rank, t1, t2)
    ensures Inst(cells, rank, t1) == Inst(cells, rank, t2)
    decreases MaxRank(rank, t1) + MaxRank(rank, t2), TypeSize(t1) + TypeSize(t2)
  {
    match (t1, t2)
    case (TypeVar(i), TypeVar(j)) =>
      if i < |cells| && j < |cells| {
        if cells[i].Unbound? {
          GensymInjective(i, j);
        } else {
          TypeEqSound(cells, rank, cells[i].target, cells[j].target);
        }
      }
    case (TypeArrow(a1, b1), TypeArrow(a2, b2)) =>
      TypeEqSound(cells, rank, a1, a2);
      TypeEqSound(cells, rank, b1, b2);
  }

  /** The ranks after linking cell `i`: every cell that reaches `i` goes up by `d`. */
  ghost function Rerank(cells: seq<TypeVariable>, rank: seq<nat>, i: nat, d: nat): (rank': seq<nat>)
    requires Ranked(cells, rank)
    ensures |rank'| == |rank|
  {
    seq(|rank|, k requires 0 <= k < |rank| => if OccursIn(cells, rank, i, TypeVar(k)) then rank[k] + d else rank[k])
  }

  lemma {:induction false} RerankUnaffected(cells: seq<TypeVariable>, rank: seq<nat>, i: nat, d: nat, t: Type)
    requires Ranked(cells, rank) && !OccursIn(cells, rank, i, t)
    ensures MaxRank(Rerank(cells, rank, i, d), t) == MaxRank(rank, t)
  {
    match t
    case TypeVar(j) =>
    case TypeArrow(a, b) =>
      RerankUnaffected(cells, rank, i, d, a);
      RerankUnaffected(cells, rank, i, d, b);
  }

  lemma {:induction false} RerankBounded(cells: seq<TypeVariable>, rank: seq<nat>, i: nat, d: nat, t: Type)
    requires Ranked(cells, rank)
    ensures MaxRank(Rerank(cells, rank, i, d), t) <= MaxRank(rank, t) + d
  {
    match t
    case TypeVar(j) =>
    case TypeArrow(a, b) =>
      RerankBounded(cells, rank, i, d, a);
      RerankBounded(cells, rank, i, d, b);
  }

  /** Linking an unbound cell to a type it does not occur in keeps the links acyclic. */
  lemma BindRanked(cells: seq<TypeVariable>, rank: seq<nat>, i: nat, t: Type)
    requires WellFormed(cells, rank) && i < |cells| && cells[i].Unbound? && Within(|cells|, t)
    requires !OccursIn(cells, rank, i, t)
    ensures WellFormed(cells[i := Link(t)], Rerank(cells, rank, i, MaxRank(rank, t) + 1))
  {
    var d := MaxRank(rank, t) + 1;
    var rank' := Rerank(cells, rank, i, d);
    var cells' := cells[i := Link(t)];
    assert OccursIn(cells, rank, i, TypeVar(i));
    RerankUnaffected(cells, rank, i, d, t);
    forall k | 0 <= k < |cells'| && cells'[k].Link?
      ensures MaxRank(rank', cells'[k].target) <= rank'[k]
    {
      if k != i {
        var tk := cells[k].target;
        if OccursIn(cells, rank, i, TypeVar(k)) {
          RerankBounded(cells, rank, i, d, tk);
        } else {
          RerankUnaffected(cells, rank, i, d, tk);
        }
      }
    }
  }

  /** Following the old links first changes nothing once the cells have been refined. */
  lemma {:induction false} InstRefines(cells: seq<TypeVariable>, rank: seq<nat>, cells': seq<TypeVariable>, rank': seq<nat>, t: Type)
    requires Ranked(cells, rank) && Ranked(cells', rank') && Refines(cells, cells')
    ensures Inst(cells', rank', Inst(cells, rank, t)) == Inst(cells', rank', t)
    decreases MaxRank(rank, t), t
  {
    match t
    case TypeVar(j) =>
      if j < |cells| && cells[j].Link? {
        InstRefines(cells, rank, cells', rank', cells[j].target);
      }
    case TypeArrow(a, b) =>
      InstRefines(cells, rank, cells', rank', a);
      InstRefines(cells, rank, cells', rank', b);
  }

  /** Typing is closed under instantiation: following links in every type keeps a derivation valid. */
  lemma {:induction false} TypedInst(cells: seq<TypeVariable>, rank: seq<nat>, env: map<string, Type>, t: L.Term, ty: Type)
    requires Ranked(cells, rank) && Typed(env, t, ty)
    ensures Typed(InstEnv(cells, rank, env), t, Inst(cells, rank, ty))
    decreases L.Size(t)
  {
    var env' := InstEnv(cells, rank, env);
    match t
    case Variable(_) =>
    case Abstraction(x, b) =>
      TypedInst(cells, rank, env[x := ty.from], b, ty.to);
      assert InstEnv(cells, rank, env[x := ty.from]) == env'[x := Inst(cells, rank, ty.from)];
    case Application(l, r) =>
      var a :| Typed(env, l, TypeArrow(a, ty)) && Typed(env, r, a);
      TypedInst(cells, rank, env, l, TypeArrow(a, ty));
      TypedInst(cells, rank, env, r, a);
      assert Typed(env', l, TypeArrow(Inst(cells, rank, a), Inst(cells, rank, ty)));
    case Named(nt) => TypedInst(cells, rank, env, nt.term, ty);
    case ChurchNum(d) => TypedInst(cells, rank, env, L.ChurchNumeral(d), ty);
  }

  lemma VariableTyped(cells: seq<TypeVariable>, rank: seq<nat>, env: map<string, Type>, x: string)
    requires Ranked(cells, rank) && x in env
    ensures Typed(InstEnv(cells, rank, env), L.Variable(x), Inst(cells, rank, Inst(cells, rank, env[x])))
  {
    InstRefines(cells, rank, cells, rank, env[x]);
  }

  lemma AbstractionTyped(cells: seq<TypeVariable>, rank: seq<nat>, env: map<string, Type>, x: string, e: L.Term, tyX: Type, tyE: Type)
    requires Ranked(cells, rank)
    requires Typed(InstEnv(cells, rank, env[x := tyX]), e, Inst(cells, rank, tyE))
    ensures Typed(InstEnv(cells, rank, env), L.Abstraction(x, e), Inst(cells, rank, TypeArrow(tyX, tyE)))
  {
    assert InstEnv(cells, rank, env[x := tyX]) == InstEnv(cells, rank, env)[x := Inst(cells, rank, tyX)];
  }

  lemma ApplicationTyped(cells: seq<TypeVariable>, rank: seq<nat>, env: map<string, Type>, e1: L.Term, e2: L.Term,
                         tyFun: Type, tyArg: Type, tyRes: Type)
    requires Ranked(cells, rank)
    requires Typed(InstEnv(cells, rank, env), e1, Inst(cells, rank, tyFun))
    requires Typed(InstEnv(cells, rank, env), e2, Inst(cells, rank, tyArg))
    requires Inst(cells, rank, tyFun) == Inst(cells, rank, TypeArrow(tyArg, tyRes))
    ensures Typed(InstEnv(cells, rank, env), L.Application(e1, e2), Inst(cells, rank, tyRes))
  {
    var a := Inst(cells, rank, tyArg);
    assert Typed(InstEnv(cells, rank, env), e1, TypeArrow(a, Inst(cells, rank, tyRes)));
  }

  /** A typing found in an earlier state of the cells still holds in a refined one. */
  lemma Transport(cells: seq<TypeVariable>, rank: seq<nat>, cells': seq<TypeVariable>, rank': seq<nat>,
                  env: map<string, Type>, t: L.Term, ty: Type)
    requires Ranked(cells, rank) && Ranked(cells', rank') && Refines(cells, cells')
    requires Typed(InstEnv(cells, rank, env), t, Inst(cells, rank, ty))
    ensures Typed(InstEnv(cells', rank', env), t, Inst(cells', rank', ty))
  {
    var e := InstEnv(cells, rank, env);
    TypedInst(cells', rank', e, t, Inst(cells, rank, ty));
    InstRefines(cells, rank, cells', rank', ty);
    forall x | x in env
      ensures Inst(cells', rank', e[x]) == Inst(cells', rank', env[x])
    {
      InstRefines(cells, rank, cells', rank', env[x]);
    }
    assert InstEnv(cells', rank', e) == InstEnv(cells', rank', env);
  }

  lemma EnvGrows(cells: seq<TypeVariable>, rank: seq<nat>, cells': seq<TypeVariable>, rank': seq<nat>, env: map<string, Type>)
    requires EnvWithin(|cells|, env) && |cells| <= |cells'|
    ensures EnvWithin(|cells'|, env)
  {
    forall x | x in env
      ensures Within(|cells'|, env[x])
    {
      WithinGrows(|cells|, |cells'|, env[x]);
    }
  }

  // ---------------------------------------------------------------------
  // Consequences

  /** Following links twice is following them once. */
  lemma InstIdempotent(cells: seq<TypeVariable>, rank: seq<nat>, t: Type)
    requires Ranked(cells, rank)
    ensures Inst(cells, rank, Inst(cells, rank, t)) == Inst(cells, rank, t)
  {
    InstRefines(cells, rank, cells, rank, t);
  }

  /** The display follows links, so it is the display of the instantiated type. */
  lemma {:induction false} ShowTypeInst(cells: seq<TypeVariable>, rank: seq<nat>, t: Type)
    requires WellFormed(cells, rank)
    ensures ShowType(cells, rank, t) == ShowPlain(Inst(cells, rank, t))
    decreases MaxRank(rank, t), t
  {
    match t
    case TypeVar(j) =>
      if j < |cells| && cells[j].Link? {
        ShowTypeInst(cells, rank, cells[j].target);
      }
    case TypeArrow(a, b) =>
      ShowTypeInst(cells, rank, a);
      ShowTypeInst(cells, rank, b);
  }

  /** `\x . x` has type `(A -> A)`. */
  lemma IdentityTyped()
    ensures Typed(map[], L.Abstraction("x", L.Variable("x")), TypeArrow(TypeVar(0), TypeVar(0)))
    ensures ShowPlain(TypeArrow(TypeVar(0), TypeVar(0))) == "(A -> A)"
  {
    assert map[]["x" := TypeVar(0)]["x"] == TypeVar(0);
  }

  lemma NotOwnArgument(a: Type, b: Type)
    ensures a != TypeArrow(a, b)
  {
    assert TypeSize(a) < TypeSize(TypeArrow(a, b));
  }

  /**
   * `\x . x x` has no simple type: `x` would need a type equal to an arrow
   * out of itself. By the soundness of `Infer`, inference of it fails (in
   * the occurs check).
   */
  lemma SelfApplicationUntypable(env: map<string, Type>, ty: Type)
    ensures !Typed(env, L.Abstraction("x", L.Application(L.Variable("x"), L.Variable("x"))), ty)
  {
    if Typed(env, L.Abstraction("x", L.Application(L.Variable("x"), L.Variable("x"))), ty) {
      var env' := env["x" := ty.from];
      var a :| Typed(env', L.Variable("x"), TypeArrow(a, ty.to)) && Typed(env', L.Variable("x"), a);
      NotOwnArgument(a, ty.to);
    }
  }
}
