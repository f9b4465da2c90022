/**
 * The stack of context frames: each frame lists named terms, and the
 * current view maps every name to its last occurrence, later frames
 * shadowing earlier ones and later entries of a frame earlier entries.
 */
module Context {
  import opened Wrappers
  import L = Lambda

  type ContextFrame = seq<L.NamedTerm>

  /** `frame`'s entries inserted one after the other into `m`. */
  function InsertFrame(m: map<string, L.NamedTerm>, frame: ContextFrame): map<string, L.NamedTerm>
  {
    if frame == [] then m
    else InsertFrame(m, frame[..|frame| - 1])[frame[|frame| - 1].name := frame[|frame| - 1]]
  }

  /** The view the frames give: every frame inserted in order into an empty map. */
  function Rebuilt(frames: seq<ContextFrame>): map<string, L.NamedTerm>
  {
    if frames == [] then map[] else InsertFrame(Rebuilt(frames[..|frames| - 1]), frames[|frames| - 1])
  }

  /** Entry `j` of frame `i` comes before entry `j'` of frame `i'`. */
  predicate Before(i: int, j: int, i': int, j': int)
  {
    i < i' || (i == i' && j < j')
  }

  /** `name` occurs in some frame. */
  predicate Occurs(frames: seq<ContextFrame>, name: string)
  {
    exists i, j | 0 <= i < |frames| && 0 <= j < |frames[i]| :: frames[i][j].name == name
  }

  class ContextTracker {
    var currentTerms: map<string, L.NamedTerm>
    var frames: seq<ContextFrame>

    ghost predicate Valid()
      reads this
    {
      currentTerms == Rebuilt(frames)
    }

    /** `ContextTracker::new`: no frames and an empty view. */
    constructor ()
      ensures Valid() && frames == [] && currentTerms == map[]
    {
      currentTerms := map[];
      frames := [];
    }

    /** `get`: the term the view holds for `name`, if any. */
    function Get(name: string): (r: Option<L.NamedTerm>)
      reads this
      ensures r.Some? <==> name in currentTerms
      ensures r.Some? ==> r.value == currentTerms[name]
    {
      if name in currentTerms then Some(currentTerms[name]) else None
    }

    /** `push_frame`: one more frame on top, then the view is rebuilt. */
    method PushFrame(frame: ContextFrame)
      modifies this
      ensures frames == old(frames) + [frame]
      ensures Valid()
    {
      frames := frames + [frame];
      RebuildCurrentTerms();
    }

    /**
     * `pop_frame`: the top frame removed (nothing on an empty stack), then
     * the view is rebuilt; after a push it is the view before the push.
     */
    method PopFrame()
      modifies this
      ensures frames == if old(frames) == [] then [] else old(frames)[..|old(frames)| - 1]
      ensures Valid()
    {
      if frames != [] {
        frames := frames[..|frames| - 1];
      }
      RebuildCurrentTerms();
    }

    /** `rebuild_current_terms`: every entry of every frame inserted in order into a new map. */
    method RebuildCurrentTerms()
      modifies this
      ensures frames == old(frames)
      ensures Valid()
    {
      currentTerms := map[];
      for i := 0 to |frames|
        invariant frames == old(frames)
        invariant currentTerms == Rebuilt(frames[..i])
      {
        var frame := frames[i];
        for j := 0 to |frame|
          invariant frames == old(frames)
          invariant currentTerms == InsertFrame(Rebuilt(frames[..i]), frame[..j])
        {
          assert frame[..j + 1][..j] == frame[..j];
          currentTerms := currentTerms[frame[j].name := frame[j]];
        }
        assert frame[..|frame|] == frame;
        assert frames[..i + 1][..i] == frames[..i];
      }
      assert frames[..|frames|] == frames;
    }
  }

  // ---------------------------------------------------------------------
  // What the view holds

  /** A name is in `InsertFrame(m, frame)` when it was in `m` or names an entry of `frame`. */
  lemma {:induction false} InsertFrameKeys(m: map<string, L.NamedTerm>, frame: ContextFrame, name: string)
    ensures name in InsertFrame(m, frame) <==> name in m || exists j | 0 <= j < |frame| :: frame[j].name == name
  {
    if frame != [] {
      var init := frame[..|frame| - 1];
      InsertFrameKeys(m, init, name);
      if exists j | 0 <= j < |init| :: init[j].name == name {
        var j :| 0 <= j < |init| && init[j].name == name;
        assert frame[j].name == name;
      }
      if exists j | 0 <= j < |frame| :: frame[j].name == name {
        var j :| 0 <= j < |frame| && frame[j].name == name;
        if j < |frame| - 1 {
          assert init[j].name == name;
        }
      }
    }
  }

  /** The view holds exactly the names that occur in some frame. */
  lemma {:induction false} RebuiltKeys(frames: seq<ContextFrame>, name: string)
    ensures name in Rebuilt(frames) <==> Occurs(frames, name)
  {
    if frames != [] {
      var init := frames[..|frames| - 1];
      var top := frames[|frames| - 1];
      RebuiltKeys(init, name);
      InsertFrameKeys(Rebuilt(init), top, name);
      if Occurs(init, name) {
        var i, j :| 0 <= i < |init| && 0 <= j < |init[i]| && init[i][j].name == name;
        assert frames[i][j].name == name;
      }
      if exists j | 0 <= j < |top| :: top[j].name == name {
        var j :| 0 <= j < |top| && top[j].name == name;
        assert frames[|frames| - 1][j].name == name;
      }
      if Occurs(frames, name) {
        var i, j :| 0 <= i < |frames| && 0 <= j < |frames[i]| && frames[i][j].name == name;
        if i < |frames| - 1 {
          assert init[i][j].name == name;
        }
      }
    }
  }

  /** Within a frame the last entry of a name is the one kept. */
  lemma {:induction false} InsertFrameLast(m: map<string, L.NamedTerm>, frame: ContextFrame, j: nat)
    requires j < |frame|
    requires forall j' | j < j' < |frame| :: frame[j'].name != frame[j].name
    ensures frame[j].name in InsertFrame(m, frame) && InsertFrame(m, frame)[frame[j].name] == frame[j]
  {
    if j < |frame| - 1 {
      InsertFrameLast(m, frame[..|frame| - 1], j);
    }
  }

  /** A name no entry of `frame` uses keeps its binding in `m`. */
  lemma {:induction false} InsertFrameOthers(m: map<string, L.NamedTerm>, frame: ContextFrame, name: string)
    requires forall j | 0 <= j < |frame| :: frame[j].name != name
    ensures name in InsertFrame(m, frame) <==> name in m
    ensures name in m ==> InsertFrame(m, frame)[name] == m[name]
  {
    if frame != [] {
      InsertFrameOthers(m, frame[..|frame| - 1], name);
    }
  }

  /** The view maps a name to its last occurrence, by frame and then by position in the frame. */
  lemma {:induction false} LastOccurrenceWins(frames: seq<ContextFrame>, i: nat, j: nat)
    requires i < |frames| && j < |frames[i]|
    requires forall i', j' | 0 <= i' < |frames| && 0 <= j' < |frames[i']| && Before(i, j, i', j') ::
               frames[i'][j'].name != frames[i][j].name
    ensures frames[i][j].name in Rebuilt(frames) && Rebuilt(frames)[frames[i][j].name] == frames[i][j]
  {
    var init := frames[..|frames| - 1];
    var top := frames[|frames| - 1];
    if i == |frames| - 1 {
      InsertFrameLast(Rebuilt(init), top, j);
    } else {
      assert init[i][j] == frames[i][j];
      LastOccurrenceWins(init, i, j);
      forall j' | 0 <= j' < |top|
        ensures top[j'].name != frames[i][j].name
      {
        assert Before(i, j, |frames| - 1, j');
      }
      InsertFrameOthers(Rebuilt(init), top, frames[i][j].name);
    }
  }
}
