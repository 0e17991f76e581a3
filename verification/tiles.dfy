/**
 * The tile-advancement script run in the browser once per iteration.
 *
 * The page holds its tiles in document order; each tile carries a `done`
 * marker. The script finds the first tile without the marker, sets the marker
 * on that tile only, clicks it and answers `OK`; when every tile is marked it
 * answers `NO_CARD` and touches nothing. Styling and scrolling are left out.
 */
module Tiles {
  import opened Wrappers

  /** The `done` markers of the tiles, in document order. */
  type Marks = seq<bool>

  /**
   * The script's answer. `Ok` also records which tile was clicked: the script
   * itself only answers the string `OK`, the index is the model's witness.
   */
  datatype Reply = Ok(tile: nat) | NoCard

  /** `Array.prototype.find` over the tiles: the first one whose marker is not set. */
  function FirstUnvisited(marks: Marks): (r: Option<nat>)
    ensures r.Some? ==> r.value < |marks| && !marks[r.value]
    ensures r.Some? ==> forall j :: 0 <= j < r.value ==> marks[j]
    ensures r.None? <==> forall j :: 0 <= j < |marks| ==> marks[j]
  {
    if |marks| == 0 then None
    else if !marks[0] then Some(0)
    else match FirstUnvisited(marks[1..])
      case None => None
      case Some(i) => Some(i + 1)
  }

  /** One run of the tile-advancement script: the answer and the markers afterwards. */
  function NextTile(marks: Marks): (r: (Reply, Marks))
    ensures |r.1| == |marks|
    ensures r.0.NoCard? <==> forall j :: 0 <= j < |marks| ==> marks[j]
    ensures r.0.NoCard? ==> r.1 == marks
    ensures r.0.Ok? ==> r.0.tile < |marks| && !marks[r.0.tile]
    ensures r.0.Ok? ==> forall j :: 0 <= j < r.0.tile ==> marks[j]
    ensures r.0.Ok? ==> r.1[r.0.tile] && forall j :: 0 <= j < |marks| && j != r.0.tile ==> r.1[j] == marks[j]
  {
    match FirstUnvisited(marks)
    case None => (NoCard, marks)
    case Some(t) => (Ok(t), marks[t := true])
  }

  /** The indices of the unmarked tiles, in document order. */
  function Unvisited(marks: Marks): (r: seq<nat>)
    ensures forall k :: 0 <= k < |r| ==> r[k] < |marks|
  {
    if |marks| == 0 then []
    else
      var n := |marks| - 1;
      Unvisited(marks[..n]) + (if marks[n] then [] else [n])
  }

  /** A page whose `count` tiles have not been visited yet. */
  function Fresh(count: nat): (marks: Marks)
    ensures |marks| == count && forall j :: 0 <= j < count ==> !marks[j]
  {
    seq(count, _ => false)
  }

  /** The indices `0, 1, ..., count - 1`. */
  function Range(count: nat): (r: seq<nat>)
    ensures |r| == count && forall k :: 0 <= k < count ==> r[k] == k
  {
    seq(count, k requires 0 <= k < count => k as nat)
  }

  /** Runs the script `steps` times on a page that changes only through the script. */
  function Drive(marks: Marks, steps: nat): (replies: seq<Reply>)
    ensures |replies| == steps
    decreases steps
  {
    if steps == 0 then []
    else
      var (reply, after) := NextTile(marks);
      [reply] + Drive(after, steps - 1)
  }

  lemma {:induction false} AllMarkedNoneUnvisited(marks: Marks)
    requires forall j :: 0 <= j < |marks| ==> marks[j]
    ensures Unvisited(marks) == []
  {
    if |marks| > 0 {
      AllMarkedNoneUnvisited(marks[..|marks| - 1]);
    }
  }

  /** Marking the first unmarked tile removes exactly the head of the unvisited list. */
  lemma {:induction false} MarkFirstPops(marks: Marks, t: nat)
    requires t < |marks| && !marks[t]
    requires forall j :: 0 <= j < t ==> marks[j]
    ensures Unvisited(marks) == [t] + Unvisited(marks[t := true])
  {
    var n := |marks| - 1;
    var front := marks[..n];
    var after := marks[t := true];
    assert after[..n] == if t == n then front else front[t := true];
    if t == n {
      AllMarkedNoneUnvisited(front);
    } else {
      MarkFirstPops(front, t);
    }
  }

  /** Clicking a tile removes exactly the head of the unvisited list. */
  lemma AdvancePopsFirst(marks: Marks)
    requires NextTile(marks).0.Ok?
    ensures Unvisited(marks) == [NextTile(marks).0.tile] + Unvisited(NextTile(marks).1)
  {
    var t := NextTile(marks).0.tile;
    assert NextTile(marks).1 == marks[t := true];
    MarkFirstPops(marks, t);
  }

  /** The unvisited list holds only unmarked tiles. */
  lemma {:induction false} UnvisitedUnmarked(marks: Marks)
    ensures forall k :: 0 <= k < |Unvisited(marks)| ==> !marks[Unvisited(marks)[k]]
  {
    if |marks| > 0 {
      var n := |marks| - 1;
      var front := marks[..n];
      UnvisitedUnmarked(front);
      var u := Unvisited(marks);
      var u0 := Unvisited(front);
      assert u == u0 + (if marks[n] then [] else [n]);
      forall k | 0 <= k < |u|
        ensures !marks[u[k]]
      {
        if k < |u0| {
          assert u[k] == u0[k];
          assert front[u0[k]] == marks[u0[k]];
        } else {
          assert u[k] == n && !marks[n];
        }
      }
    }
  }

  /** The unvisited list holds every unmarked tile. */
  lemma {:induction false} UnmarkedUnvisited(marks: Marks, i: nat)
    requires i < |marks| && !marks[i]
    ensures i in Unvisited(marks)
  {
    var n := |marks| - 1;
    var front := marks[..n];
    assert Unvisited(marks) == Unvisited(front) + (if marks[n] then [] else [n]);
    if i < n {
      assert front[i] == marks[i];
      UnmarkedUnvisited(front, i);
    }
  }

  /** The unvisited list is in document order. */
  lemma {:induction false} UnvisitedAscending(marks: Marks)
    ensures forall k, l :: 0 <= k < l < |Unvisited(marks)| ==> Unvisited(marks)[k] < Unvisited(marks)[l]
  {
    if |marks| > 0 {
      var n := |marks| - 1;
      var u0 := Unvisited(marks[..n]);
      UnvisitedAscending(marks[..n]);
      assert forall k :: 0 <= k < |u0| ==> u0[k] < n;
      assert Unvisited(marks) == u0 + (if marks[n] then [] else [n]);
    }
  }

  /** The unvisited list holds every unmarked tile and nothing else, in document order. */
  lemma UnvisitedExact(marks: Marks)
    ensures var u := Unvisited(marks);
      && (forall k :: 0 <= k < |u| ==> u[k] < |marks| && !marks[u[k]])
      && (forall i :: 0 <= i < |marks| && !marks[i] ==> i in u)
      && (forall k, l :: 0 <= k < l < |u| ==> u[k] < u[l])
  {
    UnvisitedUnmarked(marks);
    UnvisitedAscending(marks);
    forall i | 0 <= i < |marks| && !marks[i]
      ensures i in Unvisited(marks)
    {
      UnmarkedUnvisited(marks, i);
    }
  }

  /** The script answers `NO_CARD` exactly when no tile is left to visit. */
  lemma NoCardIffNoneLeft(marks: Marks)
    ensures NextTile(marks).0.NoCard? <==> Unvisited(marks) == []
  {
    if NextTile(marks).0.NoCard? {
      AllMarkedNoneUnvisited(marks);
    } else {
      AdvancePopsFirst(marks);
    }
  }

  /**
   * Repeated runs visit the unmarked tiles in document order: one `OK` per
   * unmarked tile, then `NO_CARD`.
   */
  lemma {:induction false} DriveVisitsInOrder(marks: Marks)
    ensures Drive(marks, |Unvisited(marks)| + 1) == Clicks(Unvisited(marks)) + [NoCard]
    decreases |Unvisited(marks)|
  {
    var u := Unvisited(marks);
    var (reply, after) := NextTile(marks);
    NoCardIffNoneLeft(marks);
    if reply.Ok? {
      AdvancePopsFirst(marks);
      var u' := Unvisited(after);
      assert u == [reply.tile] + u';
      DriveVisitsInOrder(after);
      assert Drive(marks, |u| + 1) == [reply] + Drive(after, |u'| + 1);
      assert Clicks(u) == [reply] + Clicks(u');
    }
  }

  /** The answers `OK` that clicking the tiles `ts` one after another produces. */
  function Clicks(ts: seq<nat>): (replies: seq<Reply>)
    ensures |replies| == |ts|
  {
    if |ts| == 0 then [] else [Ok(ts[0])] + Clicks(ts[1..])
  }

  /** `count` fresh tiles: exactly `count` answers `OK`, in document order, then `NO_CARD`. */
  lemma FreshPageVisitsAll(count: nat)
    ensures Unvisited(Fresh(count)) == Range(count)
    ensures Drive(Fresh(count), count + 1) == Clicks(Range(count)) + [NoCard]
  {
    FreshUnvisited(count);
    DriveVisitsInOrder(Fresh(count));
  }

  lemma {:induction false} FreshUnvisited(count: nat)
    ensures Unvisited(Fresh(count)) == Range(count)
  {
    if count > 0 {
      FreshUnvisited(count - 1);
      assert Fresh(count)[..count - 1] == Fresh(count - 1);
      assert Range(count) == Range(count - 1) + [count - 1];
    }
  }

  /** Once `NO_CARD` has been answered, every further run answers it again. */
  lemma {:induction false} NoCardIsFinal(marks: Marks, steps: nat)
    requires NextTile(marks).0.NoCard?
    ensures forall k :: 0 <= k < steps ==> Drive(marks, steps)[k] == NoCard
  {
    if steps > 0 {
      NoCardIsFinal(marks, steps - 1);
      assert Drive(marks, steps) == [NoCard] + Drive(marks, steps - 1);
    }
  }
}
