/**
 * The workflow board of the saved library: four columns, one per status,
 * each listing the problems whose effective status is that column's; a
 * missing or empty status counts as Draft. Dragging a card records its id,
 * and dropping it on a column asks the application to change its status.
 */
module Board {
  import opened Wrappers
  import opened Types
  import Library

  /** A column of the board: the status it collects and its heading. */
  datatype Column = Column(id: ProblemStatus, title: string)

  /** The columns, left to right. */
  const Columns: seq<Column> := [
    Column(Draft, "Draft"),
    Column(Refining, "Refining"),
    Column(Verified, "Verified"),
    Column(Shortlist, "Shortlist Ready")
  ]

  /** The columns are the four statuses in workflow order, each headed by its own name. */
  lemma ColumnsInOrder()
    ensures |Columns| == 4
    ensures Columns[0].id == Draft && Columns[1].id == Refining && Columns[2].id == Verified && Columns[3].id == Shortlist
    ensures forall i | 0 <= i < |Columns| :: Columns[i].title == Columns[i].id.Label()
  {
  }

  /** The status the board files a record under: its own, or Draft when it has none or an empty one. */
  function EffectiveStatus(p: Problem): (s: string)
    ensures s != ""
    ensures p.status.Some? && p.status.value != "" ==> s == p.status.value
    ensures p.status.None? || p.status.value == "" ==> s == Draft.Label()
  {
    if p.status.None? || p.status.value == "" then Draft.Label() else p.status.value
  }

  /** The cards of a column: the records whose effective status is its status, in library order. */
  function InColumn(ps: seq<Problem>, status: ProblemStatus): (r: seq<Problem>)
    ensures |r| <= |ps|
    ensures forall q :: q in r <==> q in ps && EffectiveStatus(q) == status.Label()
  {
    if ps == [] then []
    else if EffectiveStatus(ps[0]) == status.Label() then [ps[0]] + InColumn(ps[1..], status)
    else InColumn(ps[1..], status)
  }

  /** The number on a column's badge. */
  function Count(ps: seq<Problem>, status: ProblemStatus): nat {
    |InColumn(ps, status)|
  }

  /** Whether the column shows the "Drop here" placeholder: when its count is zero. */
  predicate ShowsPlaceholder(ps: seq<Problem>, status: ProblemStatus) {
    Count(ps, status) == 0
  }

  /** The effective status is one of the four statuses. */
  predicate IsPlaced(p: Problem) {
    exists s: ProblemStatus :: EffectiveStatus(p) == s.Label()
  }

  /** The records of no column, in library order. */
  function Unplaced(ps: seq<Problem>): (r: seq<Problem>)
    ensures forall q :: q in r <==> q in ps && !IsPlaced(q)
  {
    if ps == [] then []
    else if !IsPlaced(ps[0]) then [ps[0]] + Unplaced(ps[1..])
    else Unplaced(ps[1..])
  }

  /** A column lists its records in library order: filing works piece by piece along the list. */
  lemma {:induction false} InColumnAppend(a: seq<Problem>, b: seq<Problem>, status: ProblemStatus)
    ensures InColumn(a + b, status) == InColumn(a, status) + InColumn(b, status)
  {
    if a == [] {
      assert a + b == b;
    } else {
      assert (a + b)[1..] == a[1..] + b;
      InColumnAppend(a[1..], b, status);
    }
  }

  /** A record whose effective status is one of the four is on exactly one column; any other record is on none. */
  lemma ExactlyOneColumn(p: Problem, ps: seq<Problem>)
    requires p in ps
    ensures IsPlaced(p) ==> exists s: ProblemStatus :: p in InColumn(ps, s)
    ensures forall s: ProblemStatus, t: ProblemStatus | p in InColumn(ps, s) && p in InColumn(ps, t) :: s == t
    ensures !IsPlaced(p) ==> forall s: ProblemStatus :: p !in InColumn(ps, s)
  {
    if IsPlaced(p) {
      var s: ProblemStatus :| EffectiveStatus(p) == s.Label();
      assert p in InColumn(ps, s);
    }
    forall s: ProblemStatus, t: ProblemStatus | p in InColumn(ps, s) && p in InColumn(ps, t)
      ensures s == t
    {
      StatusLabelInjective(s, t);
    }
  }

  /** The badge counts of the four columns and the unplaced records add up to the whole library. */
  lemma {:induction false} CountsAddUp(ps: seq<Problem>)
    ensures Count(ps, Draft) + Count(ps, Refining) + Count(ps, Verified) + Count(ps, Shortlist) + |Unplaced(ps)| == |ps|
  {
    if ps != [] {
      CountsAddUp(ps[1..]);
      var e := EffectiveStatus(ps[0]);
      if IsPlaced(ps[0]) {
        var s: ProblemStatus :| e == s.Label();
        forall t: ProblemStatus | t != s
          ensures e != t.Label()
        {
          if e == t.Label() {
            StatusLabelInjective(s, t);
          }
        }
      }
    }
  }

  /** The placeholder shows exactly when no record is filed under the status. */
  lemma PlaceholderIffEmpty(ps: seq<Problem>, status: ProblemStatus)
    ensures ShowsPlaceholder(ps, status) <==> forall q | q in ps :: EffectiveStatus(q) != status.Label()
  {
    if !ShowsPlaceholder(ps, status) {
      assert InColumn(ps, status)[0] in InColumn(ps, status);
    }
  }

  /** Once a status change for an id has been applied, every record with that id is on the chosen column. */
  lemma StatusChangeMovesCard(ps: seq<Problem>, id: string, status: ProblemStatus)
    ensures forall q | q in Library.WithStatus(ps, id, status) && q.id == id :: q in InColumn(Library.WithStatus(ps, id, status), status)
  {
    var r := Library.WithStatus(ps, id, status);
    forall q | q in r && q.id == id
      ensures EffectiveStatus(q) == status.Label()
    {
      var k :| 0 <= k < |r| && r[k] == q;
      assert ps[k].id == id;
    }
  }

  /** A request to change the status of the record with the id. */
  datatype StatusRequest = StatusRequest(id: string, status: ProblemStatus)

  /** The drag state of the board: the id of the card being dragged, if any. */
  class DragState {
    var draggedId: Option<string>

    constructor()
      ensures draggedId == None
    {
      draggedId := None;
    }

    /** Picking up a card records its id. */
    method DragStart(id: string)
      modifies this
      ensures draggedId == Some(id)
    {
      draggedId := Some(id);
    }

    /**
     * Dropping on a column: the status change is requested only when a
     * card with a non-empty id is being dragged and the application has
     * passed a handler; the recorded id is cleared in every case.
     */
    method Drop(status: ProblemStatus, hasHandler: bool) returns (request: Option<StatusRequest>)
      modifies this
      ensures request.Some? <==> old(draggedId).Some? && old(draggedId).value != "" && hasHandler
      ensures request.Some? ==> request.value == StatusRequest(old(draggedId).value, status)
      ensures draggedId == None
    {
      request := None;
      if draggedId.Some? && draggedId.value != "" && hasHandler {
        request := Some(StatusRequest(draggedId.value, status));
      }
      draggedId := None;
    }
  }
}
