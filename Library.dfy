/**
 * The application state kept by the top-level component: the list of saved
 * problems and the current view, with the handlers that replace them
 * (save, delete, status change and the import of a shared link) and the
 * initial load from storage. Each handler replaces the list by a new one
 * built from the old; those builders are the functions below.
 */
module Library {
  import opened Wrappers
  import opened Types
  import ShareLink

  datatype View = IdeationView | LibraryView

  // ---------------------------------------------------------------------
  // List builders
  // ---------------------------------------------------------------------

  /** The records whose id differs from `id`, in order. */
  function Without(ps: seq<Problem>, id: string): (r: seq<Problem>)
    ensures |r| <= |ps|
    ensures forall q :: q in r <==> q in ps && q.id != id
  {
    if ps == [] then []
    else if ps[0].id != id then [ps[0]] + Without(ps[1..], id)
    else Without(ps[1..], id)
  }

  /** Every record with id `id` given the status, the others kept as they are. */
  function WithStatus(ps: seq<Problem>, id: string, status: ProblemStatus): (r: seq<Problem>)
    ensures |r| == |ps|
    ensures forall k | 0 <= k < |ps| :: ps[k].id != id ==> r[k] == ps[k]
    ensures forall k | 0 <= k < |ps| :: ps[k].id == id ==> r[k].status == Some(status.Label())
    ensures forall k | 0 <= k < |ps| :: r[k].(status := ps[k].status) == ps[k]
  {
    if ps == [] then []
    else
      var head := if ps[0].id == id then ps[0].(status := Some(status.Label())) else ps[0];
      [head] + WithStatus(ps[1..], id, status)
  }

  /** The ids of the records. */
  function Ids(ps: seq<Problem>): (ids: set<string>)
    ensures forall q | q in ps :: q.id in ids
    ensures forall i | i in ids :: exists q | q in ps :: q.id == i
  {
    set q | q in ps :: q.id
  }

  /** The incoming records whose id is not among `known`, in incoming order. */
  function Unknown(incoming: seq<Problem>, known: set<string>): (r: seq<Problem>)
    ensures |r| <= |incoming|
    ensures forall q :: q in r <==> q in incoming && q.id !in known
  {
    if incoming == [] then []
    else if incoming[0].id !in known then [incoming[0]] + Unknown(incoming[1..], known)
    else Unknown(incoming[1..], known)
  }

  /** The list after an import: the incoming records with new ids, then the old list. */
  function Merge(prev: seq<Problem>, incoming: seq<Problem>): seq<Problem> {
    Unknown(incoming, Ids(prev)) + prev
  }

  /**
   * The list read at start-up: the stored array, or the empty list when
   * nothing (or an empty text) is stored or the stored text does not parse.
   * A stored value that parses to something other than an array is kept as
   * it is by the application, which then fails on its first use as a list;
   * a list of records cannot hold it, so it becomes the empty list here.
   */
  function Loaded(stored: Option<string>, parse: string -> ShareLink.ParsedJson): (r: seq<Problem>)
    ensures stored.None? || stored.value == "" ==> r == []
    ensures stored.Some? && stored.value != "" && parse(stored.value).ArrayOf? ==> r == parse(stored.value).items
    ensures stored.Some? && !parse(stored.value).ArrayOf? ==> r == []
  {
    if stored.None? || stored.value == "" then []
    else match parse(stored.value)
      case ArrayOf(items) => items
      case _ => []
  }

  // ---------------------------------------------------------------------
  // Properties of the builders
  // ---------------------------------------------------------------------

  /** Deleting keeps the order: it works piece by piece along the list. */
  lemma {:induction false} WithoutAppend(a: seq<Problem>, b: seq<Problem>, id: string)
    ensures Without(a + b, id) == Without(a, id) + Without(b, id)
  {
    if a == [] {
      assert a + b == b;
    } else {
      assert (a + b)[1..] == a[1..] + b;
      WithoutAppend(a[1..], b, id);
    }
  }

  /** Deleting an id no record has leaves the list as it is. */
  lemma {:induction false} WithoutAbsent(ps: seq<Problem>, id: string)
    requires forall q | q in ps :: q.id != id
    ensures Without(ps, id) == ps
  {
    if ps != [] {
      WithoutAbsent(ps[1..], id);
      assert ps == [ps[0]] + ps[1..];
    }
  }

  /** The number of records with the id. */
  function CountId(ps: seq<Problem>, id: string): nat {
    if ps == [] then 0 else (if ps[0].id == id then 1 else 0) + CountId(ps[1..], id)
  }

  /** Deleting removes exactly the records with the id: as many as there are. */
  lemma {:induction false} WithoutCount(ps: seq<Problem>, id: string)
    ensures |Without(ps, id)| == |ps| - CountId(ps, id)
  {
    if ps != [] {
      WithoutCount(ps[1..], id);
    }
  }

  /** The import keeps the order of the incoming records. */
  lemma {:induction false} UnknownAppend(a: seq<Problem>, b: seq<Problem>, known: set<string>)
    ensures Unknown(a + b, known) == Unknown(a, known) + Unknown(b, known)
  {
    if a == [] {
      assert a + b == b;
    } else {
      assert (a + b)[1..] == a[1..] + b;
      UnknownAppend(a[1..], b, known);
    }
  }

  /** When no incoming id is known, all incoming records are kept, including ones sharing an id with each other. */
  lemma {:induction false} UnknownAllNew(incoming: seq<Problem>, known: set<string>)
    requires forall q | q in incoming :: q.id !in known
    ensures Unknown(incoming, known) == incoming
  {
    if incoming != [] {
      UnknownAllNew(incoming[1..], known);
      assert incoming == [incoming[0]] + incoming[1..];
    }
  }

  /** When every incoming id is known, nothing is imported. */
  lemma {:induction false} UnknownAllKnown(incoming: seq<Problem>, known: set<string>)
    requires forall q | q in incoming :: q.id in known
    ensures Unknown(incoming, known) == []
  {
    if incoming != [] {
      UnknownAllKnown(incoming[1..], known);
    }
  }

  /**
   * Importing puts before the old list exactly the incoming records whose
   * id the old list lacks, in incoming order; the old list follows unchanged.
   */
  lemma MergeSpec(prev: seq<Problem>, incoming: seq<Problem>)
    ensures |Merge(prev, incoming)| >= |prev|
    ensures var n := |Merge(prev, incoming)| - |prev|; Merge(prev, incoming)[n..] == prev
    ensures forall q :: q in Merge(prev, incoming)[..|Merge(prev, incoming)| - |prev|] <==>
      q in incoming && forall p | p in prev :: p.id != q.id
  {
    var u := Unknown(incoming, Ids(prev));
    assert Merge(prev, incoming)[..|u|] == u;
    assert Merge(prev, incoming)[|u|..] == prev;
  }

  /** Importing records whose ids are all known leaves the list unchanged. */
  lemma MergeAllKnown(prev: seq<Problem>, incoming: seq<Problem>)
    requires forall q | q in incoming :: exists p | p in prev :: p.id == q.id
    ensures Merge(prev, incoming) == prev
  {
    UnknownAllKnown(incoming, Ids(prev));
  }

  /** Incoming records are checked against the old list only: two new records sharing an id are both imported. */
  lemma MergeKeepsIncomingDuplicates(prev: seq<Problem>, a: Problem, b: Problem)
    requires a.id == b.id && forall p | p in prev :: p.id != a.id
    ensures Merge(prev, [a, b]) == [a, b] + prev
  {
    UnknownAllNew([a, b], Ids(prev));
  }

  // ---------------------------------------------------------------------
  // The store
  // ---------------------------------------------------------------------

  /** The problems and the current view, as held by the top-level component. */
  class Store {
    var problems: seq<Problem>
    var view: View

    /** Start-up: the stored list (or the empty list) and the ideation view. */
    constructor(stored: Option<string>, parse: string -> ShareLink.ParsedJson)
      ensures problems == Loaded(stored, parse) && view == IdeationView
    {
      problems := Loaded(stored, parse);
      view := IdeationView;
    }

    /** Save: the new problem goes first, the list follows unchanged, and the library is shown. */
    method Save(problem: Problem)
      modifies this
      ensures problems == [problem] + old(problems)
      ensures view == LibraryView
    {
      problems := [problem] + problems;
      view := LibraryView;
    }

    /** Delete every record with the id. */
    method Delete(id: string)
      modifies this
      ensures problems == Without(old(problems), id)
      ensures view == old(view)
    {
      problems := Without(problems, id);
    }

    /** Give every record with the id the new status. */
    method ChangeStatus(id: string, status: ProblemStatus)
      modifies this
      ensures problems == WithStatus(old(problems), id, status)
      ensures view == old(view)
    {
      problems := WithStatus(problems, id, status);
    }

    /**
     * The import run at start-up for the `data` query parameter: when the
     * parameter decodes to a JSON array and the user confirms, the records
     * with new ids are put first and the library is shown; otherwise
     * nothing changes.
     */
    method ImportShared(data: Option<string>, parse: string -> ShareLink.ParsedJson, confirmed: bool)
      modifies this
      ensures var offered := ShareLink.Offered(data, parse);
        if offered.Some? && confirmed
        then problems == Merge(old(problems), offered.value) && view == LibraryView
        else problems == old(problems) && view == old(view)
    {
      var offered := ShareLink.Offered(data, parse);
      if offered.Some? && confirmed {
        problems := Merge(problems, offered.value);
        view := LibraryView;
      }
    }
  }
}
