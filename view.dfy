/**
 * What the renderer derives from the state: the filtered list (getFilteredTodos), which of
 * the three displays renderTodos produces, and the footer figures of updateStats.
 */
module View {
  import opened Text
  import opened Todos
  import opened TodoLaws

  /**
   * The `switch` in getFilteredTodos on the button's `data-filter` string: "active" and
   * "completed" select their filters and every other value falls to the default, which is All.
   */
  function ParseFilter(value: string): (f: Filter)
    ensures f == Active <==> value == "active"
    ensures f == Completed <==> value == "completed"
  {
    if value == "active" then Active
    else if value == "completed" then Completed
    else All
  }

  /** Whether an entry belongs in the view of filter `f`. */
  predicate Shows(f: Filter, t: Todo) {
    match f
    case All => true
    case Active => !t.completed
    case Completed => t.completed
  }

  /** getFilteredTodos: the entries `f` shows, in list order; All returns the list itself. */
  function ViewOf(ts: seq<Todo>, f: Filter): (r: seq<Todo>)
    ensures f == All ==> r == ts
    ensures forall t :: t in r <==> t in ts && Shows(f, t)
  {
    match f
    case All => ts
    case Active => Keep(ts, IsActive)
    case Completed => Keep(ts, IsDone)
  }

  /** Every view is an order-preserving selection that keeps each shown entry's multiplicity. */
  lemma ViewSelects(ts: seq<Todo>, f: Filter, t: Todo)
    ensures IsSubsequence(ViewOf(ts, f), ts)
    ensures multiset(ViewOf(ts, f))[t] == if Shows(f, t) then multiset(ts)[t] else 0
  {
    match f
    case All =>
      KeepAll(ts, (t: Todo) => true);
      KeepIsSubsequence(ts, (t: Todo) => true);
    case Active =>
      KeepIsSubsequence(ts, IsActive);
      KeepMultiplicity(ts, IsActive, t);
    case Completed =>
      KeepIsSubsequence(ts, IsDone);
      KeepMultiplicity(ts, IsDone, t);
  }

  /** The Active and Completed views split the list: their lengths add up to its length. */
  lemma {:induction false} ViewPartition(ts: seq<Todo>)
    ensures |ViewOf(ts, Active)| + |ViewOf(ts, Completed)| == |ts|
  {
    if ts != [] {
      ViewPartition(ts[1..]);
    }
  }

  /** A filter value other than "active" and "completed" shows the whole list. */
  lemma DefaultShowsAll(ts: seq<Todo>, value: string)
    requires value != "active" && value != "completed"
    ensures ViewOf(ts, ParseFilter(value)) == ts
  {
  }

  /** After clearing, the Active view is the list itself and the Completed view is empty. */
  lemma ClearedViews(ts: seq<Todo>)
    ensures ViewOf(Cleared(ts), Active) == Cleared(ts)
    ensures ViewOf(Cleared(ts), Completed) == []
  {
    KeepIdempotent(ts, IsActive);
    KeepNone(Cleared(ts), IsDone);
  }

  // ---- renderTodos ----

  /** The three displays of renderTodos. */
  datatype Screen =
    | EmptyState              // the "empty state" placeholder, list cleared
    | NothingInFilter         // "No todos in this filter"
    | Listing(rows: seq<Todo>)  // one row per entry of the view

  /** renderTodos' choice of display for list `ts` under filter `f`. */
  function Render(ts: seq<Todo>, f: Filter): (s: Screen)
    ensures s == EmptyState <==> ts == []
    ensures s == NothingInFilter <==> ts != [] && ViewOf(ts, f) == []
    ensures s.Listing? ==> s.rows == ViewOf(ts, f) && s.rows != []
  {
    if |ts| == 0 then EmptyState
    else
      var shown := ViewOf(ts, f);
      if |shown| == 0 then NothingInFilter else Listing(shown)
  }

  /** Under All, a non-empty list is always listed in full. */
  lemma RenderAll(ts: seq<Todo>)
    requires ts != []
    ensures Render(ts, All) == Listing(ts)
  {
  }

  // ---- updateStats ----

  /** The footer: the active count, its label, and whether clear-completed is enabled. */
  datatype Stats = Stats(activeCount: nat, countText: string, clearEnabled: bool)

  /** The word after the count: "item" for exactly one, "items" otherwise. */
  function Noun(n: nat): string {
    if n == 1 then "item" else "items"
  }

  /** The footer label: the count as a numeral, a space, the noun for that count, then " left". */
  function CountLabel(n: nat): string {
    Decimal(n) + " " + Noun(n) + " left"
  }

  /** Whether at least one entry is completed (the list's `some` over the completed flag). */
  function AnyCompleted(ts: seq<Todo>): (b: bool)
    ensures b <==> exists k :: 0 <= k < |ts| && ts[k].completed
  {
    if ts == [] then false
    else ts[0].completed || (assert forall k :: 1 <= k < |ts| ==> ts[k] == ts[1..][k - 1];
                             AnyCompleted(ts[1..]))
  }

  /** updateStats. */
  function StatsOf(ts: seq<Todo>): (st: Stats)
    ensures st.activeCount == |IndicesWhere(ts, IsActive)|
    ensures st.countText == CountLabel(st.activeCount)
    ensures st.clearEnabled <==> exists k :: 0 <= k < |ts| && ts[k].completed
  {
    var n := |Keep(ts, IsActive)|;
    KeepCardinality(ts, IsActive);
    Stats(n, CountLabel(n), AnyCompleted(ts))
  }

  /** The label reads "1 item left" for exactly one active entry, and "N items left" otherwise. */
  lemma LabelWording(n: nat)
    ensures n == 1 <==> CountLabel(n) == "1 item left"
    ensures n != 1 ==> CountLabel(n) == Decimal(n) + " items left"
  {
  }

  /** Different counts give different labels: the label tells the count exactly. */
  lemma LabelInjective(n: nat, m: nat)
    requires CountLabel(n) == CountLabel(m)
    ensures n == m
  {
    var dn, dm := Decimal(n), Decimal(m);
    var ln := CountLabel(n);
    if |dn| < |dm| {
      assert false;
    } else if |dm| < |dn| {
      assert false;
    } else {
      assert dn == ln[..|dn|] == dm;
      DecimalInjective(n, m);
    }
  }

  /** The active count and the enabled flag agree with the Active and Completed views. */
  lemma StatsMatchViews(ts: seq<Todo>)
    ensures StatsOf(ts).activeCount == |ViewOf(ts, Active)|
    ensures StatsOf(ts).clearEnabled <==> ViewOf(ts, Completed) != []
  {
    KeepCardinality(ts, IsActive);
    if StatsOf(ts).clearEnabled {
      var k :| 0 <= k < |ts| && ts[k].completed;
      assert ts[k] in ViewOf(ts, Completed);
    }
    if ViewOf(ts, Completed) != [] {
      var t := ViewOf(ts, Completed)[0];
      assert t in ViewOf(ts, Completed);
      var k :| 0 <= k < |ts| && ts[k] == t;
      assert ts[k].completed;
    }
  }
}
