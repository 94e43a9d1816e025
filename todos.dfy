/**
 * The to-do records and the list transformations of src/main.js: each handler computes the
 * next `todos` array with `unshift`, `map` or `filter`, and these functions are those
 * computations on values.
 */
module Todos {
  import opened Wrappers
  import opened Text

  /** One to-do entry. `id` comes from `Date.now()` and `createdAt` from `toISOString()`. */
  datatype Todo = Todo(id: int, text: string, completed: bool, createdAt: string)

  /** The view restriction chosen by the filter buttons. */
  datatype Filter = All | Active | Completed

  predicate IsActive(t: Todo) { !t.completed }

  predicate IsDone(t: Todo) { t.completed }

  /** Every entry's text is non-empty and already trimmed, as add and edit produce it. */
  predicate Tidy(ts: seq<Todo>) {
    forall t :: t in ts ==> t.text != [] && Trim(t.text) == t.text
  }

  // ---- `Array.prototype.filter` ----

  /** `ts.filter(p)`: the entries on which `p` holds, in their original order. */
  function Keep(ts: seq<Todo>, p: Todo -> bool): (r: seq<Todo>)
    ensures |r| <= |ts|
    ensures forall t :: t in r ==> t in ts && p(t)
    ensures forall t :: t in ts && p(t) ==> t in r
  {
    if ts == [] then []
    else
      assert ts == [ts[0]] + ts[1..];
      if p(ts[0]) then [ts[0]] + Keep(ts[1..], p) else Keep(ts[1..], p)
  }

  /** `a` can be obtained from `b` by dropping entries, without reordering the rest. */
  predicate IsSubsequence(a: seq<Todo>, b: seq<Todo>)
    decreases |b|
  {
    if a == [] then true
    else if b == [] then false
    else if a[0] == b[0] then IsSubsequence(a[1..], b[1..])
    else IsSubsequence(a, b[1..])
  }

  /** The indices of the entries on which `p` holds. */
  function IndicesWhere(ts: seq<Todo>, p: Todo -> bool): set<int> {
    set i | 0 <= i < |ts| && p(ts[i])
  }

  /** Filtering keeps the relative order of what it keeps. */
  lemma {:induction false} KeepIsSubsequence(ts: seq<Todo>, p: Todo -> bool)
    ensures IsSubsequence(Keep(ts, p), ts)
  {
    if ts != [] {
      KeepIsSubsequence(ts[1..], p);
      var tail := Keep(ts[1..], p);
      if !p(ts[0]) && tail != [] {
        assert tail[0] in tail;
      }
    }
  }

  /** Filtering keeps every entry satisfying `p` as often as it occurs, and nothing else. */
  lemma {:induction false} KeepMultiplicity(ts: seq<Todo>, p: Todo -> bool, t: Todo)
    ensures multiset(Keep(ts, p))[t] == if p(t) then multiset(ts)[t] else 0
  {
    if ts != [] {
      KeepMultiplicity(ts[1..], p, t);
      assert ts == [ts[0]] + ts[1..];
    }
  }

  /** The number of entries kept is the number of positions where `p` holds. */
  lemma {:induction false} KeepCardinality(ts: seq<Todo>, p: Todo -> bool)
    ensures |Keep(ts, p)| == |IndicesWhere(ts, p)|
    decreases |ts|
  {
    if ts == [] {
      assert IndicesWhere(ts, p) == {};
    } else {
      var init, last := ts[..|ts| - 1], ts[|ts| - 1];
      assert ts == init + [last];
      KeepAppend(init, [last], p);
      assert [last][1..] == [];
      KeepCardinality(init, p);
      IndicesSnoc(init, last, p);
    }
  }

  /** Appending one entry adds its index exactly when `p` holds of it. */
  lemma IndicesSnoc(init: seq<Todo>, last: Todo, p: Todo -> bool)
    ensures IndicesWhere(init + [last], p) ==
            IndicesWhere(init, p) + (if p(last) then {|init|} else {})
    ensures |init| !in IndicesWhere(init, p)
  {
  }

  /** Filtering a concatenation filters each part. */
  lemma {:induction false} KeepAppend(a: seq<Todo>, b: seq<Todo>, p: Todo -> bool)
    ensures Keep(a + b, p) == Keep(a, p) + Keep(b, p)
  {
    if a == [] {
      assert a + b == b;
    } else {
      assert (a + b)[1..] == a[1..] + b;
      KeepAppend(a[1..], b, p);
    }
  }

  /** Filtering a list all of whose entries pass changes nothing. */
  lemma {:induction false} KeepAll(ts: seq<Todo>, p: Todo -> bool)
    requires forall t :: t in ts ==> p(t)
    ensures Keep(ts, p) == ts
  {
    if ts != [] {
      assert ts[0] in ts;
      assert forall t :: t in ts[1..] ==> t in ts;
      KeepAll(ts[1..], p);
    }
  }

  /** Filtering a list none of whose entries pass leaves nothing. */
  lemma {:induction false} KeepNone(ts: seq<Todo>, p: Todo -> bool)
    requires forall t :: t in ts ==> !p(t)
    ensures Keep(ts, p) == []
  {
    if ts != [] {
      assert ts[0] in ts;
      assert forall t :: t in ts[1..] ==> t in ts;
      KeepNone(ts[1..], p);
    }
  }

  /** Filtering twice by the same predicate is filtering once. */
  lemma KeepIdempotent(ts: seq<Todo>, p: Todo -> bool)
    ensures Keep(Keep(ts, p), p) == Keep(ts, p)
  {
  }

  // ---- `Array.prototype.map` with a conditional spread, as toggle and edit use it ----

  /** Applies `f` to every entry with the id and leaves the others as they are, position by position. */
  function UpdateWhere(ts: seq<Todo>, id: int, f: Todo -> Todo): (r: seq<Todo>)
    ensures |r| == |ts|
    ensures forall i :: 0 <= i < |ts| ==> r[i] == (if ts[i].id == id then f(ts[i]) else ts[i])
  {
    if ts == [] then []
    else [if ts[0].id == id then f(ts[0]) else ts[0]] + UpdateWhere(ts[1..], id, f)
  }

  // ---- The list operations of the handlers ----

  /**
   * addTodo: the trimmed text is rejected when empty; otherwise a new, uncompleted entry with
   * the given id and timestamp is put in front of the unchanged old list.
   */
  function Added(ts: seq<Todo>, raw: string, id: int, createdAt: string): (r: seq<Todo>)
    ensures AllWhiteSpace(raw) ==> r == ts
    ensures !AllWhiteSpace(raw) ==>
      |r| == |ts| + 1 && r[1..] == ts &&
      r[0] == Todo(id, Trim(raw), false, createdAt) && r[0].text != []
  {
    var text := Trim(raw);
    if text == [] then ts else [Todo(id, text, false, createdAt)] + ts
  }

  function Flip(t: Todo): Todo {
    t.(completed := !t.completed)
  }

  /** toggleTodo: flips `completed` on every entry with the id; nothing else changes. */
  function Toggled(ts: seq<Todo>, id: int): (r: seq<Todo>)
    ensures |r| == |ts|
    ensures forall i :: 0 <= i < |ts| ==>
      && r[i].id == ts[i].id && r[i].text == ts[i].text && r[i].createdAt == ts[i].createdAt
      && r[i].completed == (if ts[i].id == id then !ts[i].completed else ts[i].completed)
  {
    UpdateWhere(ts, id, Flip)
  }

  /** The `map` inside saveEdit: every entry with the id gets the new text; nothing else changes. */
  function Renamed(ts: seq<Todo>, id: int, text: string): (r: seq<Todo>)
    ensures |r| == |ts|
    ensures forall i :: 0 <= i < |ts| ==>
      && r[i].id == ts[i].id && r[i].completed == ts[i].completed
      && r[i].createdAt == ts[i].createdAt
      && r[i].text == (if ts[i].id == id then text else ts[i].text)
  {
    UpdateWhere(ts, id, (t: Todo) => t.(text := text))
  }

  /** deleteTodo: the entries whose id differs from `id`, in their original order. */
  function Deleted(ts: seq<Todo>, id: int): (r: seq<Todo>)
    ensures forall t :: t in r <==> t in ts && t.id != id
  {
    Keep(ts, (t: Todo) => t.id != id)
  }

  /** clearCompleted: the entries that are not completed, in their original order. */
  function Cleared(ts: seq<Todo>): (r: seq<Todo>)
    ensures forall t :: t in r <==> t in ts && !t.completed
  {
    Keep(ts, IsActive)
  }

  /** The lookup in editTodo: the first entry with the id, if any. */
  function Find(ts: seq<Todo>, id: int): (r: Option<Todo>)
    ensures r.None? <==> forall k :: 0 <= k < |ts| ==> ts[k].id != id
    ensures r.Some? ==> exists k :: 0 <= k < |ts| && ts[k] == r.value && r.value.id == id &&
                                    forall j :: 0 <= j < k ==> ts[j].id != id
  {
    if ts == [] then None
    else if ts[0].id == id then Some(ts[0])
    else
      var r := Find(ts[1..], id);
      assert r.Some? ==> exists k :: 0 <= k < |ts[1..]| && ts[1..][k] == r.value &&
                                     forall j :: 0 <= j < k ==> ts[1..][j].id != id;
      if r.Some? then
        var k :| 0 <= k < |ts[1..]| && ts[1..][k] == r.value &&
                 forall j :: 0 <= j < k ==> ts[1..][j].id != id;
        assert ts[k + 1] == r.value;
        r
      else r
  }
}

/** The properties the handlers promise, stated over the list functions of `Todos`. */
module TodoLaws {
  import opened Wrappers
  import opened Text
  import opened Todos

  // ---- add ----

  /** One call of addTodo, with the clock readings it would take. */
  datatype AddRequest = AddRequest(raw: string, id: int, createdAt: string)

  /** The list after a run of add calls, the first one applied first. */
  function AddAll(ts: seq<Todo>, rs: seq<AddRequest>): seq<Todo>
    decreases |rs|
  {
    if rs == [] then ts
    else AddAll(Added(ts, rs[0].raw, rs[0].id, rs[0].createdAt), rs[1..])
  }

  /** Number of requests whose text does not trim to empty. */
  function NonBlank(rs: seq<AddRequest>): nat {
    if rs == [] then 0
    else (if AllWhiteSpace(rs[0].raw) then 0 else 1) + NonBlank(rs[1..])
  }

  /**
   * A run of adds grows the list by exactly the number of non-blank texts, and the old list
   * stays at the end, unchanged.
   */
  lemma {:induction false} AddAllGrowth(ts: seq<Todo>, rs: seq<AddRequest>)
    ensures |AddAll(ts, rs)| == |ts| + NonBlank(rs)
    ensures AddAll(ts, rs)[|AddAll(ts, rs)| - |ts|..] == ts
    decreases |rs|
  {
    if rs != [] {
      var next := Added(ts, rs[0].raw, rs[0].id, rs[0].createdAt);
      AddedGrowth(ts, rs[0]);
      AddAllGrowth(next, rs[1..]);
      var r := AddAll(next, rs[1..]);
      var tail := r[|r| - |next|..];
      assert r[|r| - |ts|..] == tail[|tail| - |ts|..];
    }
  }

  /** One add grows the list by at most one entry, in front of the old list. */
  lemma AddedGrowth(ts: seq<Todo>, r: AddRequest)
    ensures |Added(ts, r.raw, r.id, r.createdAt)| ==
            |ts| + (if AllWhiteSpace(r.raw) then 0 else 1)
    ensures Added(ts, r.raw, r.id, r.createdAt)[(if AllWhiteSpace(r.raw) then 0 else 1)..] == ts
  {
  }

  /** Deleting the id of a fresh entry undoes the add when no older entry had that id. */
  lemma DeleteUndoesAdd(ts: seq<Todo>, raw: string, id: int, createdAt: string)
    requires forall k :: 0 <= k < |ts| ==> ts[k].id != id
    ensures Deleted(Added(ts, raw, id, createdAt), id) == ts
  {
    var a := Added(ts, raw, id, createdAt);
    if !AllWhiteSpace(raw) {
      assert a == [a[0]] + ts;
    }
    assert forall t :: t in ts ==> t.id != id;
    KeepAll(ts, (t: Todo) => t.id != id);
  }

  // ---- toggle ----

  /** Toggling the same id twice restores the list. */
  lemma ToggleTwice(ts: seq<Todo>, id: int)
    ensures Toggled(Toggled(ts, id), id) == ts
  {
  }

  /** Toggling an id no entry has changes nothing. */
  lemma ToggleUnknown(ts: seq<Todo>, id: int)
    requires forall k :: 0 <= k < |ts| ==> ts[k].id != id
    ensures Toggled(ts, id) == ts
  {
  }

  // ---- edit ----

  /** The state editTodo captures for its saveEdit closure: the id and the text shown. */
  datatype EditSession = EditSession(id: int, original: string)

  /** editTodo: no session when no entry has the id, else one on the first such entry. */
  function BeginEdit(ts: seq<Todo>, id: int): (s: Option<EditSession>)
    ensures s.None? <==> forall k :: 0 <= k < |ts| ==> ts[k].id != id
    ensures s.Some? ==> s.value.id == id
    ensures s.Some? ==>
      exists k :: 0 <= k < |ts| && ts[k].id == id && ts[k].text == s.value.original &&
                  forall j :: 0 <= j < k ==> ts[j].id != id
  {
    match Find(ts, id)
    case None => None
    case Some(t) => Some(EditSession(id, t.text))
  }

  /** Whether saveEdit writes: the trimmed buffer is non-empty and differs from the captured text. */
  predicate Commits(s: EditSession, buffer: string) {
    var text := Trim(buffer);
    text != [] && text != s.original
  }

  /** saveEdit's effect on the list. */
  function Committed(ts: seq<Todo>, s: EditSession, buffer: string): (r: seq<Todo>)
    ensures !Commits(s, buffer) ==> r == ts
    ensures |r| == |ts|
    ensures forall i :: 0 <= i < |ts| ==>
      && r[i].id == ts[i].id && r[i].completed == ts[i].completed
      && r[i].createdAt == ts[i].createdAt
      && r[i].text == (if ts[i].id == s.id && Commits(s, buffer) then Trim(buffer) else ts[i].text)
  {
    if Commits(s, buffer) then Renamed(ts, s.id, Trim(buffer)) else ts
  }

  /**
   * Committing a text every entry with the id already has changes nothing, whatever the
   * captured text was.
   */
  lemma CommitSameText(ts: seq<Todo>, s: EditSession, buffer: string)
    requires forall k :: 0 <= k < |ts| && ts[k].id == s.id ==> ts[k].text == Trim(buffer)
    ensures Committed(ts, s, buffer) == ts
  {
  }

  /** saveEdit may run twice (Enter, then blur): the second run changes nothing more. */
  lemma CommitIdempotent(ts: seq<Todo>, s: EditSession, buffer: string)
    ensures Committed(Committed(ts, s, buffer), s, buffer) == Committed(ts, s, buffer)
  {
  }

  // ---- delete ----

  /** Deleting an id a second time changes nothing. */
  lemma DeleteTwice(ts: seq<Todo>, id: int)
    ensures Deleted(Deleted(ts, id), id) == Deleted(ts, id)
  {
    KeepIdempotent(ts, (t: Todo) => t.id != id);
  }

  /** Deleting an id no entry has changes nothing. */
  lemma DeleteUnknown(ts: seq<Todo>, id: int)
    requires forall k :: 0 <= k < |ts| ==> ts[k].id != id
    ensures Deleted(ts, id) == ts
  {
    assert forall t :: t in ts ==> t.id != id;
    KeepAll(ts, (t: Todo) => t.id != id);
  }

  /** Delete keeps the other entries, each as often as before, in their original order. */
  lemma DeleteKeepsOthers(ts: seq<Todo>, id: int, t: Todo)
    ensures IsSubsequence(Deleted(ts, id), ts)
    ensures multiset(Deleted(ts, id))[t] == if t.id == id then 0 else multiset(ts)[t]
  {
    KeepIsSubsequence(ts, (t: Todo) => t.id != id);
    KeepMultiplicity(ts, (t: Todo) => t.id != id, t);
  }

  // ---- clear completed ----

  /** Clearing keeps every active entry, as often as before, in its original order. */
  lemma ClearKeepsActive(ts: seq<Todo>, t: Todo)
    ensures forall k :: 0 <= k < |Cleared(ts)| ==> !Cleared(ts)[k].completed
    ensures IsSubsequence(Cleared(ts), ts)
    ensures multiset(Cleared(ts))[t] == if t.completed then 0 else multiset(ts)[t]
  {
    KeepIsSubsequence(ts, IsActive);
    KeepMultiplicity(ts, IsActive, t);
  }

  /** Clearing twice is clearing once. */
  lemma ClearTwice(ts: seq<Todo>)
    ensures Cleared(Cleared(ts)) == Cleared(ts)
  {
    KeepIdempotent(ts, IsActive);
  }

  // ---- what every mutation keeps: texts stay non-empty and trimmed ----

  lemma TidyAdded(ts: seq<Todo>, raw: string, id: int, createdAt: string)
    requires Tidy(ts)
    ensures Tidy(Added(ts, raw, id, createdAt))
  {
  }

  lemma TidyToggled(ts: seq<Todo>, id: int)
    requires Tidy(ts)
    ensures Tidy(Toggled(ts, id))
  {
  }

  lemma TidyCommitted(ts: seq<Todo>, s: EditSession, buffer: string)
    requires Tidy(ts)
    ensures Tidy(Committed(ts, s, buffer))
  {
  }

  lemma TidyDeleted(ts: seq<Todo>, id: int)
    requires Tidy(ts)
    ensures Tidy(Deleted(ts, id))
  {
  }

  lemma TidyCleared(ts: seq<Todo>)
    requires Tidy(ts)
    ensures Tidy(Cleared(ts))
  {
  }
}
