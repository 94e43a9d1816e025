/**
 * The module-level state of src/main.js — `todos` and `currentFilter` — as an object whose
 * methods are the event handlers, plus the last collection written to local storage.
 */
module Store {
  import opened Wrappers
  import opened Text
  import opened Todos
  import opened TodoLaws
  import opened View

  /**
   * What `localStorage.getItem('todos')` yielded at start-up: no item, or a stored string
   * together with the outcome of `JSON.parse` on it (None when it threw).
   */
  datatype StoredBlob = Absent | Present(raw: string, parsed: Option<seq<Todo>>)

  /**
   * loadFromLocalStorage: a missing or empty string leaves the initial empty list, a string
   * that fails to parse is logged and replaced by the empty list, and otherwise the parsed
   * list is taken as it stands.
   */
  function Loaded(blob: StoredBlob): (ts: seq<Todo>)
    ensures blob.Present? && blob.raw != [] && blob.parsed.Some? ==> ts == blob.parsed.value
    ensures blob.Absent? || blob.raw == [] || blob.parsed.None? ==> ts == []
  {
    match blob
    case Absent => []
    case Present(raw, parsed) =>
      if raw == [] then []
      else match parsed
        case None => []
        case Some(saved) => saved
  }

  class TodoStore {
    var todos: seq<Todo>
    var currentFilter: Filter
    /** The collection handed to saveToLocalStorage most recently in this session, if any. */
    var stored: Option<seq<Todo>>

    /** init: load the stored list; the filter starts at All and nothing has been written yet. */
    constructor (blob: StoredBlob)
      ensures todos == Loaded(blob) && currentFilter == All && stored == None
    {
      todos := Loaded(blob);
      currentFilter := All;
      stored := None;
    }

    /** addTodo, with `Date.now()` and the ISO timestamp supplied by the caller. */
    method Add(raw: string, now: int, isoNow: string)
      modifies this
      ensures todos == Added(old(todos), raw, now, isoNow)
      ensures stored == if AllWhiteSpace(raw) then old(stored) else Some(todos)
      ensures currentFilter == old(currentFilter)
    {
      var text := Trim(raw);
      if text == [] {
        return;
      }
      todos := [Todo(now, text, false, isoNow)] + todos;
      stored := Some(todos);
    }

    /** toggleTodo: always written back, even when no entry has the id. */
    method Toggle(id: int)
      modifies this
      ensures todos == Toggled(old(todos), id)
      ensures stored == Some(todos)
      ensures currentFilter == old(currentFilter)
    {
      todos := Toggled(todos, id);
      stored := Some(todos);
    }

    /** The start of editTodo: capture the first entry with the id, or do nothing. */
    method StartEdit(id: int) returns (session: Option<EditSession>)
      ensures session.None? <==> forall k :: 0 <= k < |todos| ==> todos[k].id != id
      ensures session.Some? ==> session.value.id == id
      ensures session.Some? ==>
        exists k :: 0 <= k < |todos| && todos[k].id == id && todos[k].text == session.value.original &&
                    forall j :: 0 <= j < k ==> todos[j].id != id
    {
      session := BeginEdit(todos, id);
    }

    /** saveEdit: rename and write back only when the trimmed buffer is new and non-empty. */
    method SaveEdit(session: EditSession, buffer: string)
      modifies this
      ensures todos == Committed(old(todos), session, buffer)
      ensures stored == if Commits(session, buffer) then Some(todos) else old(stored)
      ensures currentFilter == old(currentFilter)
    {
      var newText := Trim(buffer);
      if newText != [] && newText != session.original {
        todos := Renamed(todos, session.id, newText);
        stored := Some(todos);
      }
    }

    /** deleteTodo: always written back. */
    method Delete(id: int)
      modifies this
      ensures todos == Deleted(old(todos), id)
      ensures stored == Some(todos)
      ensures currentFilter == old(currentFilter)
    {
      todos := Deleted(todos, id);
      stored := Some(todos);
    }

    /** clearCompleted: always written back. */
    method ClearCompleted()
      modifies this
      ensures todos == Cleared(old(todos))
      ensures stored == Some(todos)
      ensures currentFilter == old(currentFilter)
    {
      todos := Cleared(todos);
      stored := Some(todos);
    }

    /** The filter buttons' click handler: only the filter changes; nothing is written. */
    method SelectFilter(value: string)
      modifies this
      ensures currentFilter == ParseFilter(value)
      ensures todos == old(todos) && stored == old(stored)
    {
      currentFilter := ParseFilter(value);
    }
  }

  /** The two views of a list holding one active and then one completed entry. */
  lemma ViewsOfPair(a: Todo, b: Todo)
    requires !a.completed && b.completed
    ensures ViewOf([a, b], Active) == [a] && ViewOf([a, b], Completed) == [b]
  {
    assert [a, b][1..] == [b];
    assert [b][1..] == [];
    assert Keep([b], IsActive) == [];
    assert Keep([a, b], IsActive) == [a] + Keep([b], IsActive);
    assert Keep([b], IsDone) == [b] + Keep([], IsDone);
    assert Keep([a, b], IsDone) == Keep([b], IsDone);
  }

  /** Toggling the id of the second of two entries with different ids completes only it. */
  lemma ToggledPair(a: Todo, b: Todo)
    requires a.id != b.id
    ensures Toggled([a, b], b.id) == [a, b.(completed := !b.completed)]
  {
  }

  /** The footer for a list holding one active and then one completed entry. */
  lemma StatsOfPair(a: Todo, b: Todo)
    requires !a.completed && b.completed
    ensures StatsOf([a, b]) == Stats(1, "1 item left", true)
  {
    ViewsOfPair(a, b);
    StatsMatchViews([a, b]);
    LabelWording(1);
  }

  /**
   * A session on a fresh store, for any two texts that are already trimmed (such as
   * "Buy milk" and then "Write spec"): add both, complete the first, select the active
   * filter, and read the views and the footer.
   */
  method BuyMilkScenario(first: string, second: string)
    requires first != [] && Trim(first) == first
    requires second != [] && Trim(second) == second
  {
    var store := new TodoStore(Absent);
    store.Add(first, 1, "t1");
    store.Add(second, 2, "t2");
    var older, newer := Todo(1, first, false, "t1"), Todo(2, second, false, "t2");
    assert store.todos == [newer, older];
    store.Toggle(1);
    var done := older.(completed := true);
    ToggledPair(newer, older);
    assert store.todos == [newer, done];
    store.SelectFilter("active");
    ViewsOfPair(newer, done);
    assert ViewOf(store.todos, store.currentFilter) == [newer];
    assert ViewOf(store.todos, Completed) == [done];
    var footer := StatsOf(store.todos);
    StatsOfPair(newer, done);
    assert footer == Stats(1, "1 item left", true);
  }
}
