/**
 * The client's `useTodo` hook: the list mirrored from the server, the add-input text, the search
 * text, and the id and draft text of the record being edited; the filtered view derived from
 * them; and the handlers that talk to the server and reload the list afterwards.
 *
 * Every server call is abstract: a handler takes whether its request succeeds, and the outcome
 * of the reload that follows (`None` when the reload fails, `Some(list)` for the list the server
 * returns). Each handler returns the requests it issued, in order.
 */
module UseTodo {
  import opened Wrappers
  import opened Todos
  import Text

  /** The HTTP requests the hook sends, relative to the `/todo` base URL. */
  datatype Request = Get | Post(title: string) | Put(id: int, title: string) | Delete(id: int) | Patch(id: int)

  /** The search test of the filter: the lower-cased title includes the lower-cased search text. */
  predicate Matches(title: string, search: string)
  {
    Text.Contains(Text.ToLower(title), Text.ToLower(search))
  }

  /** `toDoList.filter(item => item.title.toLowerCase().includes(searchList.toLowerCase()))`. */
  function FilterList(list: seq<Todo>, search: string): (r: seq<Todo>)
    ensures |r| <= |list|
    ensures forall t :: t in r <==> t in list && Matches(t.title, search)
  {
    if list == [] then []
    else (if Matches(list[0].title, search) then [list[0]] else []) + FilterList(list[1..], search)
  }

  /** The filter keeps every copy of each matching record and no copy of any other. */
  lemma {:induction false} FilterCounts(list: seq<Todo>, search: string)
    ensures forall t :: multiset(FilterList(list, search))[t] ==
                        if Matches(t.title, search) then multiset(list)[t] else 0
  {
    if list != [] {
      FilterCounts(list[1..], search);
      assert list == [list[0]] + list[1..];
    }
  }

  /** `a` is `b` with some of its elements left out, the rest in their original order. */
  predicate IsSubsequence(a: seq<Todo>, b: seq<Todo>)
    decreases |b|
  {
    if a == [] then true
    else if b == [] then false
    else if a[0] == b[0] then IsSubsequence(a[1..], b[1..])
    else IsSubsequence(a, b[1..])
  }

  /** The filtered view keeps the order of the list: it is a subsequence of it. */
  lemma {:induction false} FilterIsSubsequence(list: seq<Todo>, search: string)
    ensures IsSubsequence(FilterList(list, search), list)
  {
    if list != [] {
      FilterIsSubsequence(list[1..], search);
      var rest := FilterList(list[1..], search);
      if !Matches(list[0].title, search) {
        assert FilterList(list, search) == rest;
        SubsequenceOfTail(rest, list);
      } else {
        assert FilterList(list, search) == [list[0]] + rest;
        assert ([list[0]] + rest)[1..] == rest;
      }
    }
  }

  /** A subsequence of the tail of `b` is a subsequence of `b`. */
  lemma {:induction false} SubsequenceOfTail(a: seq<Todo>, b: seq<Todo>)
    requires b != [] && IsSubsequence(a, b[1..])
    ensures IsSubsequence(a, b)
    decreases |b|
  {
    if a != [] && a[0] == b[0] {
      if b[1..] != [] && a[0] == b[1] {
        SubsequenceOfTail(a[1..], b[1..]);
      } else {
        SubsequenceOfTail(a[1..], b[1..]) by {
          SkipToMatch(a, b[1..]);
        }
      }
    }
  }

  /** If `a` is a subsequence of `b`, so is the tail of `a`. */
  lemma {:induction false} SkipToMatch(a: seq<Todo>, b: seq<Todo>)
    requires a != [] && IsSubsequence(a, b)
    ensures b != [] && IsSubsequence(a[1..], b[1..])
    decreases |b|
  {
    if a[0] != b[0] {
      SkipToMatch(a, b[1..]);
      SubsequenceOfTail(a[1..], b[1..]);
    }
  }

  /** Filtering a concatenation filters each part. */
  lemma {:induction false} FilterAppend(a: seq<Todo>, b: seq<Todo>, search: string)
    ensures FilterList(a + b, search) == FilterList(a, search) + FilterList(b, search)
  {
    if a != [] {
      var head := if Matches(a[0].title, search) then [a[0]] else [];
      assert (a + b)[0] == a[0] && (a + b)[1..] == a[1..] + b;
      assert FilterList(a + b, search) == head + FilterList(a[1..] + b, search);
      FilterAppend(a[1..], b, search);
      assert FilterList(a, search) == head + FilterList(a[1..], search);
    } else {
      assert a + b == b;
    }
  }

  /** With an empty search text the filtered view is the whole list. */
  lemma {:induction false} FilterEmptySearch(list: seq<Todo>)
    ensures FilterList(list, []) == list
  {
    if list != [] {
      Text.ContainsEmpty(Text.ToLower(list[0].title));
      FilterEmptySearch(list[1..]);
    }
  }

  /** The search is case-insensitive: lower-casing the search text does not change the view. */
  lemma {:induction false} FilterCaseInsensitive(list: seq<Todo>, search: string)
    ensures FilterList(list, Text.ToLower(search)) == FilterList(list, search)
  {
    Text.ToLowerIdempotent(search);
    if list != [] {
      FilterCaseInsensitive(list[1..], search);
    }
  }

  /** Filtering the filtered view again changes nothing. */
  lemma {:induction false} FilterIdempotent(list: seq<Todo>, search: string)
    ensures FilterList(FilterList(list, search), search) == FilterList(list, search)
  {
    if list != [] {
      FilterIdempotent(list[1..], search);
      var rest := FilterList(list[1..], search);
      if Matches(list[0].title, search) {
        assert FilterList(list, search) == [list[0]] + rest;
        FilterAppend([list[0]], rest, search);
        assert FilterList([list[0]], search) == [list[0]] + FilterList([], search);
      } else {
        assert FilterList(list, search) == rest;
      }
    }
  }

  /** The hook's state and handlers. */
  class Hook {
    var toDoList: seq<Todo>
    var addList: string
    var searchList: string
    var editingId: Option<int>
    var editValue: string

    /** The mount: all state empty, then the initial `loadTodos` with outcome `initial`. */
    constructor (initial: Option<seq<Todo>>)
      ensures toDoList == initial.GetOr([])
      ensures addList == [] && searchList == [] && editingId == None && editValue == []
    {
      toDoList := [];
      addList := [];
      searchList := [];
      editingId := None;
      editValue := [];
      new;
      var _ := LoadTodos(initial);
    }

    /** `filterList`: every copy of each record the search text matches, in list order. */
    function FilteredView(): (r: seq<Todo>)
      reads this
      ensures forall t :: t in r <==> t in toDoList && Matches(t.title, searchList)
      ensures forall t :: multiset(r)[t] == if Matches(t.title, searchList) then multiset(toDoList)[t] else 0
      ensures IsSubsequence(r, toDoList)
    {
      FilterIsSubsequence(toDoList, searchList);
      FilterCounts(toDoList, searchList);
      FilterList(toDoList, searchList)
    }

    /** `loadTodos`: a successful reload replaces the list; a failed one leaves it. */
    method LoadTodos(response: Option<seq<Todo>>) returns (sent: seq<Request>)
      modifies this
      ensures sent == [Get]
      ensures toDoList == response.GetOr(old(toDoList))
      ensures addList == old(addList) && searchList == old(searchList)
      ensures editingId == old(editingId) && editValue == old(editValue)
    {
      sent := [Get];
      if response.Some? {
        toDoList := response.value;
      }
    }

    /**
     * `handleAdd`: nothing happens for a blank input. Otherwise the input is posted as it is,
     * untrimmed; on success the input is cleared and the list reloaded, and on failure nothing
     * changes.
     */
    method HandleAdd(postOk: bool, reload: Option<seq<Todo>>) returns (sent: seq<Request>)
      modifies this
      ensures Text.IsBlank(old(addList)) ==>
        sent == [] && toDoList == old(toDoList) && addList == old(addList)
      ensures !Text.IsBlank(old(addList)) && !postOk ==>
        sent == [Post(old(addList))] && toDoList == old(toDoList) && addList == old(addList)
      ensures !Text.IsBlank(old(addList)) && postOk ==>
        sent == [Post(old(addList)), Get] && toDoList == reload.GetOr(old(toDoList)) && addList == []
      ensures searchList == old(searchList)
      ensures editingId == old(editingId) && editValue == old(editValue)
    {
      if Text.IsBlank(addList) {
        return [];
      }
      sent := [Post(addList)];
      if postOk {
        addList := [];
        var reloadSent := LoadTodos(reload);
        sent := sent + reloadSent;
      }
    }

    /** `handleDelete`: deletes `id` and, on success, reloads; the inputs are never touched. */
    method HandleDelete(id: int, deleteOk: bool, reload: Option<seq<Todo>>) returns (sent: seq<Request>)
      modifies this
      ensures sent == if deleteOk then [Delete(id), Get] else [Delete(id)]
      ensures toDoList == if deleteOk then reload.GetOr(old(toDoList)) else old(toDoList)
      ensures addList == old(addList) && searchList == old(searchList)
      ensures editingId == old(editingId) && editValue == old(editValue)
    {
      sent := [Delete(id)];
      if deleteOk {
        var reloadSent := LoadTodos(reload);
        sent := sent + reloadSent;
      }
    }

    /** `startEditing`: this record becomes the one being edited, its title the draft. */
    method StartEditing(id: int, currentTitle: string)
      modifies this
      ensures editingId == Some(id) && editValue == currentTitle
      ensures toDoList == old(toDoList) && addList == old(addList) && searchList == old(searchList)
    {
      editingId := Some(id);
      editValue := currentTitle;
    }

    /**
     * `saveEdit`: nothing happens for a blank draft. Otherwise the draft is sent as the new
     * title of `id`; on success editing ends and the list is reloaded, and on failure the
     * editing state stays as it was.
     */
    method SaveEdit(id: int, putOk: bool, reload: Option<seq<Todo>>) returns (sent: seq<Request>)
      modifies this
      ensures Text.IsBlank(old(editValue)) ==>
        sent == [] && toDoList == old(toDoList) &&
        editingId == old(editingId) && editValue == old(editValue)
      ensures !Text.IsBlank(old(editValue)) && !putOk ==>
        sent == [Put(id, old(editValue))] && toDoList == old(toDoList) &&
        editingId == old(editingId) && editValue == old(editValue)
      ensures !Text.IsBlank(old(editValue)) && putOk ==>
        sent == [Put(id, old(editValue)), Get] && toDoList == reload.GetOr(old(toDoList)) &&
        editingId == None && editValue == []
      ensures addList == old(addList) && searchList == old(searchList)
    {
      if Text.IsBlank(editValue) {
        return [];
      }
      sent := [Put(id, editValue)];
      if putOk {
        editingId := None;
        editValue := [];
        var reloadSent := LoadTodos(reload);
        sent := sent + reloadSent;
      }
    }

    /** `toggleComplete`: asks the server to toggle `id` and, on success, reloads. */
    method ToggleComplete(id: int, patchOk: bool, reload: Option<seq<Todo>>) returns (sent: seq<Request>)
      modifies this
      ensures sent == if patchOk then [Patch(id), Get] else [Patch(id)]
      ensures toDoList == if patchOk then reload.GetOr(old(toDoList)) else old(toDoList)
      ensures addList == old(addList) && searchList == old(searchList)
      ensures editingId == old(editingId) && editValue == old(editValue)
    {
      sent := [Patch(id)];
      if patchOk {
        var reloadSent := LoadTodos(reload);
        sent := sent + reloadSent;
      }
    }
  }

  /** "buy" matches "Buy milk". */
  lemma BuyMatchesBuyMilk()
    ensures Matches("Buy milk", "buy")
  {
  }

  /** "buy" does not match "Walk dog". */
  lemma BuyMissesWalkDog()
    ensures !Matches("Walk dog", "buy")
  {
  }

  /** Searching "buy" in ["Buy milk", "Walk dog"] shows "Buy milk" alone. */
  lemma SearchBuy()
    ensures FilterList([Todo(1, "Buy milk", false), Todo(2, "Walk dog", false)], "buy")
         == [Todo(1, "Buy milk", false)]
  {
    var buy, walk := Todo(1, "Buy milk", false), Todo(2, "Walk dog", false);
    BuyMatchesBuyMilk();
    BuyMissesWalkDog();
    assert FilterList([walk], "buy") == [];
    assert [buy, walk][1..] == [walk];
  }
}
