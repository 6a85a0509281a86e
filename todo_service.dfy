/**
 * The back end's `TodoService`: create, read, update, delete and a completion toggle over the
 * table of to-do records. The repository is an in-memory map from id to record; every call that
 * touches storage takes a `fault` flag saying whether the repository call rejects.
 */
module TodoService {
  import opened Wrappers
  import opened Todos
  import Text

  /**
   * What a call can fail with: the three HTTP exceptions the service throws, plus the raw
   * rejection of a repository call, which the service's `catch` blocks never let escape.
   */
  datatype Error = NotFound | BadRequest | InternalServerError | StoreRejected

  datatype Result<T> = Ok(value: T) | Err(error: Error)

  /** The body of a create or update request; both fields may be absent. */
  datatype TodoDto = TodoDto(title: Option<string>, completed: Option<bool>)

  /** The confirmation `remove` returns; it names the deleted id. */
  datatype Deleted = Deleted(id: int)

  /** `catch (error) { throw new InternalServerErrorException(...) }`: every failure becomes a 500. */
  function CatchAll<T>(r: Result<T>): (c: Result<T>)
    ensures c.Ok? <==> r.Ok?
    ensures c.Ok? ==> c == r
    ensures c.Err? ==> c.error == InternalServerError
  {
    if r.Ok? then r else Err(InternalServerError)
  }

  /** The title check of `create`: present, and not empty or whitespace only once trimmed. */
  predicate ValidTitle(dto: TodoDto)
  {
    dto.title.Some? && !Text.IsBlank(dto.title.value)
  }

  /** `Object.assign(todo, dto)`: each field the request supplies overwrites the stored one. */
  function Merge(t: Todo, dto: TodoDto): (r: Todo)
    ensures r.id == t.id
    ensures r.title == dto.title.GetOr(t.title)
    ensures r.completed == dto.completed.GetOr(t.completed)
  {
    Todo(t.id, dto.title.GetOr(t.title), dto.completed.GetOr(t.completed))
  }

  /** `todo.completed = !todo.completed`. */
  function Toggled(t: Todo): (r: Todo)
    ensures r.id == t.id && r.title == t.title && r.completed != t.completed
  {
    t.(completed := !t.completed)
  }

  /** A request that supplies no field leaves the record as it was. */
  lemma MergeEmptyIsIdentity(t: Todo)
    ensures Merge(t, TodoDto(None, None)) == t
  {
  }

  /** Toggling twice restores the record. */
  lemma ToggledTwice(t: Todo)
    ensures Toggled(Toggled(t)) == t
  {
  }

  /** Every record is stored under its own id. */
  ghost predicate WellKeyed(table: map<int, Todo>)
  {
    forall k :: k in table ==> table[k].id == k
  }

  /**
   * `rows` is what the repository's `find()` may return for `table`: each stored record exactly
   * once, in an order the repository chooses.
   */
  predicate IsListing(rows: seq<Todo>, table: map<int, Todo>)
  {
    (forall i :: 0 <= i < |rows| ==> rows[i].id in table && table[rows[i].id] == rows[i]) &&
    (forall i, j :: 0 <= i < j < |rows| ==> rows[i].id != rows[j].id) &&
    (forall k :: k in table ==> table[k] in rows)
  }

  /** Putting the record stored under `k` in front of a listing of the rest lists the whole table. */
  lemma ListingCons(table: map<int, Todo>, k: int, tail: seq<Todo>)
    requires WellKeyed(table) && k in table
    requires IsListing(tail, table - {k})
    ensures IsListing([table[k]] + tail, table)
  {
    var rows := [table[k]] + tail;
    forall i | 0 <= i < |rows|
      ensures rows[i].id in table && table[rows[i].id] == rows[i]
    {
      if i > 0 {
        assert rows[i] == tail[i - 1];
      }
    }
    forall i, j | 0 <= i < j < |rows|
      ensures rows[i].id != rows[j].id
    {
      assert rows[j] == tail[j - 1];
      if i > 0 {
        assert rows[i] == tail[i - 1];
      }
    }
    forall k' | k' in table
      ensures table[k'] in rows
    {
      if k' != k {
        assert table[k'] == (table - {k})[k'];
      }
    }
  }

  /** The ids of `rows`. */
  function Ids(rows: seq<Todo>): (r: set<int>)
    ensures forall i :: 0 <= i < |rows| ==> rows[i].id in r
    ensures forall k :: k in r ==> exists i :: 0 <= i < |rows| && rows[i].id == k
  {
    if rows == [] then {}
    else
      var rest := Ids(rows[1..]);
      assert forall i :: 1 <= i < |rows| ==> rows[i] == rows[1..][i - 1];
      {rows[0].id} + rest
  }

  /** Rows with pairwise different ids have as many ids as rows. */
  lemma {:induction false} DistinctIdsCount(rows: seq<Todo>)
    requires forall i, j :: 0 <= i < j < |rows| ==> rows[i].id != rows[j].id
    ensures |Ids(rows)| == |rows|
  {
    if rows != [] {
      var tail := rows[1..];
      forall i, j | 0 <= i < j < |tail|
        ensures tail[i].id != tail[j].id
      {
        assert tail[i] == rows[i + 1] && tail[j] == rows[j + 1];
      }
      DistinctIdsCount(tail);
      forall i | 0 <= i < |tail|
        ensures tail[i].id != rows[0].id
      {
        assert tail[i] == rows[i + 1];
      }
      assert rows[0].id !in Ids(tail);
      assert Ids(rows) == {rows[0].id} + Ids(tail);
    }
  }

  /** A listing of a table holds exactly as many records as the table. */
  lemma ListingLength(rows: seq<Todo>, table: map<int, Todo>)
    requires WellKeyed(table) && IsListing(rows, table)
    ensures |rows| == |table|
  {
    DistinctIdsCount(rows);
    forall k | k in table
      ensures k in Ids(rows)
    {
      assert table[k] in rows;
    }
    assert Ids(rows) == table.Keys;
  }

  /** A listing is empty exactly when the table is. */
  lemma ListingEmptyIff(rows: seq<Todo>, table: map<int, Todo>)
    requires IsListing(rows, table)
    ensures rows == [] <==> table == map[]
  {
    if rows != [] {
      assert rows[0].id in table;
    }
    if table != map[] {
      if forall k :: k !in table {
        assert false;
      }
      var k :| k in table;
      assert table[k] in rows;
    }
  }

  /** A number above every element of `keys`. */
  ghost function Above(keys: set<int>): (b: int)
    ensures forall k :: k in keys ==> k < b
    decreases |keys|
  {
    if forall k :: k !in keys then 0
    else
      var k :| k in keys;
      var rest := keys - {k};
      assert rest + {k} == keys;
      var b' := Above(rest);
      if k < b' then b' else k + 1
  }

  class Service {
    /** The repository, id to record. */
    var table: map<int, Todo>
    /** The entity's default for `completed` when a create request leaves it out. */
    const completedDefault: bool

    ghost predicate Valid()
      reads this
    {
      WellKeyed(table)
    }

    /** The service over a repository that already holds `initial`. */
    constructor (initial: map<int, Todo>, completedDefault: bool)
      requires WellKeyed(initial)
      ensures Valid()
      ensures table == initial && this.completedDefault == completedDefault
    {
      table := initial;
      this.completedDefault := completedDefault;
    }

    /**
     * The repository's `find()`: the stored records one by one, in the order the repository
     * picks them, until none is left.
     */
    method Find() returns (rows: seq<Todo>)
      requires Valid()
      ensures IsListing(rows, table)
    {
      var rest := table;
      ghost var done: map<int, Todo> := map[];
      rows := [];
      while exists k :: k in rest
        invariant forall k :: k in table <==> k in done || k in rest
        invariant forall k :: k in done ==> k !in rest && done[k] == table[k]
        invariant forall k :: k in rest ==> rest[k] == table[k]
        invariant WellKeyed(done)
        invariant IsListing(rows, done)
        decreases |rest|
      {
        var k :| k in rest;
        var done' := done[k := table[k]];
        assert done' - {k} == done;
        ListingCons(done', k, rows);
        rows := [table[k]] + rows;
        done := done';
        assert |rest - {k}| < |rest| by {
          assert (rest - {k}).Keys + {k} == rest.Keys;
        }
        rest := rest - {k};
      }
      forall k | k in table
        ensures k in done
      {
        assert k !in rest;
      }
      assert forall k :: k in done ==> k in table;
      assert done.Keys == table.Keys;
      assert forall k :: k in done ==> done[k] == table[k];
      assert done == table;
    }

    /**
     * `findAll`. The empty-table `NotFoundException` is thrown inside the `try`, so the
     * catch-all turns it into a 500, just as it does a rejected `find()`: an empty table is an
     * InternalServerError, never a NotFound.
     */
    method FindAll(fault: bool) returns (r: Result<seq<Todo>>)
      requires Valid()
      ensures r.Ok? <==> !fault && table != map[]
      ensures r.Err? ==> r.error == InternalServerError
      ensures r.Ok? ==> IsListing(r.value, table) && |r.value| == |table|
    {
      var attempt: Result<seq<Todo>>;
      if fault {
        attempt := Err(StoreRejected);
      } else {
        var rows := Find();
        ListingEmptyIff(rows, table);
        ListingLength(rows, table);
        if |rows| == 0 {
          attempt := Err(NotFound);
        } else {
          attempt := Ok(rows);
        }
      }
      r := CatchAll(attempt);
    }

    /** `findOne`: the record stored under `id`, or NotFound. */
    method FindOne(id: int) returns (r: Result<Todo>)
      requires Valid()
      ensures r.Ok? <==> id in table
      ensures r.Ok? ==> r.value == table[id] && r.value.id == id
      ensures r.Err? ==> r.error == NotFound
    {
      if id !in table {
        return Err(NotFound);
      }
      r := Ok(table[id]);
    }

    /**
     * `create`: a missing or blank title is a BadRequest and nothing is written; otherwise the
     * request becomes a new record under an id the table does not hold yet, and a rejected save
     * is an InternalServerError.
     */
    method Create(dto: TodoDto, fault: bool) returns (r: Result<Todo>)
      requires Valid()
      modifies this
      ensures Valid()
      ensures !ValidTitle(dto) ==> r == Err(BadRequest) && table == old(table)
      ensures ValidTitle(dto) && fault ==> r == Err(InternalServerError) && table == old(table)
      ensures ValidTitle(dto) && !fault ==>
        r.Ok? && r.value.id !in old(table) &&
        r.value.title == dto.title.value &&
        r.value.completed == dto.completed.GetOr(completedDefault) &&
        table == old(table)[r.value.id := r.value]
    {
      if dto.title.None? || Text.IsBlank(dto.title.value) {
        return Err(BadRequest);
      }
      assert Above(table.Keys) !in table;
      var id :| id !in table;
      var todo := Todo(id, dto.title.value, dto.completed.GetOr(completedDefault));
      var attempt: Result<Todo>;
      if fault {
        attempt := Err(StoreRejected);
      } else {
        table := table[id := todo];
        attempt := Ok(todo);
      }
      r := CatchAll(attempt);
    }

    /**
     * `update`: NotFound without a write when `id` is absent; otherwise the supplied fields
     * overwrite the stored ones and the result is saved. The title is not checked here.
     */
    method Update(id: int, dto: TodoDto, fault: bool) returns (r: Result<Todo>)
      requires Valid()
      modifies this
      ensures Valid()
      ensures id !in old(table) ==> r == Err(NotFound) && table == old(table)
      ensures id in old(table) && fault ==> r == Err(InternalServerError) && table == old(table)
      ensures id in old(table) && !fault ==>
        r == Ok(Merge(old(table)[id], dto)) && table == old(table)[id := r.value]
    {
      if id !in table {
        return Err(NotFound);
      }
      var todo := Merge(table[id], dto);
      var attempt: Result<Todo>;
      if fault {
        attempt := Err(StoreRejected);
      } else {
        table := table[id := todo];
        attempt := Ok(todo);
      }
      r := CatchAll(attempt);
    }

    /** `remove`: NotFound when `id` is absent; otherwise exactly that record is deleted. */
    method Remove(id: int, fault: bool) returns (r: Result<Deleted>)
      requires Valid()
      modifies this
      ensures Valid()
      ensures id !in old(table) ==> r == Err(NotFound) && table == old(table)
      ensures id in old(table) && fault ==> r == Err(InternalServerError) && table == old(table)
      ensures id in old(table) && !fault ==> r == Ok(Deleted(id)) && table == old(table) - {id}
    {
      if id !in table {
        return Err(NotFound);
      }
      var attempt: Result<Deleted>;
      if fault {
        attempt := Err(StoreRejected);
      } else {
        table := table - {id};
        attempt := Ok(Deleted(id));
      }
      r := CatchAll(attempt);
    }

    /** `setComplete`: NotFound when `id` is absent; otherwise `completed` is inverted and saved. */
    method SetComplete(id: int, fault: bool) returns (r: Result<Todo>)
      requires Valid()
      modifies this
      ensures Valid()
      ensures id !in old(table) ==> r == Err(NotFound) && table == old(table)
      ensures id in old(table) && fault ==> r == Err(InternalServerError) && table == old(table)
      ensures id in old(table) && !fault ==>
        r == Ok(Toggled(old(table)[id])) && table == old(table)[id := r.value]
    {
      if id !in table {
        return Err(NotFound);
      }
      var todo := Toggled(table[id]);
      var attempt: Result<Todo>;
      if fault {
        attempt := Err(StoreRejected);
      } else {
        table := table[id := todo];
        attempt := Ok(todo);
      }
      r := CatchAll(attempt);
    }
  }

  /** Two successful toggles of the same record leave the table as it was. */
  lemma ToggleTwiceRestoresTable(table: map<int, Todo>, id: int)
    requires id in table
    ensures var once := table[id := Toggled(table[id])];
            once[id := Toggled(once[id])] == table
  {
  }

  /**
   * The create / list / toggle / delete / look-up round trip on a fresh table: the created
   * record is the one record listed, one toggle completes it, and once it is deleted looking it
   * up is NotFound.
   */
  method BuyMilkScenario() returns (created: Result<Todo>, listed: Result<seq<Todo>>,
                                    toggled: Result<Todo>, removed: Result<Deleted>,
                                    after: Result<Todo>)
    ensures created.Ok? && created.value.title == "Buy milk" && !created.value.completed
    ensures listed == Ok([created.value])
    ensures toggled == Ok(created.value.(completed := true))
    ensures removed == Ok(Deleted(created.value.id))
    ensures after == Err(NotFound)
  {
    var s := new Service(map[], false);
    Text.StartsWithTextNotBlank("Buy milk");
    created := s.Create(TodoDto(Some("Buy milk"), None), false);
    var todo := created.value;
    var id := todo.id;
    assert s.table == map[id := todo];
    listed := s.FindAll(false);
    assert |listed.value| == 1;
    assert listed.value[0].id in s.table;
    assert listed.value == [todo];
    toggled := s.SetComplete(id, false);
    assert s.table == map[id := todo.(completed := true)];
    removed := s.Remove(id, false);
    assert id !in s.table;
    after := s.FindOne(id);
  }
}
