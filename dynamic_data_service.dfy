/**
 * The data-access service over the entity table. The store is an Id-keyed
 * table; the clock is the `now` argument of the operations that stamp a time.
 */
module Services {
  import opened Wrappers
  import opened Models
  import opened Queries
  import StringOrder

  /** The ArgumentException Update raises: "Entity with ID {id} not found". */
  datatype UpdateError = NotFound(id: int)

  /** The six fields Update copies from its input. */
  predicate SameEditableFields(a: Entity, b: Entity)
  {
    a.name == b.name && a.description == b.description && a.category == b.category
    && a.price == b.price && a.quantity == b.quantity && a.isActive == b.isActive
  }

  /**
   * The stored row after Update: the editable fields come from `input`, Id
   * and CreatedDate stay those of `stored`, and ModifiedDate becomes `now`.
   */
  function ApplyUpdate(stored: Entity, input: Entity, now: Timestamp): (r: Entity)
    ensures SameEditableFields(r, input)
    ensures r.id == stored.id && r.createdDate == stored.createdDate
    ensures r.modifiedDate == Some(now)
  {
    stored.(name := input.name, description := input.description, category := input.category,
            price := input.price, quantity := input.quantity, isActive := input.isActive,
            modifiedDate := Some(now))
  }

  /** Every validated field is one Update copies, so a valid input gives a valid row. */
  lemma UpdatePreservesValid(stored: Entity, input: Entity, now: Timestamp)
    requires Valid(input)
    ensures Valid(ApplyUpdate(stored, input, now))
  {
  }

  /** The Id, CreatedDate and ModifiedDate of Update's input play no part in the new row. */
  lemma UpdateIgnoresInputBookkeeping(stored: Entity, a: Entity, b: Entity, now: Timestamp)
    requires SameEditableFields(a, b)
    ensures ApplyUpdate(stored, a, now) == ApplyUpdate(stored, b, now)
  {
  }

  /** Applying the same update twice at the same time gives the same row as once. */
  lemma UpdateIdempotent(stored: Entity, input: Entity, now: Timestamp)
    ensures ApplyUpdate(ApplyUpdate(stored, input, now), input, now) == ApplyUpdate(stored, input, now)
  {
  }

  /** The Category of each row (the Select step), in row order. */
  function CategoriesOf(rows: seq<Entity>): (cs: seq<string>)
    ensures |cs| == |rows|
    ensures forall i :: 0 <= i < |rows| ==> cs[i] == rows[i].category
  {
    seq(|rows|, i requires 0 <= i < |rows| => rows[i].category)
  }

  ghost predicate CategoryInTable(t: map<int, Entity>, c: string)
  {
    exists k :: k in t && t[k].category == c
  }

  /** Every selected category comes from some row of the table. */
  lemma SelectedCategoryInTable(t: map<int, Entity>, c: string)
    requires KeyedById(t)
    requires c in CategoriesOf(Rows(t))
    ensures CategoryInTable(t, c)
  {
    var rows := Rows(t);
    var selected := CategoriesOf(rows);
    var i :| 0 <= i < |selected| && selected[i] == c;
    assert rows[i].id in t && t[rows[i].id].category == c;
  }

  /** Every row's category is selected. */
  lemma TableCategorySelected(t: map<int, Entity>, c: string)
    requires KeyedById(t)
    requires CategoryInTable(t, c)
    ensures c in CategoriesOf(Rows(t))
  {
    var rows := Rows(t);
    var selected := CategoriesOf(rows);
    var k :| k in t && t[k].category == c;
    assert t[k] in rows;
    var i :| 0 <= i < |rows| && rows[i] == t[k];
    assert selected[i] == c;
  }

  /** The distinct sorted categories of a table are exactly the categories of its rows. */
  lemma CategoriesCover(t: map<int, Entity>)
    requires KeyedById(t)
    ensures forall c :: c in SortedDistinct(CategoriesOf(Rows(t))) <==> CategoryInTable(t, c)
  {
    forall c ensures c in SortedDistinct(CategoriesOf(Rows(t))) <==> CategoryInTable(t, c) {
      if c in CategoriesOf(Rows(t)) {
        SelectedCategoryInTable(t, c);
      }
      if CategoryInTable(t, c) {
        TableCategorySelected(t, c);
      }
    }
  }

  class DataService {
    /** The entity table: each Id maps to the row stored under it. */
    var table: map<int, Entity>
    /** The next value of the store's identity column. */
    var nextId: int

    /** Keys are positive, below the identity counter, and equal to their row's Id. */
    ghost predicate Consistent()
      reads this
    {
      nextId > 0 && KeyedById(table) && forall k :: k in table ==> 0 < k < nextId
    }

    /**
     * A service over the table the database already holds, with the identity
     * counter above every stored key.
     */
    constructor (t: map<int, Entity>, next: int)
      requires next > 0 && KeyedById(t)
      requires forall k :: k in t ==> 0 < k < next
      ensures Consistent() && table == t && nextId == next
    {
      table := t;
      nextId := next;
    }

    /** GetAllAsync: every row exactly once, ordered by Name ascending. */
    function GetAll(): (all: seq<Entity>)
      reads this
      requires Consistent()
      ensures SortedByName(all)
      ensures |all| == |table|
      ensures forall e :: e in all ==> e.id in table && table[e.id] == e
      ensures forall k :: k in table ==> multiset(all)[table[k]] == 1
    {
      var rows := Rows(table);
      var all := SortByName(rows);
      ReorderedRows(table, rows, all);
      all
    }

    /** GetByIdAsync: the row stored under `id`, or None when there is none. */
    function GetById(id: int): (found: Option<Entity>)
      reads this
      requires Consistent()
      ensures found.Some? <==> id in table
      ensures found.Some? ==> found.value == table[id] && found.value.id == id
    {
      if id in table then Some(table[id]) else None
    }

    /**
     * CreateAsync: stamps CreatedDate with `now` and inserts the entity under a
     * fresh positive Id from the store; the returned entity carries that Id.
     */
    method Create(entity: Entity, now: Timestamp) returns (created: Entity)
      requires Consistent()
      modifies this
      ensures Consistent()
      ensures created.id > 0 && created.id !in old(table)
      ensures created == entity.(id := created.id, createdDate := now)
      ensures table == old(table)[created.id := created]
      ensures nextId > old(nextId)
    {
      var e := entity.(createdDate := now);
      // SaveChangesAsync: the store assigns the identity value.
      e := e.(id := nextId);
      table := table[e.id := e];
      nextId := nextId + 1;
      created := e;
    }

    /**
     * UpdateAsync: fails with NotFound when no row has the input's Id, and writes
     * nothing; otherwise copies the editable fields onto the stored row, stamps
     * ModifiedDate and returns the stored row.
     */
    method Update(entity: Entity, now: Timestamp) returns (result: Result<Entity, UpdateError>)
      requires Consistent()
      modifies this
      ensures Consistent()
      ensures nextId == old(nextId)
      ensures entity.id !in old(table) ==> result == Failure(NotFound(entity.id)) && table == old(table)
      ensures entity.id in old(table) ==>
                && result == Success(ApplyUpdate(old(table)[entity.id], entity, now))
                && table == old(table)[entity.id := result.value]
    {
      var existing := GetById(entity.id);
      if existing.None? {
        return Failure(NotFound(entity.id));
      }
      var e := existing.value;
      e := e.(name := entity.name);
      e := e.(description := entity.description);
      e := e.(category := entity.category);
      e := e.(price := entity.price);
      e := e.(quantity := entity.quantity);
      e := e.(isActive := entity.isActive);
      e := e.(modifiedDate := Some(now));
      table := table[e.id := e];
      result := Success(e);
    }

    /** DeleteAsync: removes the row under `id` and says whether there was one. */
    method Delete(id: int) returns (deleted: bool)
      requires Consistent()
      modifies this
      ensures Consistent()
      ensures nextId == old(nextId)
      ensures deleted <==> id in old(table)
      ensures table == old(table) - {id}
      ensures !deleted ==> table == old(table)
    {
      var found := GetById(id);
      if found.None? {
        return false;
      }
      table := table - {id};
      deleted := true;
    }

    /** GetCategoriesAsync: each Category in the table once, sorted ascending. */
    function GetCategories(): (categories: seq<string>)
      reads this
      requires Consistent()
      ensures StrictlyAscending(categories)
      ensures forall i, j :: 0 <= i < j < |categories| ==> categories[i] != categories[j]
      ensures forall c :: c in categories <==> CategoryInTable(table, c)
    {
      var categories := SortedDistinct(CategoriesOf(Rows(table)));
      AscendingIsDistinct(categories);
      CategoriesCover(table);
      categories
    }
  }

  /** GetCategories is determined by the set of categories in the table alone. */
  lemma CategoriesDetermined(service: DataService, expected: seq<string>)
    requires service.Consistent()
    requires StrictlyAscending(expected)
    requires forall c :: c in expected <==> CategoryInTable(service.table, c)
    ensures service.GetCategories() == expected
  {
    AscendingUnique(service.GetCategories(), expected);
  }
}
