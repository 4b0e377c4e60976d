/**
 * Clients of the service: the five entities the startup routine seeds, and
 * the create / update / delete round trips, each checked from the service's
 * contracts alone.
 */
module Scenarios {
  import opened Wrappers
  import opened Models
  import opened Queries
  import opened Services

  /** The five sample entities of the startup seed, built at time `now`. */
  function SeedEntities(now: Timestamp): (seeds: seq<Entity>)
    ensures |seeds| == 5
    ensures seeds[0].category == "Electronics" && seeds[1].category == "Furniture"
    ensures seeds[2].category == "Stationery" && seeds[3].category == "Appliances"
    ensures seeds[4].category == "Lighting"
  {
    var base := NewEntity(now);
    var seeds := [
      base.(name := "Laptop", description := "High-performance gaming laptop", category := "Electronics",
            price := 120000, quantity := 10, isActive := true),
      base.(name := "Office Chair", description := "Ergonomic office chair", category := "Furniture",
            price := 25000, quantity := 15, isActive := true),
      base.(name := "Notebook", description := "Professional notebook set", category := "Stationery",
            price := 1599, quantity := 100, isActive := true),
      base.(name := "Coffee Maker", description := "Automatic coffee machine", category := "Appliances",
            price := 8999, quantity := 20, isActive := true),
      base.(name := "Desk Lamp", description := "LED desk lamp with adjustable brightness", category := "Lighting",
            price := 3550, quantity := 30, isActive := true)
    ];
    seeds
  }

  /** A row whose text fields start with a visible character and are short enough even at two code units per character. */
  lemma ValidWhenShort(e: Entity)
    requires |e.name| > 0 && !IsWhiteSpace(e.name[0]) && 2 * |e.name| <= MaxNameLength
    requires 2 * |e.description| <= MaxDescriptionLength
    requires |e.category| > 0 && !IsWhiteSpace(e.category[0]) && 2 * |e.category| <= MaxCategoryLength
    requires PriceValid(e.price) && QuantityValid(e.quantity)
    ensures Valid(e)
  {
  }

  /** Every seed entity satisfies the declared validation rules. */
  lemma SeedEntityValid(now: Timestamp, i: nat)
    requires i < 5
    ensures Valid(SeedEntities(now)[i])
  {
    ValidWhenShort(SeedEntities(now)[i]);
  }

  /** The categories of the seed, in ascending order. */
  const SeedCategories: seq<string> := ["Appliances", "Electronics", "Furniture", "Lighting", "Stationery"]

  lemma SeedCategoriesAscending()
    ensures StrictlyAscending(SeedCategories)
  {
  }

  /** A table holding exactly the five created seeds has exactly the seed categories. */
  lemma SeedTableCategories(t: map<int, Entity>, rows: seq<Entity>)
    requires |rows| == 5
    requires forall i :: 0 <= i < 5 ==> rows[i].id in t && t[rows[i].id] == rows[i]
    requires forall k :: k in t ==> exists i :: 0 <= i < 5 && k == rows[i].id
    requires rows[0].category == "Electronics" && rows[1].category == "Furniture"
    requires rows[2].category == "Stationery" && rows[3].category == "Appliances"
    requires rows[4].category == "Lighting"
    ensures forall c :: c in SeedCategories <==> CategoryInTable(t, c)
  {
    forall c ensures c in SeedCategories <==> CategoryInTable(t, c) {
      if c in SeedCategories {
        var i :| 0 <= i < 5 && rows[i].category == c;
        assert rows[i].id in t;
      }
      if CategoryInTable(t, c) {
        var k :| k in t && t[k].category == c;
        var i :| 0 <= i < 5 && k == rows[i].id;
      }
    }
  }

  /** Creates the given entities, in order, in a service whose table is empty. */
  method CreateAll(service: DataService, entities: seq<Entity>, now: Timestamp) returns (rows: seq<Entity>)
    requires service.Consistent() && service.table == map[]
    modifies service
    ensures service.Consistent()
    ensures |rows| == |entities|
    ensures forall j :: 0 <= j < |rows| ==> rows[j] == entities[j].(id := rows[j].id, createdDate := now)
    ensures forall j :: 0 <= j < |rows| ==> rows[j].id in service.table && service.table[rows[j].id] == rows[j]
    ensures forall k :: k in service.table ==> exists j :: 0 <= j < |rows| && k == rows[j].id
    ensures forall j :: 0 <= j < |rows| ==> rows[j].id > 0
    ensures forall i, j :: 0 <= i < j < |rows| ==> rows[i].id != rows[j].id
    ensures |service.table| == |entities|
  {
    rows := [];
    while |rows| < |entities|
      invariant |rows| <= |entities| && service.Consistent()
      invariant forall j :: 0 <= j < |rows| ==> rows[j] == entities[j].(id := rows[j].id, createdDate := now)
      invariant forall j :: 0 <= j < |rows| ==> rows[j].id in service.table && service.table[rows[j].id] == rows[j]
      invariant forall k :: k in service.table ==> exists j :: 0 <= j < |rows| && k == rows[j].id
      invariant forall i, j :: 0 <= i < j < |rows| ==> rows[i].id != rows[j].id
      invariant |service.table| == |rows|
      decreases |entities| - |rows|
    {
      ghost var before, t0 := rows, service.table;
      var created := service.Create(entities[|rows|], now);
      rows := rows + [created];
      forall i, j | 0 <= i < j < |rows| ensures rows[i].id != rows[j].id {
        assert rows[i] == before[i] && before[i].id in t0;
        if j < |before| {
          assert rows[j] == before[j];
        }
      }
      forall j | 0 <= j < |rows|
        ensures rows[j] == entities[j].(id := rows[j].id, createdDate := now)
        ensures rows[j].id in service.table && service.table[rows[j].id] == rows[j]
      {
        if j < |before| {
          assert rows[j] == before[j] && before[j].id in t0;
        }
      }
      forall k | k in service.table ensures exists j :: 0 <= j < |rows| && k == rows[j].id {
        if k == created.id {
          assert k == rows[|before|].id;
        } else {
          assert k in t0;
          var j :| 0 <= j < |before| && k == before[j].id;
          assert k == rows[j].id;
        }
      }
    }
  }

  /** Creating the five seeds and listing the categories gives them sorted. */
  method SeedThenListCategories(now: Timestamp) returns (categories: seq<string>)
    ensures categories == ["Appliances", "Electronics", "Furniture", "Lighting", "Stationery"]
  {
    var service := new DataService(map[], 1);
    var rows := CreateAll(service, SeedEntities(now), now);
    SeedTableCategories(service.table, rows);
    SeedCategoriesAscending();
    CategoriesDetermined(service, SeedCategories);
    categories := service.GetCategories();
  }

  /** A new Widget is found by its Id, active and never modified. */
  method CreateThenFind(now: Timestamp) returns (found: Option<Entity>)
    ensures found.Some?
    ensures found.value.id > 0 && found.value.name == "Widget"
    ensures found.value.price == 999 && found.value.quantity == 5
    ensures found.value.isActive && found.value.createdDate == now && found.value.modifiedDate == None
  {
    var service := new DataService(map[], 1);
    var widget := NewEntity(now).(name := "Widget", price := 999, quantity := 5);
    var created := service.Create(widget, now);
    found := service.GetById(created.id);
  }

  /**
   * Updating a created row with an input whose CreatedDate differs keeps the
   * stored Id and CreatedDate, takes the input's Name and stamps ModifiedDate.
   */
  method CreateThenUpdate(created: Timestamp, later: Timestamp) returns (found: Option<Entity>)
    ensures found.Some?
    ensures found.value.name == "Gadget" && found.value.createdDate == created
    ensures found.value.modifiedDate == Some(later)
  {
    var service := new DataService(map[], 1);
    var widget := NewEntity(created).(name := "Widget", price := 999, quantity := 5);
    var row := service.Create(widget, created);
    var input := row.(name := "Gadget", createdDate := created + 1, modifiedDate := None);
    var result := service.Update(input, later);
    found := service.GetById(row.id);
  }

  /** Update on an empty table fails and Delete on it answers false. */
  method MissingId(now: Timestamp, id: int) returns (updated: Result<Entity, UpdateError>, deleted: bool)
    ensures updated == Failure(NotFound(id))
    ensures !deleted
  {
    var service := new DataService(map[], 1);
    updated := service.Update(NewEntity(now).(id := id), now);
    deleted := service.Delete(id);
  }

  /** Deleting a created row succeeds once; afterwards it is gone and a second delete fails. */
  method DeleteTwice(now: Timestamp) returns (first: bool, second: bool, found: Option<Entity>)
    ensures first && !second && found == None
  {
    var service := new DataService(map[], 1);
    var row := service.Create(NewEntity(now).(name := "Widget"), now);
    first := service.Delete(row.id);
    second := service.Delete(row.id);
    found := service.GetById(row.id);
  }
}
