# DynamicDataService: a Dafny model

BlazorDynamicApp is a small record-management backend. It stores one entity type, `DynamicEntity`, in one relational table. `DynamicDataService` reads and writes that table. This project models two things and proves properties of both:

- **The entity record** (`Models`, `dynamic_entity.dfy`). It is a datatype with the record's nine fields and the values a new record starts with. The validation attributes declared on the fields become the predicate `Valid`.
  - Price is a count of cents, because the column is `decimal(18,2)`.
  - String lengths are counted in UTF-16 code units, as .NET's `string.Length` counts them.
  - `Required` on a string refuses an empty or whitespace-only value. Whitespace means the characters for which .NET's `char.IsWhiteSpace` holds.
- **The service** (`Services`, `dynamic_data_service.dfy`). It is a class `DataService` holding the store as an abstract table `map<int, Entity>`, together with the store's identity counter.
  - `Create`, `Update` and `Delete` are methods that change the table.
  - `GetAll`, `GetById` and `GetCategories` are functions that read it.
  - `DateTime.UtcNow` becomes the `now` argument.
  - The class invariant `Consistent` says three things: every key is positive, every key is below the identity counter, and every key is the Id of the row stored under it.

The remaining files are supporting modules:

- `Queries` (`queries.dfy`) holds the query building blocks: the rows in key order, an insertion sort by Name, and the sorted distinct values of a sequence of strings.
- `StringOrder` (`string_order.dfy`) holds the string order used by `OrderBy` and `Distinct`. It is the ordinal lexicographic order, and the file proves it is a strict total order.
- `Wrappers` (`wrappers.dfy`) holds `Option`, used for a nullable result, and `Result`, used for Update's exception.
- `Scenarios` (`scenarios.dfy`) holds client code. It covers the five startup seed entities and the create, update, find and delete round trips, each proved from the service's contracts alone.

Facts about the code that the model keeps:

- `Range(0.01, 100000)` on Price is inclusive at both ends. In cents that is 1 .. 10,000,000.
- CreateAsync does not clear ModifiedDate. The stored row keeps whatever the input held.
- UpdateAsync signals a missing Id with an `ArgumentException`. The model calls it `NotFound(id)`.
- The service validates nothing. `Valid` is a separate predicate, and the lemma `UpdatePreservesValid` relates the two.

## Model

| member | source | states |
|---|---|---|
| Models.NewEntity | Data/Models/DynamicEntity.cs:7-30 | a default-constructed record has Id 0, empty Name, Description and Category, Price 0, Quantity 0, IsActive true, CreatedDate the construction time and no ModifiedDate |
| Models.Utf16Length | Data/Models/DynamicEntity.cs:10 | the length the StringLength rules measure is between the character count and twice it; it equals the character count for BMP text and twice it for text outside the BMP |
| Models.ValidBounds | Data/Models/DynamicEntity.cs:9-26 | a valid record has a non-empty Name of at most 100 characters, a Description of at most 500, a non-empty Category of at most 50, a positive Price and a non-negative Quantity |
| Models.ValidRules | Data/Models/DynamicEntity.cs:9-26 | for a record whose text is BMP text, valid exactly when Name and Category hold a non-whitespace character, Name has at most 100, Description at most 500 and Category at most 50 characters, Price is 1 .. 10,000,000 cents and Quantity 0 .. 10,000 |
| Models.NameRule | Data/Models/DynamicEntity.cs:9-11 | Name is required: every empty or whitespace-only name is refused; a BMP name passes exactly when it is present and at most 100 characters long; a name of n letters passes exactly when 1 <= n <= 100 |
| Models.NameRuleCountsCodeUnits | Data/Models/DynamicEntity.cs:10 | the Name limit counts UTF-16 code units: a name of n characters outside the BMP passes exactly when 1 <= n <= 50 |
| Models.DescriptionRule | Data/Models/DynamicEntity.cs:13-14 | Description is optional, so the empty and the blank description pass; a BMP description passes exactly when it has at most 500 characters; n letters pass exactly when n <= 500 |
| Models.CategoryRule | Data/Models/DynamicEntity.cs:16-18 | Category is required: every empty or whitespace-only category is refused; a BMP category passes exactly when it is present and at most 50 characters long; n letters pass exactly when 1 <= n <= 50 |
| Models.RangeRules | Data/Models/DynamicEntity.cs:20-26 | Price passes exactly from 1 to 10,000,000 cents and Quantity exactly from 0 to 10,000, both ends included |
| Models.NewEntityNotValid | Data/Models/DynamicEntity.cs:9-30 | a default-constructed record is not valid: its Name, Category and Price fail, while its Description and Quantity pass |
| Models.ValidIgnoresBookkeeping | Data/Models/DynamicEntity.cs:7-30 | validity does not depend on Id, IsActive, CreatedDate or ModifiedDate, so stamping a record on Create or Update cannot change it |
| Queries.SortByName | Data/Services/DynamicDataService.cs:14-16 | the OrderBy on Name returns a permutation of its input, ordered by Name ascending |
| Queries.SortedDistinct | Data/Services/DynamicDataService.cs:106-107 | Distinct then OrderBy returns a strictly ascending sequence holding exactly the values of its input |
| Queries.AscendingUnique | Data/Services/DynamicDataService.cs:106-107 | two strictly ascending sequences with the same values are equal, so the sorted distinct list is determined by the set of values |
| Queries.Rows | Data/Services/DynamicDataService.cs:14 | enumerating the table yields each stored row once, every row carried under its own Id, and nothing else |
| Services.ApplyUpdate | Data/Services/DynamicDataService.cs:61-67 | the updated row takes Name, Description, Category, Price, Quantity and IsActive from the input, keeps its stored Id and CreatedDate, and has ModifiedDate now |
| Services.UpdatePreservesValid | Data/Services/DynamicDataService.cs:61-65 | every validated field is among those Update copies, so a valid input yields a valid stored row |
| Services.UpdateIgnoresInputBookkeeping | Data/Services/DynamicDataService.cs:61-67 | two inputs that agree on the six copied fields give the same stored row: the input's Id, CreatedDate and ModifiedDate play no part |
| Services.UpdateIdempotent | Data/Services/DynamicDataService.cs:61-67 | repeating the same update at the same time leaves the row as one update did |
| Services.DataService.constructor | Data/Services/DynamicDataService.cs:7 | a service is built over any table already in the store whose keys are positive, equal to their rows' Ids and below the identity counter, and holds exactly that table |
| Services.DataService.GetAll | Data/Services/DynamicDataService.cs:9-23 | returns every row of the table exactly once and nothing else, ordered by Name ascending, without changing the table |
| Services.DataService.GetById | Data/Services/DynamicDataService.cs:25-28 | returns the row stored under the id when the id is a key, whose Id is that id, and None otherwise, without changing the table |
| Services.DataService.Create | Data/Services/DynamicDataService.cs:30-48 | inserts the input with CreatedDate now under a fresh positive Id not previously in the table, returns it with that Id, keeps the input's other fields including ModifiedDate, and leaves every other row unchanged |
| Services.DataService.Update | Data/Services/DynamicDataService.cs:50-79 | for an absent Id fails with NotFound and leaves the table unchanged; for a present Id replaces only that row, by the stored row with the input's editable fields applied, and returns the stored row |
| Services.DataService.Delete | Data/Services/DynamicDataService.cs:81-100 | returns true exactly when the id was a key; removes exactly that key; for an absent id leaves the table unchanged |
| Services.DataService.GetCategories | Data/Services/DynamicDataService.cs:102-109 | returns the categories of the table's rows, each once and nothing else, strictly ascending |
| Services.CategoriesDetermined | Data/Services/DynamicDataService.cs:104-108 | any strictly ascending list holding exactly the table's categories is what GetCategories returns |
| Scenarios.SeedEntities | Program.cs:55-62 | the five entities of the startup seed, in order, with the categories Electronics, Furniture, Stationery, Appliances and Lighting |
| Scenarios.CreateAll | Program.cs:64-65 | inserting a list of entities into an empty store stores each one under its own distinct positive Id, stamped with the creation time; the table ends with exactly one row per entity and nothing else |
| Scenarios.SeedEntityValid | Program.cs:57-61 | each seed entity satisfies every validation rule |
| Scenarios.SeedThenListCategories | Program.cs:57-61 | after the five seeds are created, GetCategories yields exactly [Appliances, Electronics, Furniture, Lighting, Stationery] |
| Scenarios.CreateThenFind | Data/Services/DynamicDataService.cs:25-41 | a created Widget with Price 9.99 and Quantity 5 is found under the returned positive Id, active, with CreatedDate now and no ModifiedDate |
| Scenarios.CreateThenUpdate | Data/Services/DynamicDataService.cs:50-72 | an update whose input carries another CreatedDate leaves the stored CreatedDate, takes the new Name and stamps ModifiedDate with the update time |
| Scenarios.MissingId | Data/Services/DynamicDataService.cs:56-58 | on an absent Id, Update fails with NotFound and Delete returns false |
| Scenarios.DeleteTwice | Data/Services/DynamicDataService.cs:85-93 | deleting a created row returns true; afterwards GetById returns None and a second delete returns false |

## Left out

- Tasks and the async flow, the `ILogger` calls and the catch-log-rethrow blocks are not modelled. They affect observation only.
- Store failures raised by `SaveChangesAsync`, `FindAsync` and `ToListAsync` are not modelled. These are connectivity, constraint and timeout failures, and they are foreign I/O. The one modelled failure is Update's explicit `ArgumentException` for a missing Id.
- Services.DataService.Create: gives any input a fresh Id. In the real store, an input Id other than 0 is sent as an explicit identity value and the insert fails. That is a store failure and is not modelled.
- The store's identity counter is an unbounded integer. Exhausting the 32-bit `int` Id column is not modelled, and neither is Quantity's 32-bit width. Every valid Quantity fits in 32 bits anyway.
- The model works on values, so reference identity is not modelled. In the source, Create inserts and returns the caller's own object, and Update mutates the tracked row object that GetById callers may also hold.
- The change tracker of the object-relational mapper is not modelled. Pending edits that a caller makes on a tracked entity are written by a later `SaveChangesAsync`.
- Strings cannot be null in the model. In the source, `Required` refuses null and `StringLength` accepts it.
- Price is an exact count of cents. Two things are out of scope: decimal values with more than two places that exist in memory before the store rounds them, and the conversion to double inside `RangeAttribute`.
- The SQL Server collation that `OrderBy` and `Distinct` use is not modelled. The model uses ordinal order and ordinal equality instead. A case-insensitive collation would merge categories that differ only in case, and would order names differently.
- Among rows with equal Names, the order is unspecified in the source. GetAll's contract leaves it open too. The function happens to keep ascending key order.
- The clock is not modelled, and `now` is an argument. A ModifiedDate that never decreases therefore depends on the caller's clock and is not proved.
- Concurrency and last-write-wins between requests are not modelled.
- The startup routine is not modelled: web hosting, dependency injection, the HTTP pipeline and `EnsureCreatedAsync`. Its five seed literals serve as test data in `Scenarios`. They are inserted there with Create, whereas the startup code uses `AddRange`, which keeps the construction-time CreatedDate.
- The schema configuration in the `AppDbContext` class is not modelled, apart from the `decimal(18,2)` precision behind the cents representation. The `IDynamicDataService` interface is not part of this model either: the class's operations mirror its signatures.
- Attribute discovery by reflection is not modelled. The rules are stated as explicit predicates.
