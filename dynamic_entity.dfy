/**
 * The DynamicEntity record: its fields, the values a new record starts with,
 * and the validation rules declared on its fields.
 */
module Models {
  import opened Wrappers

  /** A UTC DateTime, as a count of ticks. */
  type Timestamp = int

  /**
   * One row of the entity table. Price is a count of cents, because the
   * column is decimal(18,2); ModifiedDate is None until the first update.
   */
  datatype Entity = Entity(
    id: int,
    name: string,
    description: string,
    category: string,
    price: int,
    quantity: int,
    isActive: bool,
    createdDate: Timestamp,
    modifiedDate: Option<Timestamp>)

  const MaxNameLength: nat := 100
  const MaxDescriptionLength: nat := 500
  const MaxCategoryLength: nat := 50
  /** 0.01 in cents. */
  const MinPriceCents: int := 1
  /** 100,000 in cents. */
  const MaxPriceCents: int := 10_000_000
  const MinQuantity: int := 0
  const MaxQuantity: int := 10_000

  /** A record built with `new DynamicEntity()` at time `now`. */
  function NewEntity(now: Timestamp): (e: Entity)
    ensures e.id == 0 && e.price == 0 && e.quantity == 0
    ensures e.name == "" && e.description == "" && e.category == ""
    ensures e.isActive
    ensures e.createdDate == now && e.modifiedDate == None
  {
    Entity(0, "", "", "", 0, 0, true, now, None)
  }

  /** The characters for which .NET's char.IsWhiteSpace holds. */
  predicate IsWhiteSpace(c: char)
  {
    var n := c as int;
    (0x09 <= n <= 0x0D) || n == 0x20 || n == 0x85 || n == 0xA0 || n == 0x1680
    || (0x2000 <= n <= 0x200A) || n == 0x2028 || n == 0x2029 || n == 0x202F
    || n == 0x205F || n == 0x3000
  }

  /** The Required rule on a string: it must not be empty or whitespace only. */
  predicate Present(s: string)
  {
    exists i :: 0 <= i < |s| && !IsWhiteSpace(s[i])
  }

  /** The length .NET reports for a string: its count of UTF-16 code units. */
  function Utf16Length(s: string): (n: nat)
    ensures |s| <= n <= 2 * |s|
    ensures (forall i :: 0 <= i < |s| ==> s[i] as int < 0x1_0000) ==> n == |s|
    ensures (forall i :: 0 <= i < |s| ==> s[i] as int >= 0x1_0000) ==> n == 2 * |s|
  {
    if s == [] then 0
    else (if s[0] as int < 0x1_0000 then 1 else 2) + Utf16Length(s[1..])
  }

  /** The StringLength(max) rule. */
  predicate WithinLength(s: string, max: nat)
  {
    Utf16Length(s) <= max
  }

  predicate NameValid(name: string)
  {
    Present(name) && WithinLength(name, MaxNameLength)
  }

  predicate DescriptionValid(description: string)
  {
    WithinLength(description, MaxDescriptionLength)
  }

  predicate CategoryValid(category: string)
  {
    Present(category) && WithinLength(category, MaxCategoryLength)
  }

  /** Range(0.01, 100000), both ends included; Required always holds of a decimal. */
  predicate PriceValid(cents: int)
  {
    MinPriceCents <= cents <= MaxPriceCents
  }

  /** Range(0, 10000), both ends included. */
  predicate QuantityValid(quantity: int)
  {
    MinQuantity <= quantity <= MaxQuantity
  }

  /** All constraints declared on the record's fields hold. */
  predicate Valid(e: Entity)
  {
    NameValid(e.name) && DescriptionValid(e.description) && CategoryValid(e.category)
    && PriceValid(e.price) && QuantityValid(e.quantity)
  }

  /** A string of `n` copies of `c`. */
  function Repeat(c: char, n: nat): (s: string)
    ensures |s| == n && forall i :: 0 <= i < n ==> s[i] == c
  {
    seq(n, _ => c)
  }

  /** A valid record has non-empty Name and Category and bounded text fields. */
  lemma ValidBounds(e: Entity)
    requires Valid(e)
    ensures 0 < |e.name| <= MaxNameLength
    ensures |e.description| <= MaxDescriptionLength
    ensures 0 < |e.category| <= MaxCategoryLength
    ensures 0 < e.price && 0 <= e.quantity
  {
  }

  /** The UTF-16 length of `n` copies of one character. */
  lemma RepeatLength(c: char, n: nat)
    ensures Utf16Length(Repeat(c, n)) == if c as int < 0x1_0000 then n else 2 * n
  {
    var s := Repeat(c, n);
    if c as int < 0x1_0000 {
      assert forall i :: 0 <= i < |s| ==> s[i] as int < 0x1_0000;
    } else {
      assert forall i :: 0 <= i < |s| ==> s[i] as int >= 0x1_0000;
    }
  }

  /** Every character of `s` lies in the Basic Multilingual Plane, so it takes one UTF-16 code unit. */
  predicate InBmp(s: string)
  {
    forall i :: 0 <= i < |s| ==> s[i] as int < 0x1_0000
  }

  /**
   * Name: an empty or whitespace-only name is refused; a BMP name is accepted
   * exactly when it is present and at most 100 characters long; a name of `n`
   * letters passes exactly when 1 <= n <= 100.
   */
  lemma NameRule(s: string, n: nat)
    ensures !Present(s) ==> !NameValid(s)
    ensures InBmp(s) ==> (NameValid(s) <==> Present(s) && |s| <= MaxNameLength)
    ensures NameValid(Repeat('a', n)) <==> 0 < n <= MaxNameLength
  {
    RepeatLength('a', n);
    if n > 0 {
      assert !IsWhiteSpace(Repeat('a', n)[0]);
    }
  }

  /** The Name limit counts UTF-16 code units: `n` characters outside the BMP pass exactly when 1 <= n <= 50. */
  lemma NameRuleCountsCodeUnits(n: nat)
    ensures NameValid(Repeat('\U{1F4BB}', n)) <==> 0 < n <= MaxNameLength / 2
  {
    RepeatLength('\U{1F4BB}', n);
    if n > 0 {
      assert !IsWhiteSpace(Repeat('\U{1F4BB}', n)[0]);
    }
  }

  /**
   * Description is optional: empty and blank pass; a BMP description passes
   * exactly when it is at most 500 characters long, `n` letters exactly when n <= 500.
   */
  lemma DescriptionRule(s: string, n: nat)
    ensures DescriptionValid("") && DescriptionValid("   ")
    ensures InBmp(s) ==> (DescriptionValid(s) <==> |s| <= MaxDescriptionLength)
    ensures DescriptionValid(Repeat('d', n)) <==> n <= MaxDescriptionLength
  {
    RepeatLength('d', n);
  }

  /**
   * Category: an empty or whitespace-only category is refused; a BMP category
   * is accepted exactly when it is present and at most 50 characters long;
   * `n` letters pass exactly when 1 <= n <= 50.
   */
  lemma CategoryRule(s: string, n: nat)
    ensures !Present(s) ==> !CategoryValid(s)
    ensures InBmp(s) ==> (CategoryValid(s) <==> Present(s) && |s| <= MaxCategoryLength)
    ensures CategoryValid(Repeat('c', n)) <==> 0 < n <= MaxCategoryLength
  {
    RepeatLength('c', n);
    if n > 0 {
      assert !IsWhiteSpace(Repeat('c', n)[0]);
    }
  }

  /**
   * For a record whose text is BMP text, Valid is the conjunction of the declared
   * rules in character counts: Name and Category present, Name at most 100,
   * Description at most 500 and Category at most 50 characters, Price
   * 1 .. 10,000,000 cents and Quantity 0 .. 10,000.
   */
  lemma ValidRules(e: Entity)
    requires InBmp(e.name) && InBmp(e.description) && InBmp(e.category)
    ensures Valid(e) <==>
              && Present(e.name) && |e.name| <= 100
              && |e.description| <= 500
              && Present(e.category) && |e.category| <= 50
              && 1 <= e.price <= 10_000_000
              && 0 <= e.quantity <= 10_000
  {
  }

  /** Price 0.01 .. 100,000 and Quantity 0 .. 10,000, both ranges inclusive. */
  lemma RangeRules()
    ensures !PriceValid(0) && PriceValid(1) && PriceValid(10_000_000) && !PriceValid(10_000_001)
    ensures !QuantityValid(-1) && QuantityValid(0) && QuantityValid(10_000) && !QuantityValid(10_001)
  {
  }

  /** A record built with defaults fails Name, Category and Price, and passes the rest. */
  lemma NewEntityNotValid(now: Timestamp)
    ensures !Valid(NewEntity(now))
    ensures !NameValid(NewEntity(now).name) && !CategoryValid(NewEntity(now).category)
    ensures !PriceValid(NewEntity(now).price)
    ensures DescriptionValid(NewEntity(now).description) && QuantityValid(NewEntity(now).quantity)
  {
  }

  /** Validation looks only at Name, Description, Category, Price and Quantity. */
  lemma ValidIgnoresBookkeeping(e: Entity, id: int, active: bool, created: Timestamp, modified: Option<Timestamp>)
    ensures Valid(e) <==> Valid(e.(id := id, isActive := active, createdDate := created, modifiedDate := modified))
  {
  }
}
