/**
 * The query building blocks behind the service's reads: enumerating the
 * table's rows, ordering them by Name (OrderBy), and the sorted distinct
 * categories (Select, Distinct, OrderBy).
 */
module Queries {
  import opened Models
  import StringOrder

  predicate StrictlyIncreasing(ks: seq<int>)
  {
    forall i, j :: 0 <= i < j < |ks| ==> ks[i] < ks[j]
  }

  /** Every key of the table is the Id of the entity stored under it. */
  ghost predicate KeyedById(t: map<int, Entity>)
  {
    forall k :: k in t ==> t[k].id == k
  }

  predicate IsLeast(m: int, s: set<int>)
  {
    m in s && forall x :: x in s ==> m <= x
  }

  /** A finite set of integers that has an element has a least element. */
  lemma {:induction false} LeastExists(s: set<int>)
    requires exists y :: y in s
    ensures exists m :: IsLeast(m, s)
    decreases |s|
  {
    var y :| y in s;
    var rest := s - {y};
    if forall x :: x !in rest {
      forall x | x in s ensures y <= x {
        assert x !in rest;
      }
      assert IsLeast(y, s);
    } else {
      LeastExists(rest);
      var m :| IsLeast(m, rest);
      var least := if y < m then y else m;
      forall x | x in s ensures least <= x {
        if x != y {
          assert x in rest;
        }
      }
      assert IsLeast(least, s);
    }
  }

  /** Putting in front a key below every key of an increasing sequence keeps it increasing. */
  lemma PrependIncreasing(m: int, rest: seq<int>)
    requires StrictlyIncreasing(rest)
    requires forall j :: 0 <= j < |rest| ==> m < rest[j]
    ensures StrictlyIncreasing([m] + rest)
  {
    var ks := [m] + rest;
    forall i, j | 0 <= i < j < |ks| ensures ks[i] < ks[j] {
      assert ks[j] == rest[j - 1];
      if i > 0 {
        assert ks[i] == rest[i - 1];
      }
    }
  }

  /** The keys of a set in ascending order. */
  function KeysAscending(keys: set<int>): (ks: seq<int>)
    ensures |ks| == |keys|
    ensures forall k :: k in ks <==> k in keys
    ensures StrictlyIncreasing(ks)
    decreases |keys|
  {
    if forall k :: k !in keys then
      assert keys == {};
      []
    else
      LeastExists(keys);
      var m :| IsLeast(m, keys);
      var rest := KeysAscending(keys - {m});
      forall j | 0 <= j < |rest| ensures m < rest[j] {
        assert rest[j] in rest;
      }
      PrependIncreasing(m, rest);
      assert forall k :: k in [m] + rest <==> k == m || k in rest;
      [m] + rest
  }

  /** The entities stored under the keys `ks`, in that order. */
  function RowsAt(t: map<int, Entity>, ks: seq<int>): (rows: seq<Entity>)
    requires forall i :: 0 <= i < |ks| ==> ks[i] in t
    ensures |rows| == |ks|
    ensures forall i :: 0 <= i < |ks| ==> rows[i] == t[ks[i]]
  {
    if ks == [] then [] else [t[ks[0]]] + RowsAt(t, ks[1..])
  }

  /** Every key listed in `ks` has its row in `RowsAt(t, ks)`. */
  lemma RowsAtContains(t: map<int, Entity>, ks: seq<int>, k: int)
    requires forall i :: 0 <= i < |ks| ==> ks[i] in t
    requires k in ks
    ensures t[k] in RowsAt(t, ks)
  {
    var i :| 0 <= i < |ks| && ks[i] == k;
    assert RowsAt(t, ks)[i] == t[k];
  }

  /** The rows under ascending keys of a table keyed by Id, one per key: each row once, in ascending Id order. */
  lemma RowsInKeyOrder(t: map<int, Entity>, ks: seq<int>)
    requires KeyedById(t)
    requires |ks| == |t| && StrictlyIncreasing(ks)
    requires forall k :: k in ks <==> k in t
    ensures forall i :: 0 <= i < |ks| ==> ks[i] in t
    ensures var rows := RowsAt(t, ks);
      && |rows| == |t|
      && (forall i :: 0 <= i < |rows| ==> rows[i].id in t && t[rows[i].id] == rows[i])
      && (forall k :: k in t ==> t[k] in rows)
      && (forall i, j :: 0 <= i < j < |rows| ==> rows[i].id < rows[j].id)
  {
    forall i | 0 <= i < |ks| ensures ks[i] in t {
      assert ks[i] in ks;
    }
    var rows := RowsAt(t, ks);
    forall i | 0 <= i < |rows| ensures rows[i].id == ks[i] && rows[i].id in t && t[rows[i].id] == rows[i] {
      assert ks[i] in t;
    }
    forall i, j | 0 <= i < j < |rows| ensures rows[i].id < rows[j].id {
      assert rows[i].id == ks[i] && rows[j].id == ks[j];
    }
    forall k | k in t ensures t[k] in rows {
      RowsAtContains(t, ks, k);
    }
  }

  /** The table's rows, one per key, in ascending key order. */
  function Rows(t: map<int, Entity>): (rows: seq<Entity>)
    requires KeyedById(t)
    ensures |rows| == |t|
    ensures forall i :: 0 <= i < |rows| ==> rows[i].id in t && t[rows[i].id] == rows[i]
    ensures forall k :: k in t ==> t[k] in rows
    ensures forall i, j :: 0 <= i < j < |rows| ==> rows[i].id < rows[j].id
  {
    var ks := KeysAscending(t.Keys);
    assert |t.Keys| == |t|;
    RowsInKeyOrder(t, ks);
    RowsAt(t, ks)
  }

  /** A row with a given Id occurs once in a sequence whose Ids strictly increase. */
  lemma {:induction false} OccursOnce(s: seq<Entity>, x: Entity)
    requires forall i, j :: 0 <= i < j < |s| ==> s[i].id < s[j].id
    requires x in s
    ensures multiset(s)[x] == 1
  {
    assert s == [s[0]] + s[1..];
    if x == s[0] {
      assert x !in s[1..];
    } else {
      OccursOnce(s[1..], x);
    }
  }

  /** A reordering of the table's rows holds only table rows, and each of them once. */
  lemma ReorderedRows(t: map<int, Entity>, rows: seq<Entity>, all: seq<Entity>)
    requires forall i, j :: 0 <= i < j < |rows| ==> rows[i].id < rows[j].id
    requires forall i :: 0 <= i < |rows| ==> rows[i].id in t && t[rows[i].id] == rows[i]
    requires forall k :: k in t ==> t[k] in rows
    requires multiset(all) == multiset(rows)
    ensures forall e :: e in all ==> e.id in t && t[e.id] == e
    ensures forall k :: k in t ==> multiset(all)[t[k]] == 1
  {
    forall k | k in t ensures multiset(all)[t[k]] == 1 {
      OccursOnce(rows, t[k]);
    }
    forall e | e in all ensures e.id in t && t[e.id] == e {
      assert e in multiset(rows);
      var i :| 0 <= i < |rows| && rows[i] == e;
    }
  }

  ghost predicate SortedByName(s: seq<Entity>)
  {
    forall i, j :: 0 <= i < j < |s| ==> StringOrder.AtMost(s[i].name, s[j].name)
  }

  /** Putting in front an entity whose Name is at most every Name of a sorted sequence keeps it sorted. */
  lemma PrependSorted(e: Entity, s: seq<Entity>)
    requires SortedByName(s)
    requires forall x :: x in s ==> StringOrder.AtMost(e.name, x.name)
    ensures SortedByName([e] + s)
  {
    var r := [e] + s;
    forall i, j | 0 <= i < j < |r| ensures StringOrder.AtMost(r[i].name, r[j].name) {
      if i == 0 {
        assert r[j] == s[j - 1];
      } else {
        assert r[i] == s[i - 1] && r[j] == s[j - 1];
      }
    }
  }

  /** Inserts `e` into a sequence sorted by Name, keeping it sorted. */
  function InsertByName(e: Entity, s: seq<Entity>): (r: seq<Entity>)
    requires SortedByName(s)
    ensures SortedByName(r)
    ensures multiset(r) == multiset(s) + multiset{e}
  {
    if s == [] then [e]
    else if StringOrder.AtMost(e.name, s[0].name) then
      assert forall x :: x in s ==> StringOrder.AtMost(e.name, x.name) by {
        forall x | x in s ensures StringOrder.AtMost(e.name, x.name) {
          var j :| 0 <= j < |s| && s[j] == x;
          StringOrder.AtMostTransitive(e.name, s[0].name, s[j].name);
        }
      }
      PrependSorted(e, s);
      [e] + s
    else
      var rest := InsertByName(e, s[1..]);
      assert s == [s[0]] + s[1..];
      assert forall x :: x in rest ==> StringOrder.AtMost(s[0].name, x.name) by {
        forall x | x in rest ensures StringOrder.AtMost(s[0].name, x.name) {
          assert x in multiset(rest);
          if x == e {
            StringOrder.Total(e.name, s[0].name);
          } else {
            assert x in multiset(s[1..]);
            var j :| 0 <= j < |s[1..]| && s[1..][j] == x;
            assert s[j + 1] == x;
          }
        }
      }
      PrependSorted(s[0], rest);
      [s[0]] + rest
  }

  /** Insertion sort by Name: a permutation of `s`, ordered by Name ascending. */
  function SortByName(s: seq<Entity>): (r: seq<Entity>)
    ensures SortedByName(r)
    ensures multiset(r) == multiset(s)
  {
    if s == [] then []
    else
      assert s == [s[0]] + s[1..];
      InsertByName(s[0], SortByName(s[1..]))
  }

  ghost predicate StrictlyAscending(s: seq<string>)
  {
    forall i, j :: 0 <= i < j < |s| ==> StringOrder.Less(s[i], s[j])
  }

  /** A strictly ascending sequence holds each of its values once. */
  lemma AscendingIsDistinct(s: seq<string>)
    requires StrictlyAscending(s)
    ensures forall i, j :: 0 <= i < j < |s| ==> s[i] != s[j]
  {
    forall i, j | 0 <= i < j < |s| ensures s[i] != s[j] {
      StringOrder.Irreflexive(s[i]);
    }
  }

  /** Putting in front a value below every value of a strictly ascending sequence keeps it so. */
  lemma PrependAscending(c: string, s: seq<string>)
    requires StrictlyAscending(s)
    requires forall x :: x in s ==> StringOrder.Less(c, x)
    ensures StrictlyAscending([c] + s)
  {
    var r := [c] + s;
    forall i, j | 0 <= i < j < |r| ensures StringOrder.Less(r[i], r[j]) {
      if i == 0 {
        assert r[j] == s[j - 1];
      } else {
        assert r[i] == s[i - 1] && r[j] == s[j - 1];
      }
    }
  }

  /** Adds `c` to a strictly ascending sequence unless it is already there. */
  function InsertDistinct(c: string, s: seq<string>): (r: seq<string>)
    requires StrictlyAscending(s)
    ensures StrictlyAscending(r)
    ensures forall x :: x in r <==> x == c || x in s
  {
    if s == [] then [c]
    else if c == s[0] then s
    else if StringOrder.Less(c, s[0]) then
      assert forall x :: x in s ==> StringOrder.Less(c, x) by {
        forall x | x in s ensures StringOrder.Less(c, x) {
          var j :| 0 <= j < |s| && s[j] == x;
          if j > 0 {
            StringOrder.Transitive(c, s[0], s[j]);
          }
        }
      }
      PrependAscending(c, s);
      [c] + s
    else
      var rest := InsertDistinct(c, s[1..]);
      assert s == [s[0]] + s[1..];
      assert forall x :: x in rest ==> StringOrder.Less(s[0], x) by {
        forall x | x in rest ensures StringOrder.Less(s[0], x) {
          if x == c {
            StringOrder.Total(c, s[0]);
          } else {
            var j :| 0 <= j < |s[1..]| && s[1..][j] == x;
            assert s[j + 1] == x;
          }
        }
      }
      PrependAscending(s[0], rest);
      [s[0]] + rest
  }

  /** The distinct values of `cs`, sorted ascending. */
  function SortedDistinct(cs: seq<string>): (r: seq<string>)
    ensures StrictlyAscending(r)
    ensures forall x :: x in r <==> x in cs
  {
    if cs == [] then []
    else
      assert cs == [cs[0]] + cs[1..];
      InsertDistinct(cs[0], SortedDistinct(cs[1..]))
  }

  /** A strictly ascending sequence is determined by the values it holds. */
  lemma {:induction false} AscendingUnique(a: seq<string>, b: seq<string>)
    requires StrictlyAscending(a) && StrictlyAscending(b)
    requires forall x :: x in a <==> x in b
    ensures a == b
  {
    assert a != [] ==> a[0] in a;
    assert b != [] ==> b[0] in b;
    if a != [] && b != [] {
      // The heads are the least values of both, hence equal.
      assert b[0] in b && a[0] in a;
      var m :| 0 <= m < |a| && a[m] == b[0];
      var k :| 0 <= k < |b| && b[k] == a[0];
      assert StringOrder.AtMost(a[0], b[0]) by {
        assert m == 0 || StringOrder.Less(a[0], a[m]);
      }
      assert StringOrder.AtMost(b[0], a[0]) by {
        assert k == 0 || StringOrder.Less(b[0], b[k]);
      }
      if StringOrder.Less(a[0], b[0]) {
        StringOrder.Asymmetric(a[0], b[0]);
      }
      assert a[0] == b[0];
      forall x ensures x in a[1..] <==> x in b[1..] {
        StringOrder.Irreflexive(a[0]);
        if x in a[1..] {
          var i :| 0 <= i < |a[1..]| && a[1..][i] == x;
          assert a[i + 1] == x && StringOrder.Less(a[0], x);
          assert x in a;
          var j :| 0 <= j < |b| && b[j] == x;
          assert j != 0;
          assert b[1..][j - 1] == x;
        }
        if x in b[1..] {
          var i :| 0 <= i < |b[1..]| && b[1..][i] == x;
          assert b[i + 1] == x && StringOrder.Less(b[0], x);
          assert x in b;
          var j :| 0 <= j < |a| && a[j] == x;
          assert j != 0;
          assert a[1..][j - 1] == x;
        }
      }
      AscendingUnique(a[1..], b[1..]);
      assert a == [a[0]] + a[1..] && b == [b[0]] + b[1..];
    }
  }
}
