/** The order a full reload puts the records in: the LINQ query
    `OrderBy(a => a.Name).ThenBy(a => a.Description)`, which sorts ascending by
    Name, breaks ties ascending by Description and, being a stable sort, keeps
    records with equal keys in the order the store returned them. Strings are
    compared ordinally, character by character. */
module Ordering {
  import opened Items

  /** Ordinal lexicographic order on strings: `a` is a prefix of `b`, or at the
      first position where they differ `a` has the smaller character. */
  predicate StrLe(a: string, b: string)
  {
    |a| == 0 || (|b| > 0 && (a[0] < b[0] || (a[0] == b[0] && StrLe(a[1..], b[1..]))))
  }

  lemma {:induction false} StrLeReflexive(a: string)
    ensures StrLe(a, a)
  {
    if |a| > 0 {
      StrLeReflexive(a[1..]);
    }
  }

  lemma {:induction false} StrLeTotal(a: string, b: string)
    ensures StrLe(a, b) || StrLe(b, a)
  {
    if |a| > 0 && |b| > 0 && a[0] == b[0] {
      StrLeTotal(a[1..], b[1..]);
    }
  }

  lemma {:induction false} StrLeAntisymmetric(a: string, b: string)
    requires StrLe(a, b) && StrLe(b, a)
    ensures a == b
  {
    if |a| > 0 {
      StrLeAntisymmetric(a[1..], b[1..]);
      assert a == [a[0]] + a[1..] && b == [b[0]] + b[1..];
    }
  }

  lemma {:induction false} StrLeTransitive(a: string, b: string, c: string)
    requires StrLe(a, b) && StrLe(b, c)
    ensures StrLe(a, c)
  {
    if |a| > 0 && a[0] == b[0] && b[0] == c[0] {
      StrLeTransitive(a[1..], b[1..], c[1..]);
    }
  }

  /** `x` may precede `y` in a reloaded list: a smaller Name, or the same Name and
      a Description no larger. */
  predicate ItemLe(x: ItemModel, y: ItemModel)
  {
    (StrLe(x.Name, y.Name) && x.Name != y.Name)
    || (x.Name == y.Name && StrLe(x.Description, y.Description))
  }

  /** Two records tie under the sort when Name and Description both agree. */
  predicate SameKey(x: ItemModel, y: ItemModel)
  {
    x.Name == y.Name && x.Description == y.Description
  }

  lemma ItemLeTotal(x: ItemModel, y: ItemModel)
    ensures ItemLe(x, y) || ItemLe(y, x)
  {
    StrLeTotal(x.Name, y.Name);
    StrLeTotal(x.Description, y.Description);
  }

  /** Records order both ways exactly when their keys tie. */
  lemma ItemLeBothWays(x: ItemModel, y: ItemModel)
    ensures ItemLe(x, y) && ItemLe(y, x) <==> SameKey(x, y)
  {
    if ItemLe(x, y) && ItemLe(y, x) {
      if x.Name != y.Name {
        StrLeAntisymmetric(x.Name, y.Name);
      }
      StrLeAntisymmetric(x.Description, y.Description);
    }
    if SameKey(x, y) {
      StrLeReflexive(x.Description);
    }
  }

  lemma ItemLeTransitive(x: ItemModel, y: ItemModel, z: ItemModel)
    requires ItemLe(x, y) && ItemLe(y, z)
    ensures ItemLe(x, z)
  {
    if x.Name == y.Name && y.Name == z.Name {
      StrLeTransitive(x.Description, y.Description, z.Description);
    } else {
      StrLeReflexive(y.Name);
      StrLeTransitive(x.Name, y.Name, z.Name);
      if x.Name == z.Name {
        StrLeAntisymmetric(x.Name, y.Name);
      }
    }
  }

  /** Ascending by Name, ties ascending by Description. */
  ghost predicate Sorted(s: seq<ItemModel>)
  {
    forall i, j :: 0 <= i < j < |s| ==> ItemLe(s[i], s[j])
  }

  /** The records of `s` whose key ties with that of `k`, in their order in `s`. */
  function WithKeyOf(s: seq<ItemModel>, k: ItemModel): (r: seq<ItemModel>)
    ensures forall x :: x in r <==> x in s && SameKey(x, k)
  {
    if s == [] then []
    else (if SameKey(s[0], k) then [s[0]] else []) + WithKeyOf(s[1..], k)
  }

  /** `r` is what a stable sort by (Name, Description) makes of `s`: sorted, and for
      every key the records carrying it appear in `r` in the same order as in `s`. */
  ghost predicate StableSortOf(r: seq<ItemModel>, s: seq<ItemModel>)
  {
    && Sorted(r)
    && multiset(r) == multiset(s)
    && SameKeyGroups(r, s)
  }

  /** Inserts `x` into `t` before the first record it may precede. */
  function Insert(x: ItemModel, t: seq<ItemModel>): (r: seq<ItemModel>)
    ensures multiset(r) == multiset([x] + t)
    ensures forall y :: y in r <==> y == x || y in t
  {
    if t == [] || ItemLe(x, t[0]) then [x] + t
    else
      assert [x] + t == [x] + [t[0]] + t[1..];
      assert t == [t[0]] + t[1..];
      [t[0]] + Insert(x, t[1..])
  }

  /** `OrderBy(a => a.Name).ThenBy(a => a.Description)` on the records of `s`. */
  function OrderByNameThenDescription(s: seq<ItemModel>): (r: seq<ItemModel>)
    ensures multiset(r) == multiset(s)
    ensures forall y :: y in r <==> y in s
  {
    if s == [] then []
    else
      assert s == [s[0]] + s[1..];
      Insert(s[0], OrderByNameThenDescription(s[1..]))
  }

  lemma SortedCons(a: ItemModel, s: seq<ItemModel>)
    requires Sorted(s)
    requires forall j :: 0 <= j < |s| ==> ItemLe(a, s[j])
    ensures Sorted([a] + s)
  {
    var r := [a] + s;
    forall i, j | 0 <= i < j < |r| ensures ItemLe(r[i], r[j]) {
      if i == 0 {
        assert r[j] == s[j - 1];
      } else {
        assert r[i] == s[i - 1] && r[j] == s[j - 1];
      }
    }
  }

  lemma {:induction false} InsertSorted(x: ItemModel, t: seq<ItemModel>)
    requires Sorted(t)
    ensures Sorted(Insert(x, t))
  {
    if t == [] {
    } else if ItemLe(x, t[0]) {
      forall j | 0 <= j < |t| ensures ItemLe(x, t[j]) {
        if j > 0 {
          ItemLeTransitive(x, t[0], t[j]);
        }
      }
      SortedCons(x, t);
    } else {
      ItemLeTotal(x, t[0]);
      var t' := t[1..];
      assert Sorted(t');
      var tail := Insert(x, t');
      InsertSorted(x, t');
      forall j | 0 <= j < |tail| ensures ItemLe(t[0], tail[j]) {
        assert tail[j] in tail;
        if tail[j] != x {
          var m :| 0 <= m < |t'| && t'[m] == tail[j];
          assert t[m + 1] == tail[j];
        }
      }
      SortedCons(t[0], tail);
    }
  }

  /** The reloaded list is sorted by Name, then Description. */
  lemma {:induction false} OrderBySorted(s: seq<ItemModel>)
    ensures Sorted(OrderByNameThenDescription(s))
  {
    if s != [] {
      OrderBySorted(s[1..]);
      InsertSorted(s[0], OrderByNameThenDescription(s[1..]));
    }
  }

  lemma {:induction false} InsertStable(x: ItemModel, t: seq<ItemModel>, k: ItemModel)
    ensures WithKeyOf(Insert(x, t), k) == WithKeyOf([x] + t, k)
  {
    if t != [] && !ItemLe(x, t[0]) {
      var t' := t[1..];
      InsertStable(x, t', k);
      ItemLeBothWays(x, t[0]);
      ItemLeTotal(x, t[0]);
      assert !SameKey(x, t[0]);
      assert t == [t[0]] + t';
      WithKeyOfCons(t[0], Insert(x, t'), k);
      WithKeyOfCons(x, t', k);
      WithKeyOfCons(x, t, k);
      WithKeyOfCons(t[0], t', k);
    }
  }

  /** Filtering a list that starts with `a` filters `a`, then the rest. */
  lemma WithKeyOfCons(a: ItemModel, s: seq<ItemModel>, k: ItemModel)
    ensures WithKeyOf([a] + s, k) == (if SameKey(a, k) then [a] else []) + WithKeyOf(s, k)
  {
    assert ([a] + s)[1..] == s;
  }

  /** Records with equal Name and Description keep the order the store returned. */
  lemma {:induction false} OrderByStable(s: seq<ItemModel>, k: ItemModel)
    ensures WithKeyOf(OrderByNameThenDescription(s), k) == WithKeyOf(s, k)
  {
    if s != [] {
      var tail := OrderByNameThenDescription(s[1..]);
      OrderByStable(s[1..], k);
      InsertStable(s[0], tail, k);
      assert ([s[0]] + tail)[1..] == tail;
    }
  }

  /** The reload's sort is a stable sort of what the store returned. */
  lemma OrderByIsStableSort(s: seq<ItemModel>)
    ensures StableSortOf(OrderByNameThenDescription(s), s)
  {
    OrderBySorted(s);
    forall k ensures WithKeyOf(OrderByNameThenDescription(s), k) == WithKeyOf(s, k) {
      OrderByStable(s, k);
    }
  }

  /** For every key, `a` and `b` hold the same records carrying it, in the same order. */
  ghost predicate SameKeyGroups(a: seq<ItemModel>, b: seq<ItemModel>)
  {
    forall k :: WithKeyOf(a, k) == WithKeyOf(b, k)
  }

  /** The first record of a sorted list ties with, or precedes, every record in it. */
  lemma FirstIsLeast(s: seq<ItemModel>, x: ItemModel)
    requires Sorted(s) && s != [] && x in s
    ensures ItemLe(s[0], x)
  {
    var j :| 0 <= j < |s| && s[j] == x;
    if j == 0 {
      ItemLeBothWays(x, x);
    }
  }

  /** Unfolds `WithKeyOf` at the head of a non-empty list. */
  lemma WithKeyOfHead(s: seq<ItemModel>, k: ItemModel)
    requires s != []
    ensures WithKeyOf(s, k) == (if SameKey(s[0], k) then [s[0]] else []) + WithKeyOf(s[1..], k)
  {
  }

  /** Same key groups means the same records. */
  lemma SameKeyGroupsMembers(a: seq<ItemModel>, b: seq<ItemModel>, x: ItemModel)
    requires SameKeyGroups(a, b)
    ensures x in a <==> x in b
  {
    assert WithKeyOf(a, x) == WithKeyOf(b, x);
  }

  /** Sorted lists with the same key groups start with the same record. */
  lemma SameKeyGroupsSameHead(a: seq<ItemModel>, b: seq<ItemModel>)
    requires Sorted(a) && Sorted(b) && a != [] && b != []
    requires SameKeyGroups(a, b)
    ensures a[0] == b[0]
  {
    var x, y := a[0], b[0];
    SameKeyGroupsMembers(a, b, x);
    SameKeyGroupsMembers(a, b, y);
    FirstIsLeast(b, x);
    FirstIsLeast(a, y);
    ItemLeBothWays(x, y);
    WithKeyOfHead(a, x);
    WithKeyOfHead(b, x);
    assert WithKeyOf(a, x) == WithKeyOf(b, x);
    assert WithKeyOf(a, x)[0] == x;
    assert WithKeyOf(b, x)[0] == y;
  }

  /** Lists with the same key groups and the same head have tails with the same key groups. */
  lemma SameKeyGroupsTails(a: seq<ItemModel>, b: seq<ItemModel>)
    requires a != [] && b != [] && a[0] == b[0]
    requires SameKeyGroups(a, b)
    ensures SameKeyGroups(a[1..], b[1..])
  {
    forall k ensures WithKeyOf(a[1..], k) == WithKeyOf(b[1..], k) {
      assert WithKeyOf(a, k) == WithKeyOf(b, k);
      WithKeyOfHead(a, k);
      WithKeyOfHead(b, k);
      var h := if SameKey(a[0], k) then [a[0]] else [];
      assert WithKeyOf(a[1..], k) == (h + WithKeyOf(a[1..], k))[|h|..];
      assert WithKeyOf(b[1..], k) == (h + WithKeyOf(b[1..], k))[|h|..];
    }
  }

  /** Two sorted lists that agree, key by key, on the records carrying each key
      and their order are the same list. */
  lemma {:induction false} SortedWithSameKeyGroupsEqual(a: seq<ItemModel>, b: seq<ItemModel>)
    requires Sorted(a) && Sorted(b)
    requires SameKeyGroups(a, b)
    ensures a == b
    decreases |a|
  {
    if a != [] && b == [] {
      SameKeyGroupsMembers(a, b, a[0]);
      assert false;
    } else if a == [] && b != [] {
      SameKeyGroupsMembers(a, b, b[0]);
      assert false;
    } else if a != [] {
      SameKeyGroupsSameHead(a, b);
      SameKeyGroupsTails(a, b);
      SortedWithSameKeyGroupsEqual(a[1..], b[1..]);
      assert a == [a[0]] + a[1..] && b == [b[0]] + b[1..];
    }
  }

  /** The reload's sort is the only stable sort by (Name, Description): any list
      that is one equals `OrderByNameThenDescription(s)`. */
  lemma StableSortIsOrderBy(r: seq<ItemModel>, s: seq<ItemModel>)
    requires StableSortOf(r, s)
    ensures r == OrderByNameThenDescription(s)
  {
    OrderByIsStableSort(s);
    SortedWithSameKeyGroupsEqual(r, OrderByNameThenDescription(s));
  }

  lemma {:induction false} InsertKeepsIdsUnique(x: ItemModel, t: seq<ItemModel>)
    requires UniqueIds(t)
    requires forall y :: y in t ==> y.Id != x.Id
    ensures UniqueIds(Insert(x, t))
  {
    if t != [] && !ItemLe(x, t[0]) {
      var t' := t[1..];
      assert UniqueIds(t');
      InsertKeepsIdsUnique(x, t');
      var tail := Insert(x, t');
      forall y | y in tail ensures y.Id != t[0].Id {
        if y != x {
          var m :| 0 <= m < |t'| && t'[m] == y;
          assert t[m + 1] == y;
        }
      }
      ConsKeepsIdsUnique(t[0], tail);
    } else {
      ConsKeepsIdsUnique(x, t);
    }
  }

  /** A list of records with distinct Ids keeps them distinct when sorted. */
  lemma {:induction false} OrderByKeepsIdsUnique(s: seq<ItemModel>)
    requires UniqueIds(s)
    ensures UniqueIds(OrderByNameThenDescription(s))
  {
    if s != [] {
      var s' := s[1..];
      assert UniqueIds(s');
      OrderByKeepsIdsUnique(s');
      forall y | y in OrderByNameThenDescription(s') ensures y.Id != s[0].Id {
        var m :| 0 <= m < |s'| && s'[m] == y;
        assert s[m + 1] == y;
      }
      InsertKeepsIdsUnique(s[0], OrderByNameThenDescription(s'));
    }
  }
}
