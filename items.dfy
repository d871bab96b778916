/** The record the controller manages, and the operations on record lists that
    the controller and the backing stores share. */
module Items {

  /** A value that may be missing; `None` stands for the `null` a store read returns
      when no record has the requested Id. */
  datatype Option<+T> = None | Some(value: T)

  /** A data record. `Other` stands for every remaining field, which the controller
      never inspects. */
  datatype ItemModel = ItemModel(Id: string, Name: string, Description: string, Other: string)

  /** No two records of `rows` share an Id. */
  ghost predicate UniqueIds(rows: seq<ItemModel>)
  {
    forall i, j :: 0 <= i < j < |rows| ==> rows[i].Id != rows[j].Id
  }

  /** Some record of `rows` has Id `id`. */
  ghost predicate HasId(rows: seq<ItemModel>, id: string)
  {
    exists i :: 0 <= i < |rows| && rows[i].Id == id
  }

  /** The first record of `rows` whose Id is `id`, or `None`. */
  function FindId(rows: seq<ItemModel>, id: string): (r: Option<ItemModel>)
    ensures r.None? <==> !HasId(rows, id)
    ensures r.Some? ==> r.value in rows && r.value.Id == id
    ensures r.Some? && UniqueIds(rows) ==> forall i :: 0 <= i < |rows| && rows[i].Id == id ==> rows[i] == r.value
  {
    if rows == [] then None
    else if rows[0].Id == id then Some(rows[0])
    else
      var r := FindId(rows[1..], id);
      assert forall i :: 1 <= i < |rows| ==> rows[i] == rows[1..][i - 1];
      r
  }

  /** `rows` without the records whose Id is `id`, the others kept in order. */
  function RemoveId(rows: seq<ItemModel>, id: string): (r: seq<ItemModel>)
    ensures forall x :: x in r <==> x in rows && x.Id != id
    ensures !HasId(rows, id) ==> r == rows
  {
    if rows == [] then []
    else
      assert forall i :: 1 <= i < |rows| ==> rows[i] == rows[1..][i - 1];
      if rows[0].Id == id then RemoveId(rows[1..], id)
      else
        assert rows == [rows[0]] + rows[1..];
        [rows[0]] + RemoveId(rows[1..], id)
  }

  /** After removing an Id no record carries it. */
  lemma RemoveIdLeavesNoId(rows: seq<ItemModel>, id: string)
    ensures !HasId(RemoveId(rows, id), id)
  {
    var r := RemoveId(rows, id);
    assert forall i :: 0 <= i < |r| ==> r[i] in r;
  }

  /** Removing an Id keeps distinct Ids distinct. */
  lemma {:induction false} RemoveIdKeepsIdsUnique(rows: seq<ItemModel>, id: string)
    requires UniqueIds(rows)
    ensures UniqueIds(RemoveId(rows, id))
  {
    if rows != [] {
      var t := rows[1..];
      assert UniqueIds(t);
      RemoveIdKeepsIdsUnique(t, id);
      if rows[0].Id != id {
        forall y | y in RemoveId(t, id) ensures y.Id != rows[0].Id {
          var m :| 0 <= m < |t| && t[m] == y;
          assert rows[m + 1] == y;
        }
        ConsKeepsIdsUnique(rows[0], RemoveId(t, id));
      }
    }
  }

  /** A record whose Id no record of `s` has can go in front of `s`. */
  lemma ConsKeepsIdsUnique(a: ItemModel, s: seq<ItemModel>)
    requires UniqueIds(s)
    requires forall y :: y in s ==> y.Id != a.Id
    ensures UniqueIds([a] + s)
  {
    var r := [a] + s;
    forall i, j | 0 <= i < j < |r| ensures r[i].Id != r[j].Id {
      assert r[j] == s[j - 1];
      if i > 0 {
        assert r[i] == s[i - 1];
      } else {
        assert r[j] in s;
      }
    }
  }

  /** With distinct Ids, removing a present Id removes exactly one record. */
  lemma {:induction false} RemoveIdDropsOne(rows: seq<ItemModel>, id: string)
    requires UniqueIds(rows) && HasId(rows, id)
    ensures |RemoveId(rows, id)| == |rows| - 1
  {
    var t := rows[1..];
    assert UniqueIds(t);
    if rows[0].Id == id {
      forall m | 0 <= m < |t| ensures t[m].Id != id {
        assert t[m] == rows[m + 1];
      }
    } else {
      var k :| 0 <= k < |rows| && rows[k].Id == id;
      assert t[k - 1].Id == id;
      RemoveIdDropsOne(t, id);
    }
  }

  /** `rows` with every record whose Id is `item.Id` replaced by `item`. */
  function ReplaceId(rows: seq<ItemModel>, item: ItemModel): (r: seq<ItemModel>)
    ensures |r| == |rows|
    ensures forall i :: 0 <= i < |rows| ==> r[i] == if rows[i].Id == item.Id then item else rows[i]
    ensures forall i :: 0 <= i < |rows| ==> r[i].Id == rows[i].Id
  {
    if rows == [] then []
    else [if rows[0].Id == item.Id then item else rows[0]] + ReplaceId(rows[1..], item)
  }

  /** After `item` replaces the record with its Id, looking that Id up finds `item`. */
  lemma {:induction false} FindAfterReplace(rows: seq<ItemModel>, item: ItemModel)
    requires HasId(rows, item.Id)
    ensures FindId(ReplaceId(rows, item), item.Id) == Some(item)
  {
    var r := ReplaceId(rows, item);
    if rows[0].Id != item.Id {
      var k :| 0 <= k < |rows| && rows[k].Id == item.Id;
      assert rows[1..][k - 1].Id == item.Id;
      FindAfterReplace(rows[1..], item);
      assert r[1..] == ReplaceId(rows[1..], item);
    }
  }

  /** Looking up an Id other than the replaced one finds what it found before. */
  lemma {:induction false} FindOtherAfterReplace(rows: seq<ItemModel>, item: ItemModel, id: string)
    requires id != item.Id
    ensures FindId(ReplaceId(rows, item), id) == FindId(rows, id)
  {
    if rows != [] {
      FindOtherAfterReplace(rows[1..], item, id);
      assert ReplaceId(rows, item)[1..] == ReplaceId(rows[1..], item);
    }
  }

  /** `s` with its first occurrence of `x` taken out; `s` itself when `x` does not occur. */
  function RemoveFirst(s: seq<ItemModel>, x: ItemModel): (r: seq<ItemModel>)
    ensures x !in s ==> r == s
    ensures multiset(r) == multiset(s) - multiset{x}
  {
    if s == [] then []
    else if s[0] == x then
      assert s == [s[0]] + s[1..];
      s[1..]
    else
      assert s == [s[0]] + s[1..];
      [s[0]] + RemoveFirst(s[1..], x)
  }

  /** The first position of `s` that holds `x`. */
  function FirstIndex(s: seq<ItemModel>, x: ItemModel): (i: nat)
    requires x in s
    ensures i < |s| && s[i] == x && x !in s[..i]
  {
    if s[0] == x then 0
    else
      var k := FirstIndex(s[1..], x);
      assert s[..k + 1] == [s[0]] + s[1..][..k];
      k + 1
  }

  /** When `x` occurs in `s`, removing it cuts `s` at the first position holding `x`. */
  lemma {:induction false} RemoveFirstCutsAtFirst(s: seq<ItemModel>, x: ItemModel)
    requires x in s
    ensures RemoveFirst(s, x) == s[..FirstIndex(s, x)] + s[FirstIndex(s, x) + 1..]
  {
    if s[0] != x {
      var t := s[1..];
      var k := FirstIndex(t, x);
      assert FirstIndex(s, x) == k + 1;
      RemoveFirstCutsAtFirst(t, x);
      assert RemoveFirst(s, x) == [s[0]] + (t[..k] + t[k + 1..]);
      SplitAfterHead(s, k);
    }
  }

  /** Cutting `s` after position `k + 1` is cutting its tail after position `k`. */
  lemma SplitAfterHead(s: seq<ItemModel>, k: nat)
    requires k + 1 < |s|
    ensures [s[0]] + (s[1..][..k] + s[1..][k + 1..]) == s[..k + 1] + s[k + 2..]
  {
    assert s[..k + 1] == [s[0]] + s[1..][..k];
    assert s[k + 2..] == s[1..][k + 1..];
  }
}
