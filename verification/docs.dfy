/** Document collections of the store. A collection is a map from document
    id to document data, together with the order in which the store
    enumerates its documents. Queries are filters over that enumeration. */
module Docs {
  import opened Maybe
  import opened Seqs

  type Id = string

  datatype Coll<T> = Coll(order: seq<Id>, docs: map<Id, T>) {

    /** The enumeration lists every stored document exactly once. */
    ghost predicate Wf() {
      && Distinct(order)
      && (forall id :: id in docs <==> id in order)
    }

    /** Point read: the document stored under `id`, if any. */
    function Get(id: Id): (r: Option<T>)
      ensures r.Some? <==> id in docs
      ensures r.Some? ==> r.value == docs[id]
    {
      if id in docs then Some(docs[id]) else None
    }
  }

  /** Writes `v` under `id`, creating the document when it is absent
      (a new document is enumerated after all existing ones). */
  function Put<T>(c: Coll<T>, id: Id, v: T): (r: Coll<T>)
    ensures r.docs == c.docs[id := v]
    ensures id in c.order ==> r.order == c.order
    ensures id !in c.order ==> r.order == c.order + [id]
    ensures c.Wf() ==> r.Wf()
  {
    if id in c.order then Coll(c.order, c.docs[id := v])
    else Coll(c.order + [id], c.docs[id := v])
  }

  /** Applies `f` to every stored document whose id is in `ids`; all other
      documents and the enumeration order are left as they are. */
  function UpdateAll<T>(c: Coll<T>, ids: set<Id>, f: T -> T): (r: Coll<T>)
    ensures r.order == c.order
    ensures r.docs.Keys == c.docs.Keys
    ensures forall id :: id in c.docs && id in ids ==> r.docs[id] == f(c.docs[id])
    ensures forall id :: id in c.docs && id !in ids ==> r.docs[id] == c.docs[id]
    ensures c.Wf() ==> r.Wf()
  {
    Coll(c.order, map id | id in c.docs :: if id in ids then f(c.docs[id]) else c.docs[id])
  }

  /** Whether the `i`-th enumerated document exists and satisfies `p`. */
  predicate Hit<T>(order: seq<Id>, docs: map<Id, T>, p: (Id, T) -> bool, i: int)
    requires 0 <= i < |order|
  {
    order[i] in docs && p(order[i], docs[order[i]])
  }

  /** The ids of the enumerated documents satisfying `p`, in enumeration
      order: the result of a filtered collection query. */
  function Select<T>(order: seq<Id>, docs: map<Id, T>, p: (Id, T) -> bool): (r: seq<Id>)
    ensures forall id :: id in r <==> id in order && id in docs && p(id, docs[id])
    ensures |r| <= |order|
    ensures Distinct(order) ==> Distinct(r)
  {
    if order == [] then []
    else
      var rest := Select(order[1..], docs, p);
      assert forall id :: id in order <==> id == order[0] || id in order[1..];
      if order[0] in docs && p(order[0], docs[order[0]]) then [order[0]] + rest else rest
  }

  /** A query keeps the enumeration order: of any two ids it returns, the
      earlier one is listed before the later one. */
  lemma SelectKeepsOrder<T>(order: seq<Id>, docs: map<Id, T>, p: (Id, T) -> bool)
    ensures var r := Select(order, docs, p);
            forall i, j :: 0 <= i < j < |r| ==>
              exists a, b :: 0 <= a < b < |order| && order[a] == r[i] && order[b] == r[j]
  {
    var r := Select(order, docs, p);
    forall i, j | 0 <= i < j < |r|
      ensures exists a, b :: 0 <= a < b < |order| && order[a] == r[i] && order[b] == r[j]
    {
      var a, b := SelectPositions(order, docs, p, i, j);
    }
  }

  /** Listing positions, in order, of the `i`-th and `j`-th results of a
      query. */
  lemma {:induction false} SelectPositions<T>(order: seq<Id>, docs: map<Id, T>, p: (Id, T) -> bool,
                                              i: nat, j: nat)
    returns (a: nat, b: nat)
    requires i < j < |Select(order, docs, p)|
    ensures a < b < |order|
    ensures order[a] == Select(order, docs, p)[i] && order[b] == Select(order, docs, p)[j]
  {
    var tail := order[1..];
    var rest := Select(tail, docs, p);
    var r := Select(order, docs, p);
    if order[0] in docs && p(order[0], docs[order[0]]) {
      assert r == [order[0]] + rest;
      if i == 0 {
        assert r[j] == rest[j - 1] && rest[j - 1] in rest;
        assert rest[j - 1] in tail;
        var k :| 0 <= k < |tail| && tail[k] == rest[j - 1];
        a, b := 0, k + 1;
      } else {
        var a', b' := SelectPositions(tail, docs, p, i - 1, j - 1);
        a, b := a' + 1, b' + 1;
      }
    } else {
      assert r == rest;
      var a', b' := SelectPositions(tail, docs, p, i, j);
      a, b := a' + 1, b' + 1;
    }
  }

  /** The position of the first enumerated document, at or after `from`,
      satisfying `p`; `|order|` when there is none. */
  function FirstFrom<T>(order: seq<Id>, docs: map<Id, T>, p: (Id, T) -> bool, from: nat): (r: nat)
    requires from <= |order|
    ensures from <= r <= |order|
    ensures r < |order| ==> Hit(order, docs, p, r)
    ensures forall j :: from <= j < r ==> !Hit(order, docs, p, j)
    decreases |order| - from
  {
    if from == |order| then from
    else if Hit(order, docs, p, from) then from
    else FirstFrom(order, docs, p, from + 1)
  }

  /** The first enumerated document satisfying `p`, if any. */
  function First<T>(order: seq<Id>, docs: map<Id, T>, p: (Id, T) -> bool): (r: Option<Id>)
    ensures r.None? <==> forall i :: 0 <= i < |order| ==> !Hit(order, docs, p, i)
    ensures r.Some? ==> r.value in docs && p(r.value, docs[r.value])
    ensures r.Some? ==> exists i :: 0 <= i < |order| && order[i] == r.value &&
                          forall j :: 0 <= j < i ==> !Hit(order, docs, p, j)
  {
    var i := FirstFrom(order, docs, p, 0);
    if i == |order| then None else Some(order[i])
  }

  /** The ids of a collection in enumeration order (a query with no
      filter). */
  function AllIds<T>(c: Coll<T>): (r: seq<Id>)
    ensures forall id :: id in r <==> id in c.order && id in c.docs
  {
    Select(c.order, c.docs, Unfiltered)
  }

  /** The filter of a query without a `where`. */
  predicate Unfiltered<T>(id: Id, x: T) {
    true
  }

  /** A query whose filter passes every listed document returns the whole
      listing, in order. */
  lemma {:induction false} SelectAll<T>(order: seq<Id>, docs: map<Id, T>, p: (Id, T) -> bool)
    requires forall i :: 0 <= i < |order| ==> Hit(order, docs, p, i)
    ensures Select(order, docs, p) == order
  {
    if order != [] {
      assert forall i :: 0 <= i < |order[1..]| ==> order[1..][i] == order[i + 1];
      assert forall i :: 0 <= i < |order[1..]| ==> Hit(order[1..], docs, p, i) by {
        forall i | 0 <= i < |order[1..]| ensures Hit(order[1..], docs, p, i) {
          assert Hit(order, docs, p, i + 1);
        }
      }
      SelectAll(order[1..], docs, p);
      assert Hit(order, docs, p, 0);
      assert order == [order[0]] + order[1..];
    }
  }

  /** An unfiltered read of a well-formed collection is its listing, in
      listing order. */
  lemma AllIdsIsListing<T>(c: Coll<T>)
    requires c.Wf()
    ensures AllIds(c) == c.order
  {
    forall i | 0 <= i < |c.order| ensures Hit(c.order, c.docs, Unfiltered, i) {
      assert c.order[i] in c.order;
    }
    SelectAll(c.order, c.docs, Unfiltered);
  }
}
