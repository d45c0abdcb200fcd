/**
 * The document store as the handlers see it: a collection of documents
 * keyed by ObjectId, scanned by `find` and `findOne` in natural order.
 */
module Documents {
  import opened Wrappers

  /** An ObjectId; the store hands out fresh ones. */
  type ObjectId = nat

  /** No id is listed twice. */
  predicate Distinct(ids: seq<ObjectId>) {
    forall i, j :: 0 <= i < j < |ids| ==> ids[i] != ids[j]
  }

  /** A document together with its `_id`, as `find` returns it. */
  datatype Stored<T> = Stored(id: ObjectId, doc: T)

  datatype Collection<T> = Collection(docs: map<ObjectId, T>, order: seq<ObjectId>) {
    /** The natural order lists every document exactly once. */
    predicate Valid() {
      && (forall i :: 0 <= i < |order| ==> order[i] in docs)
      && (forall id :: id in docs ==> id in order)
      && (forall i, j :: 0 <= i < j < |order| ==> order[i] != order[j])
    }

    /** `save()` of a new document: it is stored and comes last in natural order. */
    function Insert(id: ObjectId, doc: T): (c: Collection<T>)
      requires Valid() && id !in docs
      ensures c.Valid()
      ensures c.docs.Keys == docs.Keys + {id} && c.docs[id] == doc
      ensures forall k :: k in docs ==> c.docs[k] == docs[k]
    {
      Collection(docs[id := doc], order + [id])
    }

    /** `save()` of a loaded document: its fields are replaced and it keeps its place. */
    function Replace(id: ObjectId, doc: T): (c: Collection<T>)
      requires Valid() && id in docs
      ensures c.Valid()
      ensures c.docs.Keys == docs.Keys && c.docs[id] == doc
      ensures forall k :: k in docs && k != id ==> c.docs[k] == docs[k]
    {
      Collection(docs[id := doc], order)
    }
  }

  /** The first id in `order` whose document satisfies `p`. */
  function FirstMatch<T>(order: seq<ObjectId>, docs: map<ObjectId, T>, p: T -> bool): (r: Option<ObjectId>)
    ensures r.Some? ==> r.value in docs && p(docs[r.value]) && r.value in order
    ensures r.None? ==> forall i :: 0 <= i < |order| && order[i] in docs ==> !p(docs[order[i]])
  {
    if order == [] then None
    else if order[0] in docs && p(docs[order[0]]) then Some(order[0])
    else FirstMatch(order[1..], docs, p)
  }

  /** `findOne(filter)`: some matching document if there is one, otherwise none. */
  function FindOne<T>(c: Collection<T>, p: T -> bool): (r: Option<ObjectId>)
    requires c.Valid()
    ensures r.Some? ==> r.value in c.docs && p(c.docs[r.value])
    ensures r.None? <==> forall id :: id in c.docs ==> !p(c.docs[id])
  {
    var r := FirstMatch(c.order, c.docs, p);
    if r.None? then
      assert forall id :: id in c.docs ==> !p(c.docs[id]) by {
        forall id | id in c.docs ensures !p(c.docs[id]) {
          var i :| 0 <= i < |c.order| && c.order[i] == id;
        }
      }
      r
    else
      r
  }

  /** When at most one document matches, `findOne` returns that one. */
  lemma FindOneUnique<T>(c: Collection<T>, p: T -> bool, id: ObjectId)
    requires c.Valid() && id in c.docs && p(c.docs[id])
    requires forall k :: k in c.docs && p(c.docs[k]) ==> k == id
    ensures FindOne(c, p) == Some(id)
  {
  }

  /** `find(filter).limit(n)`: the first n matching ids in natural order, each once. */
  function FirstMatches<T>(order: seq<ObjectId>, docs: map<ObjectId, T>, p: T -> bool, limit: nat): (r: seq<ObjectId>)
    requires Distinct(order)
    ensures |r| <= limit && Distinct(r)
    ensures forall k :: 0 <= k < |r| ==> r[k] in docs && p(docs[r[k]]) && r[k] in order
    ensures |r| < limit ==> forall i :: 0 <= i < |order| && order[i] in docs && p(docs[order[i]]) ==> order[i] in r
  {
    if order == [] || limit == 0 then []
    else
      assert forall i :: 0 <= i < |order[1..]| ==> order[1..][i] != order[0];
      if order[0] in docs && p(docs[order[0]]) then [order[0]] + FirstMatches(order[1..], docs, p, limit - 1)
      else FirstMatches(order[1..], docs, p, limit)
  }

  /** `find(filter)` without a limit: every matching id, in natural order, each once. */
  function AllMatches<T>(order: seq<ObjectId>, docs: map<ObjectId, T>, p: T -> bool): (r: seq<ObjectId>)
    requires Distinct(order)
    ensures Distinct(r)
    ensures forall k :: 0 <= k < |r| ==> r[k] in docs && p(docs[r[k]]) && r[k] in order
    ensures forall i :: 0 <= i < |order| && order[i] in docs && p(docs[order[i]]) ==> order[i] in r
  {
    if order == [] then []
    else
      assert forall i :: 0 <= i < |order[1..]| ==> order[1..][i] != order[0];
      if order[0] in docs && p(docs[order[0]]) then [order[0]] + AllMatches(order[1..], docs, p)
      else AllMatches(order[1..], docs, p)
  }

  /** The documents stored under `ids`, each with its id, in the same order. */
  function StoredAt<T>(ids: seq<ObjectId>, docs: map<ObjectId, T>): (r: seq<Stored<T>>)
    requires forall k :: 0 <= k < |ids| ==> ids[k] in docs
    ensures |r| == |ids| && forall k :: 0 <= k < |ids| ==> r[k] == Stored(ids[k], docs[ids[k]])
  {
    if ids == [] then [] else [Stored(ids[0], docs[ids[0]])] + StoredAt(ids[1..], docs)
  }
}
