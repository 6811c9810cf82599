/** server/src/repositories/GenericRepository.ts: CRUD over one Mongoose
    collection. A document is a map from field names to values of type `V`;
    `Partial<T>` and `FilterQuery<T>` are maps of the same kind. */
module GenericRepo {
  import opened Wrappers
  import opened Ids

  type Doc<V> = map<string, V>

  /** A stored document together with its `_id`. */
  datatype Record<V> = Record(id: Id, doc: Doc<V>)

  /** An equality filter: every field of `query` is present in `doc` with the
      same value. */
  predicate Matches<V(==)>(doc: Doc<V>, query: Doc<V>) {
    forall k :: k in query ==> k in doc && doc[k] == query[k]
  }

  /** The first document, in the collection's natural order `order`, that
      matches `query` (what `findOne` returns). */
  function FirstMatch<V(==)>(order: seq<Id>, docs: map<Id, Doc<V>>, query: Doc<V>): (r: Option<Record<V>>)
    ensures r.Some? ==> r.value.id in order && r.value.id in docs
                        && r.value.doc == docs[r.value.id] && Matches(r.value.doc, query)
    ensures r.None? <==> forall i :: 0 <= i < |order| && order[i] in docs ==> !Matches(docs[order[i]], query)
    ensures r.Some? ==> exists i :: 0 <= i < |order| && order[i] == r.value.id
                          && forall j :: 0 <= j < i && order[j] in docs ==> !Matches(docs[order[j]], query)
  {
    if order == [] then None
    else if order[0] in docs && Matches(docs[order[0]], query) then Some(Record(order[0], docs[order[0]]))
    else
      var r := FirstMatch(order[1..], docs, query);
      assert r.Some? ==> exists i :: 0 <= i < |order| && order[i] == r.value.id
                          && forall j :: 0 <= j < i && order[j] in docs ==> !Matches(docs[order[j]], query) by {
        if r.Some? {
          var i :| 0 <= i < |order[1..]| && order[1..][i] == r.value.id
                   && forall j :: 0 <= j < i && order[1..][j] in docs ==> !Matches(docs[order[1..][j]], query);
          assert forall j :: 0 <= j < i + 1 && order[j] in docs ==> !Matches(docs[order[j]], query) by {
            forall j | 0 <= j < i + 1 && order[j] in docs ensures !Matches(docs[order[j]], query) {
              if j > 0 { assert order[j] == order[1..][j - 1]; }
            }
          }
        }
      }
      r
  }

  /** Every document matching `filter`, in natural order (what `find` returns). */
  function AllMatching<V(==)>(order: seq<Id>, docs: map<Id, Doc<V>>, filter: Doc<V>): (r: seq<Record<V>>)
    ensures forall x :: x in r ==> x.id in order && x.id in docs && x.doc == docs[x.id] && Matches(x.doc, filter)
    ensures forall i :: 0 <= i < |order| && order[i] in docs && Matches(docs[order[i]], filter)
                        ==> Record(order[i], docs[order[i]]) in r
    ensures |r| <= |order|
  {
    if order == [] then []
    else
      var rest := AllMatching(order[1..], docs, filter);
      assert forall i :: 1 <= i < |order| ==> order[i] == order[1..][i - 1];
      if order[0] in docs && Matches(docs[order[0]], filter) then [Record(order[0], docs[order[0]])] + rest
      else rest
  }

  /** With the default empty filter, `findAll` lists every stored document and
      nothing else. */
  lemma FindAllDefaultListsEverything<V>(order: seq<Id>, docs: map<Id, Doc<V>>)
    requires forall id :: id in docs <==> id in order
    ensures forall id :: id in docs ==> Record(id, docs[id]) in AllMatching(order, docs, map[])
    ensures forall x :: x in AllMatching(order, docs, map[]) ==> x.id in docs && x.doc == docs[x.id]
  {
    forall id | id in docs ensures Record(id, docs[id]) in AllMatching(order, docs, map[]) {
      var i :| 0 <= i < |order| && order[i] == id;
      assert Matches(docs[id], map[]);
    }
  }

  /** A generic repository over one collection. `docs` is the collection,
      `order` its natural (insertion) order, `nextSeq` the id counter. Every
      `fault` argument is the message of an exception the database raises on
      that call, `None` when the call goes through. */
  class GenericRepository<V(==)> {
    var docs: map<Id, Doc<V>>
    var order: seq<Id>
    var nextSeq: nat

    ghost predicate Valid()
      reads this
    {
      && (forall id :: id in docs <==> id in order)
      && Distinct(order)
      && (forall id :: id in docs ==> Issued(id, nextSeq))
    }

    constructor ()
      ensures Valid() && docs == map[] && order == []
    {
      docs, order, nextSeq := map[], [], 0;
    }

    /** `findById`: the stored document with that id, or null. */
    method FindById(id: Id, fault: Option<string>) returns (r: Result<Option<Record<V>>, Error>)
      ensures fault.Some? ==> r == Failure(Rewrap(fault.value, "Unable to find by ID"))
      ensures fault.None? ==> r == Success(if id in docs then Some(Record(id, docs[id])) else None)
    {
      if fault.Some? {
        return Failure(Rewrap(fault.value, "Unable to find by ID"));
      }
      r := Success(if id in docs then Some(Record(id, docs[id])) else None);
    }

    /** `create`: stores `data` under a new id and returns the stored value. */
    method Create(data: Doc<V>, fault: Option<string>) returns (r: Result<Record<V>, Error>)
      requires Valid()
      modifies this
      ensures Valid()
      ensures fault.Some? ==> r == Failure(Rewrap(fault.value, "Unable to create"))
                              && docs == old(docs) && order == old(order)
      ensures fault.None? ==> && r.Success? && r.value.doc == data
                              && r.value.id !in old(docs)
                              && docs == old(docs)[r.value.id := data]
                              && order == old(order) + [r.value.id]
    {
      if fault.Some? {
        return Failure(Rewrap(fault.value, "Unable to create"));
      }
      var id := IssueId(nextSeq);
      IssueIdFresh(nextSeq);
      docs := docs[id := data];
      order := order + [id];
      nextSeq := nextSeq + 1;
      r := Success(Record(id, data));
    }

    /** `findOne`: a stored document matching `query` (the first in natural
      order), or null when none matches. */
    method FindOne(query: Doc<V>, fault: Option<string>) returns (r: Result<Option<Record<V>>, Error>)
      ensures fault.Some? ==> r == Failure(Rewrap(fault.value, "Unable to find one"))
      ensures fault.None? ==> r == Success(FirstMatch(order, docs, query))
    {
      if fault.Some? {
        return Failure(Rewrap(fault.value, "Unable to find one"));
      }
      r := Success(FirstMatch(order, docs, query));
    }

    /** `findAll(filter = {})`: every document matching `filter`. */
    method FindAll(filter: Doc<V> := map[], fault: Option<string> := None) returns (r: Result<seq<Record<V>>, Error>)
      ensures fault.Some? ==> r == Failure(Rewrap(fault.value, "Unable to find all"))
      ensures fault.None? ==> r == Success(AllMatching(order, docs, filter))
    {
      if fault.Some? {
        return Failure(Rewrap(fault.value, "Unable to find all"));
      }
      r := Success(AllMatching(order, docs, filter));
    }

    /** `update` (`findByIdAndUpdate(id, data, { new: true })`): sets the fields
      of `patch` and returns the document after the update; null, and nothing
      changed, when no document has that id. Database faults are not wrapped. */
    method Update(id: Id, patch: Doc<V>, fault: Option<string>) returns (r: Result<Option<Record<V>>, Error>)
      requires Valid()
      modifies this
      ensures Valid() && order == old(order)
      ensures fault.Some? ==> r == Failure(DbFault(fault.value)) && docs == old(docs)
      ensures fault.None? && id !in old(docs) ==> r == Success(None) && docs == old(docs)
      ensures fault.None? && id in old(docs) ==>
                docs == old(docs)[id := old(docs)[id] + patch] && r == Success(Some(Record(id, docs[id])))
    {
      if fault.Some? {
        return Failure(DbFault(fault.value));
      }
      if id !in docs {
        return Success(None);
      }
      docs := docs[id := docs[id] + patch];
      r := Success(Some(Record(id, docs[id])));
    }

    /** `delete` (`findByIdAndDelete`): removes the document and returns it, or
      null when no document has that id. Database faults are not wrapped. */
    method Delete(id: Id, fault: Option<string>) returns (r: Result<Option<Record<V>>, Error>)
      requires Valid()
      modifies this
      ensures Valid()
      ensures fault.Some? ==> r == Failure(DbFault(fault.value)) && docs == old(docs) && order == old(order)
      ensures fault.None? && id !in old(docs) ==> r == Success(None) && docs == old(docs) && order == old(order)
      ensures fault.None? && id in old(docs) ==>
                r == Success(Some(Record(id, old(docs)[id]))) && docs == old(docs) - {id}
                && order == Without(old(order), id)
    {
      if fault.Some? {
        return Failure(DbFault(fault.value));
      }
      if id !in docs {
        return Success(None);
      }
      r := Success(Some(Record(id, docs[id])));
      docs := docs - {id};
      order := Without(order, id);
    }
  }

  /** A document created and then looked up by its id is found unchanged, and
      a deleted id is found no more while every other document stays. */
  method CreateFindDelete<V(==)>(repo: GenericRepository<V>, data: Doc<V>, other: Id)
      returns (found: Result<Option<Record<V>>, Error>, removed: Result<Option<Record<V>>, Error>,
               after: Result<Option<Record<V>>, Error>)
    requires repo.Valid()
    modifies repo
    ensures found.Success? && found.value.Some? && found.value.value.doc == data
    ensures removed == found
    ensures after == Success(None)
    ensures found.value.value.id !in old(repo.docs)
    ensures other in old(repo.docs) ==> other in repo.docs && repo.docs[other] == old(repo.docs)[other]
  {
    var created := repo.Create(data, None);
    var id := created.value.id;
    found := repo.FindById(id, None);
    removed := repo.Delete(id, None);
    after := repo.FindById(id, None);
  }
}
