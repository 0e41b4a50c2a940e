/**
 * One collection of the document database, as the data service sees it
 * (src/app/shared/cloud-firestore.service.ts). A document is a map from
 * field name to value. The backend hands out random ids and lists documents
 * in an order this model does not know; the model fixes one choice: ids come
 * from a counter that only grows and the listing is in ascending id order,
 * so a new document is listed last and "the first match" is the oldest one.
 */
module FirestoreCollection {
  import opened Wrappers
  import opened Seqs

  type DocId = nat

  /** A document: its fields by name. */
  type Doc<V> = map<string, V>

  /** One search result: a document's fields together with its id (`{id, ...data}`). */
  datatype Match<V> = Match(id: DocId, data: Doc<V>)

  /** The documents, the order the backend lists them in, and the next id it will hand out. */
  datatype Collection<V> = Collection(order: seq<DocId>, docs: map<DocId, Doc<V>>, nextId: DocId)

  predicate Increasing(ids: seq<DocId>)
  {
    forall i, j :: 0 <= i < j < |ids| ==> ids[i] < ids[j]
  }

  /** The listing holds every document once, in id order, and every id is below the next one to be handed out. */
  predicate Valid<V>(c: Collection<V>)
  {
    && Increasing(c.order)
    && (forall id :: id in c.docs ==> id in c.order)
    && (forall id :: id in c.order ==> id in c.docs && id < c.nextId)
  }

  /** The document has the field, with that value. */
  predicate HasValue<V(==)>(d: Doc<V>, fieldPath: string, value: V)
  {
    fieldPath in d && d[fieldPath] == value
  }

  /** No two documents share a value of the field. */
  predicate Unique<V(==)>(c: Collection<V>, fieldPath: string)
  {
    forall i, j :: i in c.docs && j in c.docs && i != j && fieldPath in c.docs[i] && fieldPath in c.docs[j]
      ==> c.docs[i][fieldPath] != c.docs[j][fieldPath]
  }

  function IdsOf<V>(ms: seq<Match<V>>): (r: seq<DocId>)
    ensures |r| == |ms| && forall i :: 0 <= i < |ms| ==> r[i] == ms[i].id
  {
    seq(|ms|, i requires 0 <= i < |ms| => ms[i].id)
  }

  /** The listed documents whose field equals `value`, with their ids, in listing order. */
  function SearchIn<V(==)>(order: seq<DocId>, docs: map<DocId, Doc<V>>, fieldPath: string, value: V): (r: seq<Match<V>>)
    ensures forall m :: m in r ==> m.id in order && m.id in docs && m.data == docs[m.id] && HasValue(m.data, fieldPath, value)
    ensures forall id :: id in order && id in docs && HasValue(docs[id], fieldPath, value) ==> id in IdsOf(r)
  {
    if order == [] then []
    else
      var rest := SearchIn(order[1..], docs, fieldPath, value);
      assert forall id :: id in order ==> id == order[0] || id in order[1..];
      if order[0] in docs && HasValue(docs[order[0]], fieldPath, value) then
        var r := [Match(order[0], docs[order[0]])] + rest;
        assert IdsOf(r) == [order[0]] + IdsOf(rest);
        r
      else
        rest
  }

  /** The search keeps the listing order: its ids are increasing when the listing's are. */
  lemma {:induction false} SearchInIncreasing<V>(order: seq<DocId>, docs: map<DocId, Doc<V>>, fieldPath: string, value: V)
    requires Increasing(order)
    ensures Increasing(IdsOf(SearchIn(order, docs, fieldPath, value)))
  {
    if order != [] {
      var rest := SearchIn(order[1..], docs, fieldPath, value);
      SearchInIncreasing(order[1..], docs, fieldPath, value);
      if order[0] in docs && HasValue(docs[order[0]], fieldPath, value) {
        var r := [Match(order[0], docs[order[0]])] + rest;
        var ids := IdsOf(rest);
        assert IdsOf(r) == [order[0]] + ids;
        forall j | 0 <= j < |ids| ensures order[0] < ids[j] {
          assert rest[j] in rest;
          var k :| 0 <= k < |order[1..]| && order[1..][k] == ids[j];
          assert order[k + 1] == ids[j];
        }
        PrependKeepsIncreasing(order[0], ids);
      }
    }
  }

  /** searchElement: the documents whose `fieldPath` equals the element's, each with its id. */
  function Search<V(==)>(c: Collection<V>, element: Doc<V>, fieldPath: string): (r: seq<Match<V>>)
    requires fieldPath in element
    ensures forall m :: m in r ==> m.id in c.docs && m.data == c.docs[m.id] && HasValue(m.data, fieldPath, element[fieldPath])
    ensures Valid(c) ==> forall id :: id in c.docs && HasValue(c.docs[id], fieldPath, element[fieldPath]) ==> id in IdsOf(r)
  {
    SearchIn(c.order, c.docs, fieldPath, element[fieldPath])
  }

  /** add: a new document under a fresh id, listed last. */
  function Add<V>(c: Collection<V>, element: Doc<V>): (r: Collection<V>)
    ensures c.nextId !in c.docs ==> r.docs.Keys == c.docs.Keys + {c.nextId} && |r.docs| == |c.docs| + 1
    ensures c.nextId in r.docs && r.docs[c.nextId] == element
    ensures forall id :: id in c.docs && id != c.nextId ==> id in r.docs && r.docs[id] == c.docs[id]
  {
    Collection(c.order + [c.nextId], c.docs[c.nextId := element], c.nextId + 1)
  }

  /** A fresh id is larger than every listed one, so the new document keeps the listing in id order. */
  lemma AddKeepsValid<V>(c: Collection<V>, element: Doc<V>)
    requires Valid(c)
    ensures Valid(Add(c, element)) && c.nextId !in c.docs
  {
    var r := Add(c, element);
    forall i, j | 0 <= i < j < |r.order| ensures r.order[i] < r.order[j] {
      if j < |c.order| {
        assert r.order[i] == c.order[i] && r.order[j] == c.order[j];
      } else {
        assert r.order[i] == c.order[i] && c.order[i] in c.order && r.order[j] == c.nextId;
      }
    }
    forall id | id in r.order ensures id in r.docs && id < r.nextId {
      assert id == c.nextId || id in c.order;
    }
  }

  /**
   * update: the named fields of document `id` take the new values; its other
   * fields stay, and it gains no field beyond those two sets.
   */
  function Update<V>(c: Collection<V>, id: DocId, fields: Doc<V>): (r: Collection<V>)
    requires id in c.docs
    ensures Valid(c) ==> Valid(r)
    ensures r.order == c.order && r.docs.Keys == c.docs.Keys && r.nextId == c.nextId
    ensures forall f :: f in fields ==> f in r.docs[id] && r.docs[id][f] == fields[f]
    ensures forall f :: f in c.docs[id] && f !in fields ==> f in r.docs[id] && r.docs[id][f] == c.docs[id][f]
    ensures r.docs[id].Keys == c.docs[id].Keys + fields.Keys
    ensures forall other :: other in c.docs && other != id ==> r.docs[other] == c.docs[other]
  {
    Collection(c.order, c.docs[id := c.docs[id] + fields], c.nextId)
  }

  /** delete: document `id` is gone; deleting a missing document changes nothing. */
  function Delete<V>(c: Collection<V>, id: DocId): (r: Collection<V>)
    ensures Valid(c) ==> Valid(r)
    ensures r.docs.Keys == c.docs.Keys - {id} && id !in r.order
    ensures forall other :: other in r.docs ==> r.docs[other] == c.docs[other]
  {
    var order := Without(c.order, id);
    assert Increasing(c.order) ==> Increasing(order) by {
      if Increasing(c.order) { WithoutKeepsIncreasing(c.order, id); }
    }
    Collection(order, c.docs - {id}, c.nextId)
  }

  lemma {:induction false} WithoutKeepsIncreasing(ids: seq<DocId>, id: DocId)
    requires Increasing(ids)
    ensures Increasing(Without(ids, id))
  {
    if ids != [] {
      assert Increasing(ids[1..]);
      WithoutKeepsIncreasing(ids[1..], id);
      var rest := Without(ids[1..], id);
      if ids[0] != id {
        assert Without(ids, id) == [ids[0]] + rest;
        assert forall x :: x in ids[1..] ==> ids[0] < x;
        assert forall k :: 0 <= k < |rest| ==> rest[k] in ids[1..];
      }
    }
  }

  /** The document an upsert writes: the first match, or the fresh id when nothing matches. */
  function UpsertTarget<V(==)>(c: Collection<V>, element: Doc<V>, fieldPath: string): DocId
    requires fieldPath in element
  {
    var hits := Search(c, element, fieldPath);
    if |hits| != 0 then hits[0].id else c.nextId
  }

  /**
   * addElementCheckingIfExists, once the write succeeds: overwrite the first
   * match, or add the element. Exactly one document is written, and it then
   * holds every field of the element; every other document stays, and the
   * listing only grows at its end.
   */
  function AddIfAbsent<V(==)>(c: Collection<V>, element: Doc<V>, fieldPath: string): (r: Collection<V>)
    requires fieldPath in element
    ensures var t := UpsertTarget(c, element, fieldPath);
      && r.docs.Keys == c.docs.Keys + {t}
      && (forall f :: f in element ==> f in r.docs[t] && r.docs[t][f] == element[f])
      && (forall id :: id in c.docs && id != t ==> r.docs[id] == c.docs[id])
      && c.order <= r.order
  {
    var hits := Search(c, element, fieldPath);
    if |hits| != 0 then Update(c, hits[0].id, element) else Add(c, element)
  }

  /**
   * customAddElementCheckingIfExists, once the write succeeds: write
   * `addMethod(first match, element)` over the first match, or add the
   * element. Exactly one document is written, and it then has the searched
   * field; every other document stays, and the listing only grows at its end.
   */
  function CustomAddIfAbsent<V(==)>(c: Collection<V>, element: Doc<V>, fieldPath: string,
                                   addMethod: (Match<V>, Doc<V>) -> Doc<V>): (r: Collection<V>)
    requires fieldPath in element
    ensures var t := UpsertTarget(c, element, fieldPath);
      && r.docs.Keys == c.docs.Keys + {t}
      && fieldPath in r.docs[t]
      && (forall id :: id in c.docs && id != t ==> r.docs[id] == c.docs[id])
      && c.order <= r.order
  {
    var hits := Search(c, element, fieldPath);
    if |hits| != 0 then Update(c, hits[0].id, addMethod(hits[0], element)) else Add(c, element)
  }

  /**
   * deleteElementCheckingIfExists, once the delete succeeds: the first match
   * is deleted; no match changes nothing. At most one document goes, it is
   * one holding the element's value, and the remaining documents are kept.
   */
  function DeleteIfExists<V(==)>(c: Collection<V>, element: Doc<V>, fieldPath: string): (r: Collection<V>)
    requires fieldPath in element
    ensures r.docs.Keys <= c.docs.Keys
    ensures forall id :: id in c.docs && id !in r.docs ==> HasValue(c.docs[id], fieldPath, element[fieldPath])
    ensures forall i, j :: i in c.docs && i !in r.docs && j in c.docs && j !in r.docs ==> i == j
    ensures forall id :: id in r.docs ==> r.docs[id] == c.docs[id]
  {
    var hits := Search(c, element, fieldPath);
    if |hits| != 0 then Delete(c, hits[0].id) else c
  }

  /** The method's `addMethod` keeps the value of the unique field of the document it is given. */
  ghost predicate KeepsField<V(!new)>(addMethod: (Match<V>, Doc<V>) -> Doc<V>, fieldPath: string)
  {
    forall m: Match<V>, e: Doc<V> :: fieldPath in e && HasValue(m.data, fieldPath, e[fieldPath]) && fieldPath in addMethod(m, e)
      ==> addMethod(m, e)[fieldPath] == e[fieldPath]
  }

  /** An id is listed at one position only. */
  lemma IncreasingIsInjective(ids: seq<DocId>, i: nat, j: nat)
    requires Increasing(ids) && i < |ids| && j < |ids| && ids[i] == ids[j]
    ensures i == j
  {
  }

  /** An id below every id of an increasing listing can be put in front of it. */
  lemma PrependKeepsIncreasing(x: DocId, ids: seq<DocId>)
    requires Increasing(ids) && forall j :: 0 <= j < |ids| ==> x < ids[j]
    ensures Increasing([x] + ids)
  {
  }

  lemma IncreasingHeadsDiffer(ids: seq<DocId>)
    requires Increasing(ids)
    ensures |ids| > 1 ==> ids[0] != ids[1]
  {
  }

  /** Under a unique field, a document holding the searched value is the one and only search result. */
  lemma {:induction false} UniqueMatchIsFirst<V>(c: Collection<V>, fieldPath: string, value: V, x: DocId)
    requires Valid(c) && Unique(c, fieldPath)
    requires x in c.docs && HasValue(c.docs[x], fieldPath, value)
    ensures var hits := SearchIn(c.order, c.docs, fieldPath, value);
      |hits| == 1 && hits[0] == Match(x, c.docs[x])
  {
    var hits := SearchIn(c.order, c.docs, fieldPath, value);
    assert x in IdsOf(hits);
    forall m | m in hits ensures m.id == x {
      assert HasValue(c.docs[m.id], fieldPath, value);
    }
    assert hits[0] in hits;
    SearchInIncreasing(c.order, c.docs, fieldPath, value);
    IncreasingHeadsDiffer(IdsOf(hits));
  }

  /** When no document holds the value, the search finds nothing. */
  lemma NoHolderNoMatch<V>(order: seq<DocId>, docs: map<DocId, Doc<V>>, fieldPath: string, value: V)
    requires forall id :: id in docs ==> !HasValue(docs[id], fieldPath, value)
    ensures SearchIn(order, docs, fieldPath, value) == []
  {
  }

  /** With no search result, no document holds the value. */
  lemma NoMatchMeansAbsent<V>(c: Collection<V>, fieldPath: string, value: V)
    requires Valid(c) && |SearchIn(c.order, c.docs, fieldPath, value)| == 0
    ensures forall id :: id in c.docs ==> !HasValue(c.docs[id], fieldPath, value)
  {
  }

  /**
   * addElementCheckingIfExists: when a document matches, only the first
   * match takes the element's fields and nothing is added; otherwise
   * exactly one new document, equal to the element, is added.
   */
  lemma AddIfAbsentOverwritesOrAdds<V>(c: Collection<V>, element: Doc<V>, fieldPath: string)
    requires Valid(c) && fieldPath in element
    ensures var hits := Search(c, element, fieldPath); var r := AddIfAbsent(c, element, fieldPath);
      && Valid(r)
      && (|hits| != 0 ==>
            && r.docs.Keys == c.docs.Keys
            && r.docs[hits[0].id] == c.docs[hits[0].id] + element
            && (forall id :: id in c.docs && id != hits[0].id ==> r.docs[id] == c.docs[id]))
      && (|hits| == 0 ==>
            && r.docs.Keys == c.docs.Keys + {c.nextId} && |r.docs| == |c.docs| + 1
            && c.nextId !in c.docs && r.docs[c.nextId] == element
            && (forall id :: id in c.docs ==> r.docs[id] == c.docs[id]))
  {
    if |Search(c, element, fieldPath)| == 0 {
      AddKeepsValid(c, element);
    }
  }

  /** If no two documents shared the field's value before, none do after an upsert. */
  lemma AddIfAbsentKeepsUnique<V>(c: Collection<V>, element: Doc<V>, fieldPath: string)
    requires Valid(c) && Unique(c, fieldPath) && fieldPath in element
    ensures Valid(AddIfAbsent(c, element, fieldPath)) && Unique(AddIfAbsent(c, element, fieldPath), fieldPath)
  {
    AddIfAbsentOverwritesOrAdds(c, element, fieldPath);
    var hits := Search(c, element, fieldPath);
    if |hits| != 0 {
      assert hits[0] in hits;
      OverwriteKeepsUnique(c, hits[0].id, element, fieldPath);
    } else {
      NoMatchMeansAbsent(c, fieldPath, element[fieldPath]);
      AddOfNewValueKeepsUnique(c, element, fieldPath);
    }
  }

  /** Writing fields over a document that keep its value of a unique field keeps the field unique. */
  lemma OverwriteKeepsUnique<V>(c: Collection<V>, x: DocId, fields: Doc<V>, fieldPath: string)
    requires Unique(c, fieldPath) && x in c.docs
    requires fieldPath in fields ==> fieldPath in c.docs[x] && fields[fieldPath] == c.docs[x][fieldPath]
    ensures Unique(Update(c, x, fields), fieldPath)
  {
    var r := Update(c, x, fields);
    forall i, j | i in r.docs && j in r.docs && i != j && fieldPath in r.docs[i] && fieldPath in r.docs[j]
      ensures r.docs[i][fieldPath] != r.docs[j][fieldPath]
    {
      assert fieldPath in c.docs[i] && r.docs[i][fieldPath] == c.docs[i][fieldPath];
      assert fieldPath in c.docs[j] && r.docs[j][fieldPath] == c.docs[j][fieldPath];
    }
  }

  /** Adding a document whose value of a unique field no document holds keeps the field unique. */
  lemma AddOfNewValueKeepsUnique<V>(c: Collection<V>, element: Doc<V>, fieldPath: string)
    requires Valid(c) && Unique(c, fieldPath) && fieldPath in element
    requires forall id :: id in c.docs ==> !HasValue(c.docs[id], fieldPath, element[fieldPath])
    ensures Unique(Add(c, element), fieldPath)
  {
    AddKeepsValid(c, element);
    var r := Add(c, element);
    forall i, j | i in r.docs && j in r.docs && i != j && fieldPath in r.docs[i] && fieldPath in r.docs[j]
      ensures r.docs[i][fieldPath] != r.docs[j][fieldPath]
    {
      if i == c.nextId {
        assert !HasValue(c.docs[j], fieldPath, element[fieldPath]);
      } else if j == c.nextId {
        assert !HasValue(c.docs[i], fieldPath, element[fieldPath]);
      } else {
        assert r.docs[i] == c.docs[i] && r.docs[j] == c.docs[j];
      }
    }
  }

  /** Under a unique field, upserting fields that a document already holds changes nothing. */
  lemma UpsertOfHeldFieldsChangesNothing<V>(c: Collection<V>, element: Doc<V>, fieldPath: string, x: DocId)
    requires Valid(c) && Unique(c, fieldPath) && fieldPath in element && x in c.docs
    requires forall f :: f in element ==> f in c.docs[x] && c.docs[x][f] == element[f]
    ensures AddIfAbsent(c, element, fieldPath) == c
  {
    UniqueMatchIsFirst(c, fieldPath, element[fieldPath], x);
    assert c.docs[x] + element == c.docs[x];
    assert c.docs[x := c.docs[x]] == c.docs;
  }

  /** Under a unique field, upserting the same element twice leaves what upserting it once leaves. */
  lemma AddIfAbsentIdempotent<V>(c: Collection<V>, element: Doc<V>, fieldPath: string)
    requires Valid(c) && Unique(c, fieldPath) && fieldPath in element
    ensures AddIfAbsent(AddIfAbsent(c, element, fieldPath), element, fieldPath) == AddIfAbsent(c, element, fieldPath)
  {
    var once := AddIfAbsent(c, element, fieldPath);
    AddIfAbsentKeepsUnique(c, element, fieldPath);
    AddIfAbsentOverwritesOrAdds(c, element, fieldPath);
    var hits := Search(c, element, fieldPath);
    if |hits| != 0 {
      assert hits[0] in hits;
      UpsertOfHeldFieldsChangesNothing(once, element, fieldPath, hits[0].id);
    } else {
      UpsertOfHeldFieldsChangesNothing(once, element, fieldPath, c.nextId);
    }
  }

  /**
   * customAddElementCheckingIfExists, on any collection: with a match, only
   * the first match is written, as the old document merged with
   * `addMethod(first match, element)`, and nothing is added; with none, the
   * element is added unchanged.
   */
  lemma CustomAddIfAbsentOverwritesOrAdds<V>(c: Collection<V>, element: Doc<V>, fieldPath: string,
                                            addMethod: (Match<V>, Doc<V>) -> Doc<V>)
    requires Valid(c) && fieldPath in element
    ensures var hits := Search(c, element, fieldPath); var r := CustomAddIfAbsent(c, element, fieldPath, addMethod);
      && (|hits| != 0 ==>
            && r.docs.Keys == c.docs.Keys
            && r.docs[hits[0].id] == c.docs[hits[0].id] + addMethod(hits[0], element)
            && (forall id :: id in c.docs && id != hits[0].id ==> r.docs[id] == c.docs[id]))
      && (|hits| == 0 ==>
            && r.docs.Keys == c.docs.Keys + {c.nextId} && |r.docs| == |c.docs| + 1
            && c.nextId !in c.docs && r.docs[c.nextId] == element
            && (forall id :: id in c.docs ==> r.docs[id] == c.docs[id]))
  {
    var hits := Search(c, element, fieldPath);
    if |hits| == 0 {
      AddKeepsValid(c, element);
    } else {
      assert hits[0] in hits;
    }
  }

  /**
   * customAddElementCheckingIfExists keeps the field unique when its
   * `addMethod` keeps the field's value. Whether a given `addMethod` does so
   * is a condition here; it is not derived from any particular one.
   */
  lemma CustomAddIfAbsentKeepsUnique<V(!new)>(c: Collection<V>, element: Doc<V>, fieldPath: string,
                                       addMethod: (Match<V>, Doc<V>) -> Doc<V>)
    requires Valid(c) && Unique(c, fieldPath) && fieldPath in element && KeepsField(addMethod, fieldPath)
    ensures var r := CustomAddIfAbsent(c, element, fieldPath, addMethod);
      Valid(r) && Unique(r, fieldPath)
  {
    var hits := Search(c, element, fieldPath);
    if |hits| == 0 {
      AddKeepsValid(c, element);
      NoMatchMeansAbsent(c, fieldPath, element[fieldPath]);
      AddOfNewValueKeepsUnique(c, element, fieldPath);
    } else {
      var m := hits[0];
      assert m in hits;
      var fields := addMethod(m, element);
      assert fieldPath in fields ==> fields[fieldPath] == element[fieldPath];
      OverwriteKeepsUnique(c, m.id, fields, fieldPath);
    }
  }

  /**
   * deleteElementCheckingIfExists, on any collection: with a match, exactly
   * the first match is deleted and every other document stays; with none,
   * nothing changes.
   */
  lemma DeleteIfExistsDeletesFirstMatch<V>(c: Collection<V>, element: Doc<V>, fieldPath: string)
    requires fieldPath in element
    ensures var hits := Search(c, element, fieldPath); var r := DeleteIfExists(c, element, fieldPath);
      && (|hits| != 0 ==>
            && hits[0].id in c.docs
            && r.docs.Keys == c.docs.Keys - {hits[0].id}
            && (forall id :: id in r.docs ==> r.docs[id] == c.docs[id]))
      && (|hits| == 0 ==> r == c)
  {
    var hits := Search(c, element, fieldPath);
    if |hits| != 0 {
      assert hits[0] in hits;
    }
  }

  /**
   * deleteElementCheckingIfExists under a unique field: a match loses exactly
   * its first document, and no document holds the value afterwards.
   */
  lemma DeleteIfExistsRemovesValue<V>(c: Collection<V>, element: Doc<V>, fieldPath: string)
    requires Valid(c) && Unique(c, fieldPath) && fieldPath in element
    ensures var r := DeleteIfExists(c, element, fieldPath);
      && Valid(r) && Unique(r, fieldPath)
      && |Search(r, element, fieldPath)| == 0
      && (forall id :: id in r.docs ==> !HasValue(r.docs[id], fieldPath, element[fieldPath]))
      && (|Search(c, element, fieldPath)| == 0 ==> r == c)
      && (|Search(c, element, fieldPath)| != 0 ==> |r.docs| == |c.docs| - 1)
  {
    var hits := Search(c, element, fieldPath);
    var r := DeleteIfExists(c, element, fieldPath);
    if |hits| == 0 {
      NoMatchMeansAbsent(c, fieldPath, element[fieldPath]);
    } else {
      UniqueMatchIsFirst(c, fieldPath, element[fieldPath], hits[0].id);
      forall id | id in r.docs ensures !HasValue(r.docs[id], fieldPath, element[fieldPath]) {
        assert id != hits[0].id && id in c.docs;
      }
      NoHolderNoMatch(r.order, r.docs, fieldPath, element[fieldPath]);
    }
  }

  /** The collection as getCollectionWithID lists it: every document with its id, in listing order. */
  function Listing<V>(c: Collection<V>): (r: seq<Match<V>>)
    requires Valid(c)
    ensures IdsOf(r) == c.order
    ensures forall i :: 0 <= i < |r| ==> r[i].id in c.docs && r[i].data == c.docs[r[i].id]
  {
    seq(|c.order|, i requires 0 <= i < |c.order| => Match(c.order[i], c.docs[c.order[i]]))
  }

  /** Every element names the searched field. */
  predicate AllHave<V>(elements: seq<Doc<V>>, fieldPath: string)
  {
    forall i :: 0 <= i < |elements| ==> fieldPath in elements[i]
  }

  /**
   * addElementsCheckingIfExists, one element after another: element i is
   * upserted when its write succeeds (`failures[i]` is None) and skipped
   * when it fails. No document is lost and the listing only grows at its end.
   */
  function AddAllIfAbsent<V(==)>(c: Collection<V>, elements: seq<Doc<V>>, fieldPath: string,
                                failures: seq<Option<string>>): (r: Collection<V>)
    requires |failures| == |elements| && AllHave(elements, fieldPath)
    ensures c.docs.Keys <= r.docs.Keys && c.order <= r.order
    decreases |elements|
  {
    if elements == [] then c
    else
      var n := |elements| - 1;
      var before := AddAllIfAbsent(c, elements[..n], fieldPath, failures[..n]);
      if failures[n].None? then AddIfAbsent(before, elements[n], fieldPath) else before
  }

  /** customAddElementsCheckingIfExists, one element after another; no document is lost and the listing only grows at its end. */
  function CustomAddAllIfAbsent<V(==)>(c: Collection<V>, elements: seq<Doc<V>>, fieldPath: string,
                                      addMethod: (Match<V>, Doc<V>) -> Doc<V>,
                                      failures: seq<Option<string>>): (r: Collection<V>)
    requires |failures| == |elements| && AllHave(elements, fieldPath)
    ensures c.docs.Keys <= r.docs.Keys && c.order <= r.order
    decreases |elements|
  {
    if elements == [] then c
    else
      var n := |elements| - 1;
      var before := CustomAddAllIfAbsent(c, elements[..n], fieldPath, addMethod, failures[..n]);
      if failures[n].None? then CustomAddIfAbsent(before, elements[n], fieldPath, addMethod) else before
  }

  /**
   * addElements: every element whose write succeeds becomes a new document.
   * One fresh id is handed out per successful write, listed after the
   * existing documents.
   */
  function AddAll<V>(c: Collection<V>, elements: seq<Doc<V>>, failures: seq<Option<string>>): (r: Collection<V>)
    requires |failures| == |elements|
    ensures r.order == c.order + FreshIds(c.nextId, Successes(failures))
    ensures r.nextId == c.nextId + Successes(failures)
    decreases |elements|
  {
    if elements == [] then c
    else
      var n := |elements| - 1;
      var before := AddAll(c, elements[..n], failures[..n]);
      if failures[n].None? then Add(before, elements[n]) else before
  }

  /**
   * The loop of deleteCollection: every listed id whose delete succeeds is
   * deleted. Deleting never adds a document nor alters one that stays.
   */
  function DeleteAll<V>(c: Collection<V>, ids: seq<DocId>, failures: seq<Option<string>>): (r: Collection<V>)
    requires |failures| == |ids|
    ensures r.docs.Keys <= c.docs.Keys && r.nextId == c.nextId
    ensures forall id :: id in r.docs ==> r.docs[id] == c.docs[id]
    decreases |ids|
  {
    if ids == [] then c
    else
      var n := |ids| - 1;
      var before := DeleteAll(c, ids[..n], failures[..n]);
      if failures[n].None? then Delete(before, ids[n]) else before
  }

  /** The number of writes that succeed. */
  function Successes(failures: seq<Option<string>>): (r: nat)
    ensures r <= |failures|
    decreases |failures|
  {
    if failures == [] then 0
    else Successes(failures[..|failures| - 1]) + (if failures[|failures| - 1].None? then 1 else 0)
  }

  /** `count` consecutive ids from `start`: the ids a run of adds hands out. */
  function FreshIds(start: DocId, count: nat): (r: seq<DocId>)
    ensures |r| == count && forall k :: 0 <= k < count ==> r[k] == start + k
  {
    seq(count, k => start + k)
  }

  /** The elements whose write succeeds, in the order given. */
  function Succeeded<V>(elements: seq<Doc<V>>, failures: seq<Option<string>>): (r: seq<Doc<V>>)
    requires |failures| == |elements|
    ensures |r| == Successes(failures)
    ensures (forall i :: 0 <= i < |failures| ==> failures[i].None?) ==> r == elements
    decreases |elements|
  {
    if elements == [] then []
    else
      var n := |elements| - 1;
      assert forall i :: 0 <= i < n ==> failures[..n][i] == failures[i];
      assert elements[..n] + [elements[n]] == elements;
      Succeeded(elements[..n], failures[..n]) + (if failures[n].None? then [elements[n]] else [])
  }

  /** The ids whose delete succeeds. */
  function Deleted(ids: seq<DocId>, failures: seq<Option<string>>): set<DocId>
    requires |failures| == |ids|
  {
    set i | 0 <= i < |ids| && failures[i].None? :: ids[i]
  }

  /** A bulk upsert, done one element at a time, keeps the searched field unique. */
  lemma {:induction false} AddAllIfAbsentKeepsUnique<V>(c: Collection<V>, elements: seq<Doc<V>>, fieldPath: string,
                                                       failures: seq<Option<string>>)
    requires Valid(c) && Unique(c, fieldPath)
    requires |failures| == |elements| && AllHave(elements, fieldPath)
    ensures var r := AddAllIfAbsent(c, elements, fieldPath, failures); Valid(r) && Unique(r, fieldPath)
    decreases |elements|
  {
    if elements != [] {
      var n := |elements| - 1;
      AddAllIfAbsentKeepsUnique(c, elements[..n], fieldPath, failures[..n]);
      if failures[n].None? {
        AddIfAbsentKeepsUnique(AddAllIfAbsent(c, elements[..n], fieldPath, failures[..n]), elements[n], fieldPath);
      }
    }
  }

  /** A bulk custom upsert keeps the searched field unique when `addMethod` keeps its value. */
  lemma {:induction false} CustomAddAllIfAbsentKeepsUnique<V(!new)>(c: Collection<V>, elements: seq<Doc<V>>, fieldPath: string,
                                                                  addMethod: (Match<V>, Doc<V>) -> Doc<V>,
                                                                  failures: seq<Option<string>>)
    requires Valid(c) && Unique(c, fieldPath) && KeepsField(addMethod, fieldPath)
    requires |failures| == |elements| && AllHave(elements, fieldPath)
    ensures var r := CustomAddAllIfAbsent(c, elements, fieldPath, addMethod, failures); Valid(r) && Unique(r, fieldPath)
    decreases |elements|
  {
    if elements != [] {
      var n := |elements| - 1;
      CustomAddAllIfAbsentKeepsUnique(c, elements[..n], fieldPath, addMethod, failures[..n]);
      if failures[n].None? {
        CustomAddIfAbsentKeepsUnique(CustomAddAllIfAbsent(c, elements[..n], fieldPath, addMethod, failures[..n]),
                                     elements[n], fieldPath, addMethod);
      }
    }
  }

  /** The documents under the consecutive ids from `start` are `added`, in order. */
  ghost predicate PlacedFrom<V>(docs: map<DocId, Doc<V>>, start: DocId, added: seq<Doc<V>>)
  {
    forall k :: 0 <= k < |added| ==> HeldAt(docs, start + k, added[k])
  }

  ghost predicate HeldAt<V>(docs: map<DocId, Doc<V>>, id: DocId, d: Doc<V>)
  {
    id in docs && docs[id] == d
  }

  /**
   * addElements makes each element whose write succeeds a new document, in
   * the order given, under consecutive fresh ids, and leaves the existing
   * documents alone.
   */
  lemma {:induction false} AddAllAddsSuccesses<V>(c: Collection<V>, elements: seq<Doc<V>>, failures: seq<Option<string>>)
    requires Valid(c) && |failures| == |elements|
    ensures var r := AddAll(c, elements, failures);
      && Valid(r) && |r.docs| == |c.docs| + Successes(failures)
      && (forall id :: id in c.docs ==> id in r.docs && r.docs[id] == c.docs[id])
      && PlacedFrom(r.docs, c.nextId, Succeeded(elements, failures))
    decreases |elements|
  {
    AddAllPlacesSuccesses(c, elements, failures);
    if elements != [] {
      var n := |elements| - 1;
      AddAllAddsSuccesses(c, elements[..n], failures[..n]);
      var before := AddAll(c, elements[..n], failures[..n]);
      if failures[n].None? {
        AddKeepsValid(before, elements[n]);
      }
    }
  }

  /** The document under the k-th fresh id of a run of adds is the k-th element whose write succeeds. */
  lemma {:induction false} AddAllPlacesSuccesses<V>(c: Collection<V>, elements: seq<Doc<V>>, failures: seq<Option<string>>)
    requires |failures| == |elements|
    ensures PlacedFrom(AddAll(c, elements, failures).docs, c.nextId, Succeeded(elements, failures))
    decreases |elements|
  {
    if elements != [] {
      var n := |elements| - 1;
      AddAllPlacesSuccesses(c, elements[..n], failures[..n]);
      var before := AddAll(c, elements[..n], failures[..n]);
      var added := Succeeded(elements[..n], failures[..n]);
      if failures[n].None? {
        assert AddAll(c, elements, failures) == Add(before, elements[n]);
        assert Succeeded(elements, failures) == added + [elements[n]];
        AddAllAddsOneMore(c.nextId, before, elements[n], added);
      } else {
        assert AddAll(c, elements, failures) == before;
        assert Succeeded(elements, failures) == added + [];
      }
    }
  }

  /** One more successful add puts the element under the next fresh id and keeps the earlier ones. */
  lemma AddAllAddsOneMore<V>(start: DocId, before: Collection<V>, element: Doc<V>, added: seq<Doc<V>>)
    requires before.nextId == start + |added| && PlacedFrom(before.docs, start, added)
    ensures PlacedFrom(Add(before, element).docs, start, added + [element])
  {
    var r := Add(before, element);
    var all := added + [element];
    forall k | 0 <= k < |all| ensures HeldAt(r.docs, start + k, all[k]) {
      if k < |added| {
        assert HeldAt(before.docs, start + k, added[k]);
      }
    }
  }

  /** The ids whose delete succeeds are gone; every other document stays as it was. */
  lemma {:induction false} DeleteAllRemovesDeleted<V>(c: Collection<V>, ids: seq<DocId>, failures: seq<Option<string>>)
    requires Valid(c) && |failures| == |ids|
    ensures var r := DeleteAll(c, ids, failures);
      && Valid(r) && r.docs.Keys == c.docs.Keys - Deleted(ids, failures)
      && (forall id :: id in r.docs ==> r.docs[id] == c.docs[id])
    decreases |ids|
  {
    if ids != [] {
      var n := |ids| - 1;
      DeleteAllRemovesDeleted(c, ids[..n], failures[..n]);
      assert Deleted(ids, failures) == Deleted(ids[..n], failures[..n]) + (if failures[n].None? then {ids[n]} else {});
    }
  }

  /**
   * deleteCollection deletes every document listed when it is called: what
   * remains are exactly the documents whose delete failed.
   */
  lemma DeleteAllListedLeavesFailures<V>(c: Collection<V>, failures: seq<Option<string>>)
    requires Valid(c) && |failures| == |c.order|
    ensures var r := DeleteAll(c, c.order, failures);
      && Valid(r) && r.docs.Keys == (set i | 0 <= i < |c.order| && failures[i].Some? :: c.order[i])
      && ((forall i :: 0 <= i < |failures| ==> failures[i].None?) ==> r.docs == map[])
  {
    DeleteAllRemovesDeleted(c, c.order, failures);
    var r := DeleteAll(c, c.order, failures);
    var failed := set i | 0 <= i < |c.order| && failures[i].Some? :: c.order[i];
    forall id | id in r.docs ensures id in failed {
      assert id in c.order;
      var i :| 0 <= i < |c.order| && c.order[i] == id;
      assert failures[i].Some?;
    }
    forall id | id in failed ensures id in r.docs {
      var i :| 0 <= i < |c.order| && failures[i].Some? && c.order[i] == id;
      forall j | 0 <= j < |c.order| && c.order[j] == id ensures failures[j].Some? {
        IncreasingIsInjective(c.order, i, j);
      }
      assert id !in Deleted(c.order, failures);
    }
  }

  /** One more element of a bulk upsert is one more upsert, skipped when its write fails. */
  lemma AddAllIfAbsentStep<V>(c: Collection<V>, elements: seq<Doc<V>>, fieldPath: string, failures: seq<Option<string>>, i: nat)
    requires |failures| == |elements| && AllHave(elements, fieldPath) && i < |elements|
    ensures AllHave(elements[..i], fieldPath) && AllHave(elements[..i + 1], fieldPath)
    ensures AddAllIfAbsent(c, elements[..i + 1], fieldPath, failures[..i + 1])
            == var before := AddAllIfAbsent(c, elements[..i], fieldPath, failures[..i]);
               if failures[i].None? then AddIfAbsent(before, elements[i], fieldPath) else before
  {
    assert elements[..i + 1][..i] == elements[..i] && failures[..i + 1][..i] == failures[..i];
  }

  lemma CustomAddAllIfAbsentStep<V>(c: Collection<V>, elements: seq<Doc<V>>, fieldPath: string,
                                   addMethod: (Match<V>, Doc<V>) -> Doc<V>, failures: seq<Option<string>>, i: nat)
    requires |failures| == |elements| && AllHave(elements, fieldPath) && i < |elements|
    ensures AllHave(elements[..i], fieldPath) && AllHave(elements[..i + 1], fieldPath)
    ensures CustomAddAllIfAbsent(c, elements[..i + 1], fieldPath, addMethod, failures[..i + 1])
            == var before := CustomAddAllIfAbsent(c, elements[..i], fieldPath, addMethod, failures[..i]);
               if failures[i].None? then CustomAddIfAbsent(before, elements[i], fieldPath, addMethod) else before
  {
    assert elements[..i + 1][..i] == elements[..i] && failures[..i + 1][..i] == failures[..i];
  }

  lemma AddAllStep<V>(c: Collection<V>, elements: seq<Doc<V>>, failures: seq<Option<string>>, i: nat)
    requires |failures| == |elements| && i < |elements|
    ensures AddAll(c, elements[..i + 1], failures[..i + 1])
            == var before := AddAll(c, elements[..i], failures[..i]);
               if failures[i].None? then Add(before, elements[i]) else before
  {
    assert elements[..i + 1][..i] == elements[..i] && failures[..i + 1][..i] == failures[..i];
  }

  lemma DeleteAllStep<V>(c: Collection<V>, ids: seq<DocId>, failures: seq<Option<string>>, i: nat)
    requires |failures| == |ids| && i < |ids|
    ensures DeleteAll(c, ids[..i + 1], failures[..i + 1])
            == var before := DeleteAll(c, ids[..i], failures[..i]);
               if failures[i].None? then Delete(before, ids[i]) else before
  {
    assert ids[..i + 1][..i] == ids[..i] && failures[..i + 1][..i] == failures[..i];
  }
}
