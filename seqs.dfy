/** Small facts about sequences used by both the store's entity lists and the remote collection's listing. */
module Seqs {

  /** No element is listed twice. */
  predicate NoDuplicates<K(==)>(ids: seq<K>)
  {
    forall i, j :: 0 <= i < j < |ids| ==> ids[i] != ids[j]
  }

  /** `ids` with every occurrence of `id` taken out, the others kept in order. */
  function Without<K(==,!new)>(ids: seq<K>, id: K): (r: seq<K>)
    ensures forall x :: x in r <==> x in ids && x != id
    ensures NoDuplicates(ids) ==> NoDuplicates(r)
    ensures |r| <= |ids|
  {
    if ids == [] then []
    else if ids[0] == id then Without(ids[1..], id)
    else
      var rest := Without(ids[1..], id);
      assert NoDuplicates(ids) ==> ids[0] !in ids[1..] && NoDuplicates(ids[1..]);
      [ids[0]] + rest
  }
}
