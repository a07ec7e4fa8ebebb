/**
  Row identifiers. The database assigns each new row an integer key that no
  existing row uses; the model only relies on such a key existing.
*/
module Ids {

  /** The largest identifier in a non-empty set of identifiers. */
  ghost function Max(ids: set<nat>): (m: nat)
    requires ids != {}
    ensures m in ids && forall id :: id in ids ==> id <= m
  {
    var id :| id in ids;
    if ids - {id} == {} then
      assert forall other :: other in ids ==> other == id by {
        forall other | other in ids ensures other == id {
          assert other !in ids - {id};
        }
      }
      id
    else
      var rest := Max(ids - {id});
      assert forall other :: other in ids ==> other == id || other in ids - {id};
      if id > rest then id else rest
  }

  /** However many rows exist, an unused identifier is available. */
  lemma FreshIdExists(ids: set<nat>)
    ensures exists id: nat :: id !in ids
  {
    if ids != {} {
      assert Max(ids) + 1 !in ids;
    } else {
      assert 0 !in ids;
    }
  }
}
