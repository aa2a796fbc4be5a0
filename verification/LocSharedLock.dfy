/** The self-deleting lock of gps/utils/LocSharedLock.h. */
module LocSharedLock {
  import opened Options

  // What share() makes of a count.
  function AfterShare(mRef: int): int {
    mRef + 1
  }

  // What drop() makes of it; None when the lock deletes itself.
  function AfterDrop(mRef: int): Option<int> {
    if mRef == 1 then None else Some(mRef - 1)
  }

  class LocSharedLock {
    var mRef: int
    ghost var Holders: multiset<nat>   // who has created or shared the lock and not yet dropped it
    ghost var Deleted: bool

    ghost predicate Valid()
      reads this
    {
      mRef == |Holders| && (Deleted <==> Holders == multiset{})
    }

    constructor (ghost first: nat)
      ensures Valid() && Holders == multiset{first}
    {
      mRef := 1;
      Holders, Deleted := multiset{first}, false;
    }

    // Sharing needs a lock that somebody still holds.
    method Share(ghost holder: nat)
      requires Valid() && !Deleted
      modifies this
      ensures Valid() && Holders == old(Holders) + multiset{holder} && !Deleted
      ensures mRef == AfterShare(old(mRef))
    {
      mRef := mRef + 1;
      Holders := Holders + multiset{holder};
    }

    // The lock deletes itself exactly when its last holder drops it.
    method Drop(ghost holder: nat)
      requires Valid() && holder in Holders
      modifies this
      ensures Valid() && Holders == old(Holders) - multiset{holder}
      ensures Deleted <==> old(Holders) == multiset{holder}
      ensures (if Deleted then None else Some(mRef)) == AfterDrop(old(mRef))
    {
      var before := mRef;
      mRef := mRef - 1;
      Holders := Holders - multiset{holder};
      if before == 1 {
        Deleted := true;
      }
      assert old(Holders) == Holders + multiset{holder};
    }
  }
}
