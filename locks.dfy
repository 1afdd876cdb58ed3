/**
 * The per-bucket locks of the namespace, seen from one thread: the set of bucket
 * locks it holds. Other threads appear only through the outcome of each trylock.
 */
module Locks {

  /**
   * One round of the rename retry loop: whether trywrlock on the old name's bucket,
   * and then on the new name's bucket, found the lock free.
   */
  datatype Attempt = Attempt(first: bool, second: bool)

  /** The round that ends the loop: the first lock taken, and the second taken or the same lock. */
  predicate Succeeds(a: Attempt, b: int, nb: int) {
    a.first && (a.second || b == nb)
  }

  /** Some round ends the loop: the scheduling assumption under which renameNode returns. */
  predicate EventuallySucceeds(attempts: seq<Attempt>, b: int, nb: int) {
    exists k :: 0 <= k < |attempts| && Succeeds(attempts[k], b, nb)
  }

  /** Some round of the rename retry loop finds both locks free, so every rename's loop ends. */
  ghost predicate AnyRoundSucceeds(attempts: seq<Attempt>) {
    exists k :: 0 <= k < |attempts| && attempts[k].first && attempts[k].second
  }

  lemma RoundSucceeds(attempts: seq<Attempt>, b: int, nb: int)
    requires AnyRoundSucceeds(attempts)
    ensures EventuallySucceeds(attempts, b, nb)
  {
    var k :| 0 <= k < |attempts| && attempts[k].first && attempts[k].second;
    assert Succeeds(attempts[k], b, nb);
  }

  class BucketLocks {
    const count: int
    /** The bucket locks the calling thread holds. */
    var held: set<int>

    constructor (count: nat)
      ensures this.count == count && held == {}
    {
      this.count := count;
      held := {};
    }

    /** pthread_rwlock_rdlock / pthread_rwlock_wrlock: blocks until the lock is taken. */
    method Lock(i: int)
      requires 0 <= i < count && i !in held
      modifies this
      ensures held == old(held) + {i}
    {
      held := held + {i};
    }

    /**
     * pthread_rwlock_trywrlock: takes the lock when no other thread holds it; a lock
     * the caller already holds is busy too.
     */
    method TryWriteLock(i: int, free: bool) returns (acquired: bool)
      requires 0 <= i < count
      modifies this
      ensures acquired == (free && i !in old(held))
      ensures held == old(held) + (if acquired then {i} else {})
    {
      acquired := free && i !in held;
      if acquired {
        held := held + {i};
      }
    }

    method Unlock(i: int)
      requires i in held
      modifies this
      ensures held == old(held) - {i}
    {
      held := held - {i};
    }

    /**
     * The retry loop of renameNode: trylock b; if that worked, trylock nb; keep both
     * when the second worked or is the same lock, otherwise release b and try again.
     * It leaves holding exactly b and nb, at the first round that succeeds.
     */
    method AcquireForRename(b: int, nb: int, attempts: seq<Attempt>) returns (ghost tries: nat)
      requires 0 <= b < count && 0 <= nb < count && held == {}
      requires EventuallySucceeds(attempts, b, nb)
      modifies this
      ensures held == {b, nb}
      ensures 1 <= tries <= |attempts| && Succeeds(attempts[tries - 1], b, nb)
      ensures forall k :: 0 <= k < tries - 1 ==> !Succeeds(attempts[k], b, nb)
    {
      var tryNumber := 0;
      var renameConditions := 0;
      while renameConditions != 1
        invariant 0 <= tryNumber <= |attempts|
        invariant renameConditions == 0 || renameConditions == 1
        invariant renameConditions == 0 ==> held == {}
        invariant renameConditions == 0 ==> forall k :: 0 <= k < tryNumber ==> !Succeeds(attempts[k], b, nb)
        invariant renameConditions == 1 ==>
          held == {b, nb} && 1 <= tryNumber && Succeeds(attempts[tryNumber - 1], b, nb)
          && forall k :: 0 <= k < tryNumber - 1 ==> !Succeeds(attempts[k], b, nb)
        decreases |attempts| - tryNumber
      {
        var attempt := attempts[tryNumber];
        tryNumber := tryNumber + 1;
        var gotFirst := TryWriteLock(b, attempt.first);
        if gotFirst {
          var gotSecond := TryWriteLock(nb, attempt.second);
          if gotSecond || b == nb {
            renameConditions := 1;
          } else {
            Unlock(b);
          }
        }
      }
      tries := tryNumber;
    }

    /** After the move: unlock b, and nb only when it is a different lock. */
    method ReleaseForRename(b: int, nb: int)
      requires held == {b, nb}
      modifies this
      ensures held == {}
    {
      Unlock(b);
      if b != nb {
        Unlock(nb);
      }
    }
  }
}
