/**
 * The file-system index of the multi-threaded batch version (ex2/fs.c):
 * numberBuckets bucket maps, inumbers handed out by pre-incrementing nextINumber,
 * lookup answering 0 for an absent name and a renameNode that returns nothing.
 */
module Ex2Fs {
  import opened Namespace
  import opened Locks

  /** lookup's answer: the inumber bound to name in bucket b, or 0. */
  function Find(bs: seq<Bucket>, b: int, name: string): int
    requires 0 <= b < |bs|
  {
    if name in bs[b] then bs[b][name] else 0
  }

  /** renameNode's sequential effect: nothing when the old name is not found or the new one is. */
  function Renamed(bs: seq<Bucket>, hash: Hash, b: int, name: string, rename: string): seq<Bucket>
    requires 0 <= b < |bs| && HashRange(hash, |bs|)
  {
    var inumber := Find(bs, b, name);
    if inumber == 0 then bs
    else if Find(bs, hash(rename), rename) != 0 then bs
    else Bind(Unbind(bs, b, name), hash(rename), rename, inumber)
  }

  /** Every bound inumber was handed out by obtainNewInumber: it lies in 1 .. next. */
  ghost predicate Allocated(bs: seq<Bucket>, next: int) {
    forall b, name :: 0 <= b < |bs| && name in bs[b] ==> 1 <= bs[b][name] <= next
  }

  /** Because inumbers start at 1, lookup's 0 means "absent" and nothing else. */
  lemma FindZeroIffAbsent(bs: seq<Bucket>, next: int, b: int, name: string)
    requires 0 <= b < |bs| && Allocated(bs, next)
    ensures Find(bs, b, name) == 0 <==> name !in bs[b]
  {
    if name in bs[b] {
      assert bs[b][name] >= 1;
    }
  }

  /**
   * renameNode changes nothing when the old name is absent from bucket b or the new
   * name is bound in its home bucket; otherwise the old name leaves b and the new
   * name is bound to the same inumber in its home bucket, all else unchanged.
   */
  lemma {:induction false} RenameOutcomes(bs: seq<Bucket>, hash: Hash, next: int, b: int, name: string, rename: string)
    requires 0 <= b < |bs| && HashRange(hash, |bs|) && Allocated(bs, next)
    ensures var r := Renamed(bs, hash, b, name, rename);
      && (name !in bs[b] || rename in bs[hash(rename)] ==> r == bs)
      && (name in bs[b] && rename !in bs[hash(rename)] ==>
            && |r| == |bs|
            && rename in r[hash(rename)] && r[hash(rename)][rename] == bs[b][name]
            && name !in r[b]
            && forall k :: 0 <= k < |bs| && k != b && k != hash(rename) ==> r[k] == bs[k])
      && Allocated(r, next)
  {
    FindZeroIffAbsent(bs, next, b, name);
    FindZeroIffAbsent(bs, next, hash(rename), rename);
    var r := Renamed(bs, hash, b, name, rename);
    if name in bs[b] && rename !in bs[hash(rename)] {
      var nb := hash(rename);
      assert r == Bind(Unbind(bs, b, name), nb, rename, bs[b][name]);
      if nb == b {
        assert name != rename;
      }
      forall k, n | 0 <= k < |r| && n in r[k] ensures 1 <= r[k][n] <= next {
        if k != nb || n != rename {
          assert n in bs[k] && r[k][n] == bs[k][n];
        }
      }
    }
  }

  class TecnicoFs {
    const numberBuckets: int
    const hash: Hash
    /** bstRoot[b] is the root of bucket b. */
    const bstRoot: array<Bucket>
    var nextINumber: int
    const treeLock: BucketLocks

    ghost predicate Valid()
      reads this, treeLock
    {
      && numberBuckets >= 1
      && HashRange(hash, numberBuckets)
      && bstRoot.Length == numberBuckets
      && treeLock.count == numberBuckets
      && treeLock.held == {}
    }

    /** new_tecnicofs: counter at 0 and numberBuckets empty buckets. */
    constructor (numberBuckets: int, hash: Hash)
      requires numberBuckets >= 1 && HashRange(hash, numberBuckets)
      ensures Valid() && fresh(bstRoot) && fresh(treeLock)
      ensures this.numberBuckets == numberBuckets && this.hash == hash
      ensures nextINumber == 0 && bstRoot[..] == Empty(numberBuckets)
    {
      this.numberBuckets := numberBuckets;
      this.hash := hash;
      nextINumber := 0;
      bstRoot := new Bucket[numberBuckets];
      treeLock := new BucketLocks(numberBuckets);
      new;
      var i := 0;
      while i < numberBuckets
        invariant 0 <= i <= numberBuckets
        invariant forall k :: 0 <= k < i ==> bstRoot[k] == map[]
        modifies bstRoot
      {
        bstRoot[i] := map[];
        i := i + 1;
      }
      assert bstRoot[..] == Empty(numberBuckets);
    }

    /** obtainNewInumber: pre-increments the counter and returns the new value. */
    method ObtainNewInumber() returns (inumber: int)
      modifies this`nextINumber
      ensures nextINumber == old(nextINumber) + 1 && inumber == nextINumber
    {
      nextINumber := nextINumber + 1;
      inumber := nextINumber;
    }

    /** create: binds name in bucket b; what the BST does with a duplicate is not known. */
    method Create(name: string, inumber: int, b: int)
      requires Valid() && 0 <= b < numberBuckets
      requires name !in bstRoot[b]
      modifies bstRoot, treeLock
      ensures Valid()
      ensures bstRoot[..] == Bind(old(bstRoot[..]), b, name, inumber)
    {
      treeLock.Lock(b);
      bstRoot[b] := bstRoot[b][name := inumber];
      treeLock.Unlock(b);
    }

    /** delete: unbinds name from bucket b. */
    method Delete(name: string, b: int)
      requires Valid() && 0 <= b < numberBuckets
      modifies bstRoot, treeLock
      ensures Valid()
      ensures bstRoot[..] == Unbind(old(bstRoot[..]), b, name)
    {
      treeLock.Lock(b);
      bstRoot[b] := bstRoot[b] - {name};
      treeLock.Unlock(b);
    }

    /** lookup: 0 when the name is absent from bucket b. */
    method Lookup(name: string, b: int) returns (inumber: int)
      requires Valid() && 0 <= b < numberBuckets
      modifies treeLock
      ensures Valid()
      ensures inumber == Find(bstRoot[..], b, name)
    {
      treeLock.Lock(b);
      var found := name in bstRoot[b];
      inumber := if found then bstRoot[b][name] else 0;
      treeLock.Unlock(b);
    }

    /** renameNode: the lookups, the trylock retry loop, the move and the unlocks; returns nothing. */
    method RenameNode(name: string, rename: string, b: int, attempts: seq<Attempt>)
      returns (ghost lockedForMove: set<int>)
      requires Valid() && 0 <= b < numberBuckets
      requires EventuallySucceeds(attempts, b, hash(rename))
      modifies bstRoot, treeLock
      ensures Valid()
      ensures bstRoot[..] == Renamed(old(bstRoot[..]), hash, b, name, rename)
      ensures bstRoot[..] != old(bstRoot[..]) ==> lockedForMove == {b, hash(rename)}
    {
      var searchResult := Lookup(name, b);
      var iNumberSaver := searchResult;
      if searchResult == 0 {
        return {};
      }
      var newBucketIndex := hash(rename);
      searchResult := Lookup(rename, newBucketIndex);
      if searchResult != 0 {
        return {};
      }
      ghost var tries := treeLock.AcquireForRename(b, newBucketIndex, attempts);
      lockedForMove := treeLock.held;
      bstRoot[b] := bstRoot[b] - {name};
      bstRoot[newBucketIndex] := bstRoot[newBucketIndex][rename := iNumberSaver];
      treeLock.ReleaseForRename(b, newBucketIndex);
    }

    /** print_tecnicofs_tree: hands the buckets to print_tree in index order 0 .. numberBuckets - 1. */
    method PrintTree() returns (visited: seq<Bucket>)
      requires Valid()
      ensures visited == bstRoot[..]
    {
      visited := [];
      for i := 0 to numberBuckets
        invariant visited == bstRoot[..i]
      {
        visited := visited + [bstRoot[i]];
      }
    }
  }
}
