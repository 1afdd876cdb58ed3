/**
 * The file-system index of the socket server (ex3/Server/fs.c): numberBuckets
 * bucket maps, each guarded by a read-write lock; lookup answers -1 for an absent
 * name and renameNode answers -4, -5 or 0.
 */
module Ex3Fs {
  import opened Common
  import opened Namespace
  import opened Locks

  /** lookup's answer: the inumber bound to name in bucket b, or -1. */
  function Find(bs: seq<Bucket>, b: int, name: string): int
    requires 0 <= b < |bs|
  {
    if name in bs[b] then bs[b][name] else -1
  }

  datatype RenameResult = RenameResult(code: int, buckets: seq<Bucket>)

  /**
   * renameNode's sequential effect: -4 when the old name is not found in bucket b,
   * -5 when the new name is found in its home bucket, otherwise the binding moves.
   */
  function Renamed(bs: seq<Bucket>, hash: Hash, b: int, name: string, rename: string): (r: RenameResult)
    requires 0 <= b < |bs| && HashRange(hash, |bs|)
    ensures |r.buckets| == |bs|
  {
    var inumber := Find(bs, b, name);
    if inumber == -1 then RenameResult(-4, bs)
    else if Find(bs, hash(rename), rename) != -1 then RenameResult(-5, bs)
    else RenameResult(0, Bind(Unbind(bs, b, name), hash(rename), rename, inumber))
  }

  /** inode_create never hands out -1, so no name is bound to it. */
  ghost predicate NonNegative(bs: seq<Bucket>) {
    forall b, name :: 0 <= b < |bs| && name in bs[b] ==> bs[b][name] >= 0
  }

  lemma FindAbsent(bs: seq<Bucket>, b: int, name: string)
    requires 0 <= b < |bs| && NonNegative(bs)
    ensures Find(bs, b, name) == -1 <==> name !in bs[b]
  {
    if name in bs[b] {
      assert bs[b][name] >= 0;
    }
  }

  /**
   * The three outcomes of renameNode: -4 exactly when the old name is absent from
   * bucket b, -5 exactly when it is present and the new name is bound in its home
   * bucket, and otherwise 0 with the new name bound to the old inumber, the old name
   * gone from b and every other bucket as it was. Failures change nothing.
   */
  lemma {:induction false} RenameOutcomes(bs: seq<Bucket>, hash: Hash, b: int, name: string, rename: string)
    requires 0 <= b < |bs| && HashRange(hash, |bs|) && NonNegative(bs)
    ensures var r := Renamed(bs, hash, b, name, rename);
      && (r.code == -4 <==> name !in bs[b])
      && (r.code == -5 <==> name in bs[b] && rename in bs[hash(rename)])
      && (r.code == 0 <==> name in bs[b] && rename !in bs[hash(rename)])
      && (r.code != 0 ==> r.buckets == bs)
      && (r.code == 0 ==>
            && |r.buckets| == |bs|
            && rename in r.buckets[hash(rename)]
            && r.buckets[hash(rename)][rename] == bs[b][name]
            && name !in r.buckets[b]
            && forall k :: 0 <= k < |bs| && k != b && k != hash(rename) ==> r.buckets[k] == bs[k])
      && NonNegative(r.buckets)
  {
    FindAbsent(bs, b, name);
    FindAbsent(bs, hash(rename), rename);
    var r := Renamed(bs, hash, b, name, rename);
    if r.code == 0 {
      var nb := hash(rename);
      var mid := Unbind(bs, b, name);
      assert r.buckets == Bind(mid, nb, rename, bs[b][name]);
      if nb == b {
        assert name != rename;
      }
      forall k, n | 0 <= k < |r.buckets| && n in r.buckets[k] ensures r.buckets[k][n] >= 0 {
        if k != nb || n != rename {
          assert n in bs[k] && r.buckets[k][n] == bs[k][n];
        }
      }
    }
  }

  /**
   * When the caller passes the old name's home bucket, a successful rename keeps
   * every name in its home bucket and the new name resolves to the old inumber.
   */
  lemma RenameKeepsPlacement(bs: seq<Bucket>, hash: Hash, name: string, rename: string)
    requires HashRange(hash, |bs|) && Placed(bs, hash) && NonNegative(bs)
    ensures var r := Renamed(bs, hash, hash(name), name, rename);
      && Placed(r.buckets, hash)
      && (r.code == 0 ==> Resolve(r.buckets, hash, rename) == Resolve(bs, hash, name)
                          && Resolve(r.buckets, hash, name) == None)
  {
    RenameOutcomes(bs, hash, hash(name), name, rename);
    var r := Renamed(bs, hash, hash(name), name, rename);
    if r.code == 0 {
      assert name != rename;
      MoveInHome(bs, hash, name, rename);
    }
  }

  class TecnicoFs {
    const numberBuckets: int
    const hash: Hash
    /** bstRoot[b] is the root of bucket b. */
    const bstRoot: array<Bucket>
    var nextINumber: int
    const treeLock: BucketLocks

    ghost predicate Valid()
      reads this, treeLock
    {
      && numberBuckets >= 1
      && HashRange(hash, numberBuckets)
      && bstRoot.Length == numberBuckets
      && treeLock.count == numberBuckets
      && treeLock.held == {}
    }

    /** new_tecnicofs: counter at 0 and every bucket empty (numberBuckets >= 1 is checked by main). */
    constructor (numberBuckets: int, hash: Hash)
      requires numberBuckets >= 1 && HashRange(hash, numberBuckets)
      ensures Valid() && fresh(bstRoot) && fresh(treeLock)
      ensures this.numberBuckets == numberBuckets && this.hash == hash
      ensures nextINumber == 0 && bstRoot[..] == Empty(numberBuckets)
    {
      this.numberBuckets := numberBuckets;
      this.hash := hash;
      nextINumber := 0;
      bstRoot := new Bucket[numberBuckets];
      treeLock := new BucketLocks(numberBuckets);
      new;
      var i := 0;
      while i < numberBuckets
        invariant 0 <= i <= numberBuckets
        invariant forall k :: 0 <= k < i ==> bstRoot[k] == map[]
        modifies bstRoot
      {
        bstRoot[i] := map[];
        i := i + 1;
      }
      assert bstRoot[..] == Empty(numberBuckets);
    }

    /** create: binds name in bucket b under the bucket's write lock; nothing else changes. */
    method Create(name: string, inumber: int, b: int)
      requires Valid() && 0 <= b < numberBuckets
      requires name !in bstRoot[b]
      modifies bstRoot, treeLock
      ensures Valid()
      ensures bstRoot[..] == Bind(old(bstRoot[..]), b, name, inumber)
    {
      treeLock.Lock(b);
      bstRoot[b] := bstRoot[b][name := inumber];
      treeLock.Unlock(b);
    }

    /** delete: unbinds name from bucket b under the bucket's write lock. */
    method Delete(name: string, b: int)
      requires Valid() && 0 <= b < numberBuckets
      modifies bstRoot, treeLock
      ensures Valid()
      ensures bstRoot[..] == Unbind(old(bstRoot[..]), b, name)
    {
      treeLock.Lock(b);
      bstRoot[b] := bstRoot[b] - {name};
      treeLock.Unlock(b);
    }

    /** lookup: reads bucket b under its read lock; -1 when the name is absent. */
    method Lookup(name: string, b: int) returns (inumber: int)
      requires Valid() && 0 <= b < numberBuckets
      modifies treeLock
      ensures Valid()
      ensures inumber == Find(bstRoot[..], b, name)
    {
      treeLock.Lock(b);
      var found := name in bstRoot[b];
      inumber := if found then bstRoot[b][name] else -1;
      treeLock.Unlock(b);
    }

    /**
     * renameNode: the two advisory lookups, then the trylock retry loop, then the
     * move made while holding the write locks of both buckets, then the unlocks.
     */
    method RenameNode(name: string, rename: string, b: int, attempts: seq<Attempt>)
      returns (code: int, ghost lockedForMove: set<int>)
      requires Valid() && 0 <= b < numberBuckets
      requires EventuallySucceeds(attempts, b, hash(rename))
      modifies bstRoot, treeLock
      ensures Valid()
      ensures code == Renamed(old(bstRoot[..]), hash, b, name, rename).code
      ensures bstRoot[..] == Renamed(old(bstRoot[..]), hash, b, name, rename).buckets
      ensures code == 0 ==> lockedForMove == {b, hash(rename)}
    {
      var searchResult := Lookup(name, b);
      var iNumberSaver := searchResult;
      if searchResult == -1 {
        return -4, {};
      }
      var newBucketIndex := hash(rename);
      searchResult := Lookup(rename, newBucketIndex);
      if searchResult != -1 {
        return -5, {};
      }
      ghost var tries := treeLock.AcquireForRename(b, newBucketIndex, attempts);
      lockedForMove := treeLock.held;
      bstRoot[b] := bstRoot[b] - {name};
      bstRoot[newBucketIndex] := bstRoot[newBucketIndex][rename := iNumberSaver];
      treeLock.ReleaseForRename(b, newBucketIndex);
      code := 0;
    }

    /** print_tecnicofs_tree: hands the buckets to print_tree in index order 0 .. numberBuckets - 1. */
    method PrintTree() returns (visited: seq<Bucket>)
      requires Valid()
      ensures visited == bstRoot[..]
    {
      visited := [];
      for i := 0 to numberBuckets
        invariant visited == bstRoot[..i]
      {
        visited := visited + [bstRoot[i]];
      }
    }
  }
}
