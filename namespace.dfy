/**
 * The partitioned name -> inumber index of TecnicoFS, as values: a sequence of
 * buckets, each an ordered map (the BST of lib/bst, whose source is not part of
 * this model) from name to inumber. A name's home bucket is hash(name).
 */
module Namespace {
  import opened Common

  type Bucket = map<string, int>

  /** hash(name, numberBuckets) with numberBuckets fixed at start-up. */
  type Hash = string -> int

  /** The hash of lib/hash is not part of this model; all the model uses is its range. */
  ghost predicate HashRange(hash: Hash, numberBuckets: int) {
    forall name :: 0 <= hash(name) < numberBuckets
  }

  /** Every bound name lives in the bucket its hash selects. */
  ghost predicate Placed(bs: seq<Bucket>, hash: Hash) {
    forall b, name :: 0 <= b < |bs| && name in bs[b] ==> hash(name) == b
  }

  function Empty(numberBuckets: nat): (bs: seq<Bucket>)
    ensures |bs| == numberBuckets && forall b :: 0 <= b < numberBuckets ==> bs[b] == map[]
  {
    seq(numberBuckets, _ => map[])
  }

  /** insert(bstRoot[b], name, inumber). */
  function Bind(bs: seq<Bucket>, b: int, name: string, inumber: int): seq<Bucket>
    requires 0 <= b < |bs|
  {
    bs[b := bs[b][name := inumber]]
  }

  /** remove_item(bstRoot[b], name); removing a name that is not there changes nothing. */
  function Unbind(bs: seq<Bucket>, b: int, name: string): seq<Bucket>
    requires 0 <= b < |bs|
  {
    bs[b := bs[b] - {name}]
  }

  /** The binding a name has in its home bucket. */
  function Resolve(bs: seq<Bucket>, hash: Hash, name: string): Option<int>
    requires HashRange(hash, |bs|)
  {
    var b := hash(name);
    if name in bs[b] then Some(bs[b][name]) else None
  }

  /** Under Placed, a name is bound in at most one bucket, so it resolves to at most one inumber. */
  lemma PlacedUnique(bs: seq<Bucket>, hash: Hash, name: string, b1: int, b2: int)
    requires Placed(bs, hash)
    requires 0 <= b1 < |bs| && 0 <= b2 < |bs| && name in bs[b1] && name in bs[b2]
    ensures b1 == b2
  {
    assert hash(name) == b1 && hash(name) == b2;
  }

  lemma BindInHome(bs: seq<Bucket>, hash: Hash, name: string, inumber: int)
    requires HashRange(hash, |bs|) && Placed(bs, hash)
    ensures Placed(Bind(bs, hash(name), name, inumber), hash)
    ensures Resolve(Bind(bs, hash(name), name, inumber), hash, name) == Some(inumber)
    ensures forall other :: other != name ==>
      Resolve(Bind(bs, hash(name), name, inumber), hash, other) == Resolve(bs, hash, other)
  {
  }

  lemma UnbindInHome(bs: seq<Bucket>, hash: Hash, name: string)
    requires HashRange(hash, |bs|) && Placed(bs, hash)
    ensures Placed(Unbind(bs, hash(name), name), hash)
    ensures Resolve(Unbind(bs, hash(name), name), hash, name) == None
    ensures forall other :: other != name ==>
      Resolve(Unbind(bs, hash(name), name), hash, other) == Resolve(bs, hash, other)
  {
  }

  /**
   * Moving a binding from the old name's home bucket to the new name's home bucket
   * keeps every name in its home bucket, gives the new name the old name's inumber,
   * unbinds the old name and leaves every other name as it was.
   */
  lemma MoveInHome(bs: seq<Bucket>, hash: Hash, name: string, rename: string)
    requires HashRange(hash, |bs|) && Placed(bs, hash)
    requires name != rename && name in bs[hash(name)]
    ensures var moved := Bind(Unbind(bs, hash(name), name), hash(rename), rename, bs[hash(name)][name]);
      && Placed(moved, hash)
      && Resolve(moved, hash, rename) == Resolve(bs, hash, name)
      && Resolve(moved, hash, name) == None
      && forall other :: other != name && other != rename ==>
           Resolve(moved, hash, other) == Resolve(bs, hash, other)
  {
    UnbindInHome(bs, hash, name);
    BindInHome(Unbind(bs, hash(name), name), hash, rename, bs[hash(name)][name]);
  }
}
