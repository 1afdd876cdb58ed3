/**
 * The inode store the socket server calls (lib/inodes, whose source is not part of
 * this model): a table from inumber to owner, owner and other permissions, and
 * contents. Each call may fail and answer -1; the environment says which calls
 * fail, which inumber a create hands out and what inode_get copies out.
 */
module Inodes {
  import opened Common

  datatype Inode = Inode(owner: int, ownerPerms: int, otherPerms: int, contents: string)

  type Store = map<int, Inode>

  /** Which of the store calls made while serving one request fail. */
  datatype Faults = Faults(createFails: bool, getFails: bool, deleteFails: bool, setFails: bool)

  /** The inumber inode_create hands out when it succeeds, as a function of the table. */
  type Allocator = Store -> int

  /** inode_create hands out a non-negative inumber that is not in use. */
  ghost predicate Allocates(alloc: Allocator) {
    forall st: Store {:trigger alloc(st)} :: alloc(st) >= 0 && alloc(st) !in st
  }

  datatype Created = Created(inumber: int, store: Store)

  /** inode_create: -1 on failure; otherwise a fresh inode with no contents. */
  function Create(store: Store, alloc: Allocator, fails: bool, owner: int, ownerPerms: int, otherPerms: int): (r: Created)
    requires Allocates(alloc)
    ensures r.inumber == -1 <==> fails
    ensures fails ==> r.store == store
    ensures !fails ==> r.inumber !in store && r.store == store[r.inumber := Inode(owner, ownerPerms, otherPerms, [])]
  {
    if fails then Created(-1, store)
    else
      var i := alloc(store);
      Created(i, store[i := Inode(owner, ownerPerms, otherPerms, [])])
  }

  /** inode_get: the inode, or None (-1) when the call fails or the inumber is not in use. */
  function Get(store: Store, inumber: int, fails: bool): Option<Inode> {
    if fails || inumber !in store then None else Some(store[inumber])
  }

  /** inode_delete: the table without the inode, or None (-1). */
  function Delete(store: Store, inumber: int, fails: bool): Option<Store> {
    if fails || inumber !in store then None else Some(store - {inumber})
  }

  /** inode_set: the table with the inode's contents replaced, or None (-1). */
  function Set(store: Store, inumber: int, contents: string, fails: bool): Option<Store> {
    if fails || inumber !in store then None
    else Some(store[inumber := store[inumber].(contents := contents)])
  }

  /** The process-wide inode table, which every session updates in place. */
  class InodeTable {
    var inodes: Store

    constructor ()
      ensures inodes == map[]
    {
      inodes := map[];
    }

    method InodeCreate(alloc: Allocator, fails: bool, owner: int, ownerPerms: int, otherPerms: int) returns (inumber: int)
      requires Allocates(alloc)
      modifies this
      ensures Created(inumber, inodes) == Create(old(inodes), alloc, fails, owner, ownerPerms, otherPerms)
    {
      var r := Create(inodes, alloc, fails, owner, ownerPerms, otherPerms);
      inumber := r.inumber;
      inodes := r.store;
    }

    method InodeGet(inumber: int, fails: bool) returns (found: Option<Inode>)
      ensures found == Get(inodes, inumber, fails)
    {
      found := Get(inodes, inumber, fails);
    }

    method InodeDelete(inumber: int, fails: bool) returns (status: int)
      modifies this
      ensures status == -1 <==> Delete(old(inodes), inumber, fails).None?
      ensures inodes == match Delete(old(inodes), inumber, fails) case None => old(inodes) case Some(st) => st
    {
      var r := Delete(inodes, inumber, fails);
      if r.Some? {
        inodes := r.value;
        status := 0;
      } else {
        status := -1;
      }
    }

    method InodeSet(inumber: int, contents: string, fails: bool) returns (status: int)
      modifies this
      ensures status == -1 <==> Set(old(inodes), inumber, contents, fails).None?
      ensures inodes == match Set(old(inodes), inumber, contents, fails) case None => old(inodes) case Some(st) => st
    {
      var r := Set(inodes, inumber, contents, fails);
      if r.Some? {
        inodes := r.value;
        status := 0;
      } else {
        status := -1;
      }
    }
  }
}
