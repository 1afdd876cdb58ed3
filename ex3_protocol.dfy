/**
 * One session of the socket server (applyCommands in ex3/Server/main.c), as a
 * function from the state before a request to the state after it and the reply.
 * The session owns a table of five open-file slots; the namespace and the inode
 * store are shared by every session and change only through the commands c, d, r
 * (namespace) and c, d, r, w (store).
 */
module Ex3Protocol {
  import opened Common
  import opened CLib
  import opened Namespace
  import opened Inodes
  import opened Locks
  import Ex3Fs

  const FILE_TABLE_SIZE := 5

  /** The size of the request, reply and fileContents buffers. */
  const MAX_INPUT_SIZE := 100

  /** The permission enum of lib/inodes, with the values the server's tests on file_perm imply. */
  const NONE := 0
  const WRITE := 1
  const READ := 2
  const READ_WRITE := 3

  /** One entry of file_table: the mode the file was opened with and its inumber (-1 when free). */
  datatype Slot = Slot(perm: int, inumber: int)

  const FREE := Slot(NONE, -1)

  /**
   * What inode_get writes into: the locals owner, ownerPerms and otherPerms and the
   * text of the buffer fileContents (up to its NUL). All four keep their values
   * from one request to the next.
   */
  datatype Meta = Meta(owner: int, ownerPerms: int, otherPerms: int, fileContents: string)

  /** The buffers token, arg1 and arg2: sscanf overwrites only the ones it reaches. */
  datatype Scanned = Scanned(token: char, arg1: string, arg2: string)

  datatype Session = Session(table: seq<Slot>, meta: Meta, scan: Scanned)

  /** What every session shares: the buckets of the namespace and the inode table. */
  datatype World = World(buckets: seq<Bucket>, inodes: Store)

  /**
   * One request as the session receives it: the bytes recv stored, the uid in
   * ucred while it is handled, which inode calls fail, and how the rename retry
   * loop's trylocks turn out.
   */
  datatype Request = Request(message: string, uid: int, faults: Faults, attempts: seq<Attempt>)

  /**
   * The library behaviour the server relies on without showing it: hash(name,
   * numberBuckets), the inumber inode_create hands out, and the text inode_get
   * leaves in fileContents, given the text the buffer held, the inode's contents
   * and the length passed.
   */
  datatype Env = Env(hash: Hash, alloc: Allocator, copy: (string, string, int) -> string)

  ghost predicate EnvOk(env: Env, w: World) {
    |w.buckets| >= 1 && HashRange(env.hash, |w.buckets|) && Allocates(env.alloc)
  }

  /**
   * What a request leads to: a reply, the end of the session ("f"), the exit of the
   * whole server (an unknown command), or behaviour C leaves undefined.
   */
  datatype Outcome = Reply(text: string) | Unmount | Abort | Undefined

  datatype Stepped = Stepped(session: Session, world: World, outcome: Outcome)

  // ---------------------------------------------------------------- the descriptor table

  function FreeTable(): (t: seq<Slot>)
    ensures |t| == FILE_TABLE_SIZE && forall k :: 0 <= k < |t| ==> t[k] == FREE
  {
    seq(FILE_TABLE_SIZE, _ => FREE)
  }

  /** The first loop of open: some slot already holds the inumber. */
  predicate InTable(t: seq<Slot>, inumber: int) {
    exists k :: 0 <= k < |t| && t[k].inumber == inumber
  }

  /** The second loop of open: the lowest free slot, or -1 when every slot is taken. */
  function FirstFree(t: seq<Slot>): (r: int)
    ensures -1 <= r < |t|
    ensures r == -1 <==> forall k :: 0 <= k < |t| ==> t[k].inumber != -1
    ensures r != -1 ==> t[r].inumber == -1 && forall k :: 0 <= k < r ==> t[k].inumber != -1
  {
    if t == [] then -1
    else if t[0].inumber == -1 then 0
    else
      var r := FirstFree(t[1..]);
      if r == -1 then -1 else r + 1
  }

  /**
   * The invariant of the table: a free slot is (NONE, -1), and no inumber is held
   * by two slots.
   */
  ghost predicate TableOk(t: seq<Slot>) {
    && |t| == FILE_TABLE_SIZE
    && (forall k :: 0 <= k < |t| && t[k].inumber == -1 ==> t[k] == FREE)
    && (forall j, k :: 0 <= j < k < |t| && t[j].inumber != -1 ==> t[j].inumber != t[k].inumber)
  }

  /** The invariant of the shared state: every name in its home bucket, every inumber non-negative. */
  ghost predicate WorldOk(env: Env, w: World) {
    EnvOk(env, w) && Placed(w.buckets, env.hash) && Ex3Fs.NonNegative(w.buckets)
  }

  // ---------------------------------------------------------------- parsing a request

  /** strncmp(client_message, "f", 2) == 0: the message is exactly "f". */
  predicate IsEnd(message: string) {
    CStr(message) == "f"
  }

  /** sscanf(client_message, "%c %s %s", &token, arg1, arg2) on the buffers as they were. */
  function Rescan(prev: Scanned, message: string): (r: Scanned)
    ensures CStr(message) == [] ==> r == prev
    ensures CStr(message) != [] ==> r.token == CStr(message)[0]
  {
    var sc := ScanLine(message, 2);
    if sc.count == -1 then prev
    else Scanned(sc.token,
                 if |sc.args| >= 1 then sc.args[0] else prev.arg1,
                 if |sc.args| >= 2 then sc.args[1] else prev.arg2)
  }

  /** s[i] of a NUL-terminated buffer: the NUL past the end of the text. */
  function CharAt(s: string, i: nat): char {
    if i < |s| then s[i] else '\0'
  }

  // ---------------------------------------------------------------- open's permission test

  /** open's rejection test as written: a mode above the permission, or WRITE against READ. */
  predicate Denied(mode: int, perm: int) {
    mode > perm || (mode == WRITE && perm == READ)
  }

  /** Every bit of mode (WRITE = 1, READ = 2) is also set in perm. */
  predicate BitsWithin(mode: int, perm: int)
    requires 0 <= mode <= 3 && 0 <= perm <= 3
  {
    (mode % 2 == 1 ==> perm % 2 == 1) && (mode / 2 == 1 ==> perm / 2 == 1)
  }

  /** The permission the test uses: the owner's when the caller owns the file, the others' otherwise. */
  function Effective(owner: int, ownerPerms: int, otherPerms: int, uid: int): int {
    if owner == uid then ownerPerms else otherPerms
  }

  /**
   * The locals after a successful inode_get of inode n with length len: its owner
   * and permissions, and the text the copy leaves in fileContents.
   */
  function Fetched(env: Env, m: Meta, n: Inode, len: int): Meta {
    Meta(n.owner, n.ownerPerms, n.otherPerms, env.copy(m.fileContents, n.contents, len))
  }

  // ---------------------------------------------------------------- the commands

  /** c name perms: refuse a bound name, create an inode with the raw characters of perms, bind it. */
  function CreateCmd(env: Env, s: Session, w: World, uid: int, f: Faults, b: int): (r: Stepped)
    requires EnvOk(env, w) && 0 <= b < |w.buckets|
    ensures |r.world.buckets| == |w.buckets| && |r.session.table| == |s.table|
    ensures r.outcome.Reply? && r.session == s
  {
    var name := s.scan.arg1;
    if Ex3Fs.Find(w.buckets, b, name) != -1 then Stepped(s, w, Reply("-4"))
    else
      var c := Inodes.Create(w.inodes, env.alloc, f.createFails, uid,
                             CharAt(s.scan.arg2, 0) as int, CharAt(s.scan.arg2, 1) as int);
      if c.inumber == -1 then Stepped(s, w, Reply("-11"))
      else Stepped(s, World(Bind(w.buckets, b, name, c.inumber), c.store), Reply("0"))
  }

  /** d name: absent, unreadable inode, caller not the owner, failed delete, or unbind. */
  function DeleteCmd(env: Env, s: Session, w: World, uid: int, f: Faults, b: int): (r: Stepped)
    requires 0 <= b < |w.buckets|
    ensures |r.world.buckets| == |w.buckets| && |r.session.table| == |s.table|
    ensures r.outcome.Reply? && r.session.table == s.table && r.session.scan == s.scan
  {
    var name := s.scan.arg1;
    var i := Ex3Fs.Find(w.buckets, b, name);
    if i == -1 then Stepped(s, w, Reply("-5"))
    else match Get(w.inodes, i, f.getFails)
      case None => Stepped(s, w, Reply("-11"))
      case Some(n) =>
        var s1 := s.(meta := Fetched(env, s.meta, n, |s.meta.fileContents|));
        if n.owner != uid then Stepped(s1, w, Reply("-6"))
        else match Delete(w.inodes, i, f.deleteFails)
          case None => Stepped(s1, w, Reply("-11"))
          case Some(st) => Stepped(s1, World(Unbind(w.buckets, b, name), st), Reply("0"))
  }

  /**
   * r old new: renameNode first; only then the owner test (on whatever inode_get
   * left in owner), the delete of the inode and the create of a new one whose
   * inumber is dropped.
   */
  function RenameCmd(env: Env, s: Session, w: World, uid: int, f: Faults, b: int): (r: Stepped)
    requires EnvOk(env, w) && 0 <= b < |w.buckets|
    ensures |r.world.buckets| == |w.buckets| && |r.session.table| == |s.table|
    ensures r.outcome.Reply? && r.session.table == s.table && r.session.scan == s.scan
  {
    var i := Ex3Fs.Find(w.buckets, b, s.scan.arg1);
    var moved := Ex3Fs.Renamed(w.buckets, env.hash, b, s.scan.arg1, s.scan.arg2);
    if moved.code != 0 then Stepped(s, w, Reply(Bounded(Itoa(moved.code), 3)))
    else RenameInode(env, s, w.(buckets := moved.buckets), i, uid, f)
  }

  /**
   * The inode half of r, once the name has moved: the unchecked get, the owner
   * test, the delete, and the create whose inumber is dropped.
   */
  function RenameInode(env: Env, s: Session, w: World, i: int, uid: int, f: Faults): (r: Stepped)
    requires Allocates(env.alloc)
    ensures r.world.buckets == w.buckets && r.session.table == s.table && r.session.scan == s.scan
    ensures r.outcome.Reply?
  {
    var m := match Get(w.inodes, i, f.getFails)
             case None => s.meta
             case Some(n) => Fetched(env, s.meta, n, |s.meta.fileContents|);
    var s1 := s.(meta := m);
    if m.owner != uid then Stepped(s1, w, Reply("-6"))
    else match Delete(w.inodes, i, f.deleteFails)
      case None => Stepped(s1, w, Reply("-11"))
      case Some(st) =>
        var c := Inodes.Create(st, env.alloc, f.createFails, uid, m.ownerPerms, m.otherPerms);
        if c.inumber == -1 then Stepped(s1, w.(inodes := st), Reply("-11"))
        else Stepped(s1, w.(inodes := c.store), Reply("0"))
  }

  /** o name mode: absent, unreadable, already open, table full, not permitted, or the slot's index. */
  function OpenCmd(env: Env, s: Session, w: World, uid: int, f: Faults, b: int): (r: Stepped)
    requires 0 <= b < |w.buckets|
    ensures |r.world.buckets| == |w.buckets| && |r.session.table| == |s.table|
    ensures r.outcome.Reply? && r.world == w && r.session.scan == s.scan
  {
    var i := Ex3Fs.Find(w.buckets, b, s.scan.arg1);
    if i == -1 then Stepped(s, w, Reply("-5"))
    else match Get(w.inodes, i, f.getFails)
      case None => Stepped(s, w, Reply("-11"))
      case Some(n) =>
        var s1 := s.(meta := Fetched(env, s.meta, n, |s.meta.fileContents|));
        if InTable(s.table, i) then Stepped(s1, w, Reply("-9"))
        else
          var k := FirstFree(s.table);
          if k == -1 then Stepped(s1, w, Reply("-7"))
          else
            var mode := Atoi(s.scan.arg2);
            if Denied(mode, Effective(n.owner, n.ownerPerms, n.otherPerms, uid)) then Stepped(s1, w, Reply("-6"))
            else Stepped(s1.(table := s.table[k := Slot(mode, i)]), w, Reply(Bounded(Itoa(k), 2)))
  }

  /** x fd: a free slot, the dead range test, or the slot freed. */
  function CloseCmd(s: Session, w: World): (r: Stepped)
    requires |s.table| == FILE_TABLE_SIZE
    ensures |r.world.buckets| == |w.buckets| && |r.session.table| == |s.table|
    ensures (r.outcome.Reply? || r.outcome == Undefined) && r.world == w && r.session.scan == s.scan
  {
    var fd := Atoi(s.scan.arg1);
    if fd < 0 || fd >= FILE_TABLE_SIZE then Stepped(s, w, Undefined)
    else if s.table[fd].inumber == -1 then Stepped(s, w, Reply("-8"))
    else if fd > 4 then Stepped(s, w, Reply("-11"))
    else Stepped(s.(table := s.table[fd := FREE]), w, Reply("0"))
  }

  /**
   * l fd len: a free slot, a slot not opened for reading, a failed read, or the
   * text of fileContents after inode_get, whatever of it earlier requests left.
   * responseClient copies at most MAX_INPUT_SIZE characters and then takes strlen
   * of the copy, so a text that long has no NUL there: undefined.
   */
  function ReadCmd(env: Env, s: Session, w: World, f: Faults): (r: Stepped)
    requires |s.table| == FILE_TABLE_SIZE
    ensures |r.world.buckets| == |w.buckets| && |r.session.table| == |s.table|
    ensures (r.outcome.Reply? || r.outcome == Undefined) && r.world == w && r.session.table == s.table && r.session.scan == s.scan
  {
    var fd := Atoi(s.scan.arg1);
    if fd < 0 || fd >= FILE_TABLE_SIZE then Stepped(s, w, Undefined)
    else
      var slot := s.table[fd];
      if slot.inumber == -1 then Stepped(s, w, Reply("-8"))
      else if slot.perm < 2 then Stepped(s, w, Reply("-10"))
      else match Get(w.inodes, slot.inumber, f.getFails)
        case None => Stepped(s, w, Reply("-11"))
        case Some(n) =>
          var m := Fetched(env, s.meta, n, Atoi(s.scan.arg2));
          Stepped(s.(meta := m), w,
                  if |m.fileContents| < MAX_INPUT_SIZE then Reply(m.fileContents) else Undefined)
  }

  /** w fd text: everything after the first four characters becomes the contents. */
  function WriteCmd(s: Session, w: World, f: Faults, message: string): (r: Stepped)
    requires |s.table| == FILE_TABLE_SIZE
    ensures |r.world.buckets| == |w.buckets| && |r.session.table| == |s.table|
    ensures (r.outcome.Reply? || r.outcome == Undefined) && r.session == s && r.world.buckets == w.buckets
  {
    var line := CStr(message);
    var fd := Atoi(s.scan.arg1);
    if |line| <= 4 || fd < 0 || fd >= FILE_TABLE_SIZE then Stepped(s, w, Undefined)
    else
      var slot := s.table[fd];
      if slot.inumber == -1 then Stepped(s, w, Reply("-8"))
      else if slot.perm != WRITE && slot.perm != READ_WRITE then Stepped(s, w, Reply("-6"))
      else match Set(w.inodes, slot.inumber, line[4..], f.setFails)
        case None => Stepped(s, w, Reply("-11"))
        case Some(st) => Stepped(s, w.(inodes := st), Reply("0"))
  }

  /** The switch on token, after sscanf and hash(arg1, numberBuckets). */
  function Dispatch(env: Env, s: Session, w: World, req: Request): (r: Stepped)
    requires EnvOk(env, w) && |s.table| == FILE_TABLE_SIZE
    ensures |r.world.buckets| == |w.buckets| && |r.session.table| == |s.table|
    ensures r.outcome != Unmount && r.session.scan == s.scan
    ensures r.outcome == Abort <==> s.scan.token !in "cdroxlw"
    ensures s.scan.token !in "cdr" ==> r.world.buckets == w.buckets
    ensures s.scan.token !in "cdrw" ==> r.world.inodes == w.inodes
  {
    var b := env.hash(s.scan.arg1);
    match s.scan.token
    case 'c' => CreateCmd(env, s, w, req.uid, req.faults, b)
    case 'd' => DeleteCmd(env, s, w, req.uid, req.faults, b)
    case 'r' => RenameCmd(env, s, w, req.uid, req.faults, b)
    case 'o' => OpenCmd(env, s, w, req.uid, req.faults, b)
    case 'x' => CloseCmd(s, w)
    case 'l' => ReadCmd(env, s, w, req.faults)
    case 'w' => WriteCmd(s, w, req.faults, req.message)
    case _ => Stepped(s, w, Abort)
  }

  /** One turn of the session loop; "f" ends it and frees every slot. */
  function Step(env: Env, s: Session, w: World, req: Request): (r: Stepped)
    requires EnvOk(env, w) && |s.table| == FILE_TABLE_SIZE
    ensures |r.world.buckets| == |w.buckets| && |r.session.table| == FILE_TABLE_SIZE
  {
    if IsEnd(req.message) then Stepped(s.(table := FreeTable()), w, Unmount)
    else
      Dispatch(env, s.(scan := Rescan(s.scan, req.message)), w, req)
  }

  // ---------------------------------------------------------------- what each command does

  /**
   * For modes and permissions in 0..3, open's test rejects exactly the modes that
   * ask for a bit (WRITE = 1, READ = 2) the permission lacks.
   */
  lemma DeniedIsBitRule(mode: int, perm: int)
    requires 0 <= mode <= 3 && 0 <= perm <= 3
    ensures Denied(mode, perm) <==> !BitsWithin(mode, perm)
  {
    if mode == 3 || perm == 3 {
    } else if mode == 1 && perm == 2 {
    }
  }

  /**
   * c: a name bound in its bucket gets "-4"; a failed inode_create gets "-11"; both
   * change nothing. Otherwise the name is bound to a new inode owned by the caller,
   * with the two characters of perms as its permissions, and the reply is "0".
   */
  lemma CreateReplies(env: Env, s: Session, w: World, uid: int, f: Faults, b: int)
    requires EnvOk(env, w) && 0 <= b < |w.buckets| && Ex3Fs.NonNegative(w.buckets)
    ensures var r := CreateCmd(env, s, w, uid, f, b); var name := s.scan.arg1;
      && r.session == s
      && (r.outcome == Reply("-4") <==> name in w.buckets[b])
      && (r.outcome == Reply("-11") <==> name !in w.buckets[b] && f.createFails)
      && (r.outcome == Reply("0") <==> name !in w.buckets[b] && !f.createFails)
      && (r.outcome != Reply("0") ==> r.world == w)
      && (r.outcome == Reply("0") ==>
            var i := env.alloc(w.inodes);
            && i >= 0 && i !in w.inodes
            && r.world.buckets == Bind(w.buckets, b, name, i)
            && r.world.inodes == w.inodes[i := Inode(uid, CharAt(s.scan.arg2, 0) as int, CharAt(s.scan.arg2, 1) as int, [])])
  {
    Ex3Fs.FindAbsent(w.buckets, b, s.scan.arg1);
  }

  /**
   * d: an absent name gets "-5"; an inode that cannot be read gets "-11"; a caller
   * who is not the owner gets "-6"; a failed inode_delete gets "-11"; none of these
   * changes the namespace or the store. Otherwise the inode is deleted, the name
   * unbound and the reply is "0".
   */
  lemma DeleteReplies(env: Env, s: Session, w: World, uid: int, f: Faults, b: int)
    requires 0 <= b < |w.buckets| && Ex3Fs.NonNegative(w.buckets)
    ensures var r := DeleteCmd(env, s, w, uid, f, b); var name := s.scan.arg1;
      && r.session.table == s.table
      && r.session.meta == (if name in w.buckets[b] && !f.getFails && w.buckets[b][name] in w.inodes
                            then Fetched(env, s.meta, w.inodes[w.buckets[b][name]], |s.meta.fileContents|)
                            else s.meta)
      && (r.outcome == Reply("-5") <==> name !in w.buckets[b])
      && (name in w.buckets[b] ==>
            var i := w.buckets[b][name];
            && (r.outcome == Reply("-11") <==>
                  f.getFails || i !in w.inodes || (w.inodes[i].owner == uid && f.deleteFails))
            && (r.outcome == Reply("-6") <==> !f.getFails && i in w.inodes && w.inodes[i].owner != uid)
            && (r.outcome == Reply("0") <==>
                  !f.getFails && !f.deleteFails && i in w.inodes && w.inodes[i].owner == uid)
            && (r.outcome == Reply("0") ==>
                  r.world == World(Unbind(w.buckets, b, name), w.inodes - {i})))
      && (r.outcome != Reply("0") ==> r.world == w)
  {
    Ex3Fs.FindAbsent(w.buckets, b, s.scan.arg1);
  }

  /**
   * What the inode half of r does, for an inode table `inodes` and the metadata
   * `meta0` an earlier command left: inode_get refreshes the metadata only when it
   * succeeds; "-6" when that owner is not the caller, with the table unchanged;
   * "-11" when the delete fails (table unchanged) or the create fails (the inode
   * already deleted); "0" once the inode is deleted and a new one created with the
   * same permissions.
   */
  ghost predicate RenameInodeDone(env: Env, meta0: Meta, inodes: Store, i: int, uid: int, f: Faults, r: Stepped)
    requires Allocates(env.alloc)
  {
    var m := r.session.meta;
    && (!f.getFails && i in inodes ==> m == Fetched(env, meta0, inodes[i], |meta0.fileContents|))
    && (f.getFails || i !in inodes ==> m == meta0)
    && (r.outcome == Reply("-6") <==> m.owner != uid)
    && (r.outcome == Reply("-6") ==> r.world.inodes == inodes)
    && (r.outcome == Reply("-11") <==> m.owner == uid && (f.deleteFails || i !in inodes || f.createFails))
    && (r.outcome == Reply("-11") ==>
          r.world.inodes == if f.deleteFails || i !in inodes then inodes else inodes - {i})
    && (r.outcome == Reply("0") ==>
          && i in inodes && !f.deleteFails && !f.createFails
          && r.world.inodes == Inodes.Create(inodes - {i}, env.alloc, false, uid, m.ownerPerms, m.otherPerms).store)
  }

  lemma RenameInodeReplies(env: Env, s: Session, w: World, i: int, uid: int, f: Faults)
    requires Allocates(env.alloc)
    ensures RenameInodeDone(env, s.meta, w.inodes, i, uid, f, RenameInode(env, s, w, i, uid, f))
  {
  }

  /**
   * r: renameNode's -4 (old name absent) and -5 (new name bound) are relayed with
   * nothing changed. Once renameNode has moved the entry, the owner test comes too
   * late: a caller who is not the owner gets "-6" while the new name stays bound to
   * the old inumber and the old name stays unbound. For the owner the old inode is
   * deleted and a new one created with the same permissions; the reply is "0". The
   * new inumber is dropped. It may be the freed one itself, and the new name then
   * names the new, empty inode.
   */
  lemma RenameReplies(env: Env, s: Session, w: World, uid: int, f: Faults)
    requires EnvOk(env, w) && Ex3Fs.NonNegative(w.buckets)
    ensures var name := s.scan.arg1; var rename := s.scan.arg2;
      var b := env.hash(name); var nb := env.hash(rename);
      var r := RenameCmd(env, s, w, uid, f, b);
      && r.session.table == s.table
      && (r.outcome == Reply("-4") <==> name !in w.buckets[b])
      && (r.outcome == Reply("-5") <==> name in w.buckets[b] && rename in w.buckets[nb])
      && (name !in w.buckets[b] || rename in w.buckets[nb] ==> r.world == w)
      && (name in w.buckets[b] && rename !in w.buckets[nb] ==>
            var i := w.buckets[b][name];
            && r.outcome in {Reply("-6"), Reply("-11"), Reply("0")}
            && rename in r.world.buckets[nb] && r.world.buckets[nb][rename] == i
            && name !in r.world.buckets[b]
            && (forall k :: 0 <= k < |w.buckets| && k != b && k != nb ==> r.world.buckets[k] == w.buckets[k])
            && RenameInodeDone(env, s.meta, w.inodes, i, uid, f, r))
  {
    var name := s.scan.arg1;
    var rename := s.scan.arg2;
    var b := env.hash(name);
    Ex3Fs.RenameOutcomes(w.buckets, env.hash, b, name, rename);
    if name in w.buckets[b] && rename !in w.buckets[env.hash(rename)] {
      var i := w.buckets[b][name];
      RenameInodeReplies(env, s, w.(buckets := Ex3Fs.Renamed(w.buckets, env.hash, b, name, rename).buckets), i, uid, f);
    }
    Ex3Fs.FindAbsent(w.buckets, b, name);
    var moved := Ex3Fs.Renamed(w.buckets, env.hash, b, name, rename);
    if moved.code == -4 {
      assert Bounded(Itoa(-4), 3) == "-4";
    } else if moved.code == -5 {
      assert Bounded(Itoa(-5), 3) == "-5";
    }
  }

  /**
   * o: the checks run in the order absent name "-5", unreadable inode "-11", inumber
   * already open "-9", no free slot "-7", mode not permitted "-6". Past them the
   * lowest free slot takes the mode and the inumber and its index is the reply.
   * Open never changes the namespace or the store.
   */
  lemma OpenReplies(env: Env, s: Session, w: World, uid: int, f: Faults, b: int)
    requires 0 <= b < |w.buckets| && Ex3Fs.NonNegative(w.buckets) && |s.table| == FILE_TABLE_SIZE
    ensures var r := OpenCmd(env, s, w, uid, f, b); var name := s.scan.arg1;
      && r.world == w
      && r.session.meta == (if name in w.buckets[b] && !f.getFails && w.buckets[b][name] in w.inodes
                            then Fetched(env, s.meta, w.inodes[w.buckets[b][name]], |s.meta.fileContents|)
                            else s.meta)
      && (r.outcome == Reply("-5") <==> name !in w.buckets[b])
      && (name in w.buckets[b] ==>
            var i := w.buckets[b][name];
            && (r.outcome == Reply("-11") <==> f.getFails || i !in w.inodes)
            && (!f.getFails && i in w.inodes ==>
                  var n := w.inodes[i];
                  var mode := Atoi(s.scan.arg2);
                  && (r.outcome == Reply("-9") <==> InTable(s.table, i))
                  && (r.outcome == Reply("-7") <==>
                        !InTable(s.table, i) && forall k :: 0 <= k < |s.table| ==> s.table[k].inumber != -1)
                  && (r.outcome == Reply("-6") <==>
                        !InTable(s.table, i) && FirstFree(s.table) != -1
                        && Denied(mode, Effective(n.owner, n.ownerPerms, n.otherPerms, uid)))
                  && (!InTable(s.table, i) && FirstFree(s.table) != -1
                      && !Denied(mode, Effective(n.owner, n.ownerPerms, n.otherPerms, uid)) ==>
                        var k := FirstFree(s.table);
                        && r.outcome == Reply([DigitChar(k)])
                        && r.session.table == s.table[k := Slot(mode, i)])))
      && (r.session.table != s.table ==> r.outcome.Reply? && |r.outcome.text| == 1)
  {
    Ex3Fs.FindAbsent(w.buckets, b, s.scan.arg1);
    var k := FirstFree(s.table);
    if k != -1 {
      ItoaSmall(k);
    }
  }

  /**
   * x: a descriptor outside 0..4 is undefined behaviour (the slot is read before the
   * range test, which can therefore never answer "-11"); a free slot gets "-8";
   * otherwise exactly that slot becomes free and the reply is "0".
   */
  lemma CloseReplies(s: Session, w: World)
    requires |s.table| == FILE_TABLE_SIZE
    ensures var r := CloseCmd(s, w); var fd := Atoi(s.scan.arg1);
      && r.world == w && r.session.meta == s.meta
      && r.outcome != Reply("-11")
      && (r.outcome == Undefined <==> fd < 0 || fd >= FILE_TABLE_SIZE)
      && (0 <= fd < FILE_TABLE_SIZE ==>
            && (r.outcome == Reply("-8") <==> s.table[fd].inumber == -1)
            && (r.outcome == Reply("0") <==> s.table[fd].inumber != -1)
            && (r.outcome == Reply("0") ==>
                  && r.session.table[fd] == FREE
                  && forall k :: 0 <= k < FILE_TABLE_SIZE && k != fd ==> r.session.table[k] == s.table[k]))
      && (r.outcome != Reply("0") ==> r.session == s)
  {
  }

  /**
   * l: undefined outside 0..4; a free slot gets "-8"; a slot opened with a mode
   * below READ gets "-10"; an inode that cannot be read gets "-11". Otherwise
   * inode_get copies into fileContents over what earlier requests left there, and
   * the reply is that buffer's text (which the client cannot tell from an error
   * code when it starts with one), or undefined when the text does not fit the
   * MAX_INPUT_SIZE characters responseClient copies. Nothing shared changes.
   */
  lemma ReadReplies(env: Env, s: Session, w: World, f: Faults)
    requires |s.table| == FILE_TABLE_SIZE
    ensures var r := ReadCmd(env, s, w, f); var fd := Atoi(s.scan.arg1);
      && r.world == w && r.session.table == s.table
      && (fd < 0 || fd >= FILE_TABLE_SIZE ==> r.outcome == Undefined)
      && (r.outcome.Reply? ==> |r.outcome.text| < MAX_INPUT_SIZE)
      && (0 <= fd < FILE_TABLE_SIZE ==>
            var slot := s.table[fd];
            var read := slot.inumber != -1 && slot.perm >= READ && !f.getFails && slot.inumber in w.inodes;
            var m := if read then Fetched(env, s.meta, w.inodes[slot.inumber], Atoi(s.scan.arg2)) else s.meta;
            && r.session.meta == m
            && r.outcome == if slot.inumber == -1 then Reply("-8")
                            else if slot.perm < READ then Reply("-10")
                            else if !read then Reply("-11")
                            else if |m.fileContents| < MAX_INPUT_SIZE then Reply(m.fileContents)
                            else Undefined)
  {
  }

  /**
   * The reply to l depends on fileContents as earlier requests left it: when
   * inode_get copies nothing over a buffer, the same read of the same inode in two
   * sessions replies with the two buffers' texts.
   */
  lemma ReadRepliesWithEarlierBuffer(env: Env, s: Session, w: World, f: Faults)
    requires |s.table| == FILE_TABLE_SIZE
    requires forall text, c, n :: env.copy(text, c, n) == text
    ensures var fd := Atoi(s.scan.arg1);
      0 <= fd < FILE_TABLE_SIZE && s.table[fd].inumber != -1 && s.table[fd].perm >= READ
      && !f.getFails && s.table[fd].inumber in w.inodes && |s.meta.fileContents| < MAX_INPUT_SIZE
      ==> ReadCmd(env, s, w, f).outcome == Reply(s.meta.fileContents)
  {
  }

  /**
   * w: undefined for a request of four characters or fewer and outside 0..4; a free
   * slot gets "-8"; a slot opened without WRITE or READ_WRITE gets "-6"; a failed
   * inode_set gets "-11"; otherwise the contents become the request after its first
   * four characters and the reply is "0". Only the store can change.
   */
  lemma WriteReplies(s: Session, w: World, f: Faults, message: string)
    requires |s.table| == FILE_TABLE_SIZE
    ensures var r := WriteCmd(s, w, f, message); var fd := Atoi(s.scan.arg1); var line := CStr(message);
      && r.session == s && r.world.buckets == w.buckets
      && (r.outcome == Undefined <==> |line| <= 4 || fd < 0 || fd >= FILE_TABLE_SIZE)
      && (|line| > 4 && 0 <= fd < FILE_TABLE_SIZE ==>
            var slot := s.table[fd];
            && (r.outcome == Reply("-8") <==> slot.inumber == -1)
            && (slot.inumber != -1 ==>
                  && (r.outcome == Reply("-6") <==> slot.perm != WRITE && slot.perm != READ_WRITE)
                  && (slot.perm == WRITE || slot.perm == READ_WRITE ==>
                        && (r.outcome == Reply("-11") <==> f.setFails || slot.inumber !in w.inodes)
                        && (r.outcome == Reply("0") ==>
                              r.world.inodes == w.inodes[slot.inumber := w.inodes[slot.inumber].(contents := line[4..])]))))
      && (r.outcome != Reply("0") ==> r.world == w)
  {
  }

  // ---------------------------------------------------------------- one request, and a whole session

  /**
   * Only the exact message "f" ends the session; it frees every slot and leaves the
   * namespace and the store as they were.
   */
  lemma EndOfSession(env: Env, s: Session, w: World, req: Request)
    requires EnvOk(env, w) && |s.table| == FILE_TABLE_SIZE
    ensures var r := Step(env, s, w, req);
      && (r.outcome == Unmount <==> IsEnd(req.message))
      && (IsEnd(req.message) ==>
            r.world == w && forall k :: 0 <= k < FILE_TABLE_SIZE ==> r.session.table[k] == FREE)
  {
  }

  /**
   * A request whose first character is none of c d r o x l w makes the whole server
   * exit; only commands c, d and r touch the namespace, and only c, d, r and w the
   * store.
   */
  lemma WhatChangesWhat(env: Env, s: Session, w: World, req: Request)
    requires EnvOk(env, w) && |s.table| == FILE_TABLE_SIZE && !IsEnd(req.message)
    ensures var r := Step(env, s, w, req); var token := Rescan(s.scan, req.message).token;
      && (r.outcome == Abort <==> token !in "cdroxlw")
      && (token !in "cdr" ==> r.world.buckets == w.buckets)
      && (token !in "cdrw" ==> r.world.inodes == w.inodes)
  {
  }

  /** A create binds the new name in its home bucket, to a non-negative inumber. */
  lemma CreateKeeps(env: Env, s: Session, w: World, uid: int, f: Faults)
    requires WorldOk(env, w)
    ensures WorldOk(env, CreateCmd(env, s, w, uid, f, env.hash(s.scan.arg1)).world)
  {
    var name := s.scan.arg1;
    CreateReplies(env, s, w, uid, f, env.hash(name));
    BindInHome(w.buckets, env.hash, name, env.alloc(w.inodes));
  }

  lemma DeleteKeeps(env: Env, s: Session, w: World, uid: int, f: Faults)
    requires WorldOk(env, w)
    ensures WorldOk(env, DeleteCmd(env, s, w, uid, f, env.hash(s.scan.arg1)).world)
  {
    var name := s.scan.arg1;
    DeleteReplies(env, s, w, uid, f, env.hash(name));
    UnbindInHome(w.buckets, env.hash, name);
  }

  lemma RenameKeeps(env: Env, s: Session, w: World, uid: int, f: Faults)
    requires WorldOk(env, w)
    ensures WorldOk(env, RenameCmd(env, s, w, uid, f, env.hash(s.scan.arg1)).world)
  {
    var name := s.scan.arg1;
    Ex3Fs.RenameKeepsPlacement(w.buckets, env.hash, name, s.scan.arg2);
    Ex3Fs.RenameOutcomes(w.buckets, env.hash, env.hash(name), name, s.scan.arg2);
  }

  /** An open fills a free slot with an inumber no other slot holds. */
  lemma OpenKeeps(env: Env, s: Session, w: World, uid: int, f: Faults)
    requires WorldOk(env, w) && TableOk(s.table)
    ensures TableOk(OpenCmd(env, s, w, uid, f, env.hash(s.scan.arg1)).session.table)
  {
    var name := s.scan.arg1;
    var b := env.hash(name);
    OpenReplies(env, s, w, uid, f, b);
    var r := OpenCmd(env, s, w, uid, f, b);
    if r.session.table != s.table {
      Ex3Fs.FindAbsent(w.buckets, b, name);
      var i := w.buckets[b][name];
      assert !InTable(s.table, i) && i >= 0;
      forall j | 0 <= j < FILE_TABLE_SIZE && s.table[j].inumber != -1
        ensures s.table[j].inumber != i
      {
      }
    }
  }

  /** The invariants of the table and of the shared state hold after every command. */
  lemma DispatchKeeps(env: Env, s: Session, w: World, req: Request)
    requires WorldOk(env, w) && TableOk(s.table)
    ensures var r := Dispatch(env, s, w, req);
      WorldOk(env, r.world) && TableOk(r.session.table)
  {
    if s.scan.token in "cdr" {
      NamingKeeps(env, s, w, req);
    } else {
      SlotCommandKeeps(env, s, w, req);
    }
  }

  /** ... after create, delete and rename, the commands that change the names. */
  lemma NamingKeeps(env: Env, s: Session, w: World, req: Request)
    requires WorldOk(env, w) && TableOk(s.table) && s.scan.token in "cdr"
    ensures var r := Dispatch(env, s, w, req);
      WorldOk(env, r.world) && TableOk(r.session.table)
  {
    match s.scan.token {
      case 'c' => CreateKeeps(env, s, w, req.uid, req.faults);
      case 'd' => DeleteKeeps(env, s, w, req.uid, req.faults);
      case 'r' => RenameKeeps(env, s, w, req.uid, req.faults);
    }
  }

  /** ... and after the others, which leave the names as they are. */
  lemma SlotCommandKeeps(env: Env, s: Session, w: World, req: Request)
    requires WorldOk(env, w) && TableOk(s.table) && s.scan.token !in "cdr"
    ensures var r := Dispatch(env, s, w, req);
      WorldOk(env, r.world) && TableOk(r.session.table)
  {
    match s.scan.token {
      case 'o' => OpenKeeps(env, s, w, req.uid, req.faults);
      case 'x' => CloseKeeps(s, w);
      case _ =>
    }
  }

  /** Freeing a slot keeps the table's invariant. */
  lemma CloseKeeps(s: Session, w: World)
    requires TableOk(s.table)
    ensures TableOk(CloseCmd(s, w).session.table)
  {
    var fd := Atoi(s.scan.arg1);
    if 0 <= fd < FILE_TABLE_SIZE && s.table[fd].inumber != -1 {
      FreeSlotKeeps(s.table, fd);
    }
  }

  /** ... whichever slot it is. */
  lemma FreeSlotKeeps(t: seq<Slot>, fd: int)
    requires TableOk(t) && 0 <= fd < |t|
    ensures TableOk(t[fd := FREE])
  {
    var u := t[fd := FREE];
    forall j, k | 0 <= j < k < |u| && u[j].inumber != -1
      ensures u[j].inumber != u[k].inumber
    {
      assert u[j] == t[j];
    }
  }

  /** ... and after every request, "f" included. */
  lemma StepKeeps(env: Env, s: Session, w: World, req: Request)
    requires WorldOk(env, w) && TableOk(s.table)
    ensures var r := Step(env, s, w, req);
      WorldOk(env, r.world) && TableOk(r.session.table)
  {
    if !IsEnd(req.message) {
      DispatchKeeps(env, s.(scan := Rescan(s.scan, req.message)), w, req);
    }
  }

  /** What a session has done after a run of requests. */
  datatype Served = Served(session: Session, world: World, replies: seq<string>, ended: Option<Outcome>)

  /**
   * The loop of applyCommands over the requests that arrive: every reply is sent
   * and the loop goes on; "f", an unknown command or undefined behaviour ends it.
   * When the requests run out first, the session is still open.
   */
  function Serve(env: Env, s: Session, w: World, reqs: seq<Request>): Served
    requires EnvOk(env, w) && |s.table| == FILE_TABLE_SIZE
    decreases |reqs|
  {
    if reqs == [] then Served(s, w, [], None)
    else
      var r := Step(env, s, w, reqs[0]);
      if r.outcome.Reply? then
        var rest := Serve(env, r.session, r.world, reqs[1..]);
        rest.(replies := [r.outcome.text] + rest.replies)
      else Served(r.session, r.world, [], Some(r.outcome))
  }

  /** The first turn of a session loop, when the request is not "f". */
  lemma ServeTurn(env: Env, s: Session, w: World, reqs: seq<Request>, r: Stepped)
    requires EnvOk(env, w) && |s.table| == FILE_TABLE_SIZE && reqs != [] && !IsEnd(reqs[0].message)
    requires r == Dispatch(env, s.(scan := Rescan(s.scan, reqs[0].message)), w, reqs[0])
    ensures Serve(env, s, w, reqs)
      == if r.outcome.Reply? then
           var rest := Serve(env, r.session, r.world, reqs[1..]);
           rest.(replies := [r.outcome.text] + rest.replies)
         else Served(r.session, r.world, [], Some(r.outcome))
  {
  }

  /** ... and when it is "f". */
  lemma ServeEnd(env: Env, s: Session, w: World, reqs: seq<Request>)
    requires EnvOk(env, w) && |s.table| == FILE_TABLE_SIZE && reqs != [] && IsEnd(reqs[0].message)
    ensures Serve(env, s, w, reqs) == Served(s.(table := FreeTable()), w, [], Some(Unmount))
  {
  }

  /**
   * Over a whole session the invariants hold, there is one reply per request handled
   * before the end, and a session that ends with "f" leaves every slot free.
   */
  lemma {:induction false} ServeKeeps(env: Env, s: Session, w: World, reqs: seq<Request>)
    requires WorldOk(env, w) && TableOk(s.table)
    decreases |reqs|
    ensures var r := Serve(env, s, w, reqs);
      && WorldOk(env, r.world) && TableOk(r.session.table)
      && |r.replies| <= |reqs|
      && (r.ended.None? ==> |r.replies| == |reqs|)
      && (r.ended == Some(Unmount) ==>
            forall k :: 0 <= k < FILE_TABLE_SIZE ==> r.session.table[k] == FREE)
  {
    if reqs != [] {
      var r := Step(env, s, w, reqs[0]);
      StepKeeps(env, s, w, reqs[0]);
      EndOfSession(env, s, w, reqs[0]);
      if r.outcome.Reply? {
        ServeKeeps(env, r.session, r.world, reqs[1..]);
      }
    }
  }
}
