/**
 * The thread that serves one client connection (applyCommands in
 * ex3/Server/main.c), on the shared file system object and inode table: its locals
 * are fields, its file_table an array it updates in place, and each command a
 * method proved to do what the matching function of Ex3Protocol describes.
 */
module Ex3Server {
  import opened Common
  import opened CLib
  import opened Namespace
  import opened Inodes
  import opened Locks
  import opened Ex3Protocol
  import Ex3Fs

  class Connection {
    /** file_table[FILE_TABLE_SIZE]. */
    const fileTable: array<Slot>
    var owner: int
    var ownerPerms: int
    var otherPerms: int
    /** The text of fileContents[MAX_INPUT_SIZE], up to its NUL. */
    var fileContents: string
    var token: char
    var arg1: string
    var arg2: string
    /** The file system and the inode table every connection shares. */
    const fs: Ex3Fs.TecnicoFs
    const inodes: InodeTable

    ghost function State(): Session
      reads this, fileTable
    {
      Session(fileTable[..], Meta(owner, ownerPerms, otherPerms, fileContents), Scanned(token, arg1, arg2))
    }

    ghost function Shared(): World
      reads fs, fs.bstRoot, inodes
    {
      World(fs.bstRoot[..], inodes.inodes)
    }

    ghost predicate Valid()
      reads this, fs, fs.treeLock
    {
      fileTable.Length == FILE_TABLE_SIZE && fs.Valid()
    }

    /**
     * The start of applyCommands: every slot free. The locals and buffers hold
     * whatever was in memory, given here as meta and scan.
     */
    constructor (fs: Ex3Fs.TecnicoFs, inodes: InodeTable, meta: Meta, scan: Scanned)
      requires fs.Valid()
      ensures Valid() && fresh(fileTable)
      ensures this.fs == fs && this.inodes == inodes
      ensures State() == Session(FreeTable(), meta, scan)
    {
      this.fs := fs;
      this.inodes := inodes;
      owner, ownerPerms, otherPerms, fileContents := meta.owner, meta.ownerPerms, meta.otherPerms, meta.fileContents;
      token, arg1, arg2 := scan.token, scan.arg1, scan.arg2;
      fileTable := new Slot[FILE_TABLE_SIZE];
      new;
      for i := 0 to FILE_TABLE_SIZE
        invariant forall k :: 0 <= k < i ==> fileTable[k] == FREE
        modifies fileTable
      {
        fileTable[i] := Slot(NONE, -1);
      }
      assert fileTable[..] == FreeTable();
    }

    /** sscanf(client_message, "%c %s %s", &token, arg1, arg2): only what it reaches is stored. */
    method Scan(message: string)
      modifies this
      ensures Scanned(token, arg1, arg2) == Rescan(old(Scanned(token, arg1, arg2)), message)
      ensures owner == old(owner) && ownerPerms == old(ownerPerms) && otherPerms == old(otherPerms)
      ensures fileContents == old(fileContents)
    {
      var sc := ScanLine(message, 2);
      if sc.count != -1 {
        token := sc.token;
        if |sc.args| >= 1 {
          arg1 := sc.args[0];
        }
        if |sc.args| >= 2 {
          arg2 := sc.args[1];
        }
      }
    }

    /** case 'c'. */
    method CreateFile(env: Env, uid: int, f: Faults, b: int) returns (outcome: Outcome)
      requires Valid() && env.hash == fs.hash && WorldOk(env, Shared()) && 0 <= b < fs.numberBuckets
      modifies fs.bstRoot, fs.treeLock, inodes
      ensures Valid()
      ensures Stepped(State(), Shared(), outcome) == CreateCmd(env, old(State()), old(Shared()), uid, f, b)
    {
      var iNumber := fs.Lookup(arg1, b);
      if iNumber != -1 {
        return Reply("-4");
      }
      Ex3Fs.FindAbsent(fs.bstRoot[..], b, arg1);
      iNumber := inodes.InodeCreate(env.alloc, f.createFails, uid, CharAt(arg2, 0) as int, CharAt(arg2, 1) as int);
      if iNumber == -1 {
        return Reply("-11");
      }
      fs.Create(arg1, iNumber, b);
      return Reply("0");
    }

    /** case 'd'. */
    method DeleteFile(env: Env, uid: int, f: Faults, b: int) returns (outcome: Outcome)
      requires Valid() && 0 <= b < fs.numberBuckets
      modifies this, fs.bstRoot, fs.treeLock, inodes
      ensures Valid()
      ensures Stepped(State(), Shared(), outcome) == DeleteCmd(env, old(State()), old(Shared()), uid, f, b)
    {
      var iNumber := fs.Lookup(arg1, b);
      if iNumber == -1 {
        return Reply("-5");
      }
      var got := inodes.InodeGet(iNumber, f.getFails);
      if got.None? {
        return Reply("-11");
      }
      owner, ownerPerms, otherPerms := got.value.owner, got.value.ownerPerms, got.value.otherPerms;
      fileContents := env.copy(fileContents, got.value.contents, |fileContents|);
      if owner != uid {
        return Reply("-6");
      }
      var status := inodes.InodeDelete(iNumber, f.deleteFails);
      if status == -1 {
        return Reply("-11");
      }
      fs.Delete(arg1, b);
      return Reply("0");
    }

    /** case 'r': the lookup, renameNode, and then the owner test, delete and create. */
    method RenameFile(env: Env, uid: int, f: Faults, b: int, attempts: seq<Attempt>) returns (outcome: Outcome)
      requires Valid() && env.hash == fs.hash && WorldOk(env, Shared()) && 0 <= b < fs.numberBuckets
      requires AnyRoundSucceeds(attempts)
      modifies this, fs.bstRoot, fs.treeLock, inodes
      ensures Valid()
      ensures Stepped(State(), Shared(), outcome) == RenameCmd(env, old(State()), old(Shared()), uid, f, b)
    {
      var iNumber := fs.Lookup(arg1, b);
      RoundSucceeds(attempts, b, fs.hash(arg2));
      var errorCheck, locked := fs.RenameNode(arg1, arg2, b, attempts);
      if errorCheck != 0 {
        return Reply(Bounded(Itoa(errorCheck), 3));
      }
      outcome := RenameInode(env, uid, f, iNumber);
    }

    /** The inode half of case 'r', after the name has moved. */
    method RenameInode(env: Env, uid: int, f: Faults, iNumber: int) returns (outcome: Outcome)
      requires Allocates(env.alloc)
      modifies this, inodes
      ensures Stepped(State(), Shared(), outcome) == Ex3Protocol.RenameInode(env, old(State()), old(Shared()), iNumber, uid, f)
    {
      var got := inodes.InodeGet(iNumber, f.getFails);
      if got.Some? {
        owner, ownerPerms, otherPerms := got.value.owner, got.value.ownerPerms, got.value.otherPerms;
        fileContents := env.copy(fileContents, got.value.contents, |fileContents|);
      }
      if owner != uid {
        return Reply("-6");
      }
      var status := inodes.InodeDelete(iNumber, f.deleteFails);
      if status == -1 {
        return Reply("-11");
      }
      var created := inodes.InodeCreate(env.alloc, f.createFails, uid, ownerPerms, otherPerms);
      if created == -1 {
        return Reply("-11");
      }
      return Reply("0");
    }

    /** case 'o': the two scans of file_table, then the permission test. */
    method OpenFile(env: Env, uid: int, f: Faults, b: int) returns (outcome: Outcome)
      requires Valid() && 0 <= b < fs.numberBuckets
      modifies this, fileTable, fs.treeLock
      ensures Valid()
      ensures Stepped(State(), Shared(), outcome) == OpenCmd(env, old(State()), old(Shared()), uid, f, b)
    {
      var iNumber := fs.Lookup(arg1, b);
      if iNumber == -1 {
        return Reply("-5");
      }
      var got := inodes.InodeGet(iNumber, f.getFails);
      if got.None? {
        return Reply("-11");
      }
      owner, ownerPerms, otherPerms := got.value.owner, got.value.ownerPerms, got.value.otherPerms;
      fileContents := env.copy(fileContents, got.value.contents, |fileContents|);
      var open := IsOpen(iNumber);
      if open {
        return Reply("-9");
      }
      var freeIndex := FindFree();
      if freeIndex == -1 {
        return Reply("-7");
      }
      var mode := Atoi(arg2);
      if owner == uid {
        if mode > ownerPerms || (mode == WRITE && ownerPerms == READ) {
          return Reply("-6");
        }
      } else if mode > otherPerms || (mode == WRITE && otherPerms == READ) {
        return Reply("-6");
      }
      fileTable[freeIndex] := Slot(mode, iNumber);
      return Reply(Bounded(Itoa(freeIndex), 2));
    }

    /** open's first scan of file_table: is the inode already open in some slot? */
    method IsOpen(iNumber: int) returns (open: bool)
      requires Valid()
      ensures open == InTable(fileTable[..], iNumber)
    {
      var i := 0;
      while i < FILE_TABLE_SIZE
        invariant 0 <= i <= FILE_TABLE_SIZE
        invariant forall k :: 0 <= k < i ==> fileTable[k].inumber != iNumber
      {
        if fileTable[i].inumber == iNumber {
          assert fileTable[..][i].inumber == iNumber;
          return true;
        }
        i := i + 1;
      }
      return false;
    }

    /** open's second scan of file_table: the lowest free slot, or -1. */
    method FindFree() returns (freeIndex: int)
      requires Valid()
      ensures freeIndex == FirstFree(fileTable[..])
    {
      freeIndex := -1;
      var j := 0;
      while j < FILE_TABLE_SIZE
        invariant 0 <= j <= FILE_TABLE_SIZE
        invariant forall k :: 0 <= k < j ==> fileTable[k].inumber != -1
      {
        if fileTable[j].inumber == -1 {
          freeIndex := j;
          break;
        }
        j := j + 1;
      }
      FirstFreeIs(fileTable[..], freeIndex);
    }

    /** case 'x'. */
    method CloseFile() returns (outcome: Outcome)
      requires Valid()
      modifies fileTable
      ensures Stepped(State(), Shared(), outcome) == CloseCmd(old(State()), old(Shared()))
    {
      var fd := Atoi(arg1);
      if fd < 0 || fd >= FILE_TABLE_SIZE {
        return Undefined;
      }
      if fileTable[fd].inumber == -1 {
        return Reply("-8");
      }
      if fd > 4 {
        return Reply("-11");
      }
      fileTable[fd] := Slot(NONE, -1);
      return Reply("0");
    }

    /** case 'l'. */
    method ReadFile(env: Env, f: Faults) returns (outcome: Outcome)
      requires Valid()
      modifies this
      ensures Stepped(State(), Shared(), outcome) == ReadCmd(env, old(State()), old(Shared()), f)
    {
      var fd := Atoi(arg1);
      if fd < 0 || fd >= FILE_TABLE_SIZE {
        return Undefined;
      }
      if fileTable[fd].inumber == -1 {
        return Reply("-8");
      }
      if fileTable[fd].perm < 2 {
        return Reply("-10");
      }
      var got := inodes.InodeGet(fileTable[fd].inumber, f.getFails);
      if got.None? {
        return Reply("-11");
      }
      owner, ownerPerms, otherPerms := got.value.owner, got.value.ownerPerms, got.value.otherPerms;
      fileContents := env.copy(fileContents, got.value.contents, Atoi(arg2));
      if |fileContents| >= MAX_INPUT_SIZE {
        return Undefined;
      }
      return Reply(fileContents);
    }

    /** case 'w': the text after "w <fd> " is copied out of the request first. */
    method WriteFile(f: Faults, message: string) returns (outcome: Outcome)
      requires Valid()
      modifies inodes
      ensures Stepped(State(), Shared(), outcome) == WriteCmd(old(State()), old(Shared()), f, message)
    {
      var line := CStr(message);
      if |line| <= 4 {
        return Undefined;
      }
      var buff: string := [];
      var i := 0;
      while i < |line| - 4
        invariant 0 <= i <= |line| - 4
        invariant buff == line[4..4 + i]
      {
        buff := buff + [line[i + 4]];
        i := i + 1;
      }
      assert buff == line[4..];
      var fd := Atoi(arg1);
      if fd < 0 || fd >= FILE_TABLE_SIZE {
        return Undefined;
      }
      if fileTable[fd].inumber == -1 {
        return Reply("-8");
      }
      if fileTable[fd].perm != 1 && fileTable[fd].perm != 3 {
        return Reply("-6");
      }
      var status := inodes.InodeSet(fileTable[fd].inumber, buff, f.setFails);
      if status == -1 {
        return Reply("-11");
      }
      return Reply("0");
    }

    /** One request other than "f": sscanf, hash(arg1, numberBuckets) and the switch on token. */
    method Handle(env: Env, req: Request) returns (outcome: Outcome)
      requires Valid() && env.hash == fs.hash && WorldOk(env, Shared())
      requires AnyRoundSucceeds(req.attempts)
      modifies this, fileTable, fs.bstRoot, fs.treeLock, inodes
      ensures Valid()
      ensures Stepped(State(), Shared(), outcome)
        == Dispatch(env, old(State()).(scan := Rescan(old(State()).scan, req.message)), old(Shared()), req)
    {
      Scan(req.message);
      var bucketIndex := fs.hash(arg1);
      match token {
        case 'c' => outcome := CreateFile(env, req.uid, req.faults, bucketIndex);
        case 'd' => outcome := DeleteFile(env, req.uid, req.faults, bucketIndex);
        case 'r' => outcome := RenameFile(env, req.uid, req.faults, bucketIndex, req.attempts);
        case 'o' => outcome := OpenFile(env, req.uid, req.faults, bucketIndex);
        case 'x' => outcome := CloseFile();
        case 'l' => outcome := ReadFile(env, req.faults);
        case 'w' => outcome := WriteFile(req.faults, req.message);
        case _ => outcome := Abort;
      }
    }

    /**
     * The session loop: each request is handled and its reply sent, until "f" (then
     * every slot is released), an unknown command or undefined behaviour; when the
     * requests run out first the session is still open.
     */
    method Serve(env: Env, reqs: seq<Request>) returns (replies: seq<string>, ended: Option<Outcome>)
      requires Valid() && env.hash == fs.hash && WorldOk(env, Shared()) && TableOk(State().table)
      requires forall k :: 0 <= k < |reqs| ==> AnyRoundSucceeds(reqs[k].attempts)
      modifies this, fileTable, fs.bstRoot, fs.treeLock, inodes
      ensures Valid()
      ensures Served(State(), Shared(), replies, ended) == Ex3Protocol.Serve(env, old(State()), old(Shared()), reqs)
    {
      replies := [];
      ended := None;
      ghost var total := Ex3Protocol.Serve(env, State(), Shared(), reqs);
      AccountedStart(env, State(), Shared(), reqs);
      var i := 0;
      while i < |reqs|
        invariant 0 <= i <= |reqs|
        invariant Valid() && WorldOk(env, Shared()) && TableOk(State().table)
        invariant ended == None
        invariant Accounted(env, State(), Shared(), reqs[i..], replies, total)
      {
        if IsEnd(reqs[i].message) {
          EndSession(env, reqs, i, replies, total);
          ended := Some(Unmount);
          return;
        }
        var outcome := Turn(env, reqs, i, replies, total);
        if !outcome.Reply? {
          ended := Some(outcome);
          return;
        }
        replies := replies + [outcome.text];
        i := i + 1;
      }
      AccountedDone(env, State(), Shared(), reqs[i..], replies, total);
    }

    /**
     * One request of the session loop other than "f", as the first turn of the rest of
     * the session: the replies sent so far followed by the rest still make up total.
     */
    method Turn(env: Env, reqs: seq<Request>, i: int, replies: seq<string>, ghost total: Served)
      returns (outcome: Outcome)
      requires Valid() && env.hash == fs.hash && WorldOk(env, Shared()) && TableOk(State().table)
      requires 0 <= i < |reqs| && !IsEnd(reqs[i].message) && AnyRoundSucceeds(reqs[i].attempts)
      requires Accounted(env, State(), Shared(), reqs[i..], replies, total)
      modifies this, fileTable, fs.bstRoot, fs.treeLock, inodes
      ensures Valid() && WorldOk(env, Shared()) && TableOk(State().table)
      ensures outcome.Reply? ==> Accounted(env, State(), Shared(), reqs[i + 1..], replies + [outcome.text], total)
      ensures !outcome.Reply? ==> total == Served(State(), Shared(), replies, Some(outcome))
    {
      ghost var before, shared := State(), Shared();
      var req := reqs[i];
      outcome := Handle(env, req);
      DispatchKeeps(env, before.(scan := Rescan(before.scan, req.message)), shared, req);
      assert reqs[i..][0] == req && reqs[i..][1..] == reqs[i + 1..];
      ServeTurn(env, before, shared, reqs[i..], Stepped(State(), Shared(), outcome));
      if outcome.Reply? {
        ghost var rest := Ex3Protocol.Serve(env, State(), Shared(), reqs[i + 1..]);
        assert replies + ([outcome.text] + rest.replies) == (replies + [outcome.text]) + rest.replies;
      } else {
        assert replies + [] == replies;
      }
    }

    /** "f": the session ends and, after the loop, every slot of the file table is released. */
    method EndSession(env: Env, reqs: seq<Request>, i: int, replies: seq<string>, ghost total: Served)
      requires Valid() && WorldOk(env, Shared()) && TableOk(State().table)
      requires 0 <= i < |reqs| && IsEnd(reqs[i].message)
      requires Accounted(env, State(), Shared(), reqs[i..], replies, total)
      modifies fileTable
      ensures total == Served(State(), Shared(), replies, Some(Unmount))
    {
      assert reqs[i..][0] == reqs[i];
      ServeEnd(env, State(), Shared(), reqs[i..]);
      assert replies + [] == replies;
      ReleaseSlots();
    }

    /** After "f": every slot of the file table is released. */
    method ReleaseSlots()
      requires fileTable.Length == FILE_TABLE_SIZE
      modifies fileTable
      ensures State() == old(State()).(table := FreeTable())
    {
      for k := 0 to FILE_TABLE_SIZE
        invariant forall j :: 0 <= j < k ==> fileTable[j] == FREE
      {
        fileTable[k] := Slot(NONE, -1);
      }
      assert fileTable[..] == FreeTable();
    }
  }

  /** The replies sent so far followed by what the rest of the session sends make up total. */
  ghost predicate Accounted(env: Env, s: Session, w: World, reqs: seq<Request>, replies: seq<string>, total: Served)
    requires EnvOk(env, w) && |s.table| == FILE_TABLE_SIZE
  {
    var rest := Ex3Protocol.Serve(env, s, w, reqs);
    total == rest.(replies := replies + rest.replies)
  }

  /** Before the first request nothing is sent and the whole session is still to come. */
  lemma AccountedStart(env: Env, s: Session, w: World, reqs: seq<Request>)
    requires EnvOk(env, w) && |s.table| == FILE_TABLE_SIZE
    ensures Accounted(env, s, w, reqs[0..], [], Ex3Protocol.Serve(env, s, w, reqs))
  {
    assert reqs[0..] == reqs;
    assert [] + Ex3Protocol.Serve(env, s, w, reqs).replies == Ex3Protocol.Serve(env, s, w, reqs).replies;
  }

  /** When the requests run out, the session is open and its replies are those sent. */
  lemma AccountedDone(env: Env, s: Session, w: World, reqs: seq<Request>, replies: seq<string>, total: Served)
    requires EnvOk(env, w) && |s.table| == FILE_TABLE_SIZE
    requires reqs == [] && Accounted(env, s, w, reqs, replies, total)
    ensures total == Served(s, w, replies, None)
  {
    assert replies + [] == replies;
  }

  /** The index the second loop of open stops at is FirstFree's answer. */
  lemma FirstFreeIs(t: seq<Slot>, index: int)
    requires index == -1 ==> forall k :: 0 <= k < |t| ==> t[k].inumber != -1
    requires index != -1 ==> 0 <= index < |t| && t[index].inumber == -1
                             && forall k :: 0 <= k < index ==> t[k].inumber != -1
    ensures FirstFree(t) == index
  {
  }
}
