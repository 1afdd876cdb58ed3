/**
 * The driver of the multi-threaded batch version (ex2/main.c): processInput
 * produces command lines into a ring buffer of MAX_COMMANDS slots guarded by the
 * semaphores produce and consume, and applyCommands threads consume them until each
 * takes one "f". The threads are seen one step at a time: the producer runs until
 * it would block on a full buffer, and then one consumer step frees a slot.
 */
module Ex2Main {
  import opened Common
  import opened CLib
  import opened Namespace
  import opened Locks
  import Ex2Fs

  const MAX_COMMANDS := 10
  const MAX_INPUT_SIZE := 100

  /** The command processInput adds once per consumer thread after the last line. */
  const SENTINEL := "f"

  // ---------------------------------------------------------------- insertCommand's guard

  /** The length test insertCommand makes, as written: strlen(data) <= MAX_INPUT_SIZE. */
  predicate GuardAsWritten(len: nat) {
    len <= MAX_INPUT_SIZE
  }

  /** strcpy into a slot of MAX_INPUT_SIZE chars needs room for the text and its NUL. */
  predicate FitsSlot(len: nat) {
    len + 1 <= MAX_INPUT_SIZE
  }

  /** The test as intended: only what fits its slot is copied. */
  predicate Guard(len: nat) {
    len < MAX_INPUT_SIZE
  }

  /** Every command of the buffer fits its slot with its NUL. */
  ghost predicate AllFit(commands: seq<string>) {
    forall k :: 0 <= k < |commands| ==> FitsSlot(|commands[k]|)
  }

  /** The buffered commands after insertCommand as written has decided on data. */
  function InsertedAsWritten(commands: seq<string>, data: string): seq<string> {
    if GuardAsWritten(|data|) then commands + [data] else commands
  }

  /**
   * A MAX_INPUT_SIZE-character command passes the written test and is buffered,
   * and the buffer then holds a command that overruns its slot by the NUL.
   */
  lemma GuardAsWrittenOverruns(commands: seq<string>, data: string)
    requires AllFit(commands) && |data| == MAX_INPUT_SIZE
    ensures InsertedAsWritten(commands, data) == commands + [data]
    ensures !AllFit(InsertedAsWritten(commands, data))
  {
    var r := InsertedAsWritten(commands, data);
    assert r[|commands|] == data;
  }

  // ---------------------------------------------------------------- processInput

  /** What processInput does with one line. */
  datatype Action = Skip | Queue | Exit | Stop

  /** How processInput ends: sentinels added, exit(EXIT_FAILURE), or an early return. */
  datatype End = Closed | Exited | Stopped

  /**
   * processInput's switch on sscanf(line, "%c %s %s"): no token, or '#': skip;
   * c, l, d need exactly two tokens and r three, else errorParse exits; the line is
   * queued when insertCommand takes it. When it does not, c, l and d fall through
   * into case 'r', whose token test then exits; r itself returns.
   */
  function Classify(line: string): Action {
    var sc := ScanLine(line, 2);
    var fits := Guard(|CStr(line)|);
    if sc.count < 1 then Skip
    else if sc.token == 'c' || sc.token == 'l' || sc.token == 'd' then
      if sc.count != 2 then Exit
      else if fits then Queue
      else Exit
    else if sc.token == 'r' then
      if sc.count != 3 then Exit
      else if fits then Queue
      else Stop
    else if sc.token == '#' then Skip
    else Exit
  }

  datatype Produced = Produced(commands: seq<string>, end: End)

  /** The commands processInput queues (the C string of each line), in order, and how it ends. */
  function Produce(lines: seq<string>): Produced {
    if lines == [] then Produced([], Closed)
    else
      match Classify(lines[0])
      case Skip => Produce(lines[1..])
      case Queue =>
        var rest := Produce(lines[1..]);
        Produced([CStr(lines[0])] + rest.commands, rest.end)
      case Exit => Produced([], Exited)
      case Stop => Produced([], Stopped)
  }

  /** processInput's decision for each line, as a sequence. */
  ghost predicate Classified(lines: seq<string>, acts: seq<Action>) {
    |acts| == |lines| && forall k {:trigger Classify(lines[k])} :: 0 <= k < |lines| ==> acts[k] == Classify(lines[k])
  }

  /** Produce on lines[i..], given the decision for each line. */
  function ProduceFrom(acts: seq<Action>, lines: seq<string>, i: nat): Produced
    requires |acts| == |lines| && i <= |lines|
    decreases |lines| - i
  {
    if i == |lines| then Produced([], Closed)
    else
      match acts[i]
      case Skip => ProduceFrom(acts, lines, i + 1)
      case Queue =>
        var rest := ProduceFrom(acts, lines, i + 1);
        Produced([CStr(lines[i])] + rest.commands, rest.end)
      case Exit => Produced([], Exited)
      case Stop => Produced([], Stopped)
  }

  lemma {:induction false} ProduceFromActions(lines: seq<string>, acts: seq<Action>, i: nat)
    requires Classified(lines, acts) && i <= |lines|
    ensures ProduceFrom(acts, lines, i) == Produce(lines[i..])
    decreases |lines| - i
  {
    if i < |lines| {
      assert lines[i..][0] == lines[i] && lines[i..][1..] == lines[i + 1..];
      assert acts[i] == Classify(lines[i]);
      ProduceFromActions(lines, acts, i + 1);
    }
  }

  function Sentinels(n: nat): (r: seq<string>)
    ensures |r| == n && forall k :: 0 <= k < n ==> r[k] == SENTINEL
  {
    seq(n, _ => SENTINEL)
  }

  /** Everything processInput puts in the buffer: the commands, then one "f" per thread if it read to the end. */
  function Stream(lines: seq<string>, numberThreads: nat): seq<string> {
    var p := Produce(lines);
    p.commands + (if p.end == Closed then Sentinels(numberThreads) else [])
  }

  /** A command applyCommands can scan: c, l or d with a name, or r with two names. */
  predicate WellFormed(command: string) {
    var sc := ScanLine(command, 2);
    ((sc.token == 'c' || sc.token == 'l' || sc.token == 'd') && sc.count == 2)
    || (sc.token == 'r' && sc.count == 3)
  }

  lemma CStrTwice(s: string)
    ensures CStr(CStr(s)) == CStr(s)
  {
    CStrOfPlain(CStr(s));
  }

  lemma SentinelScan()
    ensures ScanLine(SENTINEL, 2).token == 'f'
  {
    CStrOfPlain(SENTINEL);
  }

  /**
   * Every command processInput queues passed its token test, so applyCommands finds
   * in it the names it reads; and none of them is the sentinel.
   */
  lemma {:induction false} ProduceWellFormed(lines: seq<string>)
    ensures forall k :: 0 <= k < |Produce(lines).commands| ==>
      WellFormed(Produce(lines).commands[k]) && Produce(lines).commands[k] != SENTINEL
  {
    if lines != [] {
      var rest := Produce(lines[1..]).commands;
      ProduceWellFormed(lines[1..]);
      if Classify(lines[0]) == Queue {
        var c := CStr(lines[0]);
        CStrTwice(lines[0]);
        SentinelScan();
        assert ScanLine(c, 2) == ScanLine(lines[0], 2);
        assert WellFormed(c) && c != SENTINEL;
        var commands := Produce(lines).commands;
        assert commands == [c] + rest;
        forall k | 0 <= k < |commands| ensures WellFormed(commands[k]) && commands[k] != SENTINEL {
          if k > 0 { assert commands[k] == rest[k - 1]; }
        }
      }
    }
  }

  /** The sentinels are the last numberThreads entries of the stream when the input was read to the end, and absent otherwise. */
  lemma SentinelsLast(lines: seq<string>, numberThreads: nat)
    ensures var p := Produce(lines); var s := Stream(lines, numberThreads);
      && s[..|p.commands|] == p.commands
      && (forall k :: 0 <= k < |p.commands| ==> s[k] != SENTINEL)
      && |s| == |p.commands| + (if p.end == Closed then numberThreads else 0)
      && (forall k :: |p.commands| <= k < |s| ==> s[k] == SENTINEL)
  {
    ProduceWellFormed(lines);
  }

  // ---------------------------------------------------------------- applyCommands

  datatype FsState = FsState(buckets: seq<Bucket>, next: int)

  /** What an 'l' command prints: "<name> not found" or "<name> found with inumber <i>". */
  datatype Report = NotFound(name: string) | Found(name: string, inumber: int)

  /** The consumers' joint progress: the file system, the lookup reports, and how many threads took their "f". */
  datatype Progress = Progress(fs: FsState, reports: seq<Report>, finished: nat)

  /**
   * A command is applicable when it is the sentinel, or well formed and, for a
   * create, its name is not bound yet (what the BST does with a duplicate is not known).
   */
  predicate Applicable(hash: Hash, st: FsState, command: string) {
    command == SENTINEL ||
    (WellFormed(command) &&
      var name := ScanLine(command, 2).args[0];
      ScanLine(command, 2).token == 'c' ==> 0 <= hash(name) < |st.buckets| && name !in st.buckets[hash(name)])
  }

  /**
   * One command of applyCommands' switch: the bucket is hash(name); c creates with
   * obtainNewInumber, l reports lookup (0 meaning not found), d deletes, r renames.
   */
  function Effect(hash: Hash, st: FsState, command: string): (r: (FsState, seq<Report>))
    requires HashRange(hash, |st.buckets|) && command != SENTINEL && Applicable(hash, st, command)
    ensures |r.0.buckets| == |st.buckets|
  {
    var sc := ScanLine(command, 2);
    var name := sc.args[0];
    var b := hash(name);
    match sc.token
    case 'c' => (FsState(Bind(st.buckets, b, name, st.next + 1), st.next + 1), [])
    case 'l' =>
      var found := Ex2Fs.Find(st.buckets, b, name);
      (st, [if found == 0 then NotFound(name) else Found(name, found)])
    case 'd' => (st.(buckets := Unbind(st.buckets, b, name)), [])
    case _ => (st.(buckets := Ex2Fs.Renamed(st.buckets, hash, b, name, sc.args[1])), [])
  }

  /** One consumer step: "f" ends the thread that takes it; anything else is applied. */
  function Consume(hash: Hash, p: Progress, command: string): (r: Progress)
    requires HashRange(hash, |p.fs.buckets|) && Applicable(hash, p.fs, command)
    ensures |r.fs.buckets| == |p.fs.buckets|
  {
    if command == SENTINEL then p.(finished := p.finished + 1)
    else
      var e := Effect(hash, p.fs, command);
      Progress(e.0, p.reports + e.1, p.finished)
  }

  ghost predicate Replayable(hash: Hash, p: Progress, commands: seq<string>)
    requires HashRange(hash, |p.fs.buckets|)
    decreases |commands|
  {
    commands == [] ||
    (Applicable(hash, p.fs, commands[0]) && Replayable(hash, Consume(hash, p, commands[0]), commands[1..]))
  }

  /** The consumers taking the commands in buffer order, one after another. */
  function Replay(hash: Hash, p: Progress, commands: seq<string>): (r: Progress)
    requires HashRange(hash, |p.fs.buckets|) && Replayable(hash, p, commands)
    ensures |r.fs.buckets| == |p.fs.buckets|
    decreases |commands|
  {
    if commands == [] then p else Replay(hash, Consume(hash, p, commands[0]), commands[1..])
  }

  /** Replaying one more command: its prefix is replayable and the step is one Consume. */
  lemma {:induction false} ReplaySnoc(hash: Hash, p: Progress, commands: seq<string>, k: nat)
    requires HashRange(hash, |p.fs.buckets|) && Replayable(hash, p, commands) && k < |commands|
    ensures Replayable(hash, p, commands[..k])
    ensures Replayable(hash, p, commands[..k + 1])
    ensures HashRange(hash, |Replay(hash, p, commands[..k]).fs.buckets|)
    ensures Applicable(hash, Replay(hash, p, commands[..k]).fs, commands[k])
    ensures Replay(hash, p, commands[..k + 1]) == Consume(hash, Replay(hash, p, commands[..k]), commands[k])
    decreases k
  {
    if k > 0 {
      var q := Consume(hash, p, commands[0]);
      ReplaySnoc(hash, q, commands[1..], k - 1);
      assert commands[..k][1..] == commands[1..][..k - 1];
      assert commands[..k + 1][1..] == commands[1..][..k];
    } else {
      assert commands[..1][1..] == [];
    }
  }

  /**
   * The sentinels only end threads: replaying the stream gives the file system and
   * reports of the commands alone, with one more finished thread per sentinel.
   */
  lemma {:induction false} SentinelsOnlyFinish(hash: Hash, p: Progress, commands: seq<string>, n: nat)
    requires HashRange(hash, |p.fs.buckets|) && Replayable(hash, p, commands + Sentinels(n))
    requires forall k :: 0 <= k < |commands| ==> commands[k] != SENTINEL
    ensures Replayable(hash, p, commands)
    ensures var all := Replay(hash, p, commands + Sentinels(n)); var cs := Replay(hash, p, commands);
      all.fs == cs.fs && all.reports == cs.reports && cs.finished == p.finished && all.finished == p.finished + n
    decreases |commands| + n
  {
    if commands != [] {
      assert (commands + Sentinels(n))[1..] == commands[1..] + Sentinels(n);
      SentinelsOnlyFinish(hash, Consume(hash, p, commands[0]), commands[1..], n);
    } else if n > 0 {
      assert ([] + Sentinels(n))[1..] == [] + Sentinels(n - 1);
      SentinelsOnlyFinish(hash, p.(finished := p.finished + 1), [], n - 1);
    } else {
      assert [] + Sentinels(0) == [];
    }
  }

  /**
   * Every consumer thread stops: when the input is read to the end, replaying the
   * stream finishes exactly numberThreads threads; after an early return none.
   */
  lemma ThreadsFinish(hash: Hash, p: Progress, lines: seq<string>, numberThreads: nat)
    requires HashRange(hash, |p.fs.buckets|) && Replayable(hash, p, Stream(lines, numberThreads))
    ensures Replayable(hash, p, Produce(lines).commands)
    ensures var all := Replay(hash, p, Stream(lines, numberThreads));
      var cs := Replay(hash, p, Produce(lines).commands);
      && all.fs == cs.fs && all.reports == cs.reports
      && all.finished == p.finished + (if Produce(lines).end == Closed then numberThreads else 0)
  {
    ProduceWellFormed(lines);
    var c := Produce(lines).commands;
    if Produce(lines).end == Closed {
      SentinelsOnlyFinish(hash, p, c, numberThreads);
    } else {
      SentinelsOnlyFinish(hash, p, c, 0);
      assert c + Sentinels(0) == c + [];
    }
  }

  // ---------------------------------------------------------------- what replay keeps

  /** Every name sits in its home bucket and every inumber came from the counter. */
  ghost predicate Sound(hash: Hash, st: FsState) {
    && HashRange(hash, |st.buckets|)
    && Placed(st.buckets, hash)
    && st.next >= 0
    && Ex2Fs.Allocated(st.buckets, st.next)
  }

  /** Each command keeps the namespace sound and never moves the counter back. */
  lemma EffectKeepsSound(hash: Hash, st: FsState, command: string)
    requires Sound(hash, st) && command != SENTINEL && Applicable(hash, st, command)
    ensures Sound(hash, Effect(hash, st, command).0)
    ensures Effect(hash, st, command).0.next >= st.next
  {
    var sc := ScanLine(command, 2);
    var name := sc.args[0];
    var b := hash(name);
    var r := Effect(hash, st, command).0;
    if sc.token == 'r' {
      var rename := sc.args[1];
      Ex2Fs.RenameOutcomes(st.buckets, hash, st.next, b, name, rename);
      forall k, n | 0 <= k < |r.buckets| && n in r.buckets[k] ensures hash(n) == k {
        if !(k == hash(rename) && n == rename) {
          assert n in st.buckets[k];
        }
      }
    } else if sc.token == 'c' {
      forall k, n | 0 <= k < |r.buckets| && n in r.buckets[k] ensures 1 <= r.buckets[k][n] <= r.next {
        if !(k == b && n == name) {
          assert n in st.buckets[k] && r.buckets[k][n] == st.buckets[k][n];
        }
      }
    }
  }

  /**
   * Replay keeps the namespace sound: lookups find a name only in its home bucket,
   * so lookup's 0 means the name is absent (Ex2Fs.FindZeroIffAbsent).
   */
  lemma {:induction false} ReplayKeepsSound(hash: Hash, p: Progress, commands: seq<string>)
    requires Sound(hash, p.fs) && Replayable(hash, p, commands)
    ensures Sound(hash, Replay(hash, p, commands).fs)
    decreases |commands|
  {
    if commands != [] {
      if commands[0] != SENTINEL {
        EffectKeepsSound(hash, p.fs, commands[0]);
      }
      ReplayKeepsSound(hash, Consume(hash, p, commands[0]), commands[1..]);
    }
  }

  // ---------------------------------------------------------------- the ring buffer

  class CommandBuffer {
    /** inputCommands[MAX_COMMANDS][MAX_INPUT_SIZE], one string per slot. */
    const inputCommands: array<string>
    var producerPtr: int
    var consumerPtr: int
    /** The commands inserted and not yet removed, oldest first. */
    ghost var contents: seq<string>

    ghost predicate Valid()
      reads this, inputCommands
    {
      && inputCommands.Length == MAX_COMMANDS
      && 0 <= consumerPtr <= producerPtr
      && producerPtr - consumerPtr == |contents| <= MAX_COMMANDS
      && (forall k :: 0 <= k < |contents| ==> inputCommands[(consumerPtr + k) % MAX_COMMANDS] == contents[k])
      && AllFit(contents)
    }

    constructor ()
      ensures Valid() && fresh(inputCommands) && contents == []
    {
      inputCommands := new string[MAX_COMMANDS];
      producerPtr, consumerPtr := 0, 0;
      contents := [];
    }

    /** The commands waiting: what the consume semaphore counts, MAX_COMMANDS less what produce counts. */
    function Count(): int
      reads this
    {
      producerPtr - consumerPtr
    }

    /**
     * insertCommand: a command that fits its slot is copied to slot
     * producerPtr++ % MAX_COMMANDS once sem_wait(produce) returns, which it does
     * only when a slot is free; anything longer is refused with 0.
     */
    method InsertCommand(data: string) returns (inserted: int)
      requires Valid()
      requires Guard(|data|) ==> |contents| < MAX_COMMANDS
      modifies this, inputCommands
      ensures Valid()
      ensures inserted == (if Guard(|data|) then 1 else 0)
      ensures contents == old(contents) + (if inserted == 1 then [data] else [])
      ensures AllFit(contents)
      ensures producerPtr == old(producerPtr) + inserted && consumerPtr == old(consumerPtr)
      ensures inserted == 1 ==> inputCommands[old(producerPtr) % MAX_COMMANDS] == data
      ensures inserted == 0 ==> inputCommands[..] == old(inputCommands[..])
    {
      if |data| < MAX_INPUT_SIZE {
        var slot := producerPtr % MAX_COMMANDS;
        ghost var before := contents;
        inputCommands[slot] := data;
        forall k | 0 <= k < |before| ensures inputCommands[(consumerPtr + k) % MAX_COMMANDS] == before[k] {
          SlotsDistinct(consumerPtr, k, |before|);
        }
        producerPtr := producerPtr + 1;
        contents := contents + [data];
        return 1;
      }
      return 0;
    }

    /** removeCommand: once sem_wait(consume) returns, the command in slot consumerPtr++ % MAX_COMMANDS. */
    method RemoveCommand() returns (command: string)
      requires Valid() && |contents| > 0
      modifies this
      ensures Valid()
      ensures command == old(contents)[0] && contents == old(contents)[1..]
      ensures command == inputCommands[old(consumerPtr) % MAX_COMMANDS]
      ensures consumerPtr == old(consumerPtr) + 1 && producerPtr == old(producerPtr)
    {
      command := inputCommands[consumerPtr % MAX_COMMANDS];
      consumerPtr := consumerPtr + 1;
      contents := contents[1..];
    }
  }

  /** Fewer than MAX_COMMANDS positions after c, the slots differ. */
  lemma SlotsDistinct(c: int, k: int, n: int)
    requires 0 <= c && 0 <= k < n < MAX_COMMANDS
    ensures (c + k) % MAX_COMMANDS != (c + n) % MAX_COMMANDS
  {
    var q := (c + k) / MAX_COMMANDS;
    var r := (c + n) / MAX_COMMANDS;
    assert c + k == q * MAX_COMMANDS + (c + k) % MAX_COMMANDS;
    assert c + n == r * MAX_COMMANDS + (c + n) % MAX_COMMANDS;
  }

  // ---------------------------------------------------------------- the threads, one step at a time

  /** applyCommands' switch on one command that is not "f", on the file system object. */
  method ApplyCommand(fs: Ex2Fs.TecnicoFs, command: string, attempts: seq<Attempt>) returns (report: seq<Report>)
    requires fs.Valid() && AnyRoundSucceeds(attempts)
    requires command != SENTINEL && Applicable(fs.hash, FsState(fs.bstRoot[..], fs.nextINumber), command)
    modifies fs`nextINumber, fs.bstRoot, fs.treeLock
    ensures fs.Valid()
    ensures (FsState(fs.bstRoot[..], fs.nextINumber), report)
      == Effect(fs.hash, FsState(old(fs.bstRoot[..]), old(fs.nextINumber)), command)
  {
    ghost var st := FsState(fs.bstRoot[..], fs.nextINumber);
    var sc := ScanLine(command, 2);
    var name := sc.args[0];
    var bucketIndex := fs.hash(name);
    if sc.token == 'c' {
      assert Effect(fs.hash, st, command) == (FsState(Bind(st.buckets, bucketIndex, name, st.next + 1), st.next + 1), []);
      var iNumber := fs.ObtainNewInumber();
      fs.Create(name, iNumber, bucketIndex);
      report := [];
    } else if sc.token == 'l' {
      assert Effect(fs.hash, st, command).0 == st;
      var searchResult := fs.Lookup(name, bucketIndex);
      report := if searchResult == 0 then [NotFound(name)] else [Found(name, searchResult)];
    } else if sc.token == 'd' {
      assert Effect(fs.hash, st, command) == (st.(buckets := Unbind(st.buckets, bucketIndex, name)), []);
      fs.Delete(name, bucketIndex);
      report := [];
    } else {
      assert Effect(fs.hash, st, command) == (st.(buckets := Ex2Fs.Renamed(st.buckets, fs.hash, bucketIndex, name, sc.args[1])), []);
      RoundSucceeds(attempts, bucketIndex, fs.hash(sc.args[1]));
      ghost var locked := fs.RenameNode(name, sc.args[1], bucketIndex, attempts);
      report := [];
    }
  }

  /** The start of a run: the file system as it is, no report yet, no thread finished. */
  function Start(fs: Ex2Fs.TecnicoFs): Progress
    reads fs, fs.bstRoot
  {
    Progress(FsState(fs.bstRoot[..], fs.nextINumber), [], 0)
  }

  /**
   * The buffer holds the next entries of the stream after the consumed ones, and
   * the file system, reports and finished threads are the replay of the consumed ones.
   */
  ghost predicate Synced(buf: CommandBuffer, fs: Ex2Fs.TecnicoFs, p0: Progress, stream: seq<string>,
                         consumed: nat, reports: seq<Report>, finished: nat)
    reads buf, buf.inputCommands, fs, fs.bstRoot, fs.treeLock
  {
    && buf.Valid() && fs.Valid()
    && |p0.fs.buckets| == fs.numberBuckets
    && Replayable(fs.hash, p0, stream)
    && consumed + |buf.contents| <= |stream|
    && buf.contents == stream[consumed..consumed + |buf.contents|]
    && Replayable(fs.hash, p0, stream[..consumed])
    && Replay(fs.hash, p0, stream[..consumed]) == Progress(FsState(fs.bstRoot[..], fs.nextINumber), reports, finished)
  }

  /** One consumer step: removeCommand, then "f" ends that thread and any other command is applied. */
  method ConsumeOne(buf: CommandBuffer, fs: Ex2Fs.TecnicoFs, attempts: seq<Attempt>,
                    ghost p0: Progress, ghost stream: seq<string>, ghost consumed: nat,
                    reports: seq<Report>, finished: nat)
    returns (reportsAfter: seq<Report>, finishedAfter: nat)
    requires Synced(buf, fs, p0, stream, consumed, reports, finished)
    requires |buf.contents| > 0 && AnyRoundSucceeds(attempts)
    modifies buf, fs`nextINumber, fs.bstRoot, fs.treeLock
    ensures Synced(buf, fs, p0, stream, consumed + 1, reportsAfter, finishedAfter)
    ensures |buf.contents| == old(|buf.contents|) - 1
  {
    ReplaySnoc(fs.hash, p0, stream, consumed);
    var command := buf.RemoveCommand();
    if command == SENTINEL {
      return reports, finished + 1;
    }
    var more := ApplyCommand(fs, command, attempts);
    return reports + more, finished;
  }

  /**
   * insertCommand as the producer sees it: when the buffer is full, sem_wait(produce)
   * blocks until a consumer step has freed a slot.
   */
  method Put(buf: CommandBuffer, fs: Ex2Fs.TecnicoFs, attempts: seq<Attempt>, data: string,
             ghost p0: Progress, ghost stream: seq<string>, ghost consumed: nat,
             reports: seq<Report>, finished: nat)
    returns (inserted: int, reportsAfter: seq<Report>, finishedAfter: nat, ghost consumedAfter: nat)
    requires Synced(buf, fs, p0, stream, consumed, reports, finished) && AnyRoundSucceeds(attempts)
    requires Guard(|data|) ==>
      consumed + |buf.contents| < |stream| && stream[consumed + |buf.contents|] == data
    modifies buf, buf.inputCommands, fs`nextINumber, fs.bstRoot, fs.treeLock
    ensures Synced(buf, fs, p0, stream, consumedAfter, reportsAfter, finishedAfter)
    ensures inserted == (if Guard(|data|) then 1 else 0)
    ensures consumedAfter + |buf.contents| == consumed + old(|buf.contents|) + inserted
  {
    reportsAfter, finishedAfter := reports, finished;
    consumedAfter := consumed;
    if Guard(|data|) && buf.Count() == MAX_COMMANDS {
      reportsAfter, finishedAfter := ConsumeOne(buf, fs, attempts, p0, stream, consumed, reports, finished);
      consumedAfter := consumed + 1;
    }
    ghost var n := |buf.contents|;
    inserted := buf.InsertCommand(data);
    if inserted == 1 {
      SliceSnoc(stream, consumedAfter, n);
    }
  }

  /** A window of the stream grown by the entry just after it. */
  lemma SliceSnoc(stream: seq<string>, from: nat, n: nat)
    requires from + n < |stream|
    ensures stream[from..from + n] + [stream[from + n]] == stream[from..from + n + 1]
  {
  }

  /** The consumers take every command still in the buffer. */
  method Drain(buf: CommandBuffer, fs: Ex2Fs.TecnicoFs, attempts: seq<Attempt>,
               ghost p0: Progress, ghost stream: seq<string>, ghost consumed: nat,
               reports: seq<Report>, finished: nat)
    returns (reportsAfter: seq<Report>, finishedAfter: nat, ghost consumedAfter: nat)
    requires Synced(buf, fs, p0, stream, consumed, reports, finished) && AnyRoundSucceeds(attempts)
    modifies buf, fs`nextINumber, fs.bstRoot, fs.treeLock
    ensures Synced(buf, fs, p0, stream, consumedAfter, reportsAfter, finishedAfter)
    ensures buf.contents == [] && consumedAfter == consumed + old(|buf.contents|)
  {
    reportsAfter, finishedAfter := reports, finished;
    consumedAfter := consumed;
    while buf.Count() > 0
      invariant Synced(buf, fs, p0, stream, consumedAfter, reportsAfter, finishedAfter)
      invariant consumedAfter + |buf.contents| == consumed + old(|buf.contents|)
      decreases |buf.contents|
    {
      reportsAfter, finishedAfter := ConsumeOne(buf, fs, attempts, p0, stream, consumedAfter, reportsAfter, finishedAfter);
      consumedAfter := consumedAfter + 1;
    }
  }

  /**
   * One pass of processInput's loop: sscanf, then the switch. Queue means the line
   * went into the buffer; Exit stands for errorParse and the fall-through into case
   * 'r'; Stop for case 'r' returning when insertCommand refuses the line.
   */
  method ProcessLine(buf: CommandBuffer, fs: Ex2Fs.TecnicoFs, attempts: seq<Attempt>,
                     lines: seq<string>, i: nat, ghost acts: seq<Action>,
                     ghost p0: Progress, ghost stream: seq<string>, ghost consumed: nat,
                     reports: seq<Report>, finished: nat)
    returns (action: Action, reportsAfter: seq<Report>, finishedAfter: nat, ghost consumedAfter: nat)
    requires Classified(lines, acts) && i < |lines|
    requires Synced(buf, fs, p0, stream, consumed, reports, finished) && AnyRoundSucceeds(attempts)
    requires acts[i] == Queue ==>
      consumed + |buf.contents| < |stream| && stream[consumed + |buf.contents|] == CStr(lines[i])
    modifies buf, buf.inputCommands, fs`nextINumber, fs.bstRoot, fs.treeLock
    ensures Synced(buf, fs, p0, stream, consumedAfter, reportsAfter, finishedAfter)
    ensures action == acts[i]
    ensures consumedAfter + |buf.contents| == consumed + old(|buf.contents|) + (if action == Queue then 1 else 0)
  {
    reportsAfter, finishedAfter := reports, finished;
    consumedAfter := consumed;
    var line := lines[i];
    assert acts[i] == Classify(line);
    var sc := ScanLine(line, 2);
    var inserted: int;
    if sc.count < 1 {
      return Skip, reports, finished, consumed;
    }
    if sc.token == 'c' || sc.token == 'l' || sc.token == 'd' {
      if sc.count != 2 {
        return Exit, reports, finished, consumed;
      }
      inserted, reportsAfter, finishedAfter, consumedAfter :=
        Put(buf, fs, attempts, CStr(line), p0, stream, consumed, reports, finished);
      action := if inserted == 1 then Queue else Exit;
    } else if sc.token == 'r' {
      if sc.count != 3 {
        return Exit, reports, finished, consumed;
      }
      inserted, reportsAfter, finishedAfter, consumedAfter :=
        Put(buf, fs, attempts, CStr(line), p0, stream, consumed, reports, finished);
      action := if inserted == 1 then Queue else Stop;
    } else if sc.token == '#' {
      action := Skip;
    } else {
      action := Exit;
    }
  }

  /** What line i adds to the commands: the next one in the stream when it is queued, nothing when it is skipped. */
  lemma NextLine(acts: seq<Action>, lines: seq<string>, i: nat, cmds: seq<string>, stream: seq<string>, pos: nat)
    requires |acts| == |lines| && i < |lines| && pos <= |cmds| && cmds <= stream
    requires ProduceFrom(acts, lines, i).commands == cmds[pos..]
    ensures acts[i] == Queue ==>
      && pos < |stream| && stream[pos] == CStr(lines[i])
      && ProduceFrom(acts, lines, i + 1).commands == cmds[pos + 1..]
      && ProduceFrom(acts, lines, i + 1).end == ProduceFrom(acts, lines, i).end
    ensures acts[i] == Skip ==> ProduceFrom(acts, lines, i + 1) == ProduceFrom(acts, lines, i)
  {
    if acts[i] == Queue {
      assert cmds[pos..][0] == cmds[pos];
      assert cmds[pos..][1..] == cmds[pos + 1..];
    }
  }

  /** processInput's loop over the lines, the consumers freeing slots as needed. */
  method FeedLines(buf: CommandBuffer, fs: Ex2Fs.TecnicoFs, attempts: seq<Attempt>, lines: seq<string>,
                   ghost acts: seq<Action>, ghost stream: seq<string>, ghost p0: Progress)
    returns (end: End, reports: seq<Report>, finished: nat, ghost consumed: nat)
    requires Classified(lines, acts)
    requires Synced(buf, fs, p0, stream, 0, [], 0) && buf.contents == []
    requires ProduceFrom(acts, lines, 0).commands <= stream
    requires AnyRoundSucceeds(attempts)
    modifies buf, buf.inputCommands, fs`nextINumber, fs.bstRoot, fs.treeLock
    ensures Synced(buf, fs, p0, stream, consumed, reports, finished)
    ensures end == ProduceFrom(acts, lines, 0).end
    ensures end != Exited ==> consumed + |buf.contents| == |ProduceFrom(acts, lines, 0).commands|
  {
    ghost var cmds := ProduceFrom(acts, lines, 0).commands;
    reports, finished := [], 0;
    consumed := 0;
    var i := 0;
    while i < |lines|
      invariant 0 <= i <= |lines|
      invariant Synced(buf, fs, p0, stream, consumed, reports, finished)
      invariant ProduceFrom(acts, lines, i).end == ProduceFrom(acts, lines, 0).end
      invariant consumed + |buf.contents| + |ProduceFrom(acts, lines, i).commands| == |cmds|
      invariant ProduceFrom(acts, lines, i).commands == cmds[consumed + |buf.contents|..]
    {
      NextLine(acts, lines, i, cmds, stream, consumed + |buf.contents|);
      var action: Action;
      action, reports, finished, consumed := ProcessLine(buf, fs, attempts, lines, i, acts, p0, stream, consumed, reports, finished);
      if action == Exit {
        return Exited, reports, finished, consumed;
      } else if action == Stop {
        return Stopped, reports, finished, consumed;
      }
      i := i + 1;
    }
    end := Closed;
  }

  /** After the input is read, main inserts one "f" per thread into the buffer. */
  method FeedSentinels(buf: CommandBuffer, fs: Ex2Fs.TecnicoFs, attempts: seq<Attempt>, numberThreads: nat,
                       ghost p0: Progress, ghost stream: seq<string>, ghost consumed: nat,
                       reports: seq<Report>, finished: nat)
    returns (reportsAfter: seq<Report>, finishedAfter: nat, ghost consumedAfter: nat)
    requires Synced(buf, fs, p0, stream, consumed, reports, finished) && AnyRoundSucceeds(attempts)
    requires consumed + |buf.contents| + numberThreads == |stream|
    requires forall k :: consumed + |buf.contents| <= k < |stream| ==> stream[k] == SENTINEL
    modifies buf, buf.inputCommands, fs`nextINumber, fs.bstRoot, fs.treeLock
    ensures Synced(buf, fs, p0, stream, consumedAfter, reportsAfter, finishedAfter)
    ensures consumedAfter + |buf.contents| == |stream|
  {
    reportsAfter, finishedAfter, consumedAfter := reports, finished, consumed;
    ghost var base := consumed + |buf.contents|;
    var t := 0;
    while t < numberThreads
      invariant 0 <= t <= numberThreads
      invariant Synced(buf, fs, p0, stream, consumedAfter, reportsAfter, finishedAfter)
      invariant consumedAfter + |buf.contents| == base + t
    {
      var inserted: int;
      inserted, reportsAfter, finishedAfter, consumedAfter :=
        Put(buf, fs, attempts, SENTINEL, p0, stream, consumedAfter, reportsAfter, finishedAfter);
      t := t + 1;
    }
  }

  /**
   * The whole run (main with its threads): processInput feeds the buffer line by
   * line and then one "f" per thread, while the consumers apply what it holds. After
   * an early return the consumers empty the buffer and wait for ever; after an exit
   * the file system is the replay of the commands consumed so far.
   */
  method Run(lines: seq<string>, numberThreads: nat, fs: Ex2Fs.TecnicoFs, attempts: seq<Attempt>)
    returns (reports: seq<Report>, finished: nat, end: End)
    requires fs.Valid() && AnyRoundSucceeds(attempts)
    requires Replayable(fs.hash, Start(fs), Stream(lines, numberThreads))
    modifies fs`nextINumber, fs.bstRoot, fs.treeLock
    ensures fs.Valid() && end == Produce(lines).end
    ensures end != Exited ==>
      Replay(fs.hash, old(Start(fs)), Stream(lines, numberThreads))
        == Progress(FsState(fs.bstRoot[..], fs.nextINumber), reports, finished)
    ensures end == Closed ==> finished == numberThreads
    ensures end == Stopped ==> finished == 0
    ensures end == Exited ==>
      exists k :: 0 <= k <= |Stream(lines, numberThreads)|
        && Replayable(fs.hash, old(Start(fs)), Stream(lines, numberThreads)[..k])
        && Replay(fs.hash, old(Start(fs)), Stream(lines, numberThreads)[..k])
             == Progress(FsState(fs.bstRoot[..], fs.nextINumber), reports, finished)
  {
    var buf := new CommandBuffer();
    ghost var p0 := Start(fs);
    ghost var stream := Stream(lines, numberThreads);
    ThreadsFinish(fs.hash, p0, lines, numberThreads);
    SentinelsLast(lines, numberThreads);
    assert stream[..0] == [];
    ghost var acts := seq(|lines|, k requires 0 <= k < |lines| => Classify(lines[k]));
    assert lines[0..] == lines;
    ProduceFromActions(lines, acts, 0);
    ghost var consumed: nat;
    end, reports, finished, consumed := FeedLines(buf, fs, attempts, lines, acts, stream, p0);
    if end == Closed {
      reports, finished, consumed := FeedSentinels(buf, fs, attempts, numberThreads, p0, stream, consumed, reports, finished);
    }
    if end != Exited {
      reports, finished, consumed := Drain(buf, fs, attempts, p0, stream, consumed, reports, finished);
      assert stream[..consumed] == stream;
    }
  }
}
