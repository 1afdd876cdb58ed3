/**
 * The driver of the first batch version (ex1/main.c): processInput fills a linear
 * array of command lines, then applyCommands removes and applies them.
 */
module Ex1Main {
  import opened Common
  import opened CLib
  import Ex1Fs

  const MAX_COMMANDS := 150000

  /**
   * processInput's test on sscanf(line, "%c %s"): at least one token, which %c
   * reads from a non-empty line as its first character, and that tag is c, l or d.
   */
  predicate Queueable(line: string) {
    var t := CStr(line);
    t != [] && t[0] in {'c', 'l', 'd'}
  }

  /**
   * The lines processInput hands to insertCommand, in input order: every c, l and d
   * line, whatever its token count (errorParse only reports); no '#' line, no line
   * without tokens, no other tag.
   */
  function Queued(lines: seq<string>): (r: seq<string>)
  {
    if lines == [] then []
    else Queued(lines[..|lines| - 1]) + QueuedOf(lines[|lines| - 1])
  }

  function Take<T>(s: seq<T>, n: int): (r: seq<T>)
    ensures |r| == if n <= 0 then 0 else Min(n, |s|)
    ensures r == s[..|r|]
  {
    if n <= 0 then [] else s[..Min(n, |s|)]
  }

  /** The lines queued from a prefix of the input are a prefix of those queued from all of it. */
  lemma {:induction false} QueuedPrefix(lines: seq<string>, i: nat)
    requires i <= |lines|
    ensures Queued(lines[..i]) <= Queued(lines)
    decreases |lines| - i
  {
    if i < |lines| {
      var init := lines[..|lines| - 1];
      assert init[..i] == lines[..i];
      QueuedPrefix(init, i);
    } else {
      assert lines[..i] == lines;
    }
  }

  /** Queued keeps, in order, exactly the queueable lines. */
  lemma {:induction false} QueuedExactly(lines: seq<string>)
    ensures forall x :: x in Queued(lines) ==> x in lines && Queueable(x)
    ensures forall i :: 0 <= i < |lines| && Queueable(lines[i]) ==> lines[i] in Queued(lines)
  {
    if lines != [] {
      var init, last := lines[..|lines| - 1], lines[|lines| - 1];
      QueuedExactly(init);
      assert Queued(lines) == Queued(init) + QueuedOf(last);
      forall x | x in Queued(lines) ensures x in lines && Queueable(x) {
        if x in Queued(init) {
          assert x in init;
        } else {
          assert x == last;
        }
      }
      forall i | 0 <= i < |lines| - 1 ensures lines[i] == init[i] { }
    }
  }

  // ---------------------------------------------------------------- the queue

  class CommandQueue {
    const inputCommands: array<string>
    var numberCommands: int
    var headQueue: int

    ghost predicate Valid()
      reads this
    {
      inputCommands.Length == MAX_COMMANDS && 0 <= numberCommands <= MAX_COMMANDS && 0 <= headQueue
    }

    /** The window of commands still to remove lies inside the array (true while inserts come first). */
    ghost predicate InBounds()
      reads this
    {
      headQueue + numberCommands <= MAX_COMMANDS
    }

    /** The commands removeCommand will return, in order. */
    ghost function Pending(): seq<string>
      reads this, inputCommands
      requires Valid() && InBounds()
    {
      inputCommands[headQueue..headQueue + numberCommands]
    }

    constructor ()
      ensures Valid() && InBounds() && fresh(inputCommands)
      ensures numberCommands == 0 && headQueue == 0
    {
      inputCommands := new string[MAX_COMMANDS];
      numberCommands := 0;
      headQueue := 0;
    }

    /** insertCommand: writes at index numberCommands and counts it; 0 when the array is full. */
    method InsertCommand(data: string) returns (inserted: int)
      requires Valid()
      modifies this, inputCommands
      ensures Valid() && headQueue == old(headQueue)
      ensures inserted == (if old(numberCommands) != MAX_COMMANDS then 1 else 0)
      ensures inserted == 1 ==>
        numberCommands == old(numberCommands) + 1
        && inputCommands[..] == old(inputCommands[..])[old(numberCommands) := data]
      ensures inserted == 0 ==>
        numberCommands == old(numberCommands) && inputCommands[..] == old(inputCommands[..])
      ensures old(headQueue) == 0 ==>
        (InBounds() && Pending() == old(Pending()) + (if inserted == 1 then [data] else []))
    {
      if numberCommands != MAX_COMMANDS {
        inputCommands[numberCommands] := data;
        numberCommands := numberCommands + 1;
        inserted := 1;
        return;
      }
      inserted := 0;
    }

    /** removeCommand: the command at headQueue, moving the head on; None (NULL) when empty. */
    method RemoveCommand() returns (command: Option<string>)
      requires Valid()
      requires numberCommands > 0 ==> headQueue < MAX_COMMANDS
      modifies this
      ensures Valid()
      ensures command == None <==> old(numberCommands) == 0
      ensures command == None ==> numberCommands == old(numberCommands) && headQueue == old(headQueue)
      ensures command != None ==>
        command.value == old(inputCommands[headQueue])
        && numberCommands == old(numberCommands) - 1 && headQueue == old(headQueue) + 1
      ensures old(InBounds()) ==>
        (InBounds() &&
         if command == None then Pending() == old(Pending())
         else command.value == old(Pending())[0] && Pending() == old(Pending())[1..])
    {
      if numberCommands > 0 {
        numberCommands := numberCommands - 1;
        command := Some(inputCommands[headQueue]);
        headQueue := headQueue + 1;
        return;
      }
      command := None;
    }
  }

  /**
   * Inserting after a removal writes at index numberCommands, over a command not yet
   * removed, so the queue is not first-in first-out once inserts and removes mix.
   */
  method InsertAfterRemoveLosesOrder() returns (first: Option<string>, second: Option<string>)
    ensures first == Some("c x") && second == Some("c z")
  {
    var q := new CommandQueue();
    var ok := q.InsertCommand("c x");
    ok := q.InsertCommand("c y");
    first := q.RemoveCommand();
    ok := q.InsertCommand("c z");
    second := q.RemoveCommand();
  }

  /** One line of processInput's switch: a queueable line goes to insertCommand; full reports its failure. */
  method QueueLine(q: CommandQueue, line: string) returns (full: bool)
    requires q.Valid() && q.headQueue == 0
    modifies q, q.inputCommands
    ensures q.Valid() && q.headQueue == 0
    ensures full <==> QueuedOf(line) != [] && old(q.numberCommands) == MAX_COMMANDS
    ensures full ==> q.numberCommands == old(q.numberCommands) && q.Pending() == old(q.Pending())
    ensures !full ==>
      q.numberCommands == old(q.numberCommands) + |QueuedOf(line)| && q.Pending() == old(q.Pending()) + QueuedOf(line)
  {
    var sc := ScanLine(line, 1);
    if sc.count >= 1 && (sc.token == 'c' || sc.token == 'l' || sc.token == 'd') {
      // errorParse() when the token count is not 2 only prints a diagnostic
      var inserted := q.InsertCommand(line);
      return inserted == 0;
    }
    return false;
  }

  /**
   * processInput: reads the lines in order and queues the queueable ones; it stops
   * reading at the first insertCommand that fails.
   */
  method ProcessInput(q: CommandQueue, lines: seq<string>)
    requires q.Valid() && q.headQueue == 0
    modifies q, q.inputCommands
    ensures q.Valid() && q.headQueue == 0
    ensures q.Pending() == old(q.Pending()) + Take(Queued(lines), MAX_COMMANDS - old(q.numberCommands))
  {
    ghost var before := q.Pending();
    ghost var room := MAX_COMMANDS - q.numberCommands;
    assert |before| == MAX_COMMANDS - room;
    var i := 0;
    while i < |lines|
      invariant 0 <= i <= |lines|
      invariant q.Valid() && q.headQueue == 0
      invariant q.Pending() == before + Queued(lines[..i])
    {
      var full := ReadLine(q, lines, i, before, room);
      if full {
        return;
      }
      i := i + 1;
    }
    assert lines[..i] == lines;
    AllRead(before, lines, room, q.Pending());
  }

  /** After the last line, the queue holds every queueable line, which all fitted in the room left. */
  lemma AllRead(before: seq<string>, lines: seq<string>, room: int, pending: seq<string>)
    requires |before| == MAX_COMMANDS - room && pending == before + Queued(lines) && |pending| <= MAX_COMMANDS
    ensures pending == before + Take(Queued(lines), room)
  {
    assert lines[..|lines|] == lines;
    TakeUpTo(lines, |lines|, room);
  }

  /** One pass of processInput's loop: the next line is queued, unless the queue is full. */
  method ReadLine(q: CommandQueue, lines: seq<string>, i: nat, ghost before: seq<string>, ghost room: int)
      returns (full: bool)
    requires i < |lines| && q.Valid() && q.headQueue == 0
    requires |before| == MAX_COMMANDS - room && q.Pending() == before + Queued(lines[..i])
    modifies q, q.inputCommands
    ensures q.Valid() && q.headQueue == 0
    ensures full ==> q.Pending() == before + Take(Queued(lines), room)
    ensures !full ==> q.Pending() == before + Queued(lines[..i + 1])
  {
    QueuedSnoc(lines, i);
    ghost var added := QueuedOf(lines[i]);
    full := QueueLine(q, lines[i]);
    if full {
      assert |q.Pending()| == MAX_COMMANDS;
      TakeUpTo(lines, i, room);
      return;
    }
    AppendAssociates(before, Queued(lines[..i]), added);
  }

  lemma AppendAssociates<T>(a: seq<T>, b: seq<T>, c: seq<T>)
    ensures (a + b) + c == a + (b + c)
  {
  }

  /** What one line adds to the queue: itself when it is queueable. */
  function QueuedOf(line: string): seq<string> {
    if Queueable(line) then [line] else []
  }

  /** Queued grows by at most the next line. */
  lemma QueuedSnoc(lines: seq<string>, i: nat)
    requires i < |lines|
    ensures Queued(lines[..i + 1]) == Queued(lines[..i]) + QueuedOf(lines[i])
  {
    assert lines[..i + 1][..i] == lines[..i];
  }

  /**
   * When the lines read so far filled the room left in the queue, or were all the
   * lines, what they queued is what the room takes of all the queueable lines.
   */
  lemma TakeUpTo(lines: seq<string>, i: nat, room: int)
    requires i <= |lines| && |Queued(lines[..i])| <= room
    requires |Queued(lines[..i])| == room || i == |lines|
    ensures Take(Queued(lines), room) == Queued(lines[..i])
  {
    if i == |lines| {
      assert lines[..i] == lines;
    } else {
      QueuedPrefix(lines, i);
    }
  }

  // ---------------------------------------------------------------- replay

  datatype FsState = FsState(root: map<string, int>, next: int)

  /** What an 'l' command prints: "<name> not found" or "<name> found with inumber <i>". */
  datatype Report = NotFound(name: string) | Found(name: string, inumber: int)

  /** Where the replay ended: the file system, the lookup reports, and whether it exited. */
  datatype Outcome = Outcome(fs: FsState, reports: seq<Report>, aborted: bool)

  /** The BST's answer to a duplicate insert is not known: replay is defined when no create meets a bound name. */
  predicate CommandDefined(st: FsState, command: string) {
    var sc := ScanLine(command, 1);
    sc.count == 2 && sc.token == 'c' ==> sc.args[0] !in st.root
  }

  /**
   * One command of applyCommands: exit when sscanf(command, "%c %s") does not give
   * two tokens or the tag is unknown; c creates with the next inumber, l reports
   * the lookup (0 meaning not found), d deletes.
   */
  function ApplyOne(st: FsState, command: string): Outcome
    requires CommandDefined(st, command)
  {
    var sc := ScanLine(command, 1);
    if sc.count != 2 then Outcome(st, [], true)
    else
      var name := sc.args[0];
      match sc.token
      case 'c' => Outcome(FsState(st.root[name := st.next + 1], st.next + 1), [], false)
      case 'l' =>
        var found := Ex1Fs.Find(st.root, name);
        Outcome(st, [if found == 0 then NotFound(name) else Found(name, found)], false)
      case 'd' => Outcome(FsState(st.root - {name}, st.next), [], false)
      case _ => Outcome(st, [], true)
  }

  predicate Defined(st: FsState, commands: seq<string>)
    decreases |commands|
  {
    commands == [] ||
    (CommandDefined(st, commands[0]) &&
      var o := ApplyOne(st, commands[0]);
      o.aborted || Defined(o.fs, commands[1..]))
  }

  function Combine(before: seq<Report>, o: Outcome): Outcome {
    Outcome(o.fs, before + o.reports, o.aborted)
  }

  /** applyCommands on its own: the commands in queue order, up to the first exit. */
  function Replay(st: FsState, commands: seq<string>): Outcome
    requires Defined(st, commands)
    decreases |commands|
  {
    if commands == [] then Outcome(st, [], false)
    else
      var o := ApplyOne(st, commands[0]);
      if o.aborted then o
      else Combine(o.reports, Replay(o.fs, commands[1..]))
  }

  /** Every bound inumber came from the counter: it lies in 1 .. next. */
  ghost predicate Allocated(st: FsState) {
    st.next >= 0 && forall name :: name in st.root ==> 1 <= st.root[name] <= st.next
  }

  /**
   * Replay keeps inumbers allocated and never moves the counter back; so each
   * create's inumber is bound to no other name and lookup's 0 only means absent.
   */
  lemma {:induction false} ReplayKeepsAllocated(st: FsState, commands: seq<string>)
    requires Defined(st, commands) && Allocated(st)
    ensures Allocated(Replay(st, commands).fs)
    ensures Replay(st, commands).fs.next >= st.next
    decreases |commands|
  {
    if commands != [] {
      var o := ApplyOne(st, commands[0]);
      assert Allocated(o.fs) && o.fs.next >= st.next;
      if !o.aborted {
        ReplayKeepsAllocated(o.fs, commands[1..]);
      }
    }
  }

  /** The command line "c <name>" as an input file holds it. */
  function CreateLine(name: string): string {
    "c " + name
  }

  lemma ScanCreateLine(name: string)
    requires IsWord(name)
    ensures ScanLine(CreateLine(name), 1) == Scan(2, 'c', [name])
  {
    var line := CreateLine(name);
    IsWordNoNul(name);
    assert '\0' !in line by {
      forall i | 0 <= i < |line| ensures line[i] != '\0' {
        if i >= 2 { assert line[i] == name[i - 2]; }
      }
    }
    CStrOfPlain(line);
    assert line[0] == 'c';
    assert line[1..] == " " + name;
    WordsLeadingSpace(name);
    WordsSingle(name);
    assert Words(line[1..]) == [name];
  }

  /** The creates of distinct names, in order. */
  function CreateLines(names: seq<string>): (r: seq<string>)
    ensures |r| == |names|
    ensures forall k :: 0 <= k < |names| ==> r[k] == CreateLine(names[k])
  {
    if names == [] then [] else [CreateLine(names[0])] + CreateLines(names[1..])
  }

  /**
   * A run of creates of distinct, unbound names binds the k-th name to next + k + 1:
   * one entry per name, inumbers strictly increasing in creation order.
   */
  lemma {:induction false} CreatesNumberInOrder(st: FsState, names: seq<string>)
    requires forall k :: 0 <= k < |names| ==> IsWord(names[k]) && names[k] !in st.root
    requires forall j, k :: 0 <= j < k < |names| ==> names[j] != names[k]
    ensures Defined(st, CreateLines(names))
    ensures var r := Replay(st, CreateLines(names));
      !r.aborted && r.reports == [] && CreatedInOrder(st, names, r.fs)
    decreases |names|
  {
    if names != [] {
      var name := names[0];
      var st1 := FsState(st.root[name := st.next + 1], st.next + 1);
      var rest := names[1..];
      forall k | 0 <= k < |rest| ensures IsWord(rest[k]) && rest[k] !in st1.root && rest[k] != name {
        assert rest[k] == names[k + 1];
      }
      CreatesNumberInOrder(st1, rest);
      FirstCreate(st, names);
      var r := Replay(st1, CreateLines(rest));
      CreatesShift(st, names, r.fs);
    }
  }

  /**
   * after is st with the k-th name bound to next + k + 1: one entry per name,
   * every other name as it was.
   */
  ghost predicate CreatedInOrder(st: FsState, names: seq<string>, after: FsState) {
    && after.next == st.next + |names|
    && (forall k :: 0 <= k < |names| ==> names[k] in after.root && after.root[names[k]] == st.next + k + 1)
    && (forall n :: n !in names ==> (n in after.root <==> n in st.root))
    && (forall n :: n !in names && n in st.root ==> after.root[n] == st.root[n])
  }

  /** What the rest of the run binds, seen from before its first create. */
  lemma CreatesShift(st: FsState, names: seq<string>, after: FsState)
    requires names != [] && names[0] !in names[1..]
    requires CreatedInOrder(FsState(st.root[names[0] := st.next + 1], st.next + 1), names[1..], after)
    ensures CreatedInOrder(st, names, after)
  {
    var name, rest := names[0], names[1..];
    forall k | 0 <= k < |names| ensures names[k] in after.root && after.root[names[k]] == st.next + k + 1 {
      if k > 0 {
        assert names[k] == rest[k - 1];
      }
    }
    forall n | n !in names ensures n !in rest && n != name { assert names == [name] + rest; }
  }

  /** The first create of the run binds its name to next + 1; the rest of the run continues from there. */
  lemma FirstCreate(st: FsState, names: seq<string>)
    requires names != [] && IsWord(names[0]) && names[0] !in st.root
    ensures var st1 := FsState(st.root[names[0] := st.next + 1], st.next + 1);
      && (Defined(st1, CreateLines(names[1..])) ==> Defined(st, CreateLines(names)))
      && (Defined(st1, CreateLines(names[1..])) ==>
            Replay(st, CreateLines(names)) == Replay(st1, CreateLines(names[1..])))
  {
    var st1 := FsState(st.root[names[0] := st.next + 1], st.next + 1);
    ScanCreateLine(names[0]);
    assert ApplyOne(st, CreateLine(names[0])) == Outcome(st1, [], false);
    assert CreateLines(names)[1..] == CreateLines(names[1..]);
    if Defined(st1, CreateLines(names[1..])) {
      var r := Replay(st1, CreateLines(names[1..]));
      assert [] + r.reports == r.reports;
    }
  }

  /** One command of applyCommands' switch, on the file system object. */
  method ApplyCommand(fs: Ex1Fs.TecnicoFs, command: string) returns (reports: seq<Report>, aborted: bool)
    requires CommandDefined(FsState(fs.bstRoot, fs.nextINumber), command)
    modifies fs
    ensures var o := ApplyOne(FsState(old(fs.bstRoot), old(fs.nextINumber)), command);
      && fs.bstRoot == o.fs.root && fs.nextINumber == o.fs.next
      && reports == o.reports && aborted == o.aborted
  {
    var sc := ScanLine(command, 1);
    if sc.count != 2 {
      return [], true;
    }
    var name := sc.args[0];
    if sc.token == 'c' {
      var inumber := fs.ObtainNewInumber();
      fs.Create(name, inumber);
      return [], false;
    } else if sc.token == 'l' {
      var found := fs.Lookup(name);
      return [if found == 0 then NotFound(name) else Found(name, found)], false;
    } else if sc.token == 'd' {
      fs.Delete(name);
      return [], false;
    }
    return [], true;
  }

  /** Replay takes one step at a time: after a command that does not exit, the rest of the queue follows. */
  lemma ReplayAdvance(st0: FsState, all: seq<string>, reports: seq<Report>, st: FsState, pending: seq<string>)
    requires pending != [] && Defined(st0, all) && Defined(st, pending)
    requires Replay(st0, all) == Combine(reports, Replay(st, pending))
    ensures CommandDefined(st, pending[0])
    ensures var o := ApplyOne(st, pending[0]);
      && (o.aborted ==> Replay(st0, all) == Combine(reports, o))
      && (!o.aborted ==>
            Defined(o.fs, pending[1..])
            && Replay(st0, all) == Combine(reports + o.reports, Replay(o.fs, pending[1..])))
  {
    var o := ApplyOne(st, pending[0]);
    if !o.aborted {
      var rest := Replay(o.fs, pending[1..]);
      assert reports + (o.reports + rest.reports) == reports + o.reports + rest.reports;
    }
  }

  /**
   * applyCommands (the sequential build): removes commands until none is left and
   * applies each, exiting on a malformed command or an unknown tag.
   */
  method ApplyCommands(q: CommandQueue, fs: Ex1Fs.TecnicoFs) returns (reports: seq<Report>, aborted: bool)
    requires q.Valid() && q.InBounds()
    requires Defined(FsState(fs.bstRoot, fs.nextINumber), q.Pending())
    modifies q, fs
    ensures var r := Replay(FsState(old(fs.bstRoot), old(fs.nextINumber)), old(q.Pending()));
      && fs.bstRoot == r.fs.root && fs.nextINumber == r.fs.next
      && reports == r.reports && aborted == r.aborted
    ensures !aborted ==> q.numberCommands == 0
  {
    reports, aborted := [], false;
    ghost var st0 := FsState(fs.bstRoot, fs.nextINumber);
    ghost var all := q.Pending();
    while q.numberCommands > 0
      invariant q.Valid() && q.InBounds()
      invariant Defined(FsState(fs.bstRoot, fs.nextINumber), q.Pending())
      invariant Replay(st0, all) == Combine(reports, Replay(FsState(fs.bstRoot, fs.nextINumber), q.Pending()))
      decreases q.numberCommands
    {
      var more, stop := ApplyNext(q, fs, st0, all, reports);
      reports := reports + more;
      if stop {
        aborted := true;
        return;
      }
    }
  }

  /** One pass of applyCommands' loop: remove the next command and apply it. */
  method ApplyNext(q: CommandQueue, fs: Ex1Fs.TecnicoFs, ghost st0: FsState, ghost all: seq<string>, ghost reports: seq<Report>)
      returns (more: seq<Report>, stop: bool)
    requires q.Valid() && q.InBounds() && q.numberCommands > 0
    requires Defined(FsState(fs.bstRoot, fs.nextINumber), q.Pending())
    requires Defined(st0, all)
    requires Replay(st0, all) == Combine(reports, Replay(FsState(fs.bstRoot, fs.nextINumber), q.Pending()))
    modifies q, fs
    ensures q.Valid() && q.InBounds() && q.numberCommands < old(q.numberCommands)
    ensures stop ==> Replay(st0, all) == Outcome(FsState(fs.bstRoot, fs.nextINumber), reports + more, true)
    ensures !stop ==>
      && Defined(FsState(fs.bstRoot, fs.nextINumber), q.Pending())
      && Replay(st0, all) == Combine(reports + more, Replay(FsState(fs.bstRoot, fs.nextINumber), q.Pending()))
  {
    ghost var st := FsState(fs.bstRoot, fs.nextINumber);
    ghost var pending := q.Pending();
    ReplayAdvance(st0, all, reports, st, pending);
    var command := q.RemoveCommand();
    more, stop := ApplyCommand(fs, command.value);
  }

  /**
   * The whole batch run: processInput fills a fresh queue, then applyCommands
   * replays it. Because every insert happens before the first remove, the commands
   * are applied in input order.
   */
  method Run(lines: seq<string>) returns (fs: Ex1Fs.TecnicoFs, reports: seq<Report>, aborted: bool)
    requires Defined(FsState(map[], 0), Take(Queued(lines), MAX_COMMANDS))
    ensures var r := Replay(FsState(map[], 0), Take(Queued(lines), MAX_COMMANDS));
      && fs.bstRoot == r.fs.root && fs.nextINumber == r.fs.next
      && reports == r.reports && aborted == r.aborted
  {
    fs := new Ex1Fs.TecnicoFs();
    var q := new CommandQueue();
    assert q.Pending() == [];
    ProcessInput(q, lines);
    reports, aborted := ApplyCommands(q, fs);
  }
}
