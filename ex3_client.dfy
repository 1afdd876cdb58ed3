/**
 * The client library (ex3/Client/tecnicofs-client-api.c): each tfs call checks its
 * arguments, formats a one-line request with snprintf, and turns the server's reply
 * back into an int with atoi. The socket itself is left out: the reply to a request
 * is a parameter.
 */
module Ex3Client {
  import opened Common
  import opened CLib
  import Ex3Protocol

  const MAX_INPUT_SIZE := Ex3Protocol.MAX_INPUT_SIZE

  /** What a call does before any I/O: refuse (TECNICOFS_ERROR_OTHER), or send a request. */
  datatype Call = Refused | Send(request: string)

  /** What a call returns: TECNICOFS_ERROR_OTHER, or a number decoded from the reply. */
  datatype Answer = ErrorOther | Returned(value: int)

  /** A char * argument: the characters before its NUL. */
  predicate CString(s: string) {
    '\0' !in s
  }

  /** A permission argument the calls accept. */
  predicate PermOk(p: int) {
    0 <= p <= 3
  }

  /** A descriptor argument the calls accept. */
  predicate FdOk(fd: int) {
    0 <= fd <= 4
  }

  // ---------------------------------------------------------------- the requests

  function CreateCall(filename: string, ownerPermissions: int, othersPermissions: int): Call {
    if filename == [] || !PermOk(ownerPermissions) || !PermOk(othersPermissions) then Refused
    else Send(Bounded("c " + filename + " " + Itoa(ownerPermissions) + Itoa(othersPermissions), MAX_INPUT_SIZE))
  }

  function DeleteCall(filename: string): Call {
    if filename == [] then Refused else Send(Bounded("d " + filename, MAX_INPUT_SIZE))
  }

  function RenameCall(filenameOld: string, filenameNew: string): Call {
    if filenameOld == [] || filenameNew == [] then Refused
    else Send(Bounded("r " + filenameOld + " " + filenameNew, MAX_INPUT_SIZE))
  }

  function OpenCall(filename: string, mode: int): Call {
    if filename == [] || !PermOk(mode) then Refused
    else Send(Bounded("o " + filename + " " + Itoa(mode), MAX_INPUT_SIZE))
  }

  function CloseCall(fd: int): Call {
    if !FdOk(fd) then Refused else Send(Bounded("x " + Itoa(fd), MAX_INPUT_SIZE))
  }

  function ReadCall(fd: int, len: int): Call {
    if !FdOk(fd) || len <= 0 then Refused
    else Send(Bounded("l " + Itoa(fd) + " " + Itoa(len), MAX_INPUT_SIZE))
  }

  /** tfsUnmount sends the one-character string "f". */
  function UnmountCall(): Call {
    Send("f")
  }

  /**
   * tfsWrite as written: the request is formatted with the bound MAX_INPUT_SIZE
   * into command, an array of only 5 + len characters.
   */
  function WriteCallAsWritten(fd: int, buffer: string, len: int): Call {
    if !FdOk(fd) || buffer == [] || len <= 0 then Refused
    else Send(Bounded("w " + Itoa(fd) + " " + buffer, MAX_INPUT_SIZE))
  }

  /**
   * tfsWrite with its MAX_INPUT_SIZE bound capped by the size of command: "w <fd> "
   * and at most len characters of buffer, which with the NUL fit the 5 + len
   * characters, and never more than the MAX_INPUT_SIZE - 1 the server receives.
   */
  function WriteCall(fd: int, buffer: string, len: int): Call {
    if !FdOk(fd) || buffer == [] || len <= 0 then Refused
    else Send(Bounded("w " + Itoa(fd) + " " + buffer, Min(5 + len, MAX_INPUT_SIZE)))
  }

  /** return atoi(return_message), unless the call was refused before sending. */
  function Answered(call: Call, reply: string): (r: Answer)
    ensures call.Send? <==> r.Returned?
  {
    if call.Refused? then ErrorOther else Returned(Atoi(reply))
  }

  function TfsCreate(filename: string, ownerPermissions: int, othersPermissions: int, reply: string): Answer {
    Answered(CreateCall(filename, ownerPermissions, othersPermissions), reply)
  }

  function TfsDelete(filename: string, reply: string): Answer {
    Answered(DeleteCall(filename), reply)
  }

  function TfsRename(filenameOld: string, filenameNew: string, reply: string): Answer {
    Answered(RenameCall(filenameOld, filenameNew), reply)
  }

  function TfsOpen(filename: string, mode: int, reply: string): Answer {
    Answered(OpenCall(filename, mode), reply)
  }

  /** tfsClose receives at most four bytes of the reply. */
  function TfsClose(fd: int, reply: string): Answer {
    Answered(CloseCall(fd), reply[..Min(4, |reply|)])
  }

  function TfsWrite(fd: int, buffer: string, len: int, reply: string): Answer {
    Answered(WriteCall(fd, buffer, len), reply)
  }

  /** strncpy(dest, src, n) for a source holding text: its characters, then NULs up to n. */
  method StrNCopy(dest: array<char>, text: string, n: int)
    requires 0 <= n <= dest.Length
    modifies dest
    ensures forall j :: 0 <= j < n ==> dest[j] == if j < |text| then text[j] else '\0'
    ensures dest[n..] == old(dest[n..])
  {
    var i := 0;
    while i < n
      invariant 0 <= i <= n
      invariant forall j :: 0 <= j < i ==> dest[j] == if j < |text| then text[j] else '\0'
      invariant dest[n..] == old(dest[n..])
    {
      dest[i] := if i < |text| then text[i] else '\0';
      i := i + 1;
    }
  }

  /** strlen(s) for an array holding a NUL at index bound or before. */
  method StrLen(s: array<char>, bound: int) returns (n: int)
    requires 0 <= bound < s.Length && s[bound] == '\0'
    ensures 0 <= n <= bound && s[n] == '\0'
    ensures forall j :: 0 <= j < n ==> s[j] != '\0'
  {
    n := 0;
    while s[n] != '\0'
      invariant 0 <= n <= bound
      invariant forall j :: 0 <= j < n ==> s[j] != '\0'
      decreases bound - n
    {
      n := n + 1;
    }
  }

  /**
   * tfsRead: after the checks and the request, a negative reply is returned as it
   * is; otherwise strncpy copies at most len - 1 characters of the reply into
   * buffer, padding with NULs, buffer[len - 1] is set to NUL and strlen(buffer) is
   * returned.
   */
  method TfsRead(fd: int, buffer: array<char>, len: int, reply: string) returns (r: Answer)
    requires len <= 0 || len <= buffer.Length
    modifies buffer
    ensures !FdOk(fd) || len <= 0 ==> r == ErrorOther && buffer[..] == old(buffer[..])
    ensures FdOk(fd) && len > 0 && Atoi(reply) < 0 ==> r == Returned(Atoi(reply)) && buffer[..] == old(buffer[..])
    ensures FdOk(fd) && len > 0 && Atoi(reply) >= 0 ==>
      var k := Min(len - 1, |CStr(reply)|);
      && r == Returned(k)
      && buffer[..k] == CStr(reply)[..k]
      && (forall j :: k <= j < len ==> buffer[j] == '\0')
      && buffer[len..] == old(buffer[len..])
  {
    if fd < 0 || fd > 4 || len <= 0 {
      return ErrorOther;
    }
    var code := Atoi(reply);
    if code < 0 {
      return Returned(code);
    }
    var n := CopyOut(buffer, CStr(reply), len);
    r := Returned(n);
  }

  /** strncpy(buffer, reply, len - 1), buffer[len - 1] = '\0', then strlen(buffer). */
  method CopyOut(buffer: array<char>, text: string, len: int) returns (n: int)
    requires 0 < len <= buffer.Length && '\0' !in text
    modifies buffer
    ensures n == Min(len - 1, |text|)
    ensures buffer[..n] == text[..n]
    ensures forall j :: n <= j < len ==> buffer[j] == '\0'
    ensures buffer[len..] == old(buffer[len..])
  {
    ghost var original := buffer[..];
    StrNCopy(buffer, text, len - 1);
    assert buffer[len - 1..] == original[len - 1..];
    assert forall k :: len <= k < buffer.Length ==> buffer[k] == original[k] by {
      forall k | len <= k < buffer.Length ensures buffer[k] == original[k] {
        assert buffer[k] == buffer[len - 1..][k - (len - 1)];
      }
    }
    buffer[len - 1] := '\0';
    assert buffer[len..] == original[len..];
    var m := Min(len - 1, |text|);
    assert buffer[..m] == text[..m];
    assert buffer[m] == '\0';
    assert forall j :: 0 <= j < m ==> buffer[j] != '\0' by {
      forall j | 0 <= j < m ensures buffer[j] != '\0' {
        assert buffer[j] == text[j] && text[j] in text;
      }
    }
    n := StrLen(buffer, len - 1);
  }

  // ---------------------------------------------------------------- the server reads back what was sent

  /** A line of a command character and one word rescans as that character and word. */
  lemma RescanOne(prev: Ex3Protocol.Scanned, c: char, w: string)
    requires c != '\0' && IsWord(w)
    ensures Ex3Protocol.Rescan(prev, [c] + " " + w) == Ex3Protocol.Scanned(c, w, prev.arg2)
  {
    ScanOneWord(c, w, 2);
  }

  /** A line of a command character and two words rescans as that character and words. */
  lemma RescanTwo(prev: Ex3Protocol.Scanned, c: char, w1: string, w2: string)
    requires c != '\0' && IsWord(w1) && IsWord(w2)
    ensures Ex3Protocol.Rescan(prev, [c] + " " + w1 + " " + w2) == Ex3Protocol.Scanned(c, w1, w2)
  {
    ScanTwoWords(c, w1, w2);
  }

  /**
   * A valid tfsCreate request scans, on the server, as token 'c', the file name and
   * the two permission digits; the raw characters the server passes to
   * inode_create are therefore the digit characters, '0' + permission.
   */
  lemma CreateRoundTrip(filename: string, ownerPermissions: int, othersPermissions: int, prev: Ex3Protocol.Scanned)
    requires IsWord(filename) && |filename| <= 94 && PermOk(ownerPermissions) && PermOk(othersPermissions)
    ensures CreateCall(filename, ownerPermissions, othersPermissions).Send?
    ensures var sc := Ex3Protocol.Rescan(prev, CreateCall(filename, ownerPermissions, othersPermissions).request);
      && sc.token == 'c' && sc.arg1 == filename
      && Ex3Protocol.CharAt(sc.arg2, 0) as int == '0' as int + ownerPermissions
      && Ex3Protocol.CharAt(sc.arg2, 1) as int == '0' as int + othersPermissions
  {
    var o, p := DigitChar(ownerPermissions), DigitChar(othersPermissions);
    assert o as int == '0' as int + ownerPermissions && p as int == '0' as int + othersPermissions;
    var perms := [o, p];
    ItoaSmall(ownerPermissions);
    ItoaSmall(othersPermissions);
    assert IsWord(perms);
    var line := ['c'] + " " + filename + " " + perms;
    assert "c " + filename + " " + Itoa(ownerPermissions) + Itoa(othersPermissions) == line;
    assert CreateCall(filename, ownerPermissions, othersPermissions) == Send(line);
    RescanTwo(prev, 'c', filename, perms);
  }

  /** A valid tfsOpen request scans as token 'o', the file name, and a word atoi reads as the mode. */
  lemma OpenRoundTrip(filename: string, mode: int, prev: Ex3Protocol.Scanned)
    requires IsWord(filename) && |filename| <= 95 && PermOk(mode)
    ensures OpenCall(filename, mode).Send?
    ensures var sc := Ex3Protocol.Rescan(prev, OpenCall(filename, mode).request);
      sc.token == 'o' && sc.arg1 == filename && Atoi(sc.arg2) == mode
  {
    ItoaSmall(mode);
    ItoaIsWord(mode);
    AtoiItoa(mode);
    var line := ['o'] + " " + filename + " " + Itoa(mode);
    assert "o " + filename + " " + Itoa(mode) == line;
    assert OpenCall(filename, mode) == Send(line);
    RescanTwo(prev, 'o', filename, Itoa(mode));
  }

  /** tfsDelete's request scans as token 'd' and the file name; arg2 keeps what it held. */
  lemma DeleteRoundTrip(filename: string, prev: Ex3Protocol.Scanned)
    requires IsWord(filename) && |filename| <= 97
    ensures DeleteCall(filename).Send?
    ensures Ex3Protocol.Rescan(prev, DeleteCall(filename).request) == Ex3Protocol.Scanned('d', filename, prev.arg2)
  {
    var line := ['d'] + " " + filename;
    assert "d " + filename == line;
    assert DeleteCall(filename) == Send(line);
    RescanOne(prev, 'd', filename);
  }

  /** tfsRename's request scans as token 'r', the old name and the new name. */
  lemma RenameRoundTrip(filenameOld: string, filenameNew: string, prev: Ex3Protocol.Scanned)
    requires IsWord(filenameOld) && IsWord(filenameNew) && |filenameOld| + |filenameNew| <= 96
    ensures RenameCall(filenameOld, filenameNew).Send?
    ensures Ex3Protocol.Rescan(prev, RenameCall(filenameOld, filenameNew).request)
      == Ex3Protocol.Scanned('r', filenameOld, filenameNew)
  {
    var line := ['r'] + " " + filenameOld + " " + filenameNew;
    assert "r " + filenameOld + " " + filenameNew == line;
    assert RenameCall(filenameOld, filenameNew) == Send(line);
    RescanTwo(prev, 'r', filenameOld, filenameNew);
  }

  /** tfsClose's request scans as token 'x' and a word atoi reads as the descriptor. */
  lemma CloseRoundTrip(fd: int, prev: Ex3Protocol.Scanned)
    requires FdOk(fd)
    ensures CloseCall(fd).Send?
    ensures var sc := Ex3Protocol.Rescan(prev, CloseCall(fd).request);
      sc.token == 'x' && Atoi(sc.arg1) == fd && sc.arg2 == prev.arg2
  {
    ItoaSmall(fd);
    ItoaIsWord(fd);
    AtoiItoa(fd);
    var line := ['x'] + " " + Itoa(fd);
    assert "x " + Itoa(fd) == line;
    assert CloseCall(fd) == Send(line);
    RescanOne(prev, 'x', Itoa(fd));
  }

  /** tfsRead's request scans as token 'l' and two words atoi reads as the descriptor and the length. */
  lemma ReadRoundTrip(fd: int, len: int, prev: Ex3Protocol.Scanned)
    requires FdOk(fd) && len > 0 && |Itoa(len)| <= 95
    ensures ReadCall(fd, len).Send?
    ensures var sc := Ex3Protocol.Rescan(prev, ReadCall(fd, len).request);
      sc.token == 'l' && Atoi(sc.arg1) == fd && Atoi(sc.arg2) == len
  {
    ItoaSmall(fd);
    ItoaIsWord(fd);
    ItoaIsWord(len);
    AtoiItoa(fd);
    AtoiItoa(len);
    var line := ['l'] + " " + Itoa(fd) + " " + Itoa(len);
    assert "l " + Itoa(fd) + " " + Itoa(len) == line;
    assert ReadCall(fd, len) == Send(line);
    RescanTwo(prev, 'l', Itoa(fd), Itoa(len));
  }

  /**
   * tfsWrite's request fits the 5 + len characters of command and the server's
   * receive buffer, and the server's "drop the first four characters" gives back
   * the first len characters of the buffer (at most MAX_INPUT_SIZE - 5 of them),
   * while sscanf reads the descriptor from it.
   */
  lemma WriteRoundTrip(fd: int, buffer: string, len: int, prev: Ex3Protocol.Scanned)
    requires FdOk(fd) && buffer != [] && CString(buffer) && len > 0
    ensures WriteCall(fd, buffer, len).Send?
    ensures var request := WriteCall(fd, buffer, len).request;
      && |request| + 1 <= 5 + len
      && |request| <= MAX_INPUT_SIZE - 1
      && |CStr(request)| > 4
      && CStr(request)[4..] == buffer[..Min(Min(len, MAX_INPUT_SIZE - 5), |buffer|)]
      && Atoi(Ex3Protocol.Rescan(prev, request).arg1) == fd
  {
    ItoaSmall(fd);
    ItoaIsWord(fd);
    AtoiItoa(fd);
    var d := Itoa(fd);
    var head := ['w'] + " " + d + " ";
    assert "w " + d + " " + buffer == head + buffer;
    var n := Min(len, MAX_INPUT_SIZE - 5);
    var rest := buffer[..Min(n, |buffer|)];
    assert Min(5 + len, MAX_INPUT_SIZE) == 5 + n;
    BoundedAfter(head, buffer, n);
    assert WriteCall(fd, buffer, len) == Send(head + rest);
    assert head + rest == ['w'] + " " + d + " " + rest;
    WriteRequestScans(prev, d, rest);
  }

  /** snprintf into 5 + n characters keeps the 4-character head and n characters after it. */
  lemma BoundedAfter(head: string, s: string, n: int)
    requires |head| == 4 && n > 0
    ensures Bounded(head + s, 5 + n) == head + s[..Min(n, |s|)]
  {
    if |head + s| >= 5 + n {
      assert (head + s)[..4 + n] == head + s[..n];
    } else {
      assert s[..|s|] == s;
    }
  }

  /** The server's view of a write request: the words after 'w' start with the descriptor. */
  lemma WriteRequestScans(prev: Ex3Protocol.Scanned, d: string, rest: string)
    requires |d| == 1 && IsWord(d) && rest != [] && '\0' !in rest
    ensures var request := ['w'] + " " + d + " " + rest;
      && CStr(request) == request
      && Ex3Protocol.Rescan(prev, request).arg1 == d
  {
    var tail := d + " " + rest;
    var request := ['w'] + " " + d + " " + rest;
    assert request == ['w'] + " " + tail;
    IsWordNoNul(d);
    assert '\0' !in request;
    CStrOfPlain(request);
    assert request[1..] == " " + tail;
    WordsLeadingSpace(tail);
    WordsCons(d, rest);
  }


  /**
   * tfsUnmount's "f" is exactly the message that ends the server's session loop,
   * which then frees every slot.
   */
  lemma UnmountEndsSession(env: Ex3Protocol.Env, s: Ex3Protocol.Session, w: Ex3Protocol.World, req: Ex3Protocol.Request)
    requires Ex3Protocol.EnvOk(env, w) && |s.table| == Ex3Protocol.FILE_TABLE_SIZE
    requires req.message == UnmountCall().request
    ensures var r := Ex3Protocol.Step(env, s, w, req);
      && r.outcome == Ex3Protocol.Unmount
      && r.world == w
      && forall k :: 0 <= k < Ex3Protocol.FILE_TABLE_SIZE ==> r.session.table[k] == Ex3Protocol.FREE
  {
    assert CStr("f") == "f";
    Ex3Protocol.EndOfSession(env, s, w, req);
  }

  /**
   * Every number the server writes with snprintf("%d") comes back unchanged from a
   * call that sent its request; tfsClose's four-byte receive is long enough for
   * every reply code and descriptor.
   */
  lemma RepliesPassThrough(call: Call, code: int, fd: int)
    ensures call.Send? ==> Answered(call, Itoa(code)) == Returned(code)
    ensures FdOk(fd) && -11 <= code <= 9 ==> TfsClose(fd, Itoa(code)) == Returned(code)
  {
    AtoiItoa(code);
    if -11 <= code <= 9 {
      ItoaSmall(code);
      assert |Itoa(code)| <= 3;
      assert Itoa(code)[..Min(4, |Itoa(code)|)] == Itoa(code);
    }
  }

  /**
   * The permissions stored for a file made through tfsCreate are the digit
   * characters, so open's test, which compares them with the mode as a number,
   * admits every mode 0..3 even for a file created with no permissions at all.
   */
  lemma CreatedPermissionsAdmitEveryMode(filename: string, perm: int, othersPermissions: int, mode: int, prev: Ex3Protocol.Scanned)
    requires IsWord(filename) && |filename| <= 94 && PermOk(perm) && PermOk(othersPermissions) && PermOk(mode)
    ensures var sc := Ex3Protocol.Rescan(prev, CreateCall(filename, perm, othersPermissions).request);
      && !Ex3Protocol.Denied(mode, Ex3Protocol.CharAt(sc.arg2, 0) as int)
      && !Ex3Protocol.Denied(mode, Ex3Protocol.CharAt(sc.arg2, 1) as int)
  {
    CreateRoundTrip(filename, perm, othersPermissions, prev);
  }

  // ---------------------------------------------------------------- tfsWrite's command buffer

  /**
   * As written, tfsWrite lets snprintf store up to 100 characters into an array
   * of 5 + len: tfsWrite(0, "abcdef", 1) formats eleven characters, NUL included,
   * into six.
   */
  lemma WriteAsWrittenOverruns()
    ensures WriteCallAsWritten(0, "abcdef", 1) == Send("w 0 abcdef")
    ensures |WriteCallAsWritten(0, "abcdef", 1).request| + 1 > 5 + 1
  {
    ItoaSmall(0);
  }
}
