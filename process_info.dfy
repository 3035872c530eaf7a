/**
 * The pure byte logic of ProcessInfo: the path of a process's cmdline file,
 * the command-line slice of a macOS KERN_PROCARGS2 buffer, the prefix test of
 * a /proc/<pid>/status line, and the walk up the parent chain that resolves
 * the user of a process started by root.
 */
module ProcessInfo {
  import opened Wrappers
  import opened Buffers
  import Decimal

  newtype u8 = x: int | 0 <= x < 256

  // ---------------------------------------------------------------------
  // getProcPidCmdLine
  // ---------------------------------------------------------------------

  /** Room for "/proc/", the ten digits of the largest pid_t, "/cmdline" and a NUL. */
  const CmdLineBufferSize := 25

  /** The largest pid_t. */
  const MaxPid := 0x7FFF_FFFF

  /** The path that getProcPidCmdLine spells out. */
  function CmdLinePath(pid: nat): string {
    "/proc/" + Decimal.Decimal(pid) + "/cmdline"
  }

  /** The C string a character buffer holds: everything before its first NUL. */
  function CString(s: seq<char>): (c: seq<char>)
    ensures c <= s
    ensures forall i :: 0 <= i < |c| ==> c[i] != '\0'
    ensures |c| < |s| ==> s[|c|] == '\0'
  {
    if s == [] || s[0] == '\0' then [] else [s[0]] + CString(s[1..])
  }

  /** A buffer holding `p` and then a NUL reads back as the C string `p`. */
  lemma {:induction false} CStringOfTerminated(p: seq<char>, rest: seq<char>)
    requires forall i :: 0 <= i < |p| ==> p[i] != '\0'
    ensures CString(p + ['\0'] + rest) == p
  {
    if p != [] {
      assert (p + ['\0'] + rest)[1..] == p[1..] + ['\0'] + rest;
      CStringOfTerminated(p[1..], rest);
    }
  }

  /** getProcPidCmdLine: "/proc/", the pid's digits, then "/cmdline" with its NUL. */
  method GetProcPidCmdLine(pid: nat) returns (path: array<char>)
    requires pid <= MaxPid
    ensures fresh(path) && path.Length == CmdLineBufferSize
    ensures |CmdLinePath(pid)| < CmdLineBufferSize
    ensures path[..|CmdLinePath(pid)| + 1] == CmdLinePath(pid) + ['\0']
    ensures CString(path[..]) == CmdLinePath(pid)
  {
    CmdLinePathFits(pid);
    path := new char[CmdLineBufferSize];
    CopyInto(path, 0, "/proc/");
    var digitString := Decimal.Decimal(pid);
    CopyInto(path, 6, digitString);
    var digits := |digitString|;
    assert path[..6 + digits] == path[..6] + path[6..6 + digits];
    ghost var front := path[..6 + digits];
    assert front == "/proc/" + digitString;
    CopyInto(path, 6 + digits, "/cmdline\0");
    assert path[..6 + digits + 9] == path[..6 + digits] + path[6 + digits..6 + digits + 9];
    assert path[..6 + digits + 9] == front + "/cmdline\0";
    assert "/proc/" + digitString + "/cmdline\0" == CmdLinePath(pid) + ['\0'];
    TerminatedBuffer(path[..], CmdLinePath(pid));
  }

  /** A buffer that starts with `p` and a NUL holds the C string `p`. */
  lemma TerminatedBuffer(s: seq<char>, p: string)
    requires |p| < |s| && s[..|p| + 1] == p + ['\0']
    requires forall i :: 0 <= i < |p| ==> p[i] != '\0'
    ensures CString(s) == p
  {
    CStringOfTerminated(p, s[|p| + 1..]);
    assert s == p + ['\0'] + s[|p| + 1..];
  }

  /** The path and its NUL fit the buffer for every pid, and the largest pid fills it exactly. */
  lemma CmdLinePathFits(pid: nat)
    requires pid <= MaxPid
    ensures |CmdLinePath(pid)| + 1 <= CmdLineBufferSize
    ensures forall i :: 0 <= i < |CmdLinePath(pid)| ==> CmdLinePath(pid)[i] != '\0'
    ensures pid == MaxPid ==> |CmdLinePath(pid)| + 1 == CmdLineBufferSize
  {
    DigitCountBound(pid);
    CmdLinePathHasNoNul(pid);
  }

  /** A pid has at most ten digits, and the largest has exactly ten. */
  lemma DigitCountBound(pid: nat)
    requires pid <= MaxPid
    ensures |Decimal.Decimal(pid)| <= 10
    ensures pid == MaxPid ==> |Decimal.Decimal(pid)| == 10
  {
    Decimal.Pow10Of9And10();
    Decimal.DecimalLength(pid, 10);
    if pid == MaxPid {
      Decimal.DecimalLengthAtLeast(pid, 10);
    }
  }

  /** The path is made of printable characters only. */
  lemma CmdLinePathHasNoNul(pid: nat)
    ensures forall i :: 0 <= i < |CmdLinePath(pid)| ==> CmdLinePath(pid)[i] != '\0'
  {
    var digits := Decimal.Decimal(pid);
    var path := CmdLinePath(pid);
    forall i | 0 <= i < |path|
      ensures path[i] != '\0'
    {
      if 6 <= i < 6 + |digits| {
        assert path[i] == digits[i - 6];
      }
    }
  }

  /** The three paths the cache test spells out. */
  lemma CmdLinePathExamples()
    ensures CmdLinePath(0) == "/proc/0/cmdline"
    ensures CmdLinePath(1234) == "/proc/1234/cmdline"
  {
    DecimalOf1234();
  }

  lemma DecimalOf1234()
    ensures Decimal.Decimal(1234) == "1234"
  {
    assert Decimal.Decimal(12) == "12" by {
      assert Decimal.Decimal(1) == "1";
    }
    assert Decimal.Decimal(123) == "123";
  }

  // ---------------------------------------------------------------------
  // extractCommandLineFromProcArgs
  // ---------------------------------------------------------------------

  /** The StringPiece returned: a literal message, or [start, end) of the buffer. */
  datatype CommandLine = Message(text: string) | Span(start: nat, end: nat)

  const Underflow := "<err:EUNDERFLOW>"
  const BogusArgc := "<err:BOGUS_ARGC>"

  /** sizeof(int) */
  const IntSize := 4

  /** The int that memcpy reads from the first four bytes, little-endian two's complement. */
  function ArgCount(b: seq<u8>): (argc: int)
    requires |b| >= IntSize
    ensures -0x8000_0000 <= argc < 0x8000_0000
  {
    var u := b[0] as int + 0x100 * b[1] as int + 0x1_0000 * b[2] as int + 0x100_0000 * b[3] as int;
    if u < 0x8000_0000 then u else u - 0x1_0000_0000
  }

  /** The first NUL at or after `i`, or the end of the buffer. */
  function NextNul(b: seq<u8>, i: nat): (j: nat)
    requires i <= |b|
    ensures i <= j <= |b|
    ensures forall k :: i <= k < j ==> b[k] != 0
    ensures j < |b| ==> b[j] == 0
    decreases |b| - i
  {
    if i == |b| || b[i] == 0 then i else NextNul(b, i + 1)
  }

  /** The first non-NUL at or after `i`, or the end of the buffer. */
  function NextNonNul(b: seq<u8>, i: nat): (j: nat)
    requires i <= |b|
    ensures i <= j <= |b|
    ensures forall k :: i <= k < j ==> b[k] == 0
    ensures j < |b| ==> b[j] != 0
    decreases |b| - i
  {
    if i == |b| || b[i] != 0 then i else NextNonNul(b, i + 1)
  }

  /** The number of NULs in b[i..j]. */
  function NulCount(b: seq<u8>, i: nat, j: nat): nat
    requires i <= j <= |b|
    decreases j - i
  {
    if i == j then 0 else (if b[i] == 0 then 1 else 0) + NulCount(b, i + 1, j)
  }

  /** The position of the n-th NUL at or after `i`, or the end when fewer remain. */
  function NthNul(b: seq<u8>, i: nat, n: nat): (r: nat)
    requires i <= |b| && n >= 1
    ensures i <= r <= |b|
    ensures r < |b| ==> b[r] == 0 && NulCount(b, i, r) == n - 1
    ensures r == |b| ==> NulCount(b, i, |b|) < n
    decreases |b| - i
  {
    if i == |b| then |b|
    else if b[i] == 0 then (if n == 1 then i else NthNul(b, i + 1, n - 1))
    else NthNul(b, i + 1, n)
  }

  /** Where the command line starts: past the image path and the NULs after it. */
  function CommandLineStart(b: seq<u8>): nat
    requires |b| >= IntSize
  {
    NextNonNul(b, NextNul(b, IntSize))
  }

  /** What extractCommandLineFromProcArgs returns for the buffer `b`. */
  function Extract(b: seq<u8>): CommandLine {
    if |b| < IntSize then Message(Underflow)
    else if ArgCount(b) < 1 then Message(BogusArgc)
    else Span(CommandLineStart(b), NthNul(b, CommandLineStart(b), ArgCount(b)))
  }

  /** extractCommandLineFromProcArgs: three cursor walks over the buffer. */
  method ExtractCommandLineFromProcArgs(procargs: seq<u8>) returns (r: CommandLine)
    ensures r == Extract(procargs)
  {
    var len := |procargs|;
    if len < IntSize {
      return Message(Underflow);
    }
    var argCount := ArgCount(procargs);
    if argCount < 1 {
      return Message(BogusArgc);
    }
    var end := len;
    var cmdline := IntSize;
    while cmdline < end
      invariant IntSize <= cmdline <= end
      invariant NextNul(procargs, cmdline) == NextNul(procargs, IntSize)
      decreases end - cmdline
    {
      if procargs[cmdline] == 0 {
        break;
      }
      cmdline := cmdline + 1;
    }
    ghost var image := cmdline;
    while cmdline < end
      invariant image <= cmdline <= end
      invariant NextNonNul(procargs, cmdline) == CommandLineStart(procargs)
      decreases end - cmdline
    {
      if procargs[cmdline] != 0 {
        break;
      }
      cmdline := cmdline + 1;
    }
    var ptr := cmdline;
    while argCount > 0 && ptr < end
      invariant cmdline <= ptr <= end && argCount >= 1
      invariant NthNul(procargs, ptr, argCount) == NthNul(procargs, cmdline, ArgCount(procargs))
      decreases end - ptr
    {
      if procargs[ptr] == 0 {
        argCount := argCount - 1;
        if argCount == 0 {
          return Span(cmdline, ptr);
        }
      }
      ptr := ptr + 1;
    }
    return Span(cmdline, end);
  }

  /** The two error messages, each exactly when its condition holds. */
  lemma ExtractErrors(b: seq<u8>)
    ensures Extract(b) == Message(Underflow) <==> |b| < IntSize
    ensures Extract(b) == Message(BogusArgc) <==> |b| >= IntSize && ArgCount(b) < 1
    ensures Extract(b).Message? ==> Extract(b) == Message(Underflow) || Extract(b) == Message(BogusArgc)
  {
  }

  /** A returned span is a contiguous piece of the buffer past argc. */
  lemma ExtractIsSubrange(b: seq<u8>)
    requires Extract(b).Span?
    ensures IntSize <= Extract(b).start <= Extract(b).end <= |b|
  {
  }

  /**
   * The span starts right after the image path and the NUL run that follows
   * it: everything from the image path up to the start is NUL, and the image
   * path itself holds none.
   */
  lemma ExtractStart(b: seq<u8>)
    requires Extract(b).Span?
    ensures var s := Extract(b).start;
      exists p :: IntSize <= p <= s
        && (forall k :: IntSize <= k < p ==> b[k] != 0)
        && (forall k :: p <= k < s ==> b[k] == 0)
        && (p < |b| ==> b[p] == 0)
        && (s < |b| ==> b[s] != 0)
  {
    var p := NextNul(b, IntSize);
    var s := NextNonNul(b, p);
    assert Extract(b).start == s;
    assert IntSize <= p <= s;
    assert forall k :: IntSize <= k < p ==> b[k] != 0;
    assert forall k :: p <= k < s ==> b[k] == 0;
  }

  /**
   * The span ends just before the argc-th NUL counted from its start, so it
   * holds argc - 1 NULs; when fewer than argc NULs remain it runs to the end.
   */
  lemma ExtractEnd(b: seq<u8>)
    requires Extract(b).Span?
    ensures var Span(s, e) := Extract(b);
      (e < |b| ==> b[e] == 0 && NulCount(b, s, e) == ArgCount(b) - 1)
      && (e == |b| ==> NulCount(b, s, |b|) < ArgCount(b))
  {
  }

  /** A buffer holding two arguments and an environment entry. */
  lemma ExtractExample()
    ensures var b: seq<u8> := [2, 0, 0, 0, 'l' as u8, 's' as u8, 0, 0, 'l' as u8, 's' as u8, 0, '-' as u8, 'l' as u8, 0, 'X' as u8, 0];
      Extract(b) == Span(8, 13)
  {
    var b: seq<u8> := [2, 0, 0, 0, 'l' as u8, 's' as u8, 0, 0, 'l' as u8, 's' as u8, 0, '-' as u8, 'l' as u8, 0, 'X' as u8, 0];
    assert NextNul(b, 4) == 6 by {
      assert NextNul(b, 5) == 6;
    }
    assert NextNonNul(b, 6) == 8 by {
      assert NextNonNul(b, 7) == 8;
    }
    assert NthNul(b, 8, 2) == 13 by {
      assert NthNul(b, 11, 1) == 13 by {
        assert NthNul(b, 12, 1) == 13;
      }
      assert NthNul(b, 9, 2) == 13;
    }
  }

  // ---------------------------------------------------------------------
  // StatusInfo::parseStatusLine
  // ---------------------------------------------------------------------

  /** The istringstream read of the text after the prefix: whether the read succeeded, and the value it stores. */
  type NumberReader = string -> (bool, int)

  /** parseStatusLine: the parsed number when the line starts with `entry`, else false and `val` unchanged. */
  function ParseStatusLine(line: string, entry: string, val: int, read: NumberReader): (r: (bool, int))
    ensures r.0 ==> entry <= line
    ensures !(entry <= line) ==> r == (false, val)
  {
    if entry <= line then read(line[|entry|..]) else (false, val)
  }

  /** With the prefix present, the result is the read of the rest of the line. */
  lemma ParseStatusLineReadsRest(prefix: string, rest: string, val: int, read: NumberReader)
    ensures ParseStatusLine(prefix + rest, prefix, val, read) == read(rest)
  {
    assert prefix <= prefix + rest;
    assert (prefix + rest)[|prefix|..] == rest;
  }

  // ---------------------------------------------------------------------
  // readUserInfo
  // ---------------------------------------------------------------------

  /** What /proc/<pid>/status yields: the parent pid and the real uid. */
  datatype Status = Status(ppid: int, uid: nat)

  /** StatusInfo, as StatusInfo::create returns it. */
  datatype StatusInfo = StatusInfo(pid: int, ppid: int, uid: nat)

  datatype ProcessUserInfo = ProcessUserInfo(ruid: nat, euid: nat)

  /** StatusInfo::create with its reads taken from `table`; a missing pid is a failed read. */
  function Create(table: map<int, Status>, pid: int): Option<StatusInfo> {
    if pid in table then Some(StatusInfo(pid, table[pid].ppid, table[pid].uid)) else None
  }

  /** The do-while condition: walk on from a root process other than init. */
  predicate WalkOn(s: StatusInfo, resolveRootUser: bool) {
    s.pid != 1 && s.uid == 0 && resolveRootUser
  }

  /**
   * The parent chain in `table` terminates: every root process other than
   * init, which the walk may leave, has a parent of smaller rank (a process
   * tree has its depth as rank).
   */
  ghost predicate Ranked(table: map<int, Status>, rank: map<int, nat>) {
    forall p :: p in table ==>
      (p in rank && (p != 1 && table[p].uid == 0 && table[p].ppid in table ==> table[p].ppid in rank && rank[table[p].ppid] < rank[p]))
  }

  /** The uid of the last status the walk from `pid` reads. */
  ghost function LastUid(table: map<int, Status>, rank: map<int, nat>, pid: int, resolveRootUser: bool): (uid: nat)
    requires Ranked(table, rank) && pid in table
    ensures exists q :: q in table && table[q].uid == uid
    decreases rank[pid]
  {
    var s := Create(table, pid).value;
    if WalkOn(s, resolveRootUser) && s.ppid in table then LastUid(table, rank, s.ppid, resolveRootUser)
    else s.uid
  }

  /** What readUserInfo returns on Linux, before the username lookups. */
  ghost function UserInfo(table: map<int, Status>, rank: map<int, nat>, pid: int, resolveRootUser: bool): Option<ProcessUserInfo>
    requires Ranked(table, rank)
  {
    if pid !in table then None
    else Some(ProcessUserInfo(LastUid(table, rank, pid, resolveRootUser), table[pid].uid))
  }

  /** The termination measure of the walk: the rank of the next pid to read. */
  ghost function NextRank(table: map<int, Status>, rank: map<int, nat>, next: int): nat
    requires Ranked(table, rank)
  {
    if next in table then rank[next] + 1 else 0
  }

  /** readUserInfo's do-while walk up the parent chain. */
  method ReadUserInfo(pid: int, resolveRootUser: bool, table: map<int, Status>, ghost rank: map<int, nat>)
    returns (userInfo: Option<ProcessUserInfo>)
    requires Ranked(table, rank)
    ensures userInfo == UserInfo(table, rank, pid, resolveRootUser)
  {
    ghost var first := pid;
    var pid := pid;
    userInfo := None;
    var status: Option<StatusInfo> := None;
    while true
      invariant status.None? ==> pid == first && userInfo.None?
      invariant status.Some? ==> status.value.pid in table && status == Create(table, status.value.pid)
      invariant status.Some? ==> WalkOn(status.value, resolveRootUser)
      invariant status.Some? ==> first in table && userInfo.Some?
      invariant status.Some? ==> userInfo.value.euid == table[first].uid
      invariant status.Some? ==> userInfo.value.ruid == status.value.uid
      invariant status.Some? ==> LastUid(table, rank, first, resolveRootUser) == LastUid(table, rank, status.value.pid, resolveRootUser)
      decreases NextRank(table, rank, if status.Some? then status.value.ppid else pid)
    {
      if status.Some? {
        pid := status.value.ppid;
      }
      status := Create(table, pid);
      if status.None? {
        break;
      }
      if userInfo.None? {
        userInfo := Some(ProcessUserInfo(status.value.uid, status.value.uid));
      }
      userInfo := Some(userInfo.value.(ruid := status.value.uid));
      if !WalkOn(status.value, resolveRootUser) {
        break;
      }
    }
  }

  /** Without resolveRootUser only the first process is read: ruid == euid. */
  lemma NoResolveReadsOnce(table: map<int, Status>, rank: map<int, nat>, pid: int)
    requires Ranked(table, rank) && pid in table
    ensures UserInfo(table, rank, pid, false) == Some(ProcessUserInfo(table[pid].uid, table[pid].uid))
  {
  }

  /** A process not run by root, or init itself, reports its own uid. */
  lemma NonRootStops(table: map<int, Status>, rank: map<int, nat>, pid: int, resolveRootUser: bool)
    requires Ranked(table, rank) && pid in table
    requires table[pid].uid != 0 || pid == 1
    ensures UserInfo(table, rank, pid, resolveRootUser) == Some(ProcessUserInfo(table[pid].uid, table[pid].uid))
  {
  }

  /** A root process reports the uid of its parent's walk; if its parent cannot be read, its own. */
  lemma RootTakesParentUid(table: map<int, Status>, rank: map<int, nat>, pid: int)
    requires Ranked(table, rank) && pid in table
    requires table[pid].uid == 0 && pid != 1
    ensures table[pid].ppid in table ==>
      UserInfo(table, rank, pid, true) == Some(ProcessUserInfo(LastUid(table, rank, table[pid].ppid, true), 0))
    ensures table[pid].ppid !in table ==>
      UserInfo(table, rank, pid, true) == Some(ProcessUserInfo(0, 0))
  {
  }

  /** A process whose status cannot be read has no user info. */
  lemma UnreadableHasNoInfo(table: map<int, Status>, rank: map<int, nat>, pid: int, resolveRootUser: bool)
    requires Ranked(table, rank) && pid !in table
    ensures UserInfo(table, rank, pid, resolveRootUser) == None
  {
  }

  /** sudo run by uid 1000: root process 30 under shell 20 under init. */
  lemma ReadUserInfoExample()
    ensures var table := map[1 := Status(0, 0), 20 := Status(1, 1000), 30 := Status(20, 0)];
      var rank := map[1 := 0, 20 := 1, 30 := 2];
      Ranked(table, rank) && UserInfo(table, rank, 30, true) == Some(ProcessUserInfo(1000, 0))
  {
    var table := map[1 := Status(0, 0), 20 := Status(1, 1000), 30 := Status(20, 0)];
    var rank := map[1 := 0, 20 := 1, 30 := 2];
    assert LastUid(table, rank, 20, true) == 1000;
  }
}
