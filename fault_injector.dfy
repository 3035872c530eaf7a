/**
 * The fault-injection rule engine: a rule table (key class -> ordered faults),
 * a blocked-call registry (key class -> ordered suspended calls), and the
 * dispatch from a matched behavior to the effect a check observes.
 *
 * The regular-expression engine is a collaborator: the injector is built with
 * `matches(patternText, keyValue)`, a full-string match of a value against the
 * pattern compiled from that text. A stored pattern is kept as its source
 * text, which is what `keyValueRegex.str()` gives back.
 *
 * Promises are ids handed out by a counter; resolving one (setValue or
 * setException) appends to a ghost log.
 */
module FaultInjection {
  import opened Wrappers

  /** A folly::exception_wrapper; only its message is modelled. */
  datatype Exception = Exception(what: string)

  const DisabledMessage: string := "fault injection is disabled"
  const DestroyedMessage: string := "FaultInjector destroyed"

  /** FaultBehavior: what a matched fault asks the check to do. */
  datatype Behavior =
    | NoOp                                              // folly::unit
    | Error(error: Exception)
    | Delay(duration: int, delayedError: Option<Exception>)    // milliseconds
    | Block
    | Kill

  /** A registered rule; countRemaining == 0 means unlimited. */
  datatype Fault = Fault(pattern: string, countRemaining: nat, behavior: Behavior)

  type PromiseId = nat

  /** A call suspended by a Block fault, with the promise it waits on. */
  datatype BlockedCheck = BlockedCheck(keyValue: string, promise: PromiseId)

  /** One promise fulfilment: None is setValue(), Some(e) is setException(e). */
  datatype Resolution = Resolution(promise: PromiseId, error: Option<Exception>)

  /** folly::Try<Unit>: a check either succeeds or carries an exception. */
  type Try = Result<(), Exception>

  /** The ImmediateFuture<Unit> a check returns. */
  datatype CheckFuture =
    | Ready(result: Try)                     // already completed
    | Sleeping(duration: int, result: Try)   // completes after the delay
    | Waiting(promise: PromiseId)            // completes when the promise is resolved
    | Aborted                                // abort(): the process is gone

  /** Full match of a key value against the pattern compiled from a text. */
  type Matcher = (string, string) -> bool

  type RuleTable = map<string, seq<Fault>>
  type Registry = map<string, seq<BlockedCheck>>

  /** The list stored for a key class; `operator[]` creates it empty. */
  function ListAt<V>(m: map<string, seq<V>>, keyClass: string): seq<V> {
    if keyClass in m then m[keyClass] else []
  }

  // ---------------------------------------------------------------------
  // Rule store and matcher (specification functions)
  // ---------------------------------------------------------------------

  /** The table after a successful registration: the fault goes last in its class. */
  function Register(m: RuleTable, keyClass: string, f: Fault): RuleTable {
    m[keyClass := ListAt(m, keyClass) + [f]]
  }

  /** What a registration call promises: refused when disabled, appended otherwise. */
  ghost predicate Injected(enabled: bool, before: RuleTable, after: RuleTable,
                           keyClass: string, f: Fault, r: Result<(), Exception>)
  {
    if enabled then r == Success(()) && after == Register(before, keyClass, f)
    else r == Failure(Exception(DisabledMessage)) && after == before
  }

  /** Index of the earliest fault whose pattern matches `value`. */
  function FirstMatch(matches: Matcher, s: seq<Fault>, value: string): (r: Option<nat>)
    ensures r.Some? ==> r.value < |s| && matches(s[r.value].pattern, value)
    ensures r.Some? ==> forall j :: 0 <= j < r.value ==> !matches(s[j].pattern, value)
    ensures r.None? ==> forall j :: 0 <= j < |s| ==> !matches(s[j].pattern, value)
  {
    if s == [] then None
    else if matches(s[0].pattern, value) then Some(0)
    else match FirstMatch(matches, s[1..], value)
      case None => None
      case Some(i) => Some(i + 1)
  }

  /**
   * The list after fault i fired: a bounded fault loses one trigger and is
   * erased when none are left; an unlimited one is untouched.
   */
  function Consume(s: seq<Fault>, i: nat): (r: seq<Fault>)
    requires i < |s|
    ensures s[i].countRemaining != 1 ==> |r| == |s| && r[i].pattern == s[i].pattern
    ensures s[i].countRemaining != 1 ==> forall j :: 0 <= j < |s| && j != i ==> r[j] == s[j]
    ensures s[i].countRemaining == 0 ==> r == s
    ensures s[i].countRemaining > 1 ==> r[i] == s[i].(countRemaining := s[i].countRemaining - 1)
    ensures s[i].countRemaining == 1 ==> |r| == |s| - 1
    ensures s[i].countRemaining == 1 ==> forall j :: 0 <= j < |r| ==> r[j] == s[if j < i then j else j + 1]
  {
    var c := s[i].countRemaining;
    if c == 0 then s
    else if c == 1 then s[..i] + s[i + 1..]
    else s[i := s[i].(countRemaining := c - 1)]
  }

  /** One lookup within a class list: the behavior to apply and the new list. */
  function FindInClass(matches: Matcher, s: seq<Fault>, value: string): (Behavior, seq<Fault>) {
    match FirstMatch(matches, s, value)
    case None => (NoOp, s)
    case Some(i) => (s[i].behavior, Consume(s, i))
  }

  /**
   * findFault on the whole table. An absent class yields NoOp. A class list
   * emptied by an expiry is stored back as an empty list, not erased.
   */
  function Find(matches: Matcher, m: RuleTable, keyClass: string, value: string): (Behavior, RuleTable) {
    if keyClass !in m then (NoOp, m)
    else
      var (b, s) := FindInClass(matches, m[keyClass], value);
      (b, m[keyClass := s])
  }

  /** `n` successive lookups of the same value in one class list. */
  function Repeat(matches: Matcher, s: seq<Fault>, value: string, n: nat): (seq<Behavior>, seq<Fault>)
    decreases n
  {
    if n == 0 then ([], s)
    else
      var (b, s1) := FindInClass(matches, s, value);
      var (bs, s2) := Repeat(matches, s1, value, n - 1);
      ([b] + bs, s2)
  }

  /** Index of the first fault whose stored pattern text is exactly `text`. */
  function PatternIndex(s: seq<Fault>, text: string): (r: Option<nat>)
    ensures r.Some? ==> r.value < |s| && s[r.value].pattern == text
    ensures r.Some? ==> forall j :: 0 <= j < r.value ==> s[j].pattern != text
    ensures r.None? ==> forall j :: 0 <= j < |s| ==> s[j].pattern != text
  {
    if s == [] then None
    else if s[0].pattern == text then Some(0)
    else match PatternIndex(s[1..], text)
      case None => None
      case Some(i) => Some(i + 1)
  }

  /** removeFault: whether a fault was removed, and the new table. */
  function Remove(m: RuleTable, keyClass: string, text: string): (RuleTable, bool) {
    if keyClass !in m then (m, false)
    else match PatternIndex(m[keyClass], text)
      case None => (m, false)
      case Some(i) =>
        var rest := m[keyClass][..i] + m[keyClass][i + 1..];
        (if rest == [] then m - {keyClass} else m[keyClass := rest], true)
  }

  // ---------------------------------------------------------------------
  // Blocked-call registry (specification functions)
  // ---------------------------------------------------------------------

  /** The blocked calls whose value's match against `pattern` is `keep`, in order. */
  function Filter(matches: Matcher, pattern: string, s: seq<BlockedCheck>, keep: bool): (r: seq<BlockedCheck>)
    ensures |r| <= |s|
  {
    if s == [] then []
    else
      var last := s[|s| - 1];
      Filter(matches, pattern, s[..|s| - 1], keep) + (if matches(pattern, last.keyValue) == keep then [last] else [])
  }

  /**
   * extractBlockedChecks: the matching calls, and the registry with only the
   * non-matching ones left (the class erased when none are left).
   */
  function Extract(matches: Matcher, m: Registry, keyClass: string, pattern: string): (Registry, seq<BlockedCheck>) {
    if keyClass !in m then (m, [])
    else
      var kept := Filter(matches, pattern, m[keyClass], false);
      (if kept == [] then m - {keyClass} else m[keyClass := kept], Filter(matches, pattern, m[keyClass], true))
  }

  /** The promise id of each element, in order. */
  function Promises<T>(s: seq<T>, promise: T -> PromiseId): (r: seq<PromiseId>)
    ensures |r| == |s| && forall i :: 0 <= i < |s| ==> r[i] == promise(s[i])
  {
    seq(|s|, i requires 0 <= i < |s| => promise(s[i]))
  }

  /** The promises of blocked calls, in blocking order. */
  function PromisesOf(s: seq<BlockedCheck>): seq<PromiseId> {
    Promises(s, (c: BlockedCheck) => c.promise)
  }

  /** The promises a resolution log has resolved, in resolution order. */
  function LogPromises(log: seq<Resolution>): seq<PromiseId> {
    Promises(log, (e: Resolution) => e.promise)
  }

  /** The log entries that resolving `checks` in order with `error` appends. */
  function Resolve(checks: seq<BlockedCheck>, error: Option<Exception>): (r: seq<Resolution>)
    ensures |r| == |checks|
    ensures forall i :: 0 <= i < |checks| ==> r[i] == Resolution(checks[i].promise, error)
  {
    seq(|checks|, i requires 0 <= i < |checks| => Resolution(checks[i].promise, error))
  }

  /** Some class of a nonempty key set; which one does not matter. */
  ghost function PickKey(keys: set<string>): (k: string)
    requires keys != {}
    ensures k in keys
  {
    var k :| k in keys; k
  }

  /** The promises pending under the given classes of the registry. */
  ghost function PendingIn(m: Registry, keys: set<string>): multiset<PromiseId>
    requires keys <= m.Keys
    decreases keys
  {
    if keys == {} then multiset{}
    else
      var k := PickKey(keys);
      multiset(PromisesOf(m[k])) + PendingIn(m, keys - {k})
  }

  /** Every promise still pending in the registry, across all classes. */
  ghost function PendingPromises(m: Registry): multiset<PromiseId> {
    PendingIn(m, m.Keys)
  }

  /** The promises ids 0 .. n-1, each once. */
  ghost function Issued(n: nat): multiset<PromiseId> {
    if n == 0 then multiset{} else Issued(n - 1) + multiset{n - 1}
  }

  /**
   * The registry invariant: no class holds an empty list, and the promises
   * 0 .. n-1 are each either pending in the registry or resolved in the log.
   */
  ghost predicate Invariant(m: Registry, log: seq<Resolution>, n: nat) {
    && (forall k :: k in m ==> m[k] != [])
    && PendingPromises(m) + multiset(LogPromises(log)) == Issued(n)
  }

  /** The first resolution recorded for a promise, if any. */
  function ResolutionOf(log: seq<Resolution>, p: PromiseId): (r: Option<Option<Exception>>)
    ensures r.None? <==> p !in LogPromises(log)
    ensures r.Some? ==> exists j :: 0 <= j < |log| && log[j] == Resolution(p, r.value)
  {
    if log == [] then None
    else if log[0].promise == p then Some(log[0].error)
    else
      assert LogPromises(log) == [log[0].promise] + LogPromises(log[1..]);
      var r := ResolutionOf(log[1..], p);
      assert r.Some? ==> exists j :: 0 <= j < |log| - 1 && log[1..][j] == Resolution(p, r.value);
      r
  }

  /** The case analysis of checkAsyncImpl, from behavior to the future returned. */
  function Dispatch(b: Behavior, promise: PromiseId): (f: CheckFuture)
    ensures f.Waiting? <==> b.Block?
    ensures f.Waiting? ==> f.promise == promise
    ensures f.Aborted? <==> b.Kill?
    ensures f.Sleeping? <==> b.Delay?
    ensures f.Ready? <==> b.NoOp? || b.Error?
    ensures f.Ready? ==> (f.result.Failure? <==> b.Error?)
    ensures f.Ready? && b.Error? ==> f.result.error == b.error
    ensures f.Sleeping? ==> f.duration == b.duration && (f.result.Failure? <==> b.delayedError.Some?)
    ensures f.Sleeping? && b.delayedError.Some? ==> f.result.error == b.delayedError.value
  {
    match b
    case NoOp => Ready(Success(()))
    case Error(cause) => Ready(Failure(cause))
    case Delay(duration, cause) =>
      Sleeping(duration, if cause.Some? then Failure(cause.value) else Success(()))
    case Block => Waiting(promise)
    case Kill => Aborted
  }

  /**
   * What waiting on a future yields once the log is as given: None while a
   * blocked call is unresolved, and for an aborted process.
   */
  function Settled(f: CheckFuture, log: seq<Resolution>): Option<Try> {
    match f
    case Ready(t) => Some(t)
    case Sleeping(_, t) => Some(t)
    case Waiting(p) =>
      (match ResolutionOf(log, p)
       case None => None
       case Some(e) => Some(if e.Some? then Failure(e.value) else Success(())))
    case Aborted => None
  }

  /**
   * The loop of extractBlockedChecks: a stable in-place partition. Matching
   * calls are moved out; the others are shifted forward by a write cursor.
   */
  method Partition(matches: Matcher, pattern: string, a: array<BlockedCheck>)
    returns (write: nat, moved: seq<BlockedCheck>)
    modifies a
    ensures write <= a.Length
    ensures a[..write] == Filter(matches, pattern, old(a[..]), false)
    ensures moved == Filter(matches, pattern, old(a[..]), true)
  {
    ghost var s := a[..];
    moved := [];
    write := 0;
    for read := 0 to a.Length
      invariant write <= read
      invariant a[..write] == Filter(matches, pattern, s[..read], false)
      invariant forall j :: read <= j < a.Length ==> a[j] == s[j]
      invariant moved == Filter(matches, pattern, s[..read], true)
    {
      assert s[..read + 1] == s[..read] + [s[read]];
      FilterSnoc(matches, pattern, s[..read], s[read], true);
      FilterSnoc(matches, pattern, s[..read], s[read], false);
      if matches(pattern, a[read].keyValue) {
        moved := moved + [a[read]];
      } else {
        if read != write {
          a[write] := a[read];
        }
        assert a[..write + 1] == a[..write] + [s[read]];
        write := write + 1;
      }
    }
    assert s[..a.Length] == s;
  }

  // ---------------------------------------------------------------------
  // The injector
  // ---------------------------------------------------------------------

  class FaultInjector {
    const enabled: bool
    const matches: Matcher
    var faults: RuleTable
    var blockedChecks: Registry
    var nextPromise: PromiseId
    ghost var log: seq<Resolution>

    /**
     * No registered class holds an empty blocked list, and every promise ever
     * created is either still pending in the registry or resolved in the log,
     * exactly once.
     */
    ghost predicate Valid()
      reads this
    {
      Invariant(blockedChecks, log, nextPromise)
    }

    constructor (enabled: bool, matches: Matcher)
      ensures Valid()
      ensures this.enabled == enabled && this.matches == matches
      ensures faults == map[] && blockedChecks == map[] && log == [] && nextPromise == 0
    {
      this.enabled := enabled;
      this.matches := matches;
      faults := map[];
      blockedChecks := map[];
      nextPromise := 0;
      log := [];
    }

    /** injectFault: the registration all the inject* calls share. */
    method InjectFault(keyClass: string, pattern: string, behavior: Behavior, count: nat)
      returns (r: Result<(), Exception>)
      modifies this`faults
      ensures Injected(enabled, old(faults), faults, keyClass, Fault(pattern, count, behavior), r)
    {
      if !enabled {
        return Failure(Exception(DisabledMessage));
      }
      faults := faults[keyClass := ListAt(faults, keyClass) + [Fault(pattern, count, behavior)]];
      r := Success(());
    }

    method InjectError(keyClass: string, pattern: string, error: Exception, count: nat)
      returns (r: Result<(), Exception>)
      modifies this`faults
      ensures Injected(enabled, old(faults), faults, keyClass, Fault(pattern, count, Error(error)), r)
    {
      r := InjectFault(keyClass, pattern, Error(error), count);
    }

    method InjectBlock(keyClass: string, pattern: string, count: nat)
      returns (r: Result<(), Exception>)
      modifies this`faults
      ensures Injected(enabled, old(faults), faults, keyClass, Fault(pattern, count, Block), r)
    {
      r := InjectFault(keyClass, pattern, Block, count);
    }

    method InjectDelay(keyClass: string, pattern: string, duration: int, count: nat)
      returns (r: Result<(), Exception>)
      modifies this`faults
      ensures Injected(enabled, old(faults), faults, keyClass, Fault(pattern, count, Delay(duration, None)), r)
    {
      r := InjectFault(keyClass, pattern, Delay(duration, None), count);
    }

    method InjectKill(keyClass: string, pattern: string, count: nat)
      returns (r: Result<(), Exception>)
      modifies this`faults
      ensures Injected(enabled, old(faults), faults, keyClass, Fault(pattern, count, Kill), r)
    {
      r := InjectFault(keyClass, pattern, Kill, count);
    }

    method InjectDelayedError(keyClass: string, pattern: string, duration: int, error: Exception, count: nat)
      returns (r: Result<(), Exception>)
      modifies this`faults
      ensures Injected(enabled, old(faults), faults, keyClass, Fault(pattern, count, Delay(duration, Some(error))), r)
    {
      r := InjectFault(keyClass, pattern, Delay(duration, Some(error)), count);
    }

    method InjectNoop(keyClass: string, pattern: string, count: nat)
      returns (r: Result<(), Exception>)
      modifies this`faults
      ensures Injected(enabled, old(faults), faults, keyClass, Fault(pattern, count, NoOp), r)
    {
      r := InjectFault(keyClass, pattern, NoOp, count);
    }

    /** removeFault: erase the first fault registered with exactly this text. */
    method RemoveFault(keyClass: string, pattern: string) returns (removed: bool)
      modifies this`faults
      ensures (faults, removed) == Remove(old(faults), keyClass, pattern)
    {
      if keyClass !in faults {
        return false;
      }
      var s := faults[keyClass];
      var i := 0;
      while i < |s|
        invariant 0 <= i <= |s|
        invariant forall j :: 0 <= j < i ==> s[j].pattern != pattern
      {
        if s[i].pattern == pattern {
          var rest := s[..i] + s[i + 1..];
          if rest == [] {
            faults := faults - {keyClass};
          } else {
            faults := faults[keyClass := rest];
          }
          return true;
        }
        i := i + 1;
      }
      removed := false;
    }

    /** findFault: first match wins; a bounded fault is consumed. */
    method FindFault(keyClass: string, value: string) returns (b: Behavior)
      modifies this`faults
      ensures (b, faults) == Find(matches, old(faults), keyClass, value)
    {
      if keyClass !in faults {
        return NoOp;
      }
      var s := faults[keyClass];
      var i := 0;
      while i < |s|
        invariant 0 <= i <= |s|
        invariant forall j :: 0 <= j < i ==> !matches(s[j].pattern, value)
      {
        if matches(s[i].pattern, value) {
          b := s[i].behavior;
          var count := s[i].countRemaining;
          if count > 0 {
            count := count - 1;
            if count == 0 {
              faults := faults[keyClass := s[..i] + s[i + 1..]];
            } else {
              faults := faults[keyClass := s[i := s[i].(countRemaining := count)]];
            }
          }
          assert FirstMatch(matches, s, value) == Some(i);
          assert faults == old(faults)[keyClass := Consume(s, i)];
          return;
        }
        i := i + 1;
      }
      b := NoOp;
      assert faults[keyClass := s] == faults;
    }

    /** addBlockedFault: suspend a call on a fresh promise. */
    method AddBlockedFault(keyClass: string, value: string) returns (p: PromiseId)
      requires Valid()
      modifies this`blockedChecks, this`nextPromise
      ensures Valid()
      ensures p == old(nextPromise) && nextPromise == p + 1
      ensures p !in old(PendingPromises(blockedChecks)) && p !in LogPromises(log)
      ensures blockedChecks == old(blockedChecks)[keyClass := ListAt(old(blockedChecks), keyClass) + [BlockedCheck(value, p)]]
    {
      p := nextPromise;
      AppendKeepsInvariant(blockedChecks, log, p, keyClass, value);
      blockedChecks := blockedChecks[keyClass := ListAt(blockedChecks, keyClass) + [BlockedCheck(value, p)]];
      nextPromise := nextPromise + 1;
    }

    /**
     * extractBlockedChecks: the class's calls are partitioned in place, the
     * tail after the kept calls is cut off, and an emptied class is erased.
     */
    method ExtractBlockedChecks(keyClass: string, pattern: string) returns (results: seq<BlockedCheck>)
      modifies this`blockedChecks
      ensures (blockedChecks, results) == Extract(matches, old(blockedChecks), keyClass, pattern)
    {
      results := [];
      if keyClass !in blockedChecks {
        return;
      }
      var s := blockedChecks[keyClass];
      var a := new BlockedCheck[|s|](i requires 0 <= i < |s| => s[i]);
      assert a[..] == s;
      var write;
      write, results := Partition(matches, pattern, a);
      if write == 0 {
        blockedChecks := blockedChecks - {keyClass};
      } else {
        blockedChecks := blockedChecks[keyClass := a[..write]];
      }
    }

    /** setValue / setException on each call, in order. */
    method ResolveEach(checks: seq<BlockedCheck>, error: Option<Exception>)
      modifies this`log
      ensures log == old(log) + Resolve(checks, error)
    {
      for i := 0 to |checks|
        invariant log == old(log) + Resolve(checks[..i], error)
      {
        log := log + [Resolution(checks[i].promise, error)];
      }
      assert checks[..|checks|] == checks;
    }

    /** Shared body of unblock and unblockWithError. */
    method UnblockMatching(keyClass: string, pattern: string, error: Option<Exception>) returns (n: nat)
      requires Valid()
      modifies this`blockedChecks, this`log
      ensures Valid()
      ensures var (rest, extracted) := Extract(matches, old(blockedChecks), keyClass, pattern);
        && blockedChecks == rest
        && n == |extracted|
        && log == old(log) + Resolve(extracted, error)
    {
      ghost var e := Extract(matches, blockedChecks, keyClass, pattern);
      UnblockKeepsInvariant(matches, blockedChecks, log, nextPromise, keyClass, pattern, error);
      var matched := ExtractBlockedChecks(keyClass, pattern);
      assert blockedChecks == e.0 && matched == e.1;
      ResolveEach(matched, error);
      n := |matched|;
    }

    method Unblock(keyClass: string, pattern: string) returns (n: nat)
      requires Valid()
      modifies this`blockedChecks, this`log
      ensures Valid()
      ensures var (rest, extracted) := Extract(matches, old(blockedChecks), keyClass, pattern);
        && blockedChecks == rest
        && n == |extracted|
        && log == old(log) + Resolve(extracted, None)
    {
      n := UnblockMatching(keyClass, pattern, None);
    }

    method UnblockWithError(keyClass: string, pattern: string, error: Exception) returns (n: nat)
      requires Valid()
      modifies this`blockedChecks, this`log
      ensures Valid()
      ensures var (rest, extracted) := Extract(matches, old(blockedChecks), keyClass, pattern);
        && blockedChecks == rest
        && n == |extracted|
        && log == old(log) + Resolve(extracted, Some(error))
    {
      n := UnblockMatching(keyClass, pattern, Some(error));
    }

    /** The loop of unblockAllImpl over a detached registry, class by class. */
    method ResolveAll(detached: Registry, error: Option<Exception>) returns (n: nat, ghost released: seq<Resolution>)
      modifies this`log
      ensures log == old(log) + released && n == |released|
      ensures multiset(LogPromises(released)) == PendingPromises(detached)
      ensures forall j :: 0 <= j < |released| ==> released[j].error == error
    {
      var rest := detached;
      released := [];
      n := 0;
      while rest.Keys != {}
        invariant log == old(log) + released && n == |released|
        invariant multiset(LogPromises(released)) + PendingPromises(rest) == PendingPromises(detached)
        invariant forall j :: 0 <= j < |released| ==> released[j].error == error
        decreases rest.Keys
      {
        var keyClass :| keyClass in rest.Keys;
        var checks := rest[keyClass];
        ResolveEach(checks, error);
        DrainStep(rest, keyClass, released, error);
        released := released + Resolve(checks, error);
        n := n + |checks|;
        assert (rest - {keyClass}).Keys == rest.Keys - {keyClass};
        rest := rest - {keyClass};
      }
      assert PendingPromises(rest) == multiset{};
    }

    /**
     * unblockAllImpl: swap the registry for an empty one, then resolve every
     * call that was in it.
     */
    method UnblockAllImpl(error: Option<Exception>) returns (n: nat)
      requires Valid()
      modifies this`blockedChecks, this`log
      ensures Valid()
      ensures blockedChecks == map[]
      ensures |log| == |old(log)| + n && log[..|old(log)|] == old(log)
      ensures multiset(LogPromises(log[|old(log)|..])) == PendingPromises(old(blockedChecks))
      ensures forall j :: |old(log)| <= j < |log| ==> log[j].error == error
      ensures n == |PendingPromises(old(blockedChecks))|
    {
      var swapped := blockedChecks;
      blockedChecks := map[];
      ghost var released;
      n, released := ResolveAll(swapped, error);
      DrainComplete(old(log), released, swapped, nextPromise);
      assert log[..|old(log)|] == old(log) && log[|old(log)|..] == released;
    }

    method UnblockAll() returns (n: nat)
      requires Valid()
      modifies this`blockedChecks, this`log
      ensures Valid()
      ensures blockedChecks == map[]
      ensures |log| == |old(log)| + n && log[..|old(log)|] == old(log)
      ensures multiset(LogPromises(log[|old(log)|..])) == PendingPromises(old(blockedChecks))
      ensures forall j :: |old(log)| <= j < |log| ==> log[j].error == None
    {
      n := UnblockAllImpl(None);
    }

    method UnblockAllWithError(error: Exception) returns (n: nat)
      requires Valid()
      modifies this`blockedChecks, this`log
      ensures Valid()
      ensures blockedChecks == map[]
      ensures |log| == |old(log)| + n && log[..|old(log)|] == old(log)
      ensures multiset(LogPromises(log[|old(log)|..])) == PendingPromises(old(blockedChecks))
      ensures forall j :: |old(log)| <= j < |log| ==> log[j].error == Some(error)
    {
      n := UnblockAllImpl(Some(error));
    }

    /** The destructor: every still-blocked call fails with "FaultInjector destroyed". */
    method Destroy() returns (numUnblocked: nat)
      requires Valid()
      modifies this`blockedChecks, this`log
      ensures Valid()
      ensures blockedChecks == map[]
      ensures |log| == |old(log)| + numUnblocked && log[..|old(log)|] == old(log)
      ensures numUnblocked == |PendingPromises(old(blockedChecks))|
      ensures multiset(LogPromises(log[|old(log)|..])) == PendingPromises(old(blockedChecks))
      ensures forall j :: |old(log)| <= j < |log| ==> log[j].error == Some(Exception(DestroyedMessage))
    {
      numUnblocked := UnblockAllImpl(Some(Exception(DestroyedMessage)));
    }

    /** getBlockedFaults: the blocked values of a class, in blocking order. */
    method GetBlockedFaults(keyClass: string) returns (values: seq<string>)
      ensures keyClass !in blockedChecks ==> values == []
      ensures keyClass in blockedChecks ==>
        |values| == |blockedChecks[keyClass]| &&
        forall i :: 0 <= i < |values| ==> values[i] == blockedChecks[keyClass][i].keyValue
    {
      values := [];
      if keyClass !in blockedChecks {
        return;
      }
      var checks := blockedChecks[keyClass];
      for i := 0 to |checks|
        invariant |values| == i
        invariant forall j :: 0 <= j < i ==> values[j] == checks[j].keyValue
      {
        values := values + [checks[i].keyValue];
      }
    }

    /** checkAsyncImpl: consume a rule, then act on its behavior. */
    method CheckAsync(keyClass: string, value: string) returns (f: CheckFuture)
      requires Valid()
      modifies this`faults, this`blockedChecks, this`nextPromise
      ensures Valid()
      ensures var (b, rules) := Find(matches, old(faults), keyClass, value);
        && faults == rules
        && f == Dispatch(b, old(nextPromise))
        && (b.Block? ==>
              && nextPromise == old(nextPromise) + 1
              && blockedChecks == old(blockedChecks)[keyClass := ListAt(old(blockedChecks), keyClass) + [BlockedCheck(value, old(nextPromise))]])
        && (!b.Block? ==> nextPromise == old(nextPromise) && blockedChecks == old(blockedChecks))
    {
      var b := FindFault(keyClass, value);
      var p := nextPromise;
      if b.Block? {
        p := AddBlockedFault(keyClass, value);
      }
      f := Dispatch(b, p);
    }

    /**
     * checkTryImpl: what waiting on the check's future yields right away.
     * A blocked call has a fresh promise, so it is still unresolved (None);
     * so is a killed process.
     */
    method CheckTry(keyClass: string, value: string) returns (t: Option<Try>)
      requires Valid()
      modifies this`faults, this`blockedChecks, this`nextPromise
      ensures Valid()
      ensures var (b, rules) := Find(matches, old(faults), keyClass, value);
        && faults == rules
        && (t.None? <==> b.Block? || b.Kill?)
        && (t.Some? ==> (t.value.Failure? <==> b.Error? || (b.Delay? && b.delayedError.Some?)))
        && (t.Some? && b.Error? ==> t.value.error == b.error)
        && (t.Some? && b.Delay? && b.delayedError.Some? ==> t.value.error == b.delayedError.value)
        && (b.Block? ==>
              && nextPromise == old(nextPromise) + 1
              && blockedChecks == old(blockedChecks)[keyClass := ListAt(old(blockedChecks), keyClass) + [BlockedCheck(value, old(nextPromise))]])
        && (!b.Block? ==> nextPromise == old(nextPromise) && blockedChecks == old(blockedChecks))
    {
      var f := CheckAsync(keyClass, value);
      t := match f
        case Ready(result) => Some(result)
        case Sleeping(_, result) => Some(result)
        case _ => None;
    }

    /**
     * checkImpl: the synchronous check. It returns normally or rethrows the
     * fault's exception; a blocked or killed call does not complete here. A
     * blocked call is left waiting on promise old(nextPromise), whose outcome
     * Settled reads from the resolution log once an unblock resolves it.
     */
    method Check(keyClass: string, value: string) returns (completed: bool, thrown: Option<Exception>)
      requires Valid()
      modifies this`faults, this`blockedChecks, this`nextPromise
      ensures Valid()
      ensures var (b, rules) := Find(matches, old(faults), keyClass, value);
        && faults == rules
        && (completed <==> !(b.Block? || b.Kill?))
        && (b.Error? ==> thrown == Some(b.error))
        && (b.Delay? ==> thrown == b.delayedError)
        && (b.NoOp? || b.Block? || b.Kill? ==> thrown.None?)
        && (b.Block? ==>
              && nextPromise == old(nextPromise) + 1
              && blockedChecks == old(blockedChecks)[keyClass := ListAt(old(blockedChecks), keyClass) + [BlockedCheck(value, old(nextPromise))]])
        && (!b.Block? ==> nextPromise == old(nextPromise) && blockedChecks == old(blockedChecks))
    {
      var result := CheckTry(keyClass, value);
      completed := result.Some?;
      thrown := None;
      if result.Some? && result.value.Failure? {
        thrown := Some(result.value.error);
      }
    }
  }

  // ---------------------------------------------------------------------
  // Properties of the rule store and matcher
  // ---------------------------------------------------------------------

  /** With no class entry, or no matching fault, a check is a NoOp and nothing changes. */
  lemma NoMatchIsNoOp(matches: Matcher, m: RuleTable, keyClass: string, value: string)
    requires keyClass in m ==> forall j :: 0 <= j < |m[keyClass]| ==> !matches(m[keyClass][j].pattern, value)
    ensures Find(matches, m, keyClass, value) == (NoOp, m)
  {
    if keyClass in m {
      assert m[keyClass := m[keyClass]] == m;
    }
  }

  /**
   * The earliest matching fault decides the behavior; faults before it are
   * untouched, and so is every other class.
   */
  lemma FirstMatchWins(matches: Matcher, m: RuleTable, keyClass: string, value: string, i: nat)
    requires keyClass in m && i < |m[keyClass]|
    requires matches(m[keyClass][i].pattern, value)
    requires forall j :: 0 <= j < i ==> !matches(m[keyClass][j].pattern, value)
    ensures var (b, m') := Find(matches, m, keyClass, value);
      && b == m[keyClass][i].behavior
      && keyClass in m' && m'[keyClass][..i] == m[keyClass][..i]
      && forall k :: k != keyClass ==> (k in m' <==> k in m) && (k in m ==> m'[k] == m[k])
  {
    var s := m[keyClass];
    assert FirstMatch(matches, s, value) == Some(i);
  }

  /** A matched fault with count c > 1 keeps its place with count c - 1. */
  lemma BoundedFaultDecrements(matches: Matcher, s: seq<Fault>, value: string, i: nat)
    requires FirstMatch(matches, s, value) == Some(i) && s[i].countRemaining > 1
    ensures var (b, s') := FindInClass(matches, s, value);
      && |s'| == |s| && s'[i] == s[i].(countRemaining := s[i].countRemaining - 1)
  {
  }

  /** Changing a fault's count does not change which fault matches first. */
  lemma FirstMatchIgnoresCounts(matches: Matcher, s: seq<Fault>, value: string, i: nat, c: nat)
    requires i < |s|
    ensures FirstMatch(matches, s[i := s[i].(countRemaining := c)], value) == FirstMatch(matches, s, value)
  {
    var t := s[i := s[i].(countRemaining := c)];
    assert forall j :: 0 <= j < |s| ==> t[j].pattern == s[j].pattern;
  }

  /**
   * A fault that is the first match and has n > 0 triggers left fires on
   * exactly the next n lookups of that value, and is then gone from the
   * list; everything else in the list is as it was.
   */
  lemma {:induction false} BoundedFaultFiresExactly(matches: Matcher, s: seq<Fault>, value: string, i: nat)
    requires FirstMatch(matches, s, value) == Some(i) && s[i].countRemaining > 0
    ensures var (bs, s') := Repeat(matches, s, value, s[i].countRemaining);
      && |bs| == s[i].countRemaining
      && (forall j :: 0 <= j < |bs| ==> bs[j] == s[i].behavior)
      && s' == s[..i] + s[i + 1..]
    decreases s[i].countRemaining
  {
    var n := s[i].countRemaining;
    var (b, s1) := FindInClass(matches, s, value);
    var (bs, s2) := Repeat(matches, s1, value, n - 1);
    assert Repeat(matches, s, value, n) == ([b] + bs, s2);
    if n == 1 {
      assert s2 == s1;
    } else {
      assert s1 == s[i := s[i].(countRemaining := n - 1)];
      FirstMatchIgnoresCounts(matches, s, value, i, n - 1);
      BoundedFaultFiresExactly(matches, s1, value, i);
      assert s1[..i] == s[..i] && s1[i + 1..] == s[i + 1..];
    }
  }

  /** An unlimited fault that is the first match fires on every lookup and is never removed. */
  lemma {:induction false} UnlimitedFaultNeverExpires(matches: Matcher, s: seq<Fault>, value: string, i: nat, n: nat)
    requires FirstMatch(matches, s, value) == Some(i) && s[i].countRemaining == 0
    ensures var (bs, s') := Repeat(matches, s, value, n);
      && |bs| == n
      && (forall j :: 0 <= j < n ==> bs[j] == s[i].behavior)
      && s' == s
  {
    if n > 0 {
      UnlimitedFaultNeverExpires(matches, s, value, i, n - 1);
    }
  }

  /**
   * Expiring the last fault of a class leaves the class in the table with an
   * empty list, unlike removeFault and extractBlockedChecks, which erase it.
   */
  lemma ExpiryKeepsEmptyClass(matches: Matcher, m: RuleTable, keyClass: string, value: string, f: Fault)
    requires keyClass in m && m[keyClass] == [f] && f.countRemaining == 1 && matches(f.pattern, value)
    ensures Find(matches, m, keyClass, value) == (f.behavior, m[keyClass := []])
  {
    assert FirstMatch(matches, [f], value) == Some(0);
    assert Consume([f], 0) == [];
  }

  /** An empty class list behaves exactly like a missing one for lookups. */
  lemma EmptyClassBehavesAsAbsent(matches: Matcher, m: RuleTable, keyClass: string, value: string)
    requires keyClass in m && m[keyClass] == []
    ensures Find(matches, m, keyClass, value).0 == Find(matches, m - {keyClass}, keyClass, value).0 == NoOp
  {
  }

  /** A new registration has the lowest priority in its class. */
  lemma {:induction false} RegisteredLast(matches: Matcher, s: seq<Fault>, f: Fault, value: string)
    ensures FirstMatch(matches, s, value).Some? ==> FirstMatch(matches, s + [f], value) == FirstMatch(matches, s, value)
    ensures FirstMatch(matches, s, value).None? && matches(f.pattern, value) ==> FirstMatch(matches, s + [f], value) == Some(|s|)
    ensures FirstMatch(matches, s, value).None? && !matches(f.pattern, value) ==> FirstMatch(matches, s + [f], value).None?
  {
    if s != [] {
      RegisteredLast(matches, s[1..], f, value);
      assert (s + [f])[1..] == s[1..] + [f];
    }
  }

  /** Removing by text a fault just registered under a fresh text restores the table. */
  lemma RemoveUndoesRegister(m: RuleTable, keyClass: string, f: Fault)
    requires keyClass in m ==> m[keyClass] != []
    requires forall j :: 0 <= j < |ListAt(m, keyClass)| ==> ListAt(m, keyClass)[j].pattern != f.pattern
    ensures Remove(Register(m, keyClass, f), keyClass, f.pattern) == (m, true)
  {
    var s := ListAt(m, keyClass);
    var t := s + [f];
    assert forall j :: 0 <= j < |s| ==> t[j] == s[j];
    assert t[|s|] == f;
    assert PatternIndex(t, f.pattern) == Some(|s|);
    assert t[..|s|] + t[|s| + 1..] == s;
    var m' := Register(m, keyClass, f);
    if keyClass in m {
      assert m'[keyClass := s] == m;
    } else {
      assert m' - {keyClass} == m;
    }
  }

  /** removeFault of a text no fault in the class carries reports false and changes nothing. */
  lemma RemoveMissingChangesNothing(m: RuleTable, keyClass: string, text: string)
    requires forall j :: 0 <= j < |ListAt(m, keyClass)| ==> ListAt(m, keyClass)[j].pattern != text
    ensures Remove(m, keyClass, text) == (m, false)
  {
    if keyClass in m {
      assert ListAt(m, keyClass) == m[keyClass];
    }
  }

  // ---------------------------------------------------------------------
  // Properties of the blocked-call registry
  // ---------------------------------------------------------------------

  /** Filtering distributes over concatenation: relative order is kept. */
  lemma {:induction false} FilterAppend(matches: Matcher, pattern: string, a: seq<BlockedCheck>, b: seq<BlockedCheck>, keep: bool)
    ensures Filter(matches, pattern, a + b, keep) == Filter(matches, pattern, a, keep) + Filter(matches, pattern, b, keep)
    decreases |b|
  {
    if b == [] {
      assert a + b == a;
    } else {
      var b' := b[..|b| - 1];
      assert (a + b)[..|a + b| - 1] == a + b';
      FilterAppend(matches, pattern, a, b', keep);
    }
  }

  /** A call is extracted exactly when its value matches the pattern. */
  lemma {:induction false} FilterMembers(matches: Matcher, pattern: string, s: seq<BlockedCheck>, keep: bool, c: BlockedCheck)
    ensures c in Filter(matches, pattern, s, keep) <==> c in s && matches(pattern, c.keyValue) == keep
  {
    if s != [] {
      FilterMembers(matches, pattern, s[..|s| - 1], keep, c);
      assert s == s[..|s| - 1] + [s[|s| - 1]];
    }
  }

  /** The two halves of the partition together hold the original list's calls and promises. */
  lemma {:induction false} FilterPartition(matches: Matcher, pattern: string, s: seq<BlockedCheck>)
    ensures |Filter(matches, pattern, s, true)| + |Filter(matches, pattern, s, false)| == |s|
    ensures multiset(PromisesOf(Filter(matches, pattern, s, true))) + multiset(PromisesOf(Filter(matches, pattern, s, false)))
            == multiset(PromisesOf(s))
  {
    if s != [] {
      var init, last := s[..|s| - 1], s[|s| - 1];
      FilterPartition(matches, pattern, init);
      FilterPartitionStep(matches, pattern, init, last);
      assert s == init + [last];
    }
  }

  /** The partition of a list extends to the list with one more call. */
  lemma FilterPartitionStep(matches: Matcher, pattern: string, init: seq<BlockedCheck>, last: BlockedCheck)
    requires |Filter(matches, pattern, init, true)| + |Filter(matches, pattern, init, false)| == |init|
    requires multiset(PromisesOf(Filter(matches, pattern, init, true))) + multiset(PromisesOf(Filter(matches, pattern, init, false)))
             == multiset(PromisesOf(init))
    ensures |Filter(matches, pattern, init + [last], true)| + |Filter(matches, pattern, init + [last], false)| == |init| + 1
    ensures multiset(PromisesOf(Filter(matches, pattern, init + [last], true)))
            + multiset(PromisesOf(Filter(matches, pattern, init + [last], false)))
            == multiset(PromisesOf(init + [last]))
  {
    var yes, no := Filter(matches, pattern, init, true), Filter(matches, pattern, init, false);
    var y, n := multiset(PromisesOf(yes)), multiset(PromisesOf(no));
    var added := multiset{last.promise};
    PromisesOfSnoc(init, last);
    FilterSnoc(matches, pattern, init, last, true);
    FilterSnoc(matches, pattern, init, last, false);
    var yes', no' := Filter(matches, pattern, init + [last], true), Filter(matches, pattern, init + [last], false);
    if matches(pattern, last.keyValue) {
      assert yes' == yes + [last] && no' == no;
      PromisesOfSnoc(yes, last);
      assert multiset(PromisesOf(yes')) == y + added;
      MultisetRotate(y, added, n);
    } else {
      assert yes' == yes && no' == no + [last];
      PromisesOfSnoc(no, last);
      assert multiset(PromisesOf(no')) == n + added;
      assert y + (n + added) == (y + n) + added;
    }
  }

  /** Filtering a list with one more call appends that call when its match is `keep`. */
  lemma FilterSnoc(matches: Matcher, pattern: string, init: seq<BlockedCheck>, last: BlockedCheck, keep: bool)
    ensures Filter(matches, pattern, init + [last], keep)
      == Filter(matches, pattern, init, keep) + (if matches(pattern, last.keyValue) == keep then [last] else [])
  {
    assert (init + [last])[..|init|] == init;
  }

  /** Appending one call adds its promise. */
  lemma PromisesOfSnoc(s: seq<BlockedCheck>, c: BlockedCheck)
    ensures multiset(PromisesOf(s + [c])) == multiset(PromisesOf(s)) + multiset{c.promise}
  {
    PromisesOfAppend(s, [c]);
    assert PromisesOf([c]) == [c.promise];
  }

  lemma {:induction false} PromisesOfAppend(a: seq<BlockedCheck>, b: seq<BlockedCheck>)
    ensures PromisesOf(a + b) == PromisesOf(a) + PromisesOf(b)
  {
  }

  /** Resolving a list of calls records exactly their promises. */
  lemma {:induction false} ResolveAddsPromises(log: seq<Resolution>, checks: seq<BlockedCheck>, error: Option<Exception>)
    ensures LogPromises(log + Resolve(checks, error)) == LogPromises(log) + PromisesOf(checks)
  {
  }

  /** Taking out any one class of a key set splits its pending promises. */
  lemma {:induction false} PendingInSplit(m: Registry, keys: set<string>, k: string)
    requires keys <= m.Keys && k in keys
    ensures PendingIn(m, keys) == multiset(PromisesOf(m[k])) + PendingIn(m, keys - {k})
    decreases keys
  {
    var j := PickKey(keys);
    if j != k {
      var both := keys - {j} - {k};
      PendingInSplit(m, keys - {j}, k);
      PendingInSplit(m, keys - {k}, j);
      assert keys - {j} - {k} == both && keys - {k} - {j} == both;
      var a, b, c := multiset(PromisesOf(m[j])), multiset(PromisesOf(m[k])), PendingIn(m, both);
      assert PendingIn(m, keys) == a + (b + c);
      assert PendingIn(m, keys - {k}) == a + c;
      assert a + (b + c) == b + (a + c);
    }
  }

  /** Resolving one class's calls moves its promises from the registry to the log. */
  lemma {:induction false} DrainStep(rest: Registry, k: string, released: seq<Resolution>, error: Option<Exception>)
    requires k in rest
    ensures multiset(LogPromises(released + Resolve(rest[k], error))) + PendingPromises(rest - {k})
            == multiset(LogPromises(released)) + PendingPromises(rest)
  {
    ResolveAddsPromises(released, rest[k], error);
    PendingSplit(rest, k);
  }

  /** Once every class is drained, the invariant holds again with an empty registry. */
  lemma {:induction false} DrainComplete(log: seq<Resolution>, released: seq<Resolution>, swapped: Registry, n: nat)
    requires PendingPromises(swapped) + multiset(LogPromises(log)) == Issued(n)
    requires multiset(LogPromises(released)) == PendingPromises(swapped)
    ensures |released| == |PendingPromises(swapped)|
    ensures PendingPromises(map[]) + multiset(LogPromises(log + released)) == Issued(n)
  {
    assert PendingPromises(map[]) == multiset{};
    ResolveExtendsLog(log, released);
  }

  /** The promises recorded by an extended log are the old ones plus the new ones. */
  lemma {:induction false} ResolveExtendsLog(log: seq<Resolution>, more: seq<Resolution>)
    ensures multiset(LogPromises(log + more)) == multiset(LogPromises(log)) + multiset(LogPromises(more))
  {
    assert LogPromises(log + more) == LogPromises(log) + LogPromises(more);
  }

  /** The pending promises under a key set depend only on those classes' lists. */
  lemma {:induction false} PendingInFrame(m: Registry, m': Registry, keys: set<string>)
    requires keys <= m.Keys && keys <= m'.Keys
    requires forall k :: k in keys ==> m[k] == m'[k]
    ensures PendingIn(m, keys) == PendingIn(m', keys)
    decreases keys
  {
    if keys != {} {
      var j := PickKey(keys);
      PendingInSplit(m', keys, j);
      PendingInFrame(m, m', keys - {j});
    }
  }

  /** The registry's pending promises: one class's, plus those of all other classes. */
  lemma {:induction false} PendingWithout(m: Registry, k: string)
    ensures PendingPromises(m) == multiset(PromisesOf(ListAt(m, k))) + PendingIn(m, m.Keys - {k})
  {
    if k in m {
      PendingInSplit(m, m.Keys, k);
    } else {
      assert m.Keys - {k} == m.Keys;
    }
  }

  /** Erasing a class leaves the other classes' pending promises. */
  lemma {:induction false} PendingRemove(m: Registry, k: string)
    ensures PendingPromises(m - {k}) == PendingIn(m, m.Keys - {k})
  {
    assert (m - {k}).Keys == m.Keys - {k};
    PendingInFrame(m - {k}, m, m.Keys - {k});
  }

  /** Storing a list under a class replaces that class's pending promises. */
  lemma {:induction false} PendingUpdate(m: Registry, k: string, v: seq<BlockedCheck>)
    ensures PendingPromises(m[k := v]) == multiset(PromisesOf(v)) + PendingIn(m, m.Keys - {k})
  {
    var m' := m[k := v];
    assert m'.Keys - {k} == m.Keys - {k};
    PendingInSplit(m', m'.Keys, k);
    PendingInFrame(m', m, m.Keys - {k});
  }

  /** The pending promises split into one class's and the rest's, for any class. */
  lemma {:induction false} PendingSplit(m: Registry, k: string)
    requires k in m
    ensures PendingPromises(m) == multiset(PromisesOf(m[k])) + PendingPromises(m - {k})
  {
    PendingWithout(m, k);
    PendingRemove(m, k);
  }

  /** Appending a call to a class adds exactly its promise to the pending ones. */
  lemma {:induction false} PendingAfterAppend(m: Registry, k: string, c: BlockedCheck)
    ensures PendingPromises(m[k := ListAt(m, k) + [c]]) == PendingPromises(m) + multiset{c.promise}
  {
    var s := ListAt(m, k);
    var before, others := multiset(PromisesOf(s)), PendingIn(m, m.Keys - {k});
    var added := multiset{c.promise};
    PromisesOfAppend(s, [c]);
    assert multiset(PromisesOf(s + [c])) == before + added;
    PendingUpdate(m, k, s + [c]);
    PendingWithout(m, k);
    MultisetRotate(before, added, others);
  }

  lemma MultisetRotate(a: multiset<PromiseId>, b: multiset<PromiseId>, c: multiset<PromiseId>)
    ensures (a + b) + c == (a + c) + b
  {
  }

  /** Extraction moves promises from the registry to the result; none is lost or added. */
  lemma {:induction false} ExtractSplitsPending(matches: Matcher, m: Registry, k: string, pattern: string)
    ensures var (rest, extracted) := Extract(matches, m, k, pattern);
      PendingPromises(m) == multiset(PromisesOf(extracted)) + PendingPromises(rest)
  {
    if k in m {
      var kept := Filter(matches, pattern, m[k], false);
      var moved := Filter(matches, pattern, m[k], true);
      var others := PendingIn(m, m.Keys - {k});
      PendingWithout(m, k);
      FilterPartition(matches, pattern, m[k]);
      assert PendingPromises(m) == multiset(PromisesOf(moved)) + (multiset(PromisesOf(kept)) + others);
      if kept == [] {
        PendingRemove(m, k);
      } else {
        PendingUpdate(m, k, kept);
      }
    }
  }

  /** Blocking a call on promise n keeps the invariant with n + 1 promises issued. */
  lemma AppendKeepsInvariant(m: Registry, log: seq<Resolution>, n: nat, k: string, value: string)
    requires Invariant(m, log, n)
    ensures n !in PendingPromises(m) && n !in LogPromises(log)
    ensures Invariant(m[k := ListAt(m, k) + [BlockedCheck(value, n)]], log, n + 1)
  {
    var pending, logged := PendingPromises(m), multiset(LogPromises(log));
    IssuedCount(n, n);
    assert (pending + logged)[n] == 0;
    assert pending[n] == 0 && logged[n] == 0;
    var m' := m[k := ListAt(m, k) + [BlockedCheck(value, n)]];
    PendingAfterAppend(m, k, BlockedCheck(value, n));
    MultisetRotate(pending, multiset{n}, logged);
    assert Issued(n + 1) == Issued(n) + multiset{n};
  }

  /** Unblocking matching calls and resolving them keeps the invariant. */
  lemma UnblockKeepsInvariant(matches: Matcher, m: Registry, log: seq<Resolution>, n: nat,
                              k: string, pattern: string, error: Option<Exception>)
    requires Invariant(m, log, n)
    ensures var (rest, extracted) := Extract(matches, m, k, pattern);
      Invariant(rest, log + Resolve(extracted, error), n)
  {
    var (rest, extracted) := Extract(matches, m, k, pattern);
    ExtractKeepsNonEmpty(matches, m, k, pattern);
    ExtractMovesPromises(matches, m, log, k, pattern, error);
  }

  /** Extraction never leaves an empty class list behind. */
  lemma ExtractKeepsNonEmpty(matches: Matcher, m: Registry, k: string, pattern: string)
    requires forall c :: c in m ==> m[c] != []
    ensures forall c :: c in Extract(matches, m, k, pattern).0 ==> Extract(matches, m, k, pattern).0[c] != []
  {
  }

  /** The promises extracted and resolved leave the registry and enter the log. */
  lemma ExtractMovesPromises(matches: Matcher, m: Registry, log: seq<Resolution>,
                             k: string, pattern: string, error: Option<Exception>)
    ensures var (rest, extracted) := Extract(matches, m, k, pattern);
      PendingPromises(rest) + multiset(LogPromises(log + Resolve(extracted, error)))
      == PendingPromises(m) + multiset(LogPromises(log))
  {
    var (rest, extracted) := Extract(matches, m, k, pattern);
    ExtractSplitsPending(matches, m, k, pattern);
    ResolveAddsPromises(log, extracted, error);
    assert multiset(LogPromises(log + Resolve(extracted, error)))
      == multiset(LogPromises(log)) + multiset(PromisesOf(extracted));
  }

  lemma {:induction false} IssuedCount(n: nat, p: PromiseId)
    ensures Issued(n)[p] == if p < n then 1 else 0
  {
    if n > 0 {
      IssuedCount(n - 1, p);
    }
  }

  /**
   * Under the injector's invariant no promise is resolved twice, and no
   * pending promise has been resolved already.
   */
  lemma SettledAtMostOnce(m: Registry, log: seq<Resolution>, n: nat, p: PromiseId)
    requires PendingPromises(m) + multiset(LogPromises(log)) == Issued(n)
    ensures multiset(LogPromises(log))[p] + PendingPromises(m)[p] <= 1
  {
    IssuedCount(n, p);
  }

  // ---------------------------------------------------------------------
  // Scenarios
  // ---------------------------------------------------------------------

  /** A pattern language with ".*" matching everything, otherwise literal equality. */
  function ToyMatch(pattern: string, value: string): bool {
    pattern == ".*" || pattern == value
  }

  /** An Error fault with count 1 fails one check; the next one passes. */
  lemma ScenarioExpiringError()
    ensures var rule := Fault("/foo", 1, Error(Exception("boom")));
      var (b1, m1) := Find(ToyMatch, Register(map[], "open", rule), "open", "/foo");
      var (b2, m2) := Find(ToyMatch, m1, "open", "/foo");
      && Dispatch(b1, 0) == Ready(Failure(Exception("boom")))
      && Dispatch(b2, 0) == Ready(Success(()))
      && m2 == map["open" := []]
  {
    var rule := Fault("/foo", 1, Error(Exception("boom")));
    assert ListAt(map[], "open") + [rule] == [rule];
    assert Register(map[], "open", rule) == map["open" := [rule]];
    ExpiryKeepsEmptyClass(ToyMatch, map["open" := [rule]], "open", "/foo", rule);
  }

  /** A blocked check waits until unblock resolves its promise with a value. */
  lemma ScenarioBlockThenUnblock()
    ensures var waiting := BlockedCheck("f1", 0);
      var (rest, released) := Extract(ToyMatch, map["read" := [waiting]], "read", "f1");
      && rest == map[]
      && released == [waiting]
      && Settled(Waiting(0), []) == None
      && Settled(Waiting(0), Resolve(released, None)) == Some(Success(()))
  {
    var waiting := BlockedCheck("f1", 0);
    assert Filter(ToyMatch, "f1", [waiting], true) == [waiting];
    assert Filter(ToyMatch, "f1", [waiting], false) == [];
    assert Resolve([waiting], None) == [Resolution(0, None)];
  }

  /** An enabled injector with an unlimited Block rule, and one call blocked by it. */
  method OneBlockedCall() returns (fi: FaultInjector, f: CheckFuture)
    ensures fresh(fi) && fi.Valid()
    ensures fi.blockedChecks == map["read" := [BlockedCheck("f1", 0)]] && fi.log == []
    ensures f == Waiting(0)
  {
    fi := new FaultInjector(true, ToyMatch);
    var rule := Fault(".*", 0, Block);
    var r := fi.InjectBlock("read", ".*", 0);
    assert ListAt<Fault>(map[], "read") + [rule] == [rule];
    assert fi.faults == map["read" := [rule]];
    BlockRuleBlocks("read", "f1");
    var waiting := BlockedCheck("f1", 0);
    f := fi.CheckAsync("read", "f1");
    assert ListAt<BlockedCheck>(map[], "read") + [waiting] == [waiting];
  }

  /** Destroying the injector fails the one pending call and reports one release. */
  method ScenarioDestroy() returns (released: nat, ghost outcome: Option<Try>)
    ensures released == 1
    ensures outcome == Some(Failure(Exception(DestroyedMessage)))
  {
    var fi, f := OneBlockedCall();
    PendingOne("read", BlockedCheck("f1", 0));
    var n := fi.Destroy();
    assert fi.log[0..] == fi.log;
    DestroyedOne(fi.log, 0);
    released, outcome := n, Settled(f, fi.log);
  }

  /** A log that resolved only promise p, with the destruction error, fails p's future. */
  lemma DestroyedOne(log: seq<Resolution>, p: PromiseId)
    requires multiset(LogPromises(log)) == multiset{p}
    requires forall j :: 0 <= j < |log| ==> log[j].error == Some(Exception(DestroyedMessage))
    ensures log == [Resolution(p, Some(Exception(DestroyedMessage)))]
    ensures Settled(Waiting(p), log) == Some(Failure(Exception(DestroyedMessage)))
  {
    LogOfOne(log, p);
  }

  /** An unlimited Block rule matching everything blocks every value and stays. */
  lemma BlockRuleBlocks(k: string, value: string)
    ensures var m := map[k := [Fault(".*", 0, Block)]];
      Find(ToyMatch, m, k, value) == (Block, m)
  {
    var rule := Fault(".*", 0, Block);
    assert FirstMatch(ToyMatch, [rule], value) == Some(0);
    assert Consume([rule], 0) == [rule];
    assert map[k := [rule]][k := [rule]] == map[k := [rule]];
  }

  /** A registry holding one call has exactly its promise pending. */
  lemma PendingOne(k: string, c: BlockedCheck)
    ensures PendingPromises(map[k := [c]]) == multiset{c.promise}
  {
    PendingSplit(map[k := [c]], k);
    assert map[k := [c]] - {k} == map[];
  }

  /** A log whose promises are exactly {p} holds one entry, for p. */
  lemma LogOfOne(log: seq<Resolution>, p: PromiseId)
    requires multiset(LogPromises(log)) == multiset{p}
    ensures |log| == 1 && log[0].promise == p
  {
    assert |LogPromises(log)| == |multiset(LogPromises(log))|;
    assert LogPromises(log)[0] in multiset(LogPromises(log));
  }

  /** A disabled injector refuses registrations and keeps its table empty. */
  method ScenarioDisabled() returns (r: Result<(), Exception>, faults: RuleTable)
    ensures r == Failure(Exception(DisabledMessage))
    ensures faults == map[]
  {
    var fi := new FaultInjector(false, ToyMatch);
    r := fi.InjectKill("open", ".*", 0);
    faults := fi.faults;
  }
}
