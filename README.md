# edencommon core, modelled in Dafny

This project models the core of edencommon, the common utility library of
EdenFS. It covers these parts:

- **FaultInjector** (`fault_injector.dfy`, module `FaultInjection`) is a
  test-time rule engine. Rules are registered per key class and hold a
  regular expression, a trigger count and a behavior: no-op, error, delay,
  block or kill. A check of a key value consumes the first matching rule
  and acts on its behavior. Checks that a Block rule suspended wait in a
  registry until they are unblocked, by pattern or all at once, or until
  the injector is destroyed.
- **OptionSet** (`option_set.dfy`, module `OptionSets`) is a typed bit set
  over a 32-bit integral value. It has subset and overlap queries,
  set/clear, union and intersection, and a textual form built from a
  table of names.
- **ProcessId / OptionalProcessId** (`process_id.dfy`, module `ProcessIds`)
  is a 32-bit process identifier. Its validity rule differs between unix
  and Windows. The optional form uses all ones to mean "unset".
- **DynamicEvent** (`dynamic_event.dfy`, module `DynamicEvents`) is a
  telemetry event made of four insert-once maps. Its `addTruncatedInt`
  keeps only the most significant bits of a value.
- **ProcessInfo** (`process_info.dfy`, module `ProcessInfo`) covers four
  pieces of pure byte logic:
  - the `/proc/<pid>/cmdline` path builder;
  - the command-line slicer over a macOS `KERN_PROCARGS2` buffer;
  - the prefix test on `/proc/<pid>/status` lines;
  - the walk up the parent chain that finds the user of a process started
    by root.
- **HandleBase** (`handle.dfy`, module `Handles`) owns an OS handle. It
  closes the handle exactly when it holds a valid one. Calls to close are
  recorded in a ghost log.

Three modules support the rest. `wrappers.dfy` holds `Option` and
`Result`. `decimal.dfy` renders unsigned decimals the way `fmt` and
`folly::to_ascii_decimal` do, and parses them back. `buffers.dfy` models
`memcpy` into a character buffer.

Code that updates state in place is modelled as classes whose methods
state their whole new state. These are the injector's tables, the option
set's value, the event's maps and the handle. Each such method is proved
against specification functions:
- `Find`, `Remove`, `Extract` and `Dispatch` for the injector;
- `Format` and `UnionAll` for the option set;
- `Truncated` for the event;
- `Extract` and `UserInfo` for ProcessInfo.

Lemmas then prove, about those functions, the properties the source
promises.

A regular expression is a parameter of the injector:
`matches(patternText, value)`, a full-string match. The number reader
behind `istringstream` and the `/proc` status reader are parameters of
ProcessInfo. `ensureValidUtf8` is a parameter of DynamicEvent.

The two ways a fault leaves its class differ in the code. `removeFault`
erases the class when its last fault goes (`FaultInjector.cpp:186-188`).
`findFault` erases an expired fault but leaves the class behind, holding
an empty list (`FaultInjector.cpp:276`). The model keeps that difference:
`FaultInjection.ExpiryKeepsEmptyClass` proves the empty list stays, and
`FaultInjection.EmptyClassBehavesAsAbsent` proves that lookups cannot
tell an empty class from a missing one.

Three functions are plain definitions, used by the members that state
their meaning. `OptionSets.Chosen` picks the table rows whose bits the
value contains; `Format`, `ToString` and `FormatNames` are stated through it,
and `ChosenMonotone` relates it to containment. `DynamicEvents.ValidatedAll`
validates each element of a string vector; `AddStringVec` is proved
against it, and `ValidatedAllAppend` shows it works element by element.
`ProcessInfo.Create` reads one process status from the table;
`ReadUserInfo` and the lemmas about the parent walk are stated through it.

## Model

| member | source | states |
|---|---|---|
| FaultInjection.FaultInjector.constructor | eden/common/utils/FaultInjector.cpp:31 | a new injector has the given enabled flag, no rules, no blocked calls and an empty resolution log |
| FaultInjection.FaultInjector.InjectFault | eden/common/utils/FaultInjector.cpp:149-161 | a disabled injector refuses with "fault injection is disabled" and keeps its table; otherwise the fault is appended last in its class |
| FaultInjection.FaultInjector.InjectError | eden/common/utils/FaultInjector.cpp:91-98 | registers an Error fault with the given exception and count (refused when disabled) |
| FaultInjection.FaultInjector.InjectBlock | eden/common/utils/FaultInjector.cpp:100-106 | registers a Block fault (refused when disabled) |
| FaultInjection.FaultInjector.InjectDelay | eden/common/utils/FaultInjector.cpp:108-115 | registers a Delay fault with no error (refused when disabled) |
| FaultInjection.FaultInjector.InjectKill | eden/common/utils/FaultInjector.cpp:117-123 | registers a Kill fault (refused when disabled) |
| FaultInjection.FaultInjector.InjectDelayedError | eden/common/utils/FaultInjector.cpp:125-139 | registers a Delay fault that then fails with the given exception (refused when disabled) |
| FaultInjection.FaultInjector.InjectNoop | eden/common/utils/FaultInjector.cpp:141-147 | registers a NoOp fault (refused when disabled) |
| FaultInjection.FaultInjector.RemoveFault | eden/common/utils/FaultInjector.cpp:163-195 | removes the first fault whose pattern text equals the argument, erases a class left empty, and reports whether one was removed |
| FaultInjection.FaultInjector.FindFault | eden/common/utils/FaultInjector.cpp:230-284 | the first matching fault's behavior; a bounded fault loses one trigger and is erased at zero; an absent class or no match gives NoOp with the table unchanged |
| FaultInjection.FaultInjector.AddBlockedFault | eden/common/utils/FaultInjector.cpp:286-294 | appends the call to its class with a fresh promise that is neither pending nor resolved, and keeps the injector invariant |
| FaultInjection.FaultInjector.ExtractBlockedChecks | eden/common/utils/FaultInjector.cpp:296-345 | the in-place stable partition: returns the matching calls in order, leaves the others in order, and erases the class when none remain |
| FaultInjection.Partition | eden/common/utils/FaultInjector.cpp:320-334 | the read/write-cursor loop: the calls before the write cursor are the non-matching ones in order, and the moved-out calls are the matching ones in order |
| FaultInjection.FaultInjector.ResolveEach | eden/common/utils/FaultInjector.cpp:202-204 | resolves each extracted call in order, with a value or with the given exception |
| FaultInjection.FaultInjector.UnblockMatching | eden/common/utils/FaultInjector.cpp:197-218 | extracts the matching calls of a class, resolves each exactly once, and returns how many |
| FaultInjection.FaultInjector.Unblock | eden/common/utils/FaultInjector.cpp:197-206 | the matching calls are resolved with a value and counted |
| FaultInjection.FaultInjector.UnblockWithError | eden/common/utils/FaultInjector.cpp:208-218 | the matching calls are resolved with the error and counted |
| FaultInjection.FaultInjector.ResolveAll | eden/common/utils/FaultInjector.cpp:356-365 | resolves every call of a detached registry, so the log gains exactly its pending promises, each with the given outcome |
| FaultInjection.FaultInjector.UnblockAllImpl | eden/common/utils/FaultInjector.cpp:347-367 | swaps in an empty registry and resolves every call that was pending in any class exactly once; returns their number |
| FaultInjection.FaultInjector.UnblockAll | eden/common/utils/FaultInjector.cpp:220-223 | every pending call is resolved with a value and the registry is empty |
| FaultInjection.FaultInjector.UnblockAllWithError | eden/common/utils/FaultInjector.cpp:225-228 | every pending call is resolved with the error and the registry is empty |
| FaultInjection.FaultInjector.Destroy | eden/common/utils/FaultInjector.cpp:33-41 | every still-blocked call fails with "FaultInjector destroyed"; the count released is returned |
| FaultInjection.FaultInjector.GetBlockedFaults | eden/common/utils/FaultInjector.cpp:369-382 | the key values blocked in a class, in blocking order; empty for an absent class |
| FaultInjection.FaultInjector.CheckAsync | eden/common/utils/FaultInjector.cpp:43-74 | consumes a rule as findFault does, then returns Ready, Sleeping, Waiting on a fresh blocked promise, or Aborted, per behavior |
| FaultInjection.FaultInjector.CheckTry | eden/common/utils/FaultInjector.cpp:76-80 | the try outcome is missing exactly for Block and Kill; it fails exactly for Error and for Delay with an error, carrying that error |
| FaultInjection.FaultInjector.Check | eden/common/utils/FaultInjector.cpp:82-89 | completes unless blocked or killed; throws exactly the Error or delayed error, and nothing for NoOp; a blocked call is registered with the next promise, whose eventual outcome is `Settled(Waiting(p), log)` |
| FaultInjection.FirstMatch | eden/common/utils/FaultInjector.cpp:250-268 | the index of the earliest fault whose pattern matches; none before it match; None when none match |
| FaultInjection.Consume | eden/common/utils/FaultInjector.cpp:269-278 | an unlimited fault is kept; a count above one is decremented in place; a count of one removes the fault and shifts the rest |
| FaultInjection.PatternIndex | eden/common/utils/FaultInjector.cpp:182-185 | the first fault whose stored text equals the argument, compared as text, not matched |
| FaultInjection.Register | eden/common/utils/FaultInjector.cpp:158-160 | a definition: appends the fault last in its class; `RegisteredLast` proves it has the lowest priority there and `RemoveUndoesRegister` proves Remove takes it back out |
| FaultInjection.Find | eden/common/utils/FaultInjector.cpp:230-284 | a definition of findFault on the rule table; `NoMatchIsNoOp`, `FirstMatchWins`, `BoundedFaultDecrements` and `BoundedFaultFiresExactly` state its meaning, and `FindFault` is proved equal to it |
| FaultInjection.Remove | eden/common/utils/FaultInjector.cpp:163-195 | a definition of removeFault on the rule table; `RemoveUndoesRegister` and `RemoveMissingChangesNothing` state its meaning, and `RemoveFault` is proved equal to it |
| FaultInjection.Extract | eden/common/utils/FaultInjector.cpp:296-345 | a definition of extractBlockedChecks on the registry; `FilterMembers`, `FilterPartition` and `ExtractSplitsPending` state its meaning, and `ExtractBlockedChecks` is proved equal to it |
| FaultInjection.Settled | eden/common/utils/FaultInjector.cpp:82-89 | a definition of what waiting on a check's future yields given the resolution log; `SettledAtMostOnce` shows each blocked call settles at most once and `ScenarioBlockThenUnblock` shows an unblocked call completing |
| FaultInjection.Dispatch | eden/common/utils/FaultInjector.cpp:48-73 | NoOp is ready and successful, Error ready with its error, Delay sleeps for its duration then yields its optional error, Block waits on its promise, Kill aborts |
| FaultInjection.NoMatchIsNoOp | eden/common/utils/FaultInjector.cpp:237-246 | with no class entry or no matching fault, a lookup is NoOp and the table is unchanged |
| FaultInjection.FirstMatchWins | eden/common/utils/FaultInjector.cpp:250-279 | the earliest matching fault decides the behavior; other classes and earlier faults are untouched |
| FaultInjection.BoundedFaultDecrements | eden/common/utils/FaultInjector.cpp:269-275 | a matched fault with count above one stays in place with count minus one |
| FaultInjection.FirstMatchIgnoresCounts | eden/common/utils/FaultInjector.cpp:250-268 | a fault's count does not affect which fault matches first |
| FaultInjection.BoundedFaultFiresExactly | eden/common/utils/FaultInjector.cpp:269-278 | a first-matching fault with n triggers fires on exactly the next n lookups and is then gone, the rest of the list intact |
| FaultInjection.UnlimitedFaultNeverExpires | eden/common/utils/FaultInjector.cpp:269-270 | an unlimited first-matching fault fires on every lookup and stays |
| FaultInjection.ExpiryKeepsEmptyClass | eden/common/utils/FaultInjector.cpp:276 | expiring the last fault of a class leaves an empty list under the class |
| FaultInjection.EmptyClassBehavesAsAbsent | eden/common/utils/FaultInjector.cpp:237-246 | an empty class list gives NoOp, as a missing class does |
| FaultInjection.RegisteredLast | eden/common/utils/FaultInjector.cpp:158-160 | a newly registered fault has the lowest priority in its class |
| FaultInjection.RemoveUndoesRegister | eden/common/utils/FaultInjector.cpp:163-195 | removing by its text a fault just registered under a fresh text restores the table and reports true |
| FaultInjection.RemoveMissingChangesNothing | eden/common/utils/FaultInjector.cpp:169-195 | removing a text no fault carries reports false and changes nothing |
| FaultInjection.FilterAppend | eden/common/utils/FaultInjector.cpp:315-333 | the partition keeps relative order |
| FaultInjection.FilterMembers | eden/common/utils/FaultInjector.cpp:318-332 | a blocked call is extracted exactly when its value matches the pattern |
| FaultInjection.FilterPartition | eden/common/utils/FaultInjector.cpp:315-342 | the extracted and the remaining calls together are the original calls, with the same promises |
| FaultInjection.ExtractSplitsPending | eden/common/utils/FaultInjector.cpp:296-345 | extraction moves promises from the registry to the result; none is lost or duplicated |
| FaultInjection.ResolveAddsPromises | eden/common/utils/FaultInjector.cpp:202-204 | resolving a list of calls records exactly their promises |
| FaultInjection.DrainStep | eden/common/utils/FaultInjector.cpp:356-365 | resolving one class's calls moves its promises from the detached registry to the log |
| FaultInjection.DrainComplete | eden/common/utils/FaultInjector.cpp:347-367 | after all classes are drained, every promise is resolved once and none is pending |
| FaultInjection.SettledAtMostOnce | eden/common/utils/FaultInjector.cpp:286-367 | under the injector invariant no promise is resolved twice, and none is both pending and resolved |
| FaultInjection.PendingAfterAppend | eden/common/utils/FaultInjector.cpp:286-294 | appending a blocked call to a class adds exactly its promise to the pending ones |
| FaultInjection.AppendKeepsInvariant | eden/common/utils/FaultInjector.cpp:286-294 | the next promise is neither pending nor resolved, and blocking a call on it keeps the invariant with one more promise issued |
| FaultInjection.ExtractMovesPromises | eden/common/utils/FaultInjector.cpp:197-218 | extracting and resolving matching calls moves their promises from the registry to the log, leaving the union unchanged |
| FaultInjection.UnblockKeepsInvariant | eden/common/utils/FaultInjector.cpp:197-218 | unblocking keeps the invariant: no empty class list, and every issued promise pending or resolved exactly once |
| FaultInjection.ScenarioExpiringError | eden/common/utils/FaultInjector.cpp:91-98 | an Error fault with count 1 fails one check with its error; the next check of the value is NoOp |
| FaultInjection.ScenarioBlockThenUnblock | eden/common/utils/FaultInjector.cpp:197-206 | a blocked check stays unresolved until unblock resolves its promise with a value |
| FaultInjection.ScenarioDestroy | eden/common/utils/FaultInjector.cpp:33-41 | an injector with one blocked call releases exactly that call when destroyed, and the call fails with "FaultInjector destroyed" |
| FaultInjection.ScenarioDisabled | eden/common/utils/FaultInjector.cpp:154-156 | a disabled injector refuses a registration with "fault injection is disabled" and its table stays empty |
| OptionSets.ContainsAllOf | eden/common/utils/OptionSet.h:78-80 | a definition of containsAllOf; `ContainsAllOfIsSubset` proves it holds iff every bit of the argument is set |
| OptionSets.ContainsAnyOf | eden/common/utils/OptionSet.h:85-87 | a definition of containsAnyOf; `ContainsAnyOfIsOverlap` proves it holds iff some bit of the argument is set |
| OptionSets.IsEmpty | eden/common/utils/OptionSet.h:99-101 | a definition of empty(); `IsEmptyHasNoBits` proves it holds iff no bit is set |
| OptionSets.Union | eden/common/utils/OptionSet.h:174-179 | a definition of operator|; `UnionIntersectionBits` gives its bits and `UnionIsLeastUpperBound` proves it the least set containing both |
| OptionSets.Intersection | eden/common/utils/OptionSet.h:181-186 | a definition of operator&; `UnionIntersectionBits` gives its bits and `IntersectionIsGreatestLowerBound` proves it the greatest set within both |
| OptionSets.UnionAll | eden/common/utils/OptionSet.h:42-46 | a definition of the initializer-list constructor; `UnionAllBits` and `UnionAllContainsEach` state its meaning, and `OptionSet.FromList` is proved equal to it |
| OptionSets.ContainsNoneOf | eden/common/utils/OptionSet.h:92-94 | containsNoneOf is the negation of containsAnyOf |
| OptionSets.IsNonEmpty | eden/common/utils/OptionSet.h:55-57 | operator bool is the negation of empty() |
| OptionSets.ContainsAllOfIsSubset | eden/common/utils/OptionSet.h:78-80 | containsAllOf holds iff every bit of the argument is set here |
| OptionSets.ContainsAnyOfIsOverlap | eden/common/utils/OptionSet.h:85-87 | containsAnyOf holds iff some bit of the argument is set here |
| OptionSets.ContainsNoneOfIsDisjoint | eden/common/utils/OptionSet.h:92-94 | containsNoneOf holds iff no bit of the argument is set here |
| OptionSets.IsEmptyHasNoBits | eden/common/utils/OptionSet.h:99-101 | empty() iff no bit is set; operator bool iff some bit is set |
| OptionSets.UnionIntersectionBits | eden/common/utils/OptionSet.h:174-186 | a bit is in the union iff it is in either operand, and in the intersection iff it is in both |
| OptionSets.UnionAllBits | eden/common/utils/OptionSet.h:43-47 | a bit is set by the initializer-list constructor iff some argument has it |
| OptionSets.UnionAllContainsEach | eden/common/utils/OptionSet.h:43-47 | each argument of the initializer-list constructor is contained in the result |
| OptionSets.UnionIsLeastUpperBound | eden/common/utils/OptionSet.h:174-179 | the union operator contains both operands and is contained in every set containing both |
| OptionSets.IntersectionIsGreatestLowerBound | eden/common/utils/OptionSet.h:181-186 | operator& is contained in both operands and contains every set they both contain |
| OptionSets.ContainsAntisymmetric | eden/common/utils/OptionSet.h:78-80 | two sets that contain each other are equal |
| OptionSets.ContainsTransitive | eden/common/utils/OptionSet.h:78-80 | containment is transitive |
| OptionSets.EmptyIsBottom | eden/common/utils/OptionSet.h:78-80 | every set contains the empty set, and only the empty set is contained in it |
| OptionSets.ClearBits | eden/common/utils/OptionSet.h:113-115 | after clear, a bit is set iff it was set before and is not among the cleared bits |
| OptionSets.ChosenMonotone | eden/common/utils/OptionSet.h:136-138 | a row that a smaller set selects is selected by every set containing it, so a larger value names at least the same rows |
| OptionSets.RenderIsJoin | eden/common/utils/OptionSet.h:135-157 | with nonempty names, the rendering is the chosen names joined by single spaces |
| OptionSets.RenderPrefix | eden/common/utils/OptionSet.h:149-157 | each row extends the rendering of the rows before it: a space before the name only when something was written |
| OptionSets.RenderStep | eden/common/utils/OptionSet.h:149-157 | one more row appends its name when chosen, after a space unless nothing was written, and otherwise adds nothing |
| OptionSets.SelectedMembers | eden/common/utils/OptionSet.h:149-157 | a row's name is rendered iff the row is chosen (names distinct) |
| OptionSets.FormatNames | eden/common/utils/OptionSet.h:121-162 | format() of a nonempty set is the space-joined names of the contained rows; a name appears iff its row's bits are all set |
| OptionSets.OptionSet.constructor | eden/common/utils/OptionSet.h:34-39 | the default and zero constructors give the empty set |
| OptionSets.OptionSet.FromBits | eden/common/utils/OptionSet.h:41 | construction from a flag or from raw bits keeps those bits |
| OptionSets.OptionSet.FromList | eden/common/utils/OptionSet.h:43-47 | the initializer-list constructor holds the union of all arguments |
| OptionSets.OptionSet.Set | eden/common/utils/OptionSet.h:106-108 | set ORs the bits in; the result contains both the old value and the argument |
| OptionSets.OptionSet.Clear | eden/common/utils/OptionSet.h:113-115 | clear masks the bits out; the result contains none of them and is contained in the old value |
| OptionSets.OptionSet.UnionWith | eden/common/utils/OptionSet.h:164-167 | the in-place union ORs the argument into the value |
| OptionSets.OptionSet.IntersectWith | eden/common/utils/OptionSet.h:169-172 | operator&= ANDs the argument into the value |
| OptionSets.OptionSet.ToString | eden/common/utils/OptionSet.h:121-162 | format() returns "" for an empty set or table, else the rendering of the contained rows |
| OptionSets.OptionSet.RenderedLength | eden/common/utils/OptionSet.h:135-144 | the first pass computes exactly the length of the rendering |
| OptionSets.OptionSet.RenderInto | eden/common/utils/OptionSet.h:146-159 | the second pass fills a buffer of that length with the rendering, and the cursor ends at its end |
| OptionSets.OptionSet.WriteRow | eden/common/utils/OptionSet.h:150-156 | one row's write: a separator if something was written, then the name, keeping the prefix already written |
| Buffers.CopyInto | eden/common/utils/OptionSet.h:154 | memcpy writes the source at the offset and leaves the rest of the buffer unchanged |
| ProcessIds.IsValid | eden/common/os/ProcessId.cpp:35-46 | a definition of assertValid's platform rule; `ValidityRules`, `AllOnesInvalidZeroValid` and `UnixValidIsWindowsValid` state its meaning |
| ProcessIds.Less | eden/common/os/ProcessId.h:72-74 | a definition of ProcessId's operator<; `WrapPreservesOrder` relates it to the optional order |
| ProcessIds.Wrap | eden/common/os/ProcessId.h:97 | a definition of the implicit conversion to OptionalProcessId; `WrapValid` and `WrapValueRoundTrip` prove value() inverts it |
| ProcessIds.IsSet | eden/common/os/ProcessId.h:124-126 | a definition of OptionalProcessId's operator bool; `DefaultIsUnset`, `WrapValid` and `WrapUncheckedAllOnes` state when it holds |
| ProcessIds.OptionalLess | eden/common/os/ProcessId.h:140-142 | a definition of OptionalProcessId's operator<; `OrderIsRawOrder` proves it is the raw order with unset last |
| ProcessIds.Format | eden/common/os/ProcessId.h:172-178 | a definition of the ProcessId formatter; `FormatInjective`, `FormatLength` and `FormatExamples` state its meaning |
| ProcessIds.FormatOptional | eden/common/os/ProcessId.h:180-187 | a definition of the OptionalProcessId formatter; `FormatOptionalMeaning` proves it is "-1" iff unset and otherwise a decimal that parses back |
| ProcessIds.What | eden/common/os/ProcessId.cpp:31-33 | a definition: what() of each exception, "Invalid process ID" for InvalidProcessId; `RejectedPidMessage` states it |
| ProcessIds.RejectedPidMessage | eden/common/os/ProcessId.cpp:31-46 | every pid that assertValid rejects throws InvalidProcessId, whose what() is "Invalid process ID", a message the unset optional's value() never gives |
| ProcessIds.AsInt32 | eden/common/os/ProcessId.cpp:36-40 | the signed 32-bit reading of the pid, congruent to it modulo 2^32 |
| ProcessIds.Checked | eden/common/os/ProcessId.h:47-49 | the checking constructor succeeds iff the pid is valid for the platform, keeping it, and otherwise throws InvalidProcessId |
| ProcessIds.Unchecked | eden/common/os/ProcessId.h:51-53 | unchecked keeps any pid, with no validation |
| ProcessIds.NoProcessId | eden/common/os/ProcessId.h:95 | the default optional is unset |
| ProcessIds.Value | eden/common/os/ProcessId.h:103-108 | value() returns the stored pid iff set, else throws bad_optional_access |
| ProcessIds.ValueOrZero | eden/common/os/ProcessId.h:116-118 | valueOrZero() is value() when set and pid 0 when unset |
| ProcessIds.ValidityRules | eden/common/os/ProcessId.cpp:35-46 | on unix exactly the pids below 2^31 are valid; on Windows every pid but ~0 |
| ProcessIds.AllOnesInvalidZeroValid | eden/common/os/test/ProcessIdTest.cpp:19-27 | ~0 is rejected and 0 accepted on every platform |
| ProcessIds.UnixValidIsWindowsValid | eden/common/os/ProcessId.cpp:35-46 | a pid valid on unix is valid on Windows |
| ProcessIds.PlatformExamples | eden/common/os/test/ProcessIdTest.cpp:29-41 | unix rejects uint32_t(-2); Windows accepts pids in the four billions, which wrap to set optionals |
| ProcessIds.DefaultIsUnset | eden/common/os/ProcessId.h:95-118 | a default optional holds all ones, is unset, throws on value() and gives 0 from valueOrZero() |
| ProcessIds.WrapValid | eden/common/os/test/ProcessIdTest.cpp:45-54 | wrapping a valid pid, 0 included, gives a set optional whose value() is that pid |
| ProcessIds.WrapUncheckedAllOnes | eden/common/os/ProcessId.h:97 | wrapping the unchecked pid ~0 gives the unset optional |
| ProcessIds.WrapValueRoundTrip | eden/common/os/ProcessId.h:97-108 | value() and wrapping are inverse on set optionals |
| ProcessIds.OrderIsRawOrder | eden/common/os/ProcessId.h:128-142 | optional comparisons are those of the raw 32 bits: a total order in which unset sorts after every set pid |
| ProcessIds.WrapPreservesOrder | eden/common/os/ProcessId.h:64-74 | wrapping preserves equality and order of pids |
| ProcessIds.FormatOptionalMeaning | eden/common/os/ProcessId.h:180-187 | an optional formats as "-1" iff unset; a set one formats as its decimal value, which reads back |
| ProcessIds.FormatInjective | eden/common/os/ProcessId.h:172-178 | distinct pids format differently |
| ProcessIds.FormatLength | eden/common/os/ProcessId.h:172-178 | a formatted pid has 1 to 10 digits |
| ProcessIds.FormatExamples | eden/common/os/test/ProcessIdTest.cpp:84-90 | 0 formats as "0", 1000 as "1000", an unset optional as "-1" |
| Decimal.Decimal | eden/common/os/ProcessId.h:172-178 | a nonempty string of digits that starts with '0' only for zero |
| Decimal.DecimalRoundTrip | eden/common/os/ProcessId.h:172-178 | parsing the decimal rendering gives the number back |
| Decimal.DecimalLength | eden/common/utils/ProcessInfo.cpp:168-169 | a number below 10^k has at most k digits |
| Decimal.DecimalLengthAtLeast | eden/common/utils/ProcessInfo.cpp:168-169 | a number of at least 10^(k-1) has at least k digits |
| DynamicEvents.Truncated | eden/common/telemetry/DynamicEvent.cpp:23-31 | a definition of the value addTruncatedInt stores; `TruncatedIsMasked`, `TruncatedUnchanged`, `TruncatedKeepsTop`, `TruncatedIsSubset` and `TruncatedKeepsHighestBit` state its meaning |
| DynamicEvents.Mask | eden/common/telemetry/DynamicEvent.cpp:28-29 | a definition of the shifted mask; `MaskKeepsTopBits` and `MaskIsShiftedTop` state its meaning |
| DynamicEvents.ToUnsigned | eden/common/telemetry/DynamicEvent.cpp:24 | the uint64 reading of an int64, congruent to it modulo 2^64 |
| DynamicEvents.FromUnsigned | eden/common/telemetry/DynamicEvent.cpp:31 | the int64 reading of a uint64; the inverse of ToUnsigned |
| DynamicEvents.BitAnd | eden/common/telemetry/DynamicEvent.cpp:31 | bitwise AND is at most each operand |
| DynamicEvents.BitLength | eden/common/telemetry/DynamicEvent.cpp:24 | 64 - clz: the value lies in [2^(h-1), 2^h), and 0 has length 0 |
| DynamicEvents.LowBits | eden/common/telemetry/DynamicEvent.cpp:28-29 | the bits below position s form a value below 2^s and at most the whole |
| DynamicEvents.MaskKeepsTopBits | eden/common/telemetry/DynamicEvent.cpp:28-31 | ANDing with bitsToKeep ones ending at the highest bit subtracts exactly the lower bits |
| DynamicEvents.MaskIsShiftedTop | eden/common/telemetry/DynamicEvent.cpp:28-31 | ANDing with the mask is shifting right past the low highest-bitsToKeep bits and back |
| DynamicEvents.TruncatedIsMasked | eden/common/telemetry/DynamicEvent.cpp:27-31 | above bitsToKeep bits the stored value reads back as the value ANDed with the mask |
| DynamicEvents.TruncatedUnchanged | eden/common/telemetry/DynamicEvent.cpp:25-26 | a value whose highest set bit is within bitsToKeep is stored unchanged |
| DynamicEvents.TruncatedKeepsTop | eden/common/telemetry/DynamicEvent.cpp:27-31 | otherwise the stored unsigned value is the value with its low highest-bitsToKeep bits cleared |
| DynamicEvents.TruncatedIsSubset | eden/common/telemetry/DynamicEvent.cpp:17-33 | the stored bits are always among the value's bits |
| DynamicEvents.TruncatedKeepsHighestBit | eden/common/telemetry/DynamicEvent.cpp:24-31 | with at least one bit kept, the highest set bit survives |
| DynamicEvents.HighBitSurvives | eden/common/telemetry/DynamicEvent.cpp:24-31 | clearing fewer low bits than the bit length keeps the bit length |
| DynamicEvents.TruncatedZeroBits | eden/common/telemetry/DynamicEvent.cpp:27-31 | keeping zero bits of a nonzero value stores 0 |
| DynamicEvents.TruncatedExamples | eden/common/telemetry/test/DynamicEventTest.cpp:51-64 | 123 kept to 4 bits is 120 (not 112), to 10 bits is 123, to 0 bits is 0 |
| DynamicEvents.TruncatedBinaryExamples | eden/common/telemetry/test/DynamicEventTest.cpp:67-74 | 0b101101 kept to 8 bits is unchanged, to 3 bits is 0b101000 |
| DynamicEvents.TruncatedWideExample | eden/common/telemetry/test/DynamicEventTest.cpp:77-79 | 0xBADAA kept to 8 bits is 0xBA000 |
| DynamicEvents.ValidatedAllAppend | eden/common/telemetry/DynamicEvent.cpp:67-71 | validating a concatenated vector validates each part, in order, so each element is validated on its own |
| DynamicEvents.DynamicEvent.constructor | eden/common/telemetry/test/DynamicEventTest.cpp:13-21 | a new event has four empty maps |
| DynamicEvents.DynamicEvent.AddInt | eden/common/telemetry/DynamicEvent.cpp:35-41 | inserts a new name; a duplicate raises logic_error "Attempted to insert duplicate int: " and the name, keeping the old value |
| DynamicEvents.DynamicEvent.AddString | eden/common/telemetry/DynamicEvent.cpp:43-51 | inserts the validated string under a new name; a duplicate raises logic_error and keeps the old value |
| DynamicEvents.DynamicEvent.AddDouble | eden/common/telemetry/DynamicEvent.cpp:53-62 | inserts under a new name; a duplicate raises logic_error and keeps the old value |
| DynamicEvents.DynamicEvent.AddStringVec | eden/common/telemetry/DynamicEvent.cpp:64-78 | inserts the element-wise validated vector under a new name; a duplicate raises logic_error and keeps the old value |
| DynamicEvents.DynamicEvent.AddTruncatedInt | eden/common/telemetry/DynamicEvent.cpp:17-33 | bitsToKeep above 64 aborts the process (rendered as `CheckFailure`, with nothing stored); otherwise inserts the truncated value once, and a repeated name raises the duplicate error |
| DynamicEvents.ScenarioInsertOnce | eden/common/telemetry/test/DynamicEventTest.cpp:22-39 | a second int under the same name is refused, and a string vector keeps its order |
| ProcessInfo.CmdLinePath | eden/common/utils/ProcessInfo.cpp:165-172 | a definition of the path getProcPidCmdLine writes; `CmdLinePathFits`, `CmdLinePathHasNoNul` and `CmdLinePathExamples` state its meaning, and `GetProcPidCmdLine` is proved to write it |
| ProcessInfo.Extract | eden/common/utils/ProcessInfo.cpp:236-293 | a definition of the command-line slice; `ExtractErrors`, `ExtractIsSubrange`, `ExtractStart` and `ExtractEnd` state its meaning, and `ExtractCommandLineFromProcArgs` is proved equal to it |
| ProcessInfo.UserInfo | eden/common/utils/ProcessInfo.cpp:452-476 | a definition of the walk of readUserInfo; `NoResolveReadsOnce`, `NonRootStops`, `RootTakesParentUid` and `UnreadableHasNoInfo` state its meaning, and `ReadUserInfo` is proved equal to it |
| ProcessInfo.CString | eden/common/utils/test/ProcessInfoCacheTest.cpp:22-27 | the C string of a buffer: the prefix before its first NUL |
| ProcessInfo.CStringOfTerminated | eden/common/utils/ProcessInfo.cpp:170 | a NUL-free path followed by a NUL reads back as that path |
| ProcessInfo.TerminatedBuffer | eden/common/utils/ProcessInfo.cpp:170 | a buffer that starts with a NUL-free path and a NUL holds that path as its C string |
| ProcessInfo.GetProcPidCmdLine | eden/common/utils/ProcessInfo.cpp:165-172 | the buffer starts with "/proc/", the pid's decimal digits and "/cmdline", then a NUL; its C string is that path |
| ProcessInfo.CmdLinePathFits | eden/common/utils/test/ProcessInfoCacheTest.cpp:26-27 | the path and its NUL fit the buffer for every pid, and for the largest pid they fill it exactly |
| ProcessInfo.DigitCountBound | eden/common/utils/ProcessInfo.cpp:168-169 | a pid_t has at most ten decimal digits, and the largest has exactly ten |
| ProcessInfo.CmdLinePathHasNoNul | eden/common/utils/ProcessInfo.cpp:167-170 | no character of the path is NUL |
| ProcessInfo.CmdLinePathExamples | eden/common/utils/test/ProcessInfoCacheTest.cpp:22-24 | pid 0 gives "/proc/0/cmdline" and pid 1234 gives "/proc/1234/cmdline" |
| ProcessInfo.ArgCount | eden/common/utils/ProcessInfo.cpp:256-258 | argc read from the first four bytes is a signed 32-bit value |
| ProcessInfo.NextNul | eden/common/utils/ProcessInfo.cpp:266-272 | the first NUL at or after a position, or the end; no NUL before it |
| ProcessInfo.NextNonNul | eden/common/utils/ProcessInfo.cpp:273-279 | the first non-NUL at or after a position, or the end; only NULs before it |
| ProcessInfo.NthNul | eden/common/utils/ProcessInfo.cpp:282-292 | the n-th NUL from a position, with n - 1 NULs before it; the end when fewer than n remain |
| ProcessInfo.ExtractCommandLineFromProcArgs | eden/common/utils/ProcessInfo.cpp:236-293 | the three cursor walks compute exactly Extract: the error messages or the command-line span |
| ProcessInfo.ExtractErrors | eden/common/utils/ProcessInfo.cpp:251-261 | "<err:EUNDERFLOW>" iff the buffer is shorter than an int; "<err:BOGUS_ARGC>" iff argc is below 1; no other message |
| ProcessInfo.ExtractIsSubrange | eden/common/utils/ProcessInfo.cpp:263-292 | a returned span is a contiguous sub-range of [sizeof(int), len) |
| ProcessInfo.ExtractStart | eden/common/utils/ProcessInfo.cpp:263-280 | the span starts right after the NUL-free image path and the run of NULs after it |
| ProcessInfo.ExtractEnd | eden/common/utils/ProcessInfo.cpp:282-292 | the span ends just before the argc-th NUL from its start, holding argc - 1 NULs; with fewer NULs left it runs to the end |
| ProcessInfo.ExtractExample | eden/common/utils/ProcessInfo.cpp:236-293 | for argc 2, image "ls" padded with NULs, then "ls", "-l" and one environment entry, the span covers "ls\0-l" |
| ProcessInfo.ParseStatusLine | eden/common/utils/ProcessInfo.cpp:207-216 | a line without the prefix gives false and leaves the value untouched; success implies the prefix |
| ProcessInfo.ParseStatusLineReadsRest | eden/common/utils/ProcessInfo.cpp:210-213 | with the prefix present, the result is the number read from the rest of the line |
| ProcessInfo.LastUid | eden/common/utils/ProcessInfo.cpp:455-469 | the uid of the last status the walk reads is the uid of some process |
| ProcessInfo.ReadUserInfo | eden/common/utils/ProcessInfo.cpp:452-469 | the do-while walk computes UserInfo: none if the first read fails, euid from the first read, ruid from the last |
| ProcessInfo.NoResolveReadsOnce | eden/common/utils/ProcessInfo.cpp:464-469 | without resolveRootUser only one status is read and ruid equals euid |
| ProcessInfo.NonRootStops | eden/common/utils/ProcessInfo.cpp:469 | a process not owned by root, or init, reports its own uid for both |
| ProcessInfo.RootTakesParentUid | eden/common/utils/ProcessInfo.cpp:455-469 | a root process other than init takes its parent's walk result as ruid, or its own uid 0 when its parent cannot be read |
| ProcessInfo.UnreadableHasNoInfo | eden/common/utils/ProcessInfo.cpp:459-462 | a process whose status cannot be read has no user info |
| ProcessInfo.ReadUserInfoExample | eden/common/utils/ProcessInfo.cpp:452-476 | a root process under a shell of uid 1000 under init reports ruid 1000, euid 0 |
| Handles.HandleBase.IsValid | eden/common/utils/Handle.h:75-77 | a definition of operator bool; `Get`, `Close` and `Destroy` state through it when a handle is closed |
| Handles.HandleBase.constructor | eden/common/utils/Handle.h:55-56 | takes ownership of the given handle; nothing closed |
| Handles.HandleBase.Empty | eden/common/utils/Handle.h:55-56 | the default holds the invalid value and operator bool is false |
| Handles.HandleBase.Move | eden/common/utils/Handle.h:62 | the move constructor takes the other's handle and leaves it invalid, closing nothing |
| Handles.HandleBase.Get | eden/common/utils/Handle.h:75-81 | get() differs from the invalid value iff operator bool holds |
| Handles.HandleBase.Set | eden/common/utils/Handle.h:83-86 | writing through set() needs an invalid handle, stores the value and closes nothing |
| Handles.HandleBase.Release | eden/common/utils/Handle.h:88-92 | returns the previous handle, leaves the invalid value, closes nothing |
| Handles.HandleBase.Close | eden/common/utils/Handle.h:107-111 | closes the handle once if it is valid, never otherwise |
| Handles.HandleBase.Reset | eden/common/utils/Handle.h:94-102 | closes the current handle once if it is valid, then holds the new value |
| Handles.HandleBase.MoveAssign | eden/common/utils/Handle.h:63-69 | self-assignment changes nothing; otherwise the old handle is closed once if valid, and the other's handle moves over, leaving it invalid |
| Handles.HandleBase.Destroy | eden/common/utils/Handle.h:71-73 | the destructor closes a valid handle once and an invalid one never |
| Handles.ScenarioResetThenDestroy | eden/common/utils/Handle.h:94-102 | resetting a valid handle to another and destroying it closes the first value, then the second, once each |
| Handles.ScenarioReleaseThenDestroy | eden/common/utils/Handle.h:88-92 | a released handle comes back to the caller and destruction closes nothing |
| Handles.ScenarioMoveThenDestroy | eden/common/utils/Handle.h:62-69 | after a move-assignment the moved-from object closes nothing and the new owner closes the value once |
| Handles.ScenarioResetToSameHandle | eden/common/utils/Handle.h:94-102 | resetting to the handle already held closes it and keeps it, so destruction closes it a second time |

## Left out

- Locking is left out (`folly::Synchronized` in FaultInjector). Every operation is modelled as one atomic step.
- FaultInjector's regular expressions are not modelled. A compiled pattern is the `matches` parameter applied to its source text.
- Futures, promises and sleeps are not executed. A check returns a description of its future (`CheckFuture`), and a promise resolution is an entry in a ghost log.
- `abort()` for a Kill fault is the `Aborted` result.
- DynamicEvents.DynamicEvent.AddTruncatedInt: `CheckFailure` stands for the fatal `XCHECK_LE` at `DynamicEvent.cpp:22`, which aborts the process, just as `Aborted` stands for a Kill fault's `abort()`. Nothing after it runs in the source, so no caller can recover from it there.
- Logging is left out: the `XLOG` calls in FaultInjector, and the DFATAL message in `HandleBase::reset`.
- Handles.HandleBase.Reset follows release builds: resetting to the handle already held (`Handle.h:95-100`) logs with `XLOG(DFATAL)`, which aborts only in debug builds, so the model goes on to close and keep the handle. `Handles.HandleBase.Set` instead follows the debug-only `XDCHECK` (`Handle.h:84`) as a precondition: in a release build a set over a valid handle would overwrite it without closing, which the model does not allow.
- `waitUntilBlocked` is left out. It polls `getBlockedFaults` with sleeps and a timeout, that is, clock-driven I/O.
- FaultInjector.h is not part of this model, nor are the header-only `check*` wrappers declared in it.
- FaultInjection.FaultInjector.CheckTry: for Block and Kill it reports no outcome, where the source waits on the future. `FaultInjection.Settled` gives a blocked call's eventual outcome from the resolution log.
- FaultInjection.FaultInjector.Check: for Block it returns `completed == false` and no exception. The source's `checkImpl` (`FaultInjector.cpp:82-89`) instead waits on the future, then returns or rethrows the `unblockWithError` cause or "FaultInjector destroyed". The contract names the promise the call waits on; `Settled(Waiting(p), log)` is that eventual outcome once an unblock or the destructor has resolved it.
- FaultInjection.FaultInjector.InjectFault and FaultInjection.FaultInjector.ExtractBlockedChecks: invalid patterns are not modelled. In the source the `Fault` constructor compiles the pattern (`FaultInjector.cpp:27`) and can throw `boost::regex_error`. In `injectFault` that happens after `state->faults[keyClass]` (`FaultInjector.cpp:158`) has already created the class entry, which then stays behind empty. `extractBlockedChecks` compiles its pattern (`FaultInjector.cpp:317`) only when the class exists. The model treats every text as a valid pattern.
- OptionSet is fixed to a 32-bit underlying type. Other integral widths are not modelled.
- OptionSet's `==`, `!=` and `asRaw` are left out. They compare or return the raw value. `contains` (`OptionSet.h:71-73`) is an alias of `containsAllOf` and is the same predicate as `OptionSets.ContainsAllOf`.
- OptionSet's `assert` after the write loop (`OptionSet.h:159`) is not a separate statement. `RenderInto` proves the cursor ends at the computed length.
- The text of `std::bad_optional_access::what()` is set by the standard library, not by this code. `ProcessIds.What` uses the text libstdc++ gives.
- ProcessId's `current()` and `std::hash` are left out. They call the OS and the standard library.
- DynamicEvent.h (`addBool`, accessors) is not part of this model.
- DynamicEvents.DynamicEvent.AddDouble: the `std::isfinite` check is not modelled. `Double` is an opaque type.
- `ensureValidUtf8` is a parameter of the event. Its definition is not part of this model.
- DynamicEvents.Truncated: `__builtin_clzll(0)` is undefined in C++. The model takes the highest bit of 0 to be position 0, so a value of 0 is stored unchanged.
- 64-bit integers are held as mathematical integers in the int64 range. The bit operations are written out on their unsigned 64-bit reading.
- ProcessInfo.GetProcPidCmdLine: the buffer size is taken as 25. The `ProcPidCmdLine` type is declared in ProcessInfo.h, which is not part of this model. 25 is the size the test requires for the largest pid.
- ProcessInfo.GetProcPidCmdLine: requires a non-negative pid. A negative `pid_t` converts to a 20-digit unsigned value that does not fit the buffer.
- The buffer's bytes after the NUL are left unspecified, as the uninitialised `std::array` leaves them.
- ProcessInfo.ArgCount reads the argc bytes little-endian. This is the byte order of every macOS target.
- `StatusInfo::create`'s file reading is a parameter, a finite map from readable pids to their parent and uid. So are the number reads of `istringstream`, through `NumberReader`.
- ProcessInfo.ReadUserInfo: the caller supplies a ghost rank showing that the parent chain terminates. The kernel's process tree guarantees this, and the source relies on it.
- `fetchUsernames` and the passwd lookups are left out (I/O).
- The macOS and Windows branches of `readUserInfo` return none and are not modelled.
- `readProcessName`, `readProcessSimpleName`, `getProcessCommandLine` and `queryKernArgMax` are left out. They read `/proc`, call `sysctl` or read Win32 process memory.
- HandleBase is modelled with an integer handle type and an invalid value fixed per object. `Traits::close` is an entry in the ghost log `closed`.
- The copy operations of HandleBase are deleted in the source and have no counterpart here.
