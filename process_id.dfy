/**
 * ProcessId: a 32-bit cross-platform process identifier with a per-platform
 * validity rule, and OptionalProcessId: an optional process id packed into
 * the same 32 bits, with all ones meaning "unset".
 */
module ProcessIds {
  import opened Wrappers
  import Decimal

  newtype u32 = x: int | 0 <= x < 0x1_0000_0000

  /** ~uint32_t{0}: all 32 bits set. */
  const AllOnes: u32 := 0xFFFF_FFFF

  /** The two rule sets of ProcessId::assertValid. */
  datatype Platform = Unix | Windows

  /** The exceptions the two classes throw. */
  datatype ProcessIdError = InvalidProcessId | BadOptionalAccess

  /**
   * what() of each exception. InvalidProcessId's text is fixed by this
   * library; bad_optional_access's is the one libstdc++ gives.
   */
  function What(e: ProcessIdError): string {
    match e
    case InvalidProcessId => "Invalid process ID"
    case BadOptionalAccess => "bad optional access"
  }

  datatype ProcessId = ProcessId(pid: u32)

  /** static_cast<int32_t>: the two's complement reading of 32 bits. */
  function AsInt32(x: u32): (v: int)
    ensures -0x8000_0000 <= v < 0x8000_0000
    ensures v % 0x1_0000_0000 == x as int
  {
    if x < 0x8000_0000 then x as int else x as int - 0x1_0000_0000
  }

  /** ProcessId::assertValid: negative pid_t on unix, -1 as a DWORD on Windows. */
  predicate IsValid(platform: Platform, pid: u32) {
    match platform
    case Unix => AsInt32(pid) >= 0
    case Windows => pid != AllOnes
  }

  /**
   * The checking constructor ProcessId(uint32_t); what() of its failure is
   * "Invalid process ID".
   */
  function Checked(platform: Platform, pid: u32): (r: Result<ProcessId, ProcessIdError>)
    ensures r.Success? <==> IsValid(platform, pid)
    ensures r.Success? ==> r.value.pid == pid
    ensures r.Failure? ==> r.error == InvalidProcessId
  {
    if IsValid(platform, pid) then Success(ProcessId(pid)) else Failure(InvalidProcessId)
  }

  /** ProcessId::unchecked: no validation at all. */
  function Unchecked(pid: u32): (p: ProcessId)
    ensures p.pid == pid
  {
    ProcessId(pid)
  }

  /** operator< on ProcessId. */
  predicate Less(a: ProcessId, b: ProcessId) {
    a.pid < b.pid
  }

  // ---------------------------------------------------------------------
  // OptionalProcessId
  // ---------------------------------------------------------------------

  datatype OptionalProcessId = OptionalProcessId(raw: u32)

  /** kUnset */
  const Unset: u32 := AllOnes

  /** The default (and nullopt) constructor. */
  function NoProcessId(): (o: OptionalProcessId)
    ensures !IsSet(o)
  {
    OptionalProcessId(Unset)
  }

  /** The implicit conversion from ProcessId. */
  function Wrap(p: ProcessId): OptionalProcessId {
    OptionalProcessId(p.pid)
  }

  /** operator bool */
  predicate IsSet(o: OptionalProcessId) {
    o.raw != Unset
  }

  /** value(): the stored pid, or bad_optional_access when unset. */
  function Value(o: OptionalProcessId): (r: Result<ProcessId, ProcessIdError>)
    ensures r.Success? <==> IsSet(o)
    ensures r.Success? ==> r.value.pid == o.raw
    ensures r.Failure? ==> r.error == BadOptionalAccess
  {
    if o.raw == Unset then Failure(BadOptionalAccess) else Success(Unchecked(o.raw))
  }

  /** valueOrZero(): the stored pid, or pid 0 when unset. */
  function ValueOrZero(o: OptionalProcessId): (p: ProcessId)
    ensures IsSet(o) ==> Value(o) == Success(p)
    ensures !IsSet(o) ==> p.pid == 0
  {
    Unchecked(if o.raw == Unset then 0 else o.raw)
  }

  /** operator< on OptionalProcessId. */
  predicate OptionalLess(a: OptionalProcessId, b: OptionalProcessId) {
    a.raw < b.raw
  }

  // ---------------------------------------------------------------------
  // fmt formatters
  // ---------------------------------------------------------------------

  /** formatter<ProcessId>: the pid as an unsigned decimal. */
  function Format(p: ProcessId): string {
    Decimal.Decimal(p.pid as nat)
  }

  /** formatter<OptionalProcessId>: the pid as a signed decimal, -1 when unset. */
  function FormatOptional(o: OptionalProcessId): string {
    if IsSet(o) then Decimal.Decimal(o.raw as nat) else "-1"
  }

  // ---------------------------------------------------------------------
  // Properties
  // ---------------------------------------------------------------------

  /** On unix exactly the pids below 2^31 are valid; on Windows all but ~0. */
  lemma ValidityRules(pid: u32)
    ensures IsValid(Unix, pid) <==> pid < 0x8000_0000
    ensures IsValid(Windows, pid) <==> pid != AllOnes
  {
  }

  /** ~0 is rejected on every platform, and 0 accepted on every platform. */
  lemma AllOnesInvalidZeroValid(platform: Platform)
    ensures Checked(platform, AllOnes) == Failure(InvalidProcessId)
    ensures Checked(platform, 0) == Success(ProcessId(0))
  {
  }

  /**
   * Every rejected pid throws InvalidProcessId, whose what() is
   * "Invalid process ID", a message value()'s exception never carries.
   */
  lemma RejectedPidMessage(platform: Platform, pid: u32)
    requires !IsValid(platform, pid)
    ensures Checked(platform, pid).Failure?
    ensures What(Checked(platform, pid).error) == "Invalid process ID"
    ensures Value(NoProcessId()).Failure?
    ensures What(Value(NoProcessId()).error) != What(Checked(platform, pid).error)
  {
  }

  /** The unix rule is the stricter one. */
  lemma UnixValidIsWindowsValid(pid: u32)
    requires IsValid(Unix, pid)
    ensures IsValid(Windows, pid)
  {
  }

  /** Unix rejects uint32_t(-2); Windows accepts pids in the four billions. */
  lemma PlatformExamples()
    ensures Checked(Unix, AllOnes - 1) == Failure(InvalidProcessId)
    ensures Checked(Windows, AllOnes - 4) == Success(ProcessId(AllOnes - 4))
    ensures IsSet(Wrap(ProcessId(AllOnes - 4)))
  {
  }

  /** A default-constructed OptionalProcessId is unset and value() throws. */
  lemma DefaultIsUnset()
    ensures NoProcessId().raw == 0xFFFF_FFFF
    ensures !IsSet(NoProcessId())
    ensures Value(NoProcessId()) == Failure(BadOptionalAccess)
    ensures ValueOrZero(NoProcessId()) == ProcessId(0)
  {
  }

  /** Wrapping any valid ProcessId, 0 included, gives a set optional holding it. */
  lemma WrapValid(platform: Platform, pid: u32)
    requires Checked(platform, pid).Success?
    ensures IsSet(Wrap(Checked(platform, pid).value))
    ensures Value(Wrap(Checked(platform, pid).value)) == Checked(platform, pid)
    ensures ValueOrZero(Wrap(Checked(platform, pid).value)) == Checked(platform, pid).value
  {
  }

  /** ... while ProcessId::unchecked(~0) wraps to the unset optional. */
  lemma WrapUncheckedAllOnes()
    ensures Wrap(Unchecked(AllOnes)) == NoProcessId()
  {
  }

  /** Value and Wrap are inverse on set optionals. */
  lemma WrapValueRoundTrip(o: OptionalProcessId)
    requires IsSet(o)
    ensures Value(o).Success? && Wrap(Value(o).value) == o
  {
  }

  /** Comparisons are those of the raw 32-bit values; unset sorts after every set pid. */
  lemma OrderIsRawOrder(a: OptionalProcessId, b: OptionalProcessId)
    ensures a == b <==> a.raw == b.raw
    ensures OptionalLess(a, b) || a == b || OptionalLess(b, a)
    ensures !(OptionalLess(a, b) && OptionalLess(b, a))
    ensures IsSet(a) && !IsSet(b) ==> OptionalLess(a, b)
  {
  }

  /** Wrapping preserves equality and order. */
  lemma WrapPreservesOrder(p: ProcessId, q: ProcessId)
    ensures Wrap(p) == Wrap(q) <==> p == q
    ensures OptionalLess(Wrap(p), Wrap(q)) <==> Less(p, q)
  {
  }

  /** An unset optional formats as "-1", a set one as its decimal value, which reads back. */
  lemma FormatOptionalMeaning(o: OptionalProcessId)
    ensures FormatOptional(o) == "-1" <==> !IsSet(o)
    ensures IsSet(o) ==> Decimal.ParseDecimal(FormatOptional(o)) == o.raw as nat
  {
    if IsSet(o) {
      var s := Decimal.Decimal(o.raw as nat);
      assert Decimal.IsDigit(s[0]);
      assert s != "-1";
      Decimal.DecimalRoundTrip(o.raw as nat);
    }
  }

  /** Distinct pids format differently. */
  lemma FormatInjective(p: ProcessId, q: ProcessId)
    requires Format(p) == Format(q)
    ensures p == q
  {
    Decimal.DecimalRoundTrip(p.pid as nat);
    Decimal.DecimalRoundTrip(q.pid as nat);
  }

  /** A formatted pid has at most 10 digits. */
  lemma FormatLength(p: ProcessId)
    ensures 1 <= |Format(p)| <= 10
  {
    assert Decimal.Pow10(10) == 10_000_000_000 by {
      assert Decimal.Pow10(5) == 100_000;
      assert Decimal.Pow10(10) == 100_000 * Decimal.Pow10(5);
    }
    Decimal.DecimalLength(p.pid as nat, 10);
  }

  /** The formatter examples: 0, 1000, unset, and a wrapped 1000. */
  lemma FormatExamples()
    ensures Format(ProcessId(0)) == "0"
    ensures Format(ProcessId(1000)) == "1000"
    ensures FormatOptional(NoProcessId()) == "-1"
    ensures FormatOptional(Wrap(ProcessId(1000))) == "1000"
  {
    assert Decimal.Decimal(1) == "1";
    assert Decimal.Decimal(10) == "10";
    assert Decimal.Decimal(100) == "100";
    assert Decimal.Decimal(1000) == "1000";
  }
}
