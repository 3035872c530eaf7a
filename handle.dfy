/**
 * HandleBase: sole ownership of an OS handle. The handle is closed through
 * the traits' close function when the owner resets it or goes out of scope,
 * and never when it holds the traits' invalid value. Calls to close are
 * recorded in a ghost log.
 */
module Handles {

  /** Traits::Type */
  type RawHandle = int

  class HandleBase {
    /** handle_ */
    var handle: RawHandle
    /** Traits::invalidHandleValue() */
    const invalid: RawHandle
    /** The handles passed to Traits::close, oldest first. */
    ghost var closed: seq<RawHandle>

    /** Only valid handles are ever closed. */
    ghost predicate Valid()
      reads this
    {
      forall i :: 0 <= i < |closed| ==> closed[i] != invalid
    }

    /** explicit HandleBase(Type handle): takes ownership of `handle`. */
    constructor (invalid: RawHandle, handle: RawHandle)
      ensures this.invalid == invalid && this.handle == handle
      ensures closed == [] && Valid()
    {
      this.invalid := invalid;
      this.handle := handle;
      closed := [];
    }

    /** HandleBase(): the default argument, the invalid value. */
    constructor Empty(invalid: RawHandle)
      ensures this.invalid == invalid && handle == invalid && !IsValid()
      ensures closed == [] && Valid()
    {
      this.invalid := invalid;
      handle := invalid;
      closed := [];
    }

    /** HandleBase(HandleBase&&): takes the handle of `other` and leaves it invalid. */
    constructor Move(other: HandleBase)
      modifies other
      ensures invalid == other.invalid && handle == old(other.handle)
      ensures other.handle == other.invalid && other.closed == old(other.closed)
      ensures closed == [] && Valid()
    {
      var h := other.Release();
      invalid := other.invalid;
      handle := h;
      closed := [];
    }

    /** operator bool: the handle differs from the invalid value. */
    predicate IsValid()
      reads this
    {
      handle != invalid
    }

    /** get() */
    function Get(): (h: RawHandle)
      reads this
      ensures h != invalid <==> IsValid()
    {
      handle
    }

    /**
     * set(): the caller writes a handle through the returned address; the
     * debug check demands that the object holds no handle yet.
     */
    method Set(value: RawHandle)
      requires handle == invalid
      modifies this
      ensures handle == value && closed == old(closed)
    {
      handle := value;
    }

    /** release(): gives the handle up without closing it. */
    method Release() returns (h: RawHandle)
      modifies this
      ensures h == old(handle) && handle == invalid && closed == old(closed)
      ensures !IsValid()
    {
      h := handle;
      handle := invalid;
    }

    /** close(): Traits::close on the handle, only when it is valid. */
    method Close()
      requires Valid()
      modifies this
      ensures handle == old(handle)
      ensures closed == old(closed) + (if old(IsValid()) then [old(handle)] else [])
      ensures Valid()
    {
      if IsValid() {
        closed := closed + [handle];
      }
    }

    /** reset(value): closes the current handle once if it is valid, then holds `value`. */
    method Reset(value: RawHandle)
      requires Valid()
      modifies this
      ensures handle == value
      ensures closed == old(closed) + (if old(IsValid()) then [old(handle)] else [])
      ensures Valid()
    {
      Close();
      handle := value;
    }

    /** operator=(HandleBase&&): a no-op on itself; otherwise reset(other.release()). */
    method MoveAssign(other: HandleBase)
      requires Valid() && other.invalid == invalid
      modifies this, other
      ensures other == this ==> handle == old(handle) && closed == old(closed)
      ensures other != this ==> handle == old(other.handle) && other.handle == invalid
      ensures other != this ==> closed == old(closed) + (if old(IsValid()) then [old(handle)] else [])
      ensures other != this ==> other.closed == old(other.closed)
      ensures Valid()
    {
      if other != this {
        var h := other.Release();
        Reset(h);
      }
    }

    /** ~HandleBase(): closes a valid handle; the object is gone afterwards. */
    method Destroy()
      requires Valid()
      modifies this
      ensures closed == old(closed) + (if old(IsValid()) then [old(handle)] else [])
      ensures Valid()
    {
      Close();
    }
  }

  /** A handle that is reset and then destroyed closes each of its two values once. */
  method ScenarioResetThenDestroy(invalid: RawHandle, first: RawHandle, second: RawHandle)
    returns (ghost closed: seq<RawHandle>)
    requires first != invalid && second != invalid
    ensures closed == [first, second]
  {
    var h := new HandleBase(invalid, first);
    h.Reset(second);
    h.Destroy();
    closed := h.closed;
  }

  /** A released handle is never closed, and the caller gets it back. */
  method ScenarioReleaseThenDestroy(invalid: RawHandle, value: RawHandle)
    returns (released: RawHandle, ghost closed: seq<RawHandle>)
    ensures released == value && closed == []
  {
    var h := new HandleBase(invalid, value);
    released := h.Release();
    h.Destroy();
    closed := h.closed;
  }

  /**
   * A move hands the handle over: the moved-from object is destroyed without
   * closing it, and the value is closed once, by its new owner.
   */
  method ScenarioMoveThenDestroy(invalid: RawHandle, value: RawHandle)
    returns (ghost sourceClosed: seq<RawHandle>, ghost targetClosed: seq<RawHandle>)
    requires value != invalid
    ensures sourceClosed == [] && targetClosed == [value]
  {
    var source := new HandleBase(invalid, value);
    var target := new HandleBase.Empty(invalid);
    target.MoveAssign(source);
    source.Destroy();
    target.Destroy();
    sourceClosed, targetClosed := source.closed, target.closed;
  }

  /**
   * Resetting to the handle already held (the misuse reset() reports) closes
   * it and keeps it, so destruction closes it a second time.
   */
  method ScenarioResetToSameHandle(invalid: RawHandle, value: RawHandle)
    returns (ghost closed: seq<RawHandle>)
    requires value != invalid
    ensures closed == [value, value]
  {
    var h := new HandleBase(invalid, value);
    h.Reset(value);
    h.Destroy();
    closed := h.closed;
  }
}
