/** A control block as an object: several handles, leases, maps and views refer to one of these and
    change it in place (src/internal.hpp, src/buffer.cpp). */
module Controls {
  import opened Types
  import opened Protocol

  class ControlBlock {
    var refs: int
    var readLeases: nat
    var writeLeases: nat
    var exclusiveLeases: nat
    var mapCount: nat
    var state: BufferState

    function Value(): Control
      reads this
    {
      Control(refs, readLeases, writeLeases, exclusiveLeases, mapCount, state)
    }

    constructor ()
      ensures Value() == Control(0, 0, 0, 0, 0, ALLOCATED)
    {
      refs, readLeases, writeLeases, exclusiveLeases, mapCount, state := 0, 0, 0, 0, 0, ALLOCATED;
    }

    method Retain()
      modifies this`refs
      ensures Value() == old(Value()).(refs := old(refs) + 1)
    {
      refs := refs + 1;
    }

    /** The three acquire operations: refused on conflict, otherwise counted and retained. */
    method Acquire(kind: LeaseKind) returns (granted: bool)
      modifies this
      ensures granted == !Conflicts(old(Value()), kind)
      ensures Value() == if granted then Taken(old(Value()), LeaseToken(kind)) else old(Value())
    {
      if exclusiveLeases > 0 || writeLeases > 0 {
        return false;
      }
      match kind {
        case READ_LEASE =>
          readLeases := readLeases + 1;
          if state == ALLOCATED {
            state := IN_USE;
          }
        case WRITE_LEASE =>
          if readLeases > 0 {
            return false;
          }
          writeLeases := writeLeases + 1;
          if state == ALLOCATED || state == MAPPED {
            state := IN_USE;
          }
        case EXCLUSIVE_LEASE =>
          if readLeases > 0 {
            return false;
          }
          exclusiveLeases := exclusiveLeases + 1;
          if state == ALLOCATED || state == MAPPED {
            state := IN_USE;
          }
      }
      Retain();
      return true;
    }

    method EnterMap()
      modifies this
      ensures forall at :: Value() == Taken(old(Value()), MapToken(at))
    {
      mapCount := mapCount + 1;
      if ValidTransition(state, MAPPED) {
        state := MAPPED;
      }
      Retain();
    }

    /** BufferLease::release up to its drop_ref. */
    method LeaveLease(kind: LeaseKind)
      modifies this
      ensures Value() == Dropped(old(Value()), LeaseToken(kind)).(refs := old(refs))
    {
      if kind == READ_LEASE && readLeases > 0 {
        readLeases := readLeases - 1;
      } else if kind == WRITE_LEASE && writeLeases > 0 {
        writeLeases := writeLeases - 1;
      } else if kind == EXCLUSIVE_LEASE && exclusiveLeases > 0 {
        exclusiveLeases := exclusiveLeases - 1;
      }
      if readLeases == 0 && writeLeases == 0 && exclusiveLeases == 0 && state == IN_USE {
        state := ALLOCATED;
      }
    }

    /** BufferMap::release up to its drop_ref. */
    method LeaveMap()
      modifies this
      ensures forall at :: Value() == Dropped(old(Value()), MapToken(at)).(refs := old(refs))
    {
      if mapCount > 0 {
        mapCount := mapCount - 1;
      }
      if mapCount == 0 && state == MAPPED {
        state := ALLOCATED;
      }
    }

    /** drop_ref's fetch_sub: was this the last reference? */
    method Unref() returns (last: bool)
      modifies this`refs
      ensures Value() == old(Value()).(refs := old(refs) - 1) && last == (old(refs) == 1)
    {
      last := refs == 1;
      refs := refs - 1;
    }
  }
}
