/** The process's descriptor table: a new descriptor is always the lowest free number
    (POSIX.1-2017, System Interfaces volume, section 2.14). */
module Descriptors {

  function LowestFreeFrom(keys: set<nat>, from: nat): (fd: nat)
    ensures from <= fd && fd !in keys
    ensures forall k: nat :: from <= k < fd ==> k in keys
    decreases |keys|
  {
    if from !in keys then from
    else
      var rest := keys - {from};
      var fd := LowestFreeFrom(rest, from + 1);
      assert forall k :: from < k < fd && k in rest ==> k in keys;
      fd
  }

  function LowestFree(keys: set<nat>): (fd: nat)
    ensures fd !in keys
    ensures forall k: nat :: k < fd ==> k in keys
  {
    LowestFreeFrom(keys, 0)
  }

  class FdTable<T> {
    var open: map<nat, T>

    constructor ()
      ensures open == map[]
    {
      open := map[];
    }

    method Open(x: T) returns (fd: nat)
      modifies this
      ensures fd == LowestFree(old(open.Keys))
      ensures open == old(open)[fd := x]
    {
      fd := LowestFree(open.Keys);
      open := open[fd := x];
    }

    /** Closing a number that is not open changes nothing. */
    method Close(fd: nat)
      modifies this
      ensures open == old(open) - {fd}
    {
      open := open - {fd};
    }
  }
}
