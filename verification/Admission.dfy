/** Controller admission: the epoch counter and the two flags that serialise takeovers. */
module AdmissionControl {

  /** Number of distinct 64-bit epochs; the counter wraps after this many claims. */
  const EPOCHS: nat := 0x1_0000_0000_0000_0000

  datatype Admission = Admission(epoch: nat, active: bool, listenerRequired: bool)

  datatype ClaimResult =
    | Granted(generation: nat, replacesActive: bool)
    | WaitForListener

  const Fresh := Admission(0, false, false)

  function NextEpoch(epoch: nat): nat {
    (epoch + 1) % EPOCHS
  }

  predicate IsCurrent(a: Admission, generation: nat) {
    a.epoch == generation
  }

  function Claimed(a: Admission): (Admission, ClaimResult) {
    if a.listenerRequired then (a, WaitForListener)
    else
      (Admission(NextEpoch(a.epoch), true, a.active), Granted(NextEpoch(a.epoch), a.active))
  }

  function Released(a: Admission, generation: nat): Admission {
    if IsCurrent(a, generation) then a.(active := false) else a
  }

  function ListenerReturned(a: Admission): (Admission, bool) {
    (a.(listenerRequired := false), a.listenerRequired)
  }

  /** The record the firmware keeps in a shared cell, updated in place. */
  class ControllerAdmission {
    var epoch: nat
    var active: bool
    var listenerRequired: bool

    ghost predicate Valid()
      reads this
    {
      epoch < EPOCHS
    }

    ghost function Value(): Admission
      reads this
    {
      Admission(epoch, active, listenerRequired)
    }

    constructor ()
      ensures Valid() && Value() == Fresh
    {
      epoch, active, listenerRequired := 0, false, false;
    }

    method TryClaim() returns (r: ClaimResult)
      requires Valid()
      modifies this
      ensures Valid()
      ensures (Value(), r) == Claimed(old(Value()))
    {
      if listenerRequired {
        return WaitForListener;
      }
      var replacesActive := active;
      epoch := (epoch + 1) % EPOCHS;
      active := true;
      listenerRequired := replacesActive;
      return Granted(epoch, replacesActive);
    }

    method Release(generation: nat)
      requires Valid()
      modifies this
      ensures Valid()
      ensures Value() == Released(old(Value()), generation)
    {
      if epoch == generation {
        active := false;
      }
    }

    method ListenerReady() returns (unblocked: bool)
      requires Valid()
      modifies this
      ensures Valid()
      ensures (Value(), unblocked) == ListenerReturned(old(Value()))
    {
      unblocked := listenerRequired;
      listenerRequired := false;
    }
  }

  /** Epoch reached from `epoch` after `n` further claims. */
  function EpochAfter(epoch: nat, n: nat): nat {
    if n == 0 then epoch else NextEpoch(EpochAfter(epoch, n - 1))
  }

  lemma {:induction false} EpochAfterIsModular(epoch: nat, n: nat)
    requires epoch < EPOCHS
    ensures EpochAfter(epoch, n) == (epoch + n) % EPOCHS
  {
    if n != 0 {
      EpochAfterIsModular(epoch, n - 1);
      NextRemainder(epoch + n - 1);
    }
  }

  lemma NextRemainder(x: nat)
    ensures (x % EPOCHS + 1) % EPOCHS == (x + 1) % EPOCHS
  {
    var q, r := x / EPOCHS, x % EPOCHS;
    if r + 1 == EPOCHS {
      assert x + 1 == (q + 1) * EPOCHS;
    } else {
      assert x + 1 == q * EPOCHS + (r + 1);
    }
  }

  /** Two claims carry the same generation exactly when a whole number of epoch cycles separates
      them, so within one cycle a generation names a single session. */
  lemma GenerationsCollideExactlyAfterACycle(epoch: nat, i: nat, j: nat)
    requires epoch < EPOCHS && i <= j
    ensures EpochAfter(epoch, i) == EpochAfter(epoch, j) <==> (j - i) % 0x1_0000_0000_0000_0000 == 0
  {
    EpochAfterIsModular(epoch, i);
    EpochAfterIsModular(epoch, j);
    SameRemainder(epoch + i, epoch + j);
  }

  lemma SameRemainder(x: nat, y: nat)
    requires x <= y
    ensures x % EPOCHS == y % EPOCHS <==> (y - x) % EPOCHS == 0
  {
    var qx, qy, q := x / EPOCHS, y / EPOCHS, (y - x) / EPOCHS;
    if x % EPOCHS == y % EPOCHS {
      assert y - x == (qy - qx) * EPOCHS;
    }
    if (y - x) % EPOCHS == 0 {
      assert y == (qx + q) * EPOCHS + x % EPOCHS;
    }
  }
}
