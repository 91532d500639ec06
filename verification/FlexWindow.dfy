// The slots in which a flex payment can be settled
// (packages/payment-solana/src/flex/facilitator/handler.ts).
module FlexWindow {
  import opened Text

  // Slots are unsigned 64-bit numbers held as big integers: they do not wrap.
  datatype SessionKey = SessionKey(active: bool, revokedAt: Option<nat>, grace: nat, expiresAt: Option<nat>)

  datatype Fault = Inactive | GraceOver | KeyExpired | RefundTooShort | GraceTooShort
    | AuthorizationExpired | ExpiresTooSoon | ExpiryBeyondRefund | WindowTooShort

  datatype Verdict = Refused(fault: Fault) | ValidUntil(slot: int)

  // None: usable.
  function KeyFault(key: SessionKey, at: nat): Option<Fault> {
    if !key.active && key.revokedAt.None? then Some(Inactive)
    else if !key.active && at >= key.revokedAt.value + key.grace then Some(GraceOver)
    else if key.expiresAt.Some? && at >= key.expiresAt.value then Some(KeyExpired) else None
  }

  predicate Usable(key: SessionKey, at: nat) { KeyFault(key, at).None? }

  // The slots at which something ends.
  function Deadlines(key: SessionKey, expiresAt: nat, current: nat): (ds: seq<nat>)
    ensures |ds| > 0
  {
    [expiresAt] + (if key.expiresAt.Some? then [key.expiresAt.value] else [])
    + (if key.active then (if key.grace > 0 then [current + key.grace] else [])
       else if key.revokedAt.Some? then [key.revokedAt.value + key.grace] else [])
  }

  ghost predicate IsLeast(m: int, ds: seq<nat>) { m in ds && forall d <- ds :: m <= d }

  method ComputeHoldDeadline(key: SessionKey, expiresAt: nat, current: nat, buffer: nat) returns (deadline: int)
    ensures IsLeast(deadline + buffer, Deadlines(key, expiresAt, current))
  {
    var deadlines: seq<nat> := [expiresAt];
    if key.expiresAt.Some? { deadlines := deadlines + [key.expiresAt.value]; }
    if key.active {
      if key.grace > 0 { deadlines := deadlines + [current + key.grace]; }
    } else if key.revokedAt.Some? {
      deadlines := deadlines + [key.revokedAt.value + key.grace];
    }
    assert deadlines == Deadlines(key, expiresAt, current);
    var earliest := deadlines[0];
    for i := 1 to |deadlines|
      invariant IsLeast(earliest, deadlines[..i])
    {
      assert deadlines[..i + 1] == deadlines[..i] + [deadlines[i]];
      if deadlines[i] < earliest { earliest := deadlines[i]; }
    }
    assert deadlines[..|deadlines|] == deadlines;
    return earliest - buffer;
  }

  datatype Limits = Limits(refundTimeout: nat, buffer: nat, minGrace: nat)

  // The slot checks of parseAndVerifyPayload, in its order.
  method CheckSlots(key: SessionKey, expiresAt: nat, current: nat, limits: Limits) returns (v: Verdict)
    ensures v.ValidUntil? ==> Accepted(key, expiresAt, current, limits, v.slot)
    ensures v.Refused? ==> forall slot: int :: !Accepted(key, expiresAt, current, limits, slot)
    ensures v.Refused? ==> Explains(v.fault, key, expiresAt, current, limits)
  {
    if limits.refundTimeout <= limits.buffer { return Refused(RefundTooShort); }
    if key.grace < limits.minGrace { return Refused(GraceTooShort); }
    var fault := KeyFault(key, current);
    if fault.Some? { return Refused(fault.value); }
    if current >= expiresAt { return Refused(AuthorizationExpired); }
    if expiresAt < current + limits.buffer { return Refused(ExpiresTooSoon); }
    if expiresAt > current + limits.refundTimeout { return Refused(ExpiryBeyondRefund); }
    var validUntil := ComputeHoldDeadline(key, expiresAt, current, limits.buffer);
    if current >= validUntil { return Refused(WindowTooShort); }
    return ValidUntil(validUntil);
  }

  // The fault is one the payment has.
  ghost predicate Explains(fault: Fault, key: SessionKey, expiresAt: nat, current: nat, limits: Limits) {
    match fault
    case Inactive => !key.active && key.revokedAt.None?
    case GraceOver => !key.active && key.revokedAt.Some? && current >= key.revokedAt.value + key.grace
    case KeyExpired => key.expiresAt.Some? && current >= key.expiresAt.value
    case RefundTooShort => limits.refundTimeout <= limits.buffer
    case GraceTooShort => key.grace < limits.minGrace
    case AuthorizationExpired => current >= expiresAt
    case ExpiresTooSoon => expiresAt - current < limits.buffer
    case ExpiryBeyondRefund => expiresAt - current > limits.refundTimeout
    case WindowTooShort => exists d <- Deadlines(key, expiresAt, current) :: d - current <= limits.buffer
  }

  // A payment is accepted, with a hold until the slot.
  ghost predicate Accepted(key: SessionKey, expiresAt: nat, current: nat, limits: Limits, slot: int) {
    && limits.refundTimeout > limits.buffer && key.grace >= limits.minGrace
    && Usable(key, current)
    && current < expiresAt && current + limits.buffer <= expiresAt <= current + limits.refundTimeout
    && IsLeast(slot + limits.buffer, Deadlines(key, expiresAt, current))
    && current < slot
  }

  // What the owner can make of the key from the current slot on: nothing, or
  // a revocation if it is active.
  ghost predicate Later(key: SessionKey, later: SessionKey, current: nat) {
    later == key ||
    (key.active && exists r: nat :: r >= current && later == key.(active := false, revokedAt := Some(r)))
  }

  // At every slot until the hold deadline plus the buffer the authorization has
  // not expired and the key is usable, whatever becomes of it.
  ghost predicate SafeWindow(key: SessionKey, expiresAt: nat, current: nat, end: int) {
    forall at: nat, later :: current <= at < end && Later(key, later, current) ==> at < expiresAt && Usable(later, at)
  }

  // An accepted payment has a safe window exactly when the key is not one that
  // is active without a grace period.
  lemma WindowIsSafe(key: SessionKey, expiresAt: nat, current: nat, limits: Limits, slot: int)
    requires Accepted(key, expiresAt, current, limits, slot)
    ensures SafeWindow(key, expiresAt, current, slot + limits.buffer) <==> !key.active || key.grace > 0
    ensures limits.minGrace > 0 ==> SafeWindow(key, expiresAt, current, slot + limits.buffer)
  {
    var ds := Deadlines(key, expiresAt, current);
    var end := slot + limits.buffer;
    if !key.active || key.grace > 0 {
      DeadlinesHold(key, expiresAt, current, end);
      forall at: nat, later | current <= at < end && Later(key, later, current)
        ensures at < expiresAt && Usable(later, at)
      {
        if later != key {
          var r: nat :| r >= current && later == key.(active := false, revokedAt := Some(r));
        }
      }
    } else {
      var later := key.(active := false, revokedAt := Some(current));
      assert Later(key, later, current);
      assert !Usable(later, current);
    }
  }

  lemma DeadlinesHold(key: SessionKey, expiresAt: nat, current: nat, end: int)
    requires IsLeast(end, Deadlines(key, expiresAt, current))
    ensures end <= expiresAt && (key.expiresAt.Some? ==> end <= key.expiresAt.value)
    ensures key.active && key.grace > 0 ==> end <= current + key.grace
    ensures !key.active && key.revokedAt.Some? ==> end <= key.revokedAt.value + key.grace
  {
    var ds := Deadlines(key, expiresAt, current);
    assert expiresAt in ds;
    assert key.expiresAt.Some? ==> key.expiresAt.value in ds;
    assert key.active && key.grace > 0 ==> current + key.grace in ds;
    assert !key.active && key.revokedAt.Some? ==> key.revokedAt.value + key.grace in ds;
  }

  // With no minimum, a payment is accepted that a revocation in the same slot
  // makes unusable.
  lemma NoGraceIsUnsafe()
    ensures var key := SessionKey(true, None, 0, None);
      Accepted(key, 100, 0, Limits(200, 10, 0), 90) && !SafeWindow(key, 100, 0, 100)
  {
    var key := SessionKey(true, None, 0, None);
    assert Deadlines(key, 100, 0) == [100];
    WindowIsSafe(key, 100, 0, Limits(200, 10, 0), 90);
  }

  // The hold is no shorter than it must be: from the deadline plus the buffer on the
  // authorization has expired, or something can have become of the key that makes
  // it unusable.
  lemma HoldIsLongest(key: SessionKey, expiresAt: nat, current: nat, limits: Limits, slot: int, at: nat)
    requires Accepted(key, expiresAt, current, limits, slot) && at >= slot + limits.buffer
    ensures at >= expiresAt || exists later :: Later(key, later, current) && !Usable(later, at)
  {
    var end := slot + limits.buffer;
    if key.active && key.grace > 0 && end == current + key.grace {
      var later := key.(active := false, revokedAt := Some(current));
      assert Later(key, later, current) && !Usable(later, at);
    } else {
      assert Later(key, key, current);
    }
  }

  // And it ends before the escrow can be refunded.
  lemma HoldEndsBeforeRefund(key: SessionKey, expiresAt: nat, current: nat, limits: Limits, slot: int)
    requires Accepted(key, expiresAt, current, limits, slot)
    ensures current < slot && slot + limits.buffer <= current + limits.refundTimeout
    ensures key.grace >= limits.minGrace
  {
    DeadlinesHold(key, expiresAt, current, slot + limits.buffer);
  }

  // A payment is accepted exactly when its key is usable and long enough revocable,
  // it expires before a refund, and more than the buffer is left before all ends.
  lemma AcceptedIff(key: SessionKey, expiresAt: nat, current: nat, limits: Limits)
    ensures (exists slot: int :: Accepted(key, expiresAt, current, limits, slot)) <==>
      && Usable(key, current) && key.grace >= limits.minGrace && expiresAt <= current + limits.refundTimeout
      && forall d <- Deadlines(key, expiresAt, current) :: current + limits.buffer < d
  {
    var ds := Deadlines(key, expiresAt, current);
    assert expiresAt in ds;
    if forall d <- ds :: current + limits.buffer < d {
      var m := Least(ds);
      if Usable(key, current) && key.grace >= limits.minGrace && expiresAt <= current + limits.refundTimeout {
        assert Accepted(key, expiresAt, current, limits, m - limits.buffer);
      }
    }
  }

  lemma {:induction false} Least(ds: seq<nat>) returns (m: nat)
    requires ds != []
    ensures IsLeast(m, ds)
    decreases |ds|
  {
    var n := |ds| - 1;
    m := ds[n];
    if n > 0 {
      var k := Least(ds[..n]);
      assert ds == ds[..n] + [ds[n]];
      if k < m { m := k; }
    }
  }
}
