/**
 runtime_backends_start and runtime_backends_stop (core/runtime/runtime.c:46-111). Which drivers run is an array of
 flags; what each start call answers is an input.
 */
module BackendLifecycle {

  /** One slot of the backends array. `starts` says that start() would return 0. */
  datatype Slot = Slot(present: bool, canStart: bool, canStop: bool, starts: bool)

  predicate Startable(s: Slot) {
    s.present && s.canStart
  }

  function Count(slots: seq<Slot>, n: nat): (c: nat)
    requires n <= |slots|
    ensures c <= n
  {
    if n == 0 then 0 else Count(slots, n - 1) + if Startable(slots[n - 1]) then 1 else 0
  }

  predicate AllStart(slots: seq<Slot>, n: nat)
    requires n <= |slots|
  {
    forall k :: 0 <= k < n && Startable(slots[k]) ==> slots[k].starts
  }

  /** `i` is the first slot whose start fails. */
  ghost predicate FailsAt(slots: seq<Slot>, i: nat) {
    i < |slots| && Startable(slots[i]) && !slots[i].starts && AllStart(slots, i)
  }

  /** What still runs after a failure at slot `i`: the rollback stops by counting down from the number of started drivers. */
  ghost predicate LeftRunning(slots: seq<Slot>, i: nat, k: nat)
    requires i < |slots| && k < |slots|
  {
    k < i && Startable(slots[k]) && !(k < Count(slots, i) && slots[k].canStop)
  }

  method BackendsStart(slots: seq<Slot>, running: array<bool>) returns (rc: int, failed: nat)
    requires running.Length == |slots| && forall k :: 0 <= k < |slots| ==> !running[k]
    modifies running
    ensures rc == if AllStart(slots, |slots|) then 0 else -1
    ensures rc == 0 ==> forall k :: 0 <= k < |slots| ==> running[k] == Startable(slots[k])
    ensures rc == 0 <==> forall k :: 0 <= k < |slots| && slots[k].present && slots[k].canStart ==> slots[k].starts
    ensures rc == 0 ==> forall k :: 0 <= k < |slots| ==> running[k] == (slots[k].present && slots[k].canStart)
    ensures rc != 0 ==> forall k :: failed <= k < |slots| ==> !running[k]
    ensures rc != 0 ==> FailsAt(slots, failed) && forall k :: 0 <= k < |slots| ==> running[k] == LeftRunning(slots, failed, k)
  {
    var started := 0;
    failed := 0;
    var i := 0;
    while i < |slots|
      invariant 0 <= i <= |slots| && started == Count(slots, i) && AllStart(slots, i)
      invariant forall k :: 0 <= k < |slots| ==> running[k] == (k < i && Startable(slots[k]))
    {
      if slots[i].present && slots[i].canStart {
        if !slots[i].starts {
          failed := i;
          var stop := started;
          while stop > 0
            invariant 0 <= stop <= started
            invariant forall k :: 0 <= k < |slots| ==>
                running[k] == (k < i && Startable(slots[k]) && !(stop <= k < started && slots[k].canStop))
          {
            if slots[stop - 1].present && slots[stop - 1].canStop {
              running[stop - 1] := false;
            }
            stop := stop - 1;
          }
          return -1, i;
        }
        running[i] := true;
        started := started + 1;
      }
      i := i + 1;
    }
    rc := 0;
  }

  lemma {:induction false} CountFull(slots: seq<Slot>, n: nat)
    requires n <= |slots|
    ensures Count(slots, n) == n <==> forall k :: 0 <= k < n ==> Startable(slots[k])
  {
    if n > 0 {
      CountFull(slots, n - 1);
    }
  }

  lemma {:induction false} CountFlat(slots: seq<Slot>, m: nat, n: nat)
    requires m <= n <= |slots|
    ensures Count(slots, m) <= Count(slots, n)
    ensures Count(slots, m) == Count(slots, n) <==> forall k :: m <= k < n ==> !Startable(slots[k])
    decreases n
  {
    if m < n {
      CountFlat(slots, m, n - 1);
    }
  }

  /** No missing or start-less driver sits in front of a started one. */
  ghost predicate NoGap(slots: seq<Slot>, i: nat)
    requires i < |slots|
  {
    forall j, k :: 0 <= j < k < i && Startable(slots[k]) ==> Startable(slots[j])
  }

  /**
   The rollback mixes up a count of started drivers with slot numbers. It leaves nothing running exactly when the
   slots it visits are the started ones, that is without a gap, and every started driver has a stop.
   */
  lemma RollbackIsCompleteIffNoGap(slots: seq<Slot>, i: nat)
    requires FailsAt(slots, i)
    ensures (forall k :: 0 <= k < |slots| ==> !LeftRunning(slots, i, k))
       <==> NoGap(slots, i) && forall k :: 0 <= k < i && Startable(slots[k]) ==> slots[k].canStop
  {
    var c := Count(slots, i);
    CountFull(slots, c);
    CountFlat(slots, c, i);
    if NoGap(slots, i) {
      StartedFirst(slots, i);
    }
    if forall k :: 0 <= k < |slots| ==> !LeftRunning(slots, i, k) {
      forall k | 0 <= k < i && Startable(slots[k]) ensures k < c && slots[k].canStop {
        assert !LeftRunning(slots, i, k);
      }
    }
  }

  lemma {:induction false} StartedFirst(slots: seq<Slot>, n: nat)
    requires n <= |slots|
    requires forall j, k :: 0 <= j < k < n && Startable(slots[k]) ==> Startable(slots[j])
    ensures forall k :: 0 <= k < n ==> (Startable(slots[k]) <==> k < Count(slots, n))
  {
    if n > 0 {
      StartedFirst(slots, n - 1);
      CountFull(slots, n - 1);
    }
  }

  /**
   A driver without start, which the builder accepts, in front of two working ones and one that fails: the last
   working one stays running.
   */
  lemma GapLeavesDriverRunning()
    ensures var plain, ok, bad := Slot(true, false, true, true), Slot(true, true, true, true), Slot(true, true, true, false);
      var slots := [plain, ok, ok, bad];
      FailsAt(slots, 3) && LeftRunning(slots, 3, 2)
  {
    var plain, ok, bad := Slot(true, false, true, true), Slot(true, true, true, true), Slot(true, true, true, false);
    var slots := [plain, ok, ok, bad];
    assert Count(slots, 1) == 0 && Count(slots, 2) == 1 && Count(slots, 3) == 2;
  }
}
