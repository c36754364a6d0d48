/** The guard macros and tick/millisecond conversions shared by every operation. */
module Common {
  import opened Types

  /** What a guard macro does: fall through, or return a status from the calling function. */
  datatype Guard = Continue | Return(status: Status)

  /** The status a guard leaves behind: the one it returns, or Ok when it falls through. */
  function StatusOf(g: Guard): Status
  {
    if g.Return? then g.status else Ok
  }

  /** MICROOS_CHECK_PTR: a NULL pointer makes the caller return Error. */
  function CheckPtr(p: Ptr): (g: Guard)
    ensures g.Return? <==> p == NULL
    ensures g.Return? ==> g.status == Error
  {
    if p == NULL then Return(Error) else Continue
  }

  /** MIROOS_CHECK_ERR: any status other than Ok is passed on to the caller unchanged. */
  function CheckErr(e: Status): (g: Guard)
    ensures g.Return? <==> e != Ok
    ensures StatusOf(g) == e
  {
    if e != Ok then Return(e) else Continue
  }

  /** MICROOS_CHECK_ID: a task id outside the table makes the caller return InvalidParam. */
  function CheckId(id: int): (g: Guard)
    ensures g.Return? <==> id >= TASK_SIZE
    ensures g.Return? ==> g.status == InvalidParam
    ensures g.Continue? ==> id < TASK_SIZE
  {
    if id >= TASK_SIZE then Return(InvalidParam) else Continue
  }

  /** A guard whose return status is never Ok survives the round trip through a status
      code and MIROOS_CHECK_ERR. */
  lemma CheckErrRelays(g: Guard)
    requires g.Return? ==> g.status != Ok
    ensures CheckErr(StatusOf(g)) == g
  {
  }

  /** OS_TICKS_MS at tick rate `hz`: the integer division happens before the multiplication. */
  function TicksToMsAt(hz: nat, ticks: nat): (ms: nat)
    requires hz > 0
    ensures hz > 1000 ==> ms == 0
    ensures hz <= 1000 ==> ms >= ticks
    ensures 1000 % hz == 0 ==> ms * hz == ticks * 1000
  {
    var factor := 1000 / hz;
    assert hz <= 1000 ==> factor >= 1;
    assert 1000 % hz == 0 ==> factor * hz == 1000;
    MulMonotone(ticks, factor);
    MulAssoc(ticks, factor, hz);
    ticks * factor
  }

  /** OS_MS_TICKS at tick rate `hz`: the integer division happens before the multiplication. */
  function MsToTicksAt(hz: nat, ms: nat): (ticks: nat)
    requires hz > 0
    ensures hz < 1000 ==> ticks == 0
    ensures hz >= 1000 ==> ticks >= ms
    ensures hz % 1000 == 0 ==> ticks * 1000 == ms * hz
  {
    var factor := hz / 1000;
    assert hz >= 1000 ==> factor >= 1;
    assert hz % 1000 == 0 ==> factor * 1000 == hz;
    MulMonotone(ms, factor);
    MulAssoc(ms, factor, 1000);
    ms * factor
  }

  function TicksToMs(ticks: nat): nat { TicksToMsAt(FREQ_HZ, ticks) }

  function MsToTicks(ms: nat): nat { MsToTicksAt(FREQ_HZ, ms) }

  /** Converting milliseconds to ticks and back gives the same number of milliseconds at
      exactly one tick rate, 1000 Hz; below it every duration becomes 0 ticks, above it
      every tick count becomes 0 ms. */
  lemma RoundTripOnlyAt1000(hz: nat, x: nat)
    requires hz > 0 && x > 0
    ensures TicksToMsAt(hz, MsToTicksAt(hz, x)) == x <==> hz == 1000
  {
    if hz < 1000 {
      assert MsToTicksAt(hz, x) == 0;
    } else if hz > 1000 {
      assert TicksToMsAt(hz, MsToTicksAt(hz, x)) == 0;
    }
  }

  /** With the configured rate the two conversions are inverse to each other. */
  lemma ConfiguredRoundTrip(x: nat)
    ensures TicksToMs(MsToTicks(x)) == x
    ensures MsToTicks(TicksToMs(x)) == x
  {
  }

  lemma MulMonotone(a: nat, k: nat)
    ensures k >= 1 ==> a * k >= a
  {
    if k >= 1 {
      assert a * k == a + a * (k - 1);
    }
  }

  lemma MulAssoc(a: nat, b: nat, c: nat)
    ensures a * b * c == a * (b * c)
  {
  }
}
