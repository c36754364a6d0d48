/** Configuration constants, C integer widths, status codes and the callback trace. */
module Types {

  /** Capacities and tick rate fixed by the build configuration. */
  const TASK_SIZE: nat := 10
  const DELAY_POOL_SIZE: nat := 10
  const EVENT_POOL_SIZE: nat := 10
  const FREQ_HZ: nat := 1000

  /** 2^32: uint32_t arithmetic wraps modulo this value. */
  const WORD: int := 0x1_0000_0000

  type u8 = x: int | 0 <= x < 0x100
  type u32 = x: int | 0 <= x < 0x1_0000_0000

  /** A C function or data pointer, only ever compared with NULL or passed along. */
  type Ptr = nat
  const NULL: Ptr := 0

  datatype Option<T> = None | Some(value: T)

  /** MicroOS_Status_t, in declaration order. */
  datatype Status = Ok | Error | Timeout | InvalidParam | NotInitialized | Busy

  /** One callback invocation: which entry fired and what it was called with. */
  datatype Call =
    | EventCall(id: u8, fn: Ptr, userdata: Ptr)
    | TaskCall(id: u8, fn: Ptr, userdata: Ptr)

  /** `now - since` on uint32_t: the number of ticks from `since` forward to `now`. */
  function Elapsed(now: u32, since: u32): (d: u32)
    ensures (since + d) % WORD == now
  {
    (now - since) % WORD
  }

  /** `x++` on uint32_t. */
  function Inc(x: u32): (r: u32)
    ensures r == if x == WORD - 1 then 0 else x + 1
  {
    (x + 1) % WORD
  }

  /** The unsigned difference is wrap-around tolerant: it measures exactly `d`
      ticks however the counter wrapped in between. */
  lemma ElapsedAfter(since: u32, d: u32)
    ensures Elapsed((since + d) % WORD, since) == d
  {
    var now := (since + d) % WORD;
    if since + d < WORD {
      assert now - since == d;
    } else {
      assert now == since + d - WORD;
      assert now - since == d - WORD;
    }
  }

  /** Counting `d` increments forward from `since` reaches `(since + d) mod 2^32`. */
  function IncN(x: u32, d: nat): (r: u32)
  {
    if d == 0 then x else Inc(IncN(x, d - 1))
  }

  lemma {:induction false} IncNIsModularAdd(x: u32, d: nat)
    ensures IncN(x, d) == (x + d) % WORD
  {
    if d > 0 {
      IncNIsModularAdd(x, d - 1);
      var y := IncN(x, d - 1);
      assert IncN(x, d) == (y + 1) % WORD;
      ModSucc(x + d - 1);
    }
  }

  lemma ModSucc(a: nat)
    ensures (a % WORD + 1) % WORD == (a + 1) % WORD
  {
    var q, r := a / WORD, a % WORD;
    assert a == q * WORD + r;
    if r + 1 < WORD {
      assert a + 1 == q * WORD + (r + 1);
    } else {
      assert a + 1 == (q + 1) * WORD;
    }
  }
}
