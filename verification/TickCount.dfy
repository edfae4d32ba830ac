/** Reading the kernel's tick count from shared memory without a lock, and scaling it. */
module TickCount {
  import opened Words

  const QUAD_LIMIT := 0x1_0000_0000_0000_0000

  type quad = q: int | 0 <= q < QUAD_LIMIT

  function High(q: quad): word { q / WORD_LIMIT }
  function Low(q: quad): word { q % WORD_LIMIT }

  function Join(high: word, low: word): (q: quad)
    ensures High(q) == high && Low(q) == low
  {
    (high as int) * WORD_LIMIT + low
  }

  // ---------------------------------------------------------------- the writer

  /** KSYSTEM_TIME. */
  datatype SystemTime = SystemTime(low: word, high1: word, high2: word)

  /** The counter's successive values. */
  ghost predicate Monotone(ticks: nat -> quad)
  {
    forall i, j | i <= j :: ticks(i) <= ticks(j)
  }

  /** Shared memory after `stores` stores of a writer that publishes each value by storing
      High2Time, then LowPart, then High1Time. */
  function Memory(ticks: nat -> quad, stores: nat): SystemTime
  {
    if stores == 0 then SystemTime(Low(ticks(0)), High(ticks(0)), High(ticks(0)))
    else
      var before := Memory(ticks, stores - 1);
      var next := ticks((stores - 1) / 3 + 1);
      match (stores - 1) % 3
      case 0 => before.(high2 := High(next))
      case 1 => before.(low := Low(next))
      case _ => before.(high1 := High(next))
  }

  lemma {:induction false} MemoryAt(ticks: nat -> quad, stores: nat)
    ensures Memory(ticks, stores)
         == SystemTime(Low(ticks((stores + 1) / 3)), High(ticks(stores / 3)), High(ticks((stores + 2) / 3)))
  {
    if stores > 0 {
      MemoryAt(ticks, stores - 1);
    }
  }

  /** The value the counter holds after so many stores: a new value counts from the moment its
      low part is there. */
  function HeldAt(ticks: nat -> quad, stores: nat): quad
  {
    ticks((stores + 1) / 3)
  }

  // ---------------------------------------------------------------- the reader

  /** When the two high parts agree, the low part read between them belongs with them: the three
      reads make up a value the counter held at the moment the low part was read. */
  lemma AgreeingReadIsGenuine(ticks: nat -> quad, t1: nat, t2: nat, t3: nat)
    requires Monotone(ticks) && t1 <= t2 <= t3
    requires Memory(ticks, t1).high1 == Memory(ticks, t3).high2
    ensures Join(Memory(ticks, t1).high1, Memory(ticks, t2).low) == HeldAt(ticks, t2)
  {
    MemoryAt(ticks, t1);
    MemoryAt(ticks, t2);
    MemoryAt(ticks, t3);
    assert ticks(t1 / 3) <= ticks((t2 + 1) / 3) <= ticks((t3 + 2) / 3);
    HighIsMonotone(ticks(t1 / 3), ticks((t2 + 1) / 3));
    HighIsMonotone(ticks((t2 + 1) / 3), ticks((t3 + 2) / 3));
  }

  lemma HighIsMonotone(a: quad, b: quad)
    requires a <= b
    ensures High(a) <= High(b)
  {
  }

  /** Without the comparison a read can come out as a value the counter never held: here the
      counter steps over a carry between the read of the high and that of the low part. */
  lemma UncheckedReadTears()
    ensures var ticks := (i: nat) => if i == 0 then 0xFFFF_FFFF as quad else 0x1_0000_0000 as quad;
            && Monotone(ticks)
            && Join(Memory(ticks, 0).high1, Memory(ticks, 2).low) == 0
            && (forall t :: HeldAt(ticks, t) != 0)
            && Memory(ticks, 0).high1 != Memory(ticks, 2).high2
  {
    var ticks := (i: nat) => if i == 0 then 0xFFFF_FFFF as quad else 0x1_0000_0000 as quad;
    MemoryAt(ticks, 0);
    MemoryAt(ticks, 2);
  }

  /** The `k`-th read of shared memory happens after `when(k)` stores. */
  ghost predicate Ordered(when: nat -> nat)
  {
    forall i, j | i <= j :: when(i) <= when(j)
  }

  /** The `a`-th attempt finds the high parts equal. */
  predicate Agrees(ticks: nat -> quad, when: nat -> nat, a: nat)
  {
    Memory(ticks, when(3 * a)).high1 == Memory(ticks, when(3 * a + 2)).high2
  }

  /** `attempt` is the first to find the high parts equal. */
  predicate FirstAgreement(ticks: nat -> quad, when: nat -> nat, attempt: nat)
  {
    Agrees(ticks, when, attempt) && forall a: nat | a < attempt :: !Agrees(ticks, when, a)
  }

  /** The value the counter held during the `a`-th attempt, when its low part was read. */
  function HeldDuring(ticks: nat -> quad, when: nat -> nat, a: nat): quad
  {
    HeldAt(ticks, when(3 * a + 1))
  }

  /** The retry loop of NtGetTickCount64 and NtGetTickCount. It spins as long as the parts
      disagree, so some attempt must find them equal; `enough` names one. */
  method ReadTickCount(ticks: nat -> quad, when: nat -> nat, ghost enough: nat) returns (tickCount: quad)
    requires Monotone(ticks) && Ordered(when) && Agrees(ticks, when, enough)
    ensures exists a: nat :: FirstAgreement(ticks, when, a) && tickCount == HeldDuring(ticks, when, a)
  {
    hide Memory;
    ghost var attempt := 0;
    var round := 0;
    while true
      invariant round == 3 * attempt && attempt <= enough
      invariant forall a: nat | a < attempt :: !Agrees(ticks, when, a)
      decreases enough - attempt
    {
      var highPart := Memory(ticks, when(round)).high1;
      var lowPart := Memory(ticks, when(round + 1)).low;
      if highPart == Memory(ticks, when(round + 2)).high2 {
        AgreeingReadIsGenuine(ticks, when(round), when(round + 1), when(round + 2));
        assert FirstAgreement(ticks, when, attempt);
        return Join(highPart, lowPart);
      }
      attempt := attempt + 1;
      round := round + 3;
    }
  }

  // ---------------------------------------------------------------- scaling

  /** The tick count in milliseconds: ticks times a fixed-point multiplier with 24 fraction bits. */
  function Milliseconds(tick: quad, multiplier: word): (m: nat)
    ensures m * 0x100_0000 <= tick * multiplier < (m + 1) * 0x100_0000
  {
    tick * multiplier / 0x100_0000
  }

  /** The expression of NtGetTickCount64, on 64-bit integers. */
  function Scale64(tick: quad, multiplier: word): quad
  {
    ((Low(tick) as int) * multiplier / 0x100_0000 + (High(tick) as int) * multiplier * 0x100 % QUAD_LIMIT) % QUAD_LIMIT
  }

  /** The expression of the 32-bit NtGetTickCount. */
  function Scale32(tick: quad, multiplier: word): word
  {
    ((Low(tick) as int) * multiplier / 0x100_0000
     + (High(tick) as int) * 0x100 % WORD_LIMIT * multiplier) % QUAD_LIMIT % WORD_LIMIT
  }

  /** The expression of the 64-bit NtGetTickCount. */
  function Scale32Native(tick: quad, multiplier: word): word
  {
    (tick * multiplier) % QUAD_LIMIT / 0x100_0000 % WORD_LIMIT
  }

  /** Multiplying word by word loses nothing: high and low products add up to the whole. */
  lemma SplitProduct(tick: quad, multiplier: word)
    ensures Milliseconds(tick, multiplier)
         == (High(tick) as int) * multiplier * 0x100 + (Low(tick) as int) * multiplier / 0x100_0000
  {
    var hi: int, lo: int, m: int := High(tick), Low(tick), multiplier;
    var p, q := hi * m, lo * m;
    assert tick as int == hi * WORD_LIMIT + lo;
    assert tick * m == p * WORD_LIMIT + q;
    assert (p * 0x100 * 0x100_0000 + q) / 0x100_0000 == p * 0x100 + q / 0x100_0000;
  }

  /** The split expression is the scaled count modulo 2^64. */
  lemma Scale64IsMilliseconds(tick: quad, multiplier: word)
    ensures Scale64(tick, multiplier) == Milliseconds(tick, multiplier) % QUAD_LIMIT
  {
    hide High, Low;
    SplitProduct(tick, multiplier);
    AddMod((High(tick) as int) * multiplier * 0x100, (Low(tick) as int) * multiplier / 0x100_0000);
  }

  lemma AddMod(a: int, b: int)
    ensures (b + a % QUAD_LIMIT) % QUAD_LIMIT == (a + b) % QUAD_LIMIT
  {
    var q := a / QUAD_LIMIT;
    assert a + b == (b + a % QUAD_LIMIT) + q * QUAD_LIMIT;
  }

  /** Both ways of computing the 32-bit count give its low 32 bits. */
  lemma Scale32IsMilliseconds(tick: quad, multiplier: word)
    ensures Scale32(tick, multiplier) == Milliseconds(tick, multiplier) % WORD_LIMIT
    ensures Scale32Native(tick, multiplier) == Milliseconds(tick, multiplier) % WORD_LIMIT
  {
    SplitProduct(tick, multiplier);
    var h: int, m: int := High(tick), multiplier;
    var b: int := (Low(tick) as int) * multiplier / 0x100_0000;
    var k, r := h * 0x100 / WORD_LIMIT, h * 0x100 % WORD_LIMIT;
    assert h * 0x100 == k * WORD_LIMIT + r;
    assert h * 0x100 * m == k * m * WORD_LIMIT + r * m;
    DropMultiple(b + r * m, k * m);
    assert b + r * m + k * m * WORD_LIMIT == Milliseconds(tick, multiplier);
    ModOfMod(b + r * m);
    ShiftOfMod(tick * multiplier);
  }

  lemma DropMultiple(a: int, k: int)
    ensures (a + k * WORD_LIMIT) % WORD_LIMIT == a % WORD_LIMIT
  {
    var q := a / WORD_LIMIT;
    assert a + k * WORD_LIMIT == (q + k) * WORD_LIMIT + a % WORD_LIMIT;
  }

  lemma ModOfMod(a: int)
    ensures a % QUAD_LIMIT % WORD_LIMIT == a % WORD_LIMIT
  {
  }

  lemma ShiftOfMod(a: nat)
    ensures a % QUAD_LIMIT / 0x100_0000 % WORD_LIMIT == a / 0x100_0000 % WORD_LIMIT
  {
  }

  /** NtGetTickCount64 on a 32-bit machine. */
  method NtGetTickCount64(ticks: nat -> quad, when: nat -> nat, multiplier: word, ghost enough: nat) returns (r: quad)
    requires Monotone(ticks) && Ordered(when) && Agrees(ticks, when, enough)
    ensures exists a: nat :: FirstAgreement(ticks, when, a)
                             && r == Milliseconds(HeldDuring(ticks, when, a), multiplier) % QUAD_LIMIT
  {
    hide Memory, Milliseconds, Scale64, FirstAgreement;
    var tickCount := ReadTickCount(ticks, when, enough);
    Scale64IsMilliseconds(tickCount, multiplier);
    return Scale64(tickCount, multiplier);
  }

  /** NtGetTickCount on a 32-bit machine. */
  method NtGetTickCount(ticks: nat -> quad, when: nat -> nat, multiplier: word, ghost enough: nat) returns (r: word)
    requires Monotone(ticks) && Ordered(when) && Agrees(ticks, when, enough)
    ensures exists a: nat :: FirstAgreement(ticks, when, a)
                             && r == Milliseconds(HeldDuring(ticks, when, a), multiplier) % WORD_LIMIT
  {
    hide Memory, Milliseconds, Scale32, FirstAgreement;
    var tickCount := ReadTickCount(ticks, when, enough);
    Scale32IsMilliseconds(tickCount, multiplier);
    return Scale32(tickCount, multiplier);
  }
}
