/** Finite sums over maps, for counting bytes. */
module Sums {
  ghost function Sum(m: map<nat, int>): int {
    if m == map[] then 0 else var k :| k in m; m[k] + Sum(m - {k})
  }

  lemma {:induction false} SumSplit(m: map<nat, int>, k: nat)
    requires k in m
    ensures Sum(m) == m[k] + Sum(m - {k})
    decreases |m|
  {
    var j :| j in m && Sum(m) == m[j] + Sum(m - {j});
    if j != k {
      SumSplit(m - {j}, k);
      SumSplit(m - {k}, j);
      assert m - {j} - {k} == m - {k} - {j};
    }
  }

  lemma SumUpdate(m: map<nat, int>, k: nat, v: int)
    ensures Sum(m[k := v]) == Sum(m) + v - if k in m then m[k] else 0
  {
    SumSplit(m[k := v], k);
    assert m[k := v] - {k} == m - {k};
    if k in m { SumSplit(m, k); } else { assert m - {k} == m; }
  }

  lemma {:induction false} SumNonNegative(m: map<nat, int>)
    requires forall k <- m :: m[k] >= 0
    ensures Sum(m) >= 0
    decreases |m|
  {
    if m != map[] {
      var k :| k in m && Sum(m) == m[k] + Sum(m - {k});
      SumNonNegative(m - {k});
    }
  }
}

/** The accounting allocator of `crates/sb_core/external_memory.rs`. A refused call leaves what it
    added in the count; `residue` is what refused calls have left there. */
module ExternalMemory {
  import opened Common
  import opened Sums

  /** The counter is a 64-bit word. */
  const WORD: nat := 0x1_0000_0000_0000_0000

  datatype Memory = Memory(count: nat, blocks: map<nat, seq<byte>>, residue: int)

  function Sizes(blocks: map<nat, seq<byte>>): map<nat, int> {
    map p <- blocks :: |blocks[p]|
  }

  ghost function LiveBytes(blocks: map<nat, seq<byte>>): int {
    Sum(Sizes(blocks))
  }

  function Zeroes(n: nat): seq<byte> {
    seq(n, _ => 0)
  }

  /** `fetch_add`, wrapping. */
  function FetchAdd(count: nat, n: int): nat {
    (count + n) % WORD
  }

  function WrappingSub(a: nat, b: nat): nat {
    (a - b) % WORD
  }

  function Resized(block: seq<byte>, n: nat): seq<byte> {
    var copied := if |block| < n then |block| else n;
    block[..copied] + Zeroes(n - copied)
  }

  datatype Op = Allocate(p: nat, n: nat) | Free(p: nat) | Reallocate(p: nat, q: nat, n: nat)

  /** The largest size a vector can have. */
  const MAX_SIZE: nat := 0x7fff_ffff_ffff_ffff

  /** What V8 may ask: fresh addresses for new blocks, live ones otherwise, sizes that a vector can have. */
  predicate Legal(m: Memory, op: Op) {
    match op
    case Allocate(p, n) => p !in m.blocks && n <= MAX_SIZE
    case Free(p) => p in m.blocks && |m.blocks[p]| <= MAX_SIZE
    case Reallocate(p, q, n) =>
      p in m.blocks && (q == p || q !in m.blocks) && n <= MAX_SIZE && |m.blocks[p]| <= MAX_SIZE
  }

  /** The new state and whether the call was granted. `p` and `q` are the addresses a grant returns. */
  function Apply(max: nat, m: Memory, op: Op): (Memory, bool)
    requires Legal(m, op)
  {
    match op
    case Allocate(p, n) =>
      var count := FetchAdd(m.count, n);
      if count > max then (Memory(count, m.blocks, m.residue + n), false)
      else (Memory(count, m.blocks[p := Zeroes(n)], m.residue), true)
    case Free(p) =>
      (Memory(FetchAdd(m.count, -|m.blocks[p]|), m.blocks - {p}, m.residue), true)
    case Reallocate(p, q, n) =>
      var oldlen := |m.blocks[p]|;
      var count := FetchAdd(m.count, WrappingSub(n, oldlen));
      if count > max then (Memory(count, m.blocks, m.residue + n - oldlen), false)
      else (Memory(count, (m.blocks - {p})[q := Resized(m.blocks[p], n)], m.residue), true)
  }

  /** How much the call adds to what the count stands for. */
  function Delta(m: Memory, op: Op): int
    requires Legal(m, op)
  {
    match op
    case Allocate(p, n) => n
    case Free(p) => -|m.blocks[p]|
    case Reallocate(p, q, n) => n - |m.blocks[p]|
  }

  // ----- conservation -----

  lemma LiveBytesPlaced(blocks: map<nat, seq<byte>>, p: nat, block: seq<byte>)
    ensures LiveBytes(blocks[p := block]) == LiveBytes(blocks) + |block| - if p in blocks then |blocks[p]| else 0
  {
    assert Sizes(blocks[p := block]) == Sizes(blocks)[p := |block|];
    SumUpdate(Sizes(blocks), p, |block|);
  }

  lemma LiveBytesDropped(blocks: map<nat, seq<byte>>, p: nat)
    requires p in blocks
    ensures LiveBytes(blocks - {p}) == LiveBytes(blocks) - |blocks[p]|
  {
    assert Sizes(blocks - {p}) == Sizes(blocks) - {p};
    SumSplit(Sizes(blocks), p);
  }

  /** Live bytes and residue together move by exactly the signed size change, granted or refused. */
  lemma StepConserves(max: nat, m: Memory, op: Op)
    requires Legal(m, op)
    ensures var m' := Apply(max, m, op).0;
            LiveBytes(m'.blocks) + m'.residue == LiveBytes(m.blocks) + m.residue + Delta(m, op)
  {
    match op {
      case Allocate(p, n) => LiveBytesPlaced(m.blocks, p, Zeroes(n));
      case Free(p) => LiveBytesDropped(m.blocks, p);
      case Reallocate(p, q, n) =>
        LiveBytesDropped(m.blocks, p);
        LiveBytesPlaced(m.blocks - {p}, q, Resized(m.blocks[p], n));
    }
  }

  lemma WrapsOnce(a: int, b: int)
    ensures (a % WORD + b) % WORD == (a + b) % WORD
    ensures (a + b % WORD) % WORD == (a + b) % WORD
  {
    var x, y := a / WORD, b / WORD;
    assert a == WORD * x + a % WORD && b == WORD * y + b % WORD;
    ModShift(a % WORD + b, x);
    ModShift(a + b % WORD, y);
  }

  lemma {:induction false} ModShift(r: int, x: int)
    ensures (r + WORD * x) % WORD == r % WORD
    decreases if x < 0 then -x else x
  {
    if x > 0 {
      ModShift(r, x - 1);
      assert (r + WORD * (x - 1) + WORD) % WORD == (r + WORD * (x - 1)) % WORD;
    } else if x < 0 {
      ModShift(r, x + 1);
      assert (r + WORD * (x + 1) - WORD) % WORD == (r + WORD * (x + 1)) % WORD;
    }
  }

  /** The word counts live bytes and residue, modulo its size, whatever overflows. */
  ghost predicate Balanced(m: Memory) {
    m.count == (LiveBytes(m.blocks) + m.residue) % WORD
  }

  /** Every call moves the word by the signed size change modulo its size: in particular the wrapping
      addition of a wrapping difference in `reallocate` does. */
  lemma StepMoves(max: nat, m: Memory, op: Op)
    requires Legal(m, op)
    ensures Apply(max, m, op).0.count == (m.count + Delta(m, op)) % WORD
    ensures !op.Free? ==> (Apply(max, m, op).1 <==> (m.count + Delta(m, op)) % WORD <= max)
  {
    if op.Reallocate? {
      WrapsOnce(m.count, op.n - |m.blocks[op.p]|);
    }
  }

  /** So the word keeps counting live bytes and residue, and a call is granted when it then is within the limit. */
  lemma StepBalances(max: nat, m: Memory, op: Op)
    requires Legal(m, op) && Balanced(m)
    ensures Balanced(Apply(max, m, op).0)
    ensures Apply(max, m, op).0.count == (m.count + Delta(m, op)) % WORD
    ensures !op.Free? ==>
              (Apply(max, m, op).1 <==> (LiveBytes(m.blocks) + m.residue + Delta(m, op)) % WORD <= max)
  {
    StepMoves(max, m, op);
    StepConserves(max, m, op);
    WrapsOnce(LiveBytes(m.blocks) + m.residue, Delta(m, op));
  }

  // ----- the bound, without overflow -----

  predicate NoOverflow(m: Memory, op: Op)
    requires Legal(m, op)
  {
    m.count + Delta(m, op) < WORD
  }

  /** The count is live bytes plus a non-negative residue, and live bytes respect the limit. */
  ghost predicate Exact(max: nat, m: Memory) {
    m.residue >= 0 && m.count == LiveBytes(m.blocks) + m.residue < WORD && LiveBytes(m.blocks) <= max
  }

  lemma LiveBytesAtLeast(blocks: map<nat, seq<byte>>, p: nat)
    requires p in blocks
    ensures LiveBytes(blocks) >= |blocks[p]|
  {
    LiveBytesDropped(blocks, p);
    SumNonNegative(Sizes(blocks - {p}));
  }

  lemma StepKeepsExact(max: nat, m: Memory, op: Op)
    requires Legal(m, op) && Exact(max, m) && NoOverflow(m, op)
    ensures Exact(max, Apply(max, m, op).0)
    ensures Apply(max, m, op).1 <==> op.Free? || LiveBytes(m.blocks) + m.residue + Delta(m, op) <= max
  {
    var m' := Apply(max, m, op).0;
    if !op.Allocate? { LiveBytesAtLeast(m.blocks, op.p); }
    StepBalances(max, m, op);
    StepConserves(max, m, op);
    assert m'.count == m.count + Delta(m, op);
    if op.Free? { LiveBytesDropped(m.blocks, op.p); }
  }

  /** `ops` is a sequential run in which no addition overflows the word. */
  ghost predicate RunWithoutOverflow(max: nat, ops: seq<Op>, m: Memory) {
    if ops == [] then m == INITIAL
    else
      var n := |ops| - 1;
      exists before :: RunWithoutOverflow(max, ops[..n], before) && Legal(before, ops[n]) && NoOverflow(before, ops[n])
                       && m == Apply(max, before, ops[n]).0
  }

  /** Over every sequential run without overflow: the count is the live bytes plus what refused calls
      left behind, which is never negative, and the live bytes never exceed the limit. */
  lemma {:induction false} RunIsExact(max: nat, ops: seq<Op>, m: Memory)
    requires RunWithoutOverflow(max, ops, m)
    ensures Exact(max, m)
  {
    if ops != [] {
      var n := |ops| - 1;
      var before :| RunWithoutOverflow(max, ops[..n], before) && Legal(before, ops[n]) && NoOverflow(before, ops[n])
                    && m == Apply(max, before, ops[n]).0;
      RunIsExact(max, ops[..n], before);
      StepKeepsExact(max, before, ops[n]);
    }
  }

  // ----- runs that may overflow -----

  const INITIAL := Memory(0, map[], 0)

  /** The state after a run; `None` if some call of it may not be asked. */
  function After(max: nat, ops: seq<Op>): Option<Memory> {
    if ops == [] then Some(INITIAL)
    else
      var n := |ops| - 1;
      match After(max, ops[..n])
      case None => None
      case Some(before) => if Legal(before, ops[n]) then Some(Apply(max, before, ops[n]).0) else None
  }

  predicate Run(max: nat, ops: seq<Op>, m: Memory) {
    After(max, ops) == Some(m)
  }

  /** How often additions of the run carried out of the word; a subtraction that borrows counts as minus one. */
  function Carries(max: nat, ops: seq<Op>): int {
    if ops == [] then 0
    else
      var n := |ops| - 1;
      Carries(max, ops[..n])
      + match After(max, ops[..n])
        case None => 0
        case Some(before) => if Legal(before, ops[n]) then (before.count + Delta(before, ops[n])) / WORD else 0
  }

  /** What the word stands for. */
  ghost function Total(m: Memory): int {
    LiveBytes(m.blocks) + m.residue
  }

  lemma WordOf(t: int)
    ensures t % WORD + WORD * (t / WORD) == t
  {
  }

  /** The count and the words carried out of it are the live bytes plus the residue. */
  ghost predicate Counted(m: Memory, carries: int) {
    Balanced(m) && m.count + WORD * carries == Total(m)
  }

  lemma StepCarries(max: nat, m: Memory, carries: int, op: Op)
    requires Legal(m, op) && Counted(m, carries)
    ensures Counted(Apply(max, m, op).0, carries + (m.count + Delta(m, op)) / WORD)
  {
    var m', t := Apply(max, m, op).0, m.count + Delta(m, op);
    StepBalances(max, m, op);
    StepConserves(max, m, op);
    WordOf(t);
    assert WORD * (carries + t / WORD) == WORD * carries + WORD * (t / WORD);
  }

  lemma {:induction false} RunIsCounted(max: nat, ops: seq<Op>, m: Memory)
    requires Run(max, ops, m)
    ensures Counted(m, Carries(max, ops))
  {
    if ops == [] {
      assert Sizes(map[]) == map[];
    } else {
      var n := |ops| - 1;
      var before := After(max, ops[..n]).value;
      RunIsCounted(max, ops[..n], before);
      StepCarries(max, before, Carries(max, ops[..n]), ops[n]);
    }
  }

  /** Over every sequential run, overflowing or not: the count is the live bytes plus the residue exactly when as
      many additions carried as subtractions borrowed, that is when the sum fits a word; and the live bytes are
      within the limit exactly when the count and the carries, less the residue, are. */
  lemma CountIff(max: nat, ops: seq<Op>, m: Memory)
    requires Run(max, ops, m)
    ensures m.count == LiveBytes(m.blocks) + m.residue <==> Carries(max, ops) == 0
    ensures m.count == LiveBytes(m.blocks) + m.residue <==> 0 <= LiveBytes(m.blocks) + m.residue < WORD
    ensures LiveBytes(m.blocks) <= max <==> m.count + WORD * Carries(max, ops) - m.residue <= max
  {
    RunIsCounted(max, ops, m);
  }

  lemma RunExtends(max: nat, ops: seq<Op>, m: Memory, op: Op)
    requires Run(max, ops, m) && Legal(m, op)
    ensures Run(max, ops + [op], Apply(max, m, op).0)
  {
    assert (ops + [op])[..|ops|] == ops;
  }

  // ----- an overflow -----

  /** Four gigabytes. */
  const HUGE: nat := 0x1_0000_0000

  function Repeated(op: Op, n: nat): seq<Op> {
    seq(n, _ => op)
  }

  /** Requests above the limit are refused and all stay in the count, while it does not wrap around. */
  lemma {:induction false} Refusals(max: nat, n: nat)
    requires max < HUGE && n < HUGE
    ensures Run(max, Repeated(Allocate(0, HUGE), n), Memory(n * HUGE, map[], n * HUGE))
  {
    if n > 0 {
      Refusals(max, n - 1);
      var m := Memory((n - 1) * HUGE, map[], (n - 1) * HUGE);
      RunExtends(max, Repeated(Allocate(0, HUGE), n - 1), m, Allocate(0, HUGE));
      assert Repeated(Allocate(0, HUGE), n - 1) + [Allocate(0, HUGE)] == Repeated(Allocate(0, HUGE), n);
      assert (n - 1) * HUGE + HUGE == n * HUGE && n * HUGE < WORD;
      assert FetchAdd(m.count, HUGE) == n * HUGE > max;
    }
  }

  /** The four gigabytes granted in the end are at address 0, and what was refused before is the residue. */
  lemma GrantedAfterWrap(max: nat)
    requires max < HUGE
    ensures Run(max, Repeated(Allocate(0, HUGE), HUGE), Memory(0, map[0 := Zeroes(HUGE)], WORD - HUGE))
  {
    var n := HUGE - 1;
    Refusals(max, n);
    var m := Memory(n * HUGE, map[], n * HUGE);
    RunExtends(max, Repeated(Allocate(0, HUGE), n), m, Allocate(0, HUGE));
    assert Repeated(Allocate(0, HUGE), n) + [Allocate(0, HUGE)] == Repeated(Allocate(0, HUGE), HUGE);
    assert n * HUGE + HUGE == WORD && FetchAdd(m.count, HUGE) == 0;
    assert map[][0 := Zeroes(HUGE)] == map[0 := Zeroes(HUGE)];
  }

  /** Why overflow is excluded: under any limit below four gigabytes, asking for four gigabytes again and again is
      refused until the refused requests have carried the word past its end, and then it is granted. */
  lemma OverflowBreaksTheBound(max: nat)
    requires max < HUGE
    ensures exists m :: Run(max, Repeated(Allocate(0, HUGE), HUGE), m) && LiveBytes(m.blocks) == HUGE > max
  {
    GrantedAfterWrap(max);
    var m := Memory(0, map[0 := Zeroes(HUGE)], WORD - HUGE);
    LiveBytesPlaced(map[], 0, Zeroes(HUGE));
    assert Sizes(map[]) == map[] && map[][0 := Zeroes(HUGE)] == map[0 := Zeroes(HUGE)];
    assert Run(max, Repeated(Allocate(0, HUGE), HUGE), m);
  }

  /** The state after that, a refused request for 200 bytes, and `k` refused attempts to shrink the block to nothing. */
  ghost function Shrunk(k: nat): Memory {
    Memory((WORD + 200 - k * HUGE) % WORD, map[0 := Zeroes(HUGE)], WORD + 200 - k * HUGE - HUGE)
  }

  lemma {:induction false} RefusedShrinks(k: nat) returns (ops: seq<Op>)
    requires k <= HUGE + 1
    ensures Run(100, ops, Shrunk(k))
  {
    if k == 0 {
      GrantedAfterWrap(100);
      ops := Repeated(Allocate(0, HUGE), HUGE);
      RunExtends(100, ops, Memory(0, map[0 := Zeroes(HUGE)], WORD - HUGE), Allocate(1, 200));
      ops := ops + [Allocate(1, 200)];
      assert (WORD + 200) % WORD == 200;
    } else {
      ops := RefusedShrinks(k - 1);
      RunExtends(100, ops, Shrunk(k - 1), Reallocate(0, 0, 0));
      ops := ops + [Reallocate(0, 0, 0)];
      ShrinkIsRefused(k);
    }
  }

  lemma ShrinkCount(t: int)
    requires t == 200 - HUGE || 200 <= t < WORD
    ensures FetchAdd((t + HUGE) % WORD, WrappingSub(0, HUGE)) == t % WORD > 100
  {
    WrapsOnce(t + HUGE, 0 - HUGE);
    WrapsOnce((t + HUGE) % WORD, 0 - HUGE);
  }

  lemma ShrinkRange(k: nat)
    requires 0 < k <= HUGE + 1
    ensures var t := WORD + 200 - k * HUGE;
            (t == 200 - HUGE || 200 <= t < WORD) && WORD + 200 - (k - 1) * HUGE == t + HUGE
  {
  }

  lemma ShrinkIsRefused(k: nat)
    requires 0 < k <= HUGE + 1
    ensures Apply(100, Shrunk(k - 1), Reallocate(0, 0, 0)) == (Shrunk(k), false)
  {
    ShrinkRange(k);
    ShrinkCount(WORD + 200 - k * HUGE);
    assert |Zeroes(HUGE)| == HUGE;
  }

  /** Why the sum has a lower bound too: a refused shrink is subtracted each time it is asked. */
  lemma SumCanBeNegative()
    ensures exists ops, m :: Run(100, ops, m) && Total(m) == 200 - HUGE && m.count != Total(m)
  {
    var m := Shrunk(HUGE + 1);
    var ops := RefusedShrinks(HUGE + 1);
    LiveBytesPlaced(map[], 0, Zeroes(HUGE));
    assert Sizes(map[]) == map[] && map[][0 := Zeroes(HUGE)] == map[0 := Zeroes(HUGE)];
    assert (HUGE + 1) * HUGE == WORD + HUGE;
    assert Run(100, ops, m);
  }

  /** The allocator object. */
  class CustomAllocator {
    const max: nat
    var count: nat
    /** The buffers handed out, by address. */
    var blocks: map<nat, seq<byte>>
    ghost var residue: int

    ghost function State(): Memory
      reads this
    {
      Memory(count, blocks, residue)
    }

    constructor (max: nat)
      ensures this.max == max && State() == Memory(0, map[], 0)
    {
      this.max, count, blocks, residue := max, 0, map[], 0;
    }

    /** `allocate`; `p` is the address the system would give. */
    method Allocate(p: nat, n: nat) returns (r: Option<nat>)
      requires Legal(State(), Op.Allocate(p, n))
      modifies this
      ensures State() == Apply(max, old(State()), Op.Allocate(p, n)).0
      ensures r == if Apply(max, old(State()), Op.Allocate(p, n)).1 then Some(p) else None
      ensures r.Some? ==> p in blocks && |blocks[p]| == n && forall i :: 0 <= i < n ==> blocks[p][i] == 0
      ensures forall q <- old(blocks) :: q in blocks && blocks[q] == old(blocks)[q]
    {
      count := FetchAdd(count, n);
      if count > max {
        residue := residue + n;
        return None;
      }
      blocks := blocks[p := Zeroes(n)];
      return Some(p);
    }

    /** `free`. */
    method Free(p: nat, n: nat)
      requires Legal(State(), Op.Free(p)) && n == |blocks[p]|
      modifies this`count, this`blocks
      ensures State() == Apply(max, old(State()), Op.Free(p)).0
    {
      count := FetchAdd(count, 0 - n);
      blocks := blocks - {p};
    }

    /** `reallocate`: a grant keeps the common prefix of the bytes, a refusal keeps the old block. */
    method Reallocate(p: nat, q: nat, oldlen: nat, newlen: nat) returns (r: Option<nat>)
      requires Legal(State(), Op.Reallocate(p, q, newlen)) && oldlen == |blocks[p]|
      modifies this
      ensures State() == Apply(max, old(State()), Op.Reallocate(p, q, newlen)).0
      ensures r == if Apply(max, old(State()), Op.Reallocate(p, q, newlen)).1 then Some(q) else None
      ensures r.Some? ==> |blocks[q]| == newlen
                          && forall i :: 0 <= i < newlen ==> blocks[q][i] == if i < oldlen then old(blocks[p])[i] else 0
    {
      count := FetchAdd(count, WrappingSub(newlen, oldlen));
      if count > max {
        residue := residue + newlen - oldlen;
        return None;
      }
      var store := blocks[p];
      var copyLen := if oldlen < newlen then oldlen else newlen;
      blocks := (blocks - {p})[q := store[..copyLen] + Zeroes(newlen - copyLen)];
      return Some(q);
    }
  }
}

/** The same counter shared by threads: the addition and the later load of a call are separate steps. */
module SharedMemory {
  import opened Sums

  datatype Call = Adding(n: nat) | Resizing(p: nat, newlen: nat, delta: int)

  /** `live`: sizes of the blocks handed out. `calls`: by thread, the calls between their addition and
      their load. `residue`: what refused calls have left in the count. `returned`: the bytes that refused shrinks gave
      back. The word is taken not to overflow. */
  datatype Shared = Shared(count: int, live: map<nat, int>, calls: map<nat, Call>, residue: int, returned: nat)

  datatype Event =
    | StartAllocate(t: nat, n: nat)
    | FinishAllocate(t: nat, p: nat)
    | FreeBlock(p: nat)
    | StartReallocate(t: nat, p: nat, newlen: nat)
    | FinishReallocate(t: nat)

  predicate InUse(s: Shared, p: nat) {
    exists t <- s.calls :: s.calls[t].Resizing? && s.calls[t].p == p
  }

  predicate Enabled(s: Shared, e: Event) {
    match e
    case StartAllocate(t, n) => t !in s.calls
    case FinishAllocate(t, p) => t in s.calls && s.calls[t].Adding? && p !in s.live
    case FreeBlock(p) => p in s.live && !InUse(s, p)
    case StartReallocate(t, p, newlen) => t !in s.calls && p in s.live && !InUse(s, p)
    case FinishReallocate(t) => t in s.calls && s.calls[t].Resizing? && s.calls[t].p in s.live
  }

  function Apply(max: nat, s: Shared, e: Event): Shared
    requires Enabled(s, e)
  {
    match e
    case StartAllocate(t, n) => s.(count := s.count + n, calls := s.calls[t := Adding(n)])
    case FinishAllocate(t, p) =>
      var n := s.calls[t].n;
      if s.count > max then s.(calls := s.calls - {t}, residue := s.residue + n)
      else s.(calls := s.calls - {t}, live := s.live[p := n])
    case FreeBlock(p) => s.(count := s.count - s.live[p], live := s.live - {p})
    case StartReallocate(t, p, newlen) =>
      var delta := newlen - s.live[p];
      s.(count := s.count + delta, calls := s.calls[t := Resizing(p, newlen, delta)])
    case FinishReallocate(t) =>
      var c := s.calls[t];
      if s.count > max then
        s.(calls := s.calls - {t}, residue := s.residue + c.delta, returned := s.returned + Given(c))
      else s.(calls := s.calls - {t}, live := s.live[c.p := c.newlen])
  }

  /** The bytes a shrink gives back. */
  function Given(c: Call): nat {
    if c.Resizing? && c.delta < 0 then 0 - c.delta else 0
  }

  const INITIAL := Shared(0, map[], map[], 0, 0)

  ghost predicate Run(max: nat, events: seq<Event>, s: Shared) {
    if events == [] then s == INITIAL
    else
      var n := |events| - 1;
      exists before :: Run(max, events[..n], before) && Enabled(before, events[n]) && s == Apply(max, before, events[n])
  }

  function DeltaOf(c: Call): int {
    match c case Adding(n) => n case Resizing(_, _, d) => d
  }

  function Deltas(calls: map<nat, Call>): map<nat, int> {
    map t <- calls :: DeltaOf(calls[t])
  }

  ghost function InFlight(s: Shared): int {
    Sum(Deltas(s.calls))
  }

  /** Calls in flight agree with the blocks they work on. */
  predicate Consistent(s: Shared) {
    && (forall p <- s.live :: s.live[p] >= 0)
    && (forall t <- s.calls :: s.calls[t].Resizing? ==>
          s.calls[t].p in s.live && s.calls[t].delta == s.calls[t].newlen - s.live[s.calls[t].p])
    && (forall t, u :: t in s.calls && u in s.calls && t != u && s.calls[t].Resizing? && s.calls[u].Resizing?
          ==> s.calls[t].p != s.calls[u].p)
  }

  /** Every byte of the count is live, left by a refused call, or in flight. */
  ghost predicate Accounted(s: Shared) {
    s.count == Sum(s.live) + s.residue + InFlight(s)
  }

  lemma CallStarted(calls: map<nat, Call>, t: nat, c: Call)
    requires t !in calls
    ensures Sum(Deltas(calls[t := c])) == Sum(Deltas(calls)) + DeltaOf(c)
  {
    assert Deltas(calls[t := c]) == Deltas(calls)[t := DeltaOf(c)];
    SumUpdate(Deltas(calls), t, DeltaOf(c));
  }

  lemma CallFinished(calls: map<nat, Call>, t: nat)
    requires t in calls
    ensures Sum(Deltas(calls - {t})) == Sum(Deltas(calls)) - DeltaOf(calls[t])
  {
    assert Deltas(calls - {t}) == Deltas(calls) - {t};
    SumSplit(Deltas(calls), t);
  }

  lemma StepConsistent(max: nat, s: Shared, e: Event)
    requires Consistent(s) && Enabled(s, e)
    ensures Consistent(Apply(max, s, e))
  {
  }

  lemma StartAccounts(max: nat, s: Shared, e: Event)
    requires Accounted(s) && Enabled(s, e) && (e.StartAllocate? || e.StartReallocate?)
    ensures Accounted(Apply(max, s, e))
  {
    CallStarted(s.calls, e.t, Apply(max, s, e).calls[e.t]);
  }

  lemma AllocationAccounts(max: nat, s: Shared, e: Event)
    requires Accounted(s) && Enabled(s, e) && e.FinishAllocate?
    ensures Accounted(Apply(max, s, e))
  {
    CallFinished(s.calls, e.t);
    SumUpdate(s.live, e.p, s.calls[e.t].n);
  }

  lemma ReallocationAccounts(max: nat, s: Shared, e: Event)
    requires Accounted(s) && Enabled(s, e) && e.FinishReallocate?
    requires s.calls[e.t].delta == s.calls[e.t].newlen - s.live[s.calls[e.t].p]
    ensures Accounted(Apply(max, s, e))
  {
    CallFinished(s.calls, e.t);
    SumUpdate(s.live, s.calls[e.t].p, s.calls[e.t].newlen);
  }

  lemma FreeAccounts(max: nat, s: Shared, e: Event)
    requires Accounted(s) && Enabled(s, e) && e.FreeBlock?
    ensures Accounted(Apply(max, s, e))
    ensures Sum(Apply(max, s, e).live) == Sum(s.live) - s.live[e.p]
  {
    SumSplit(s.live, e.p);
  }

  lemma StepAccounts(max: nat, s: Shared, e: Event)
    requires Consistent(s) && Accounted(s) && Enabled(s, e)
    ensures Accounted(Apply(max, s, e))
  {
    if e.StartAllocate? || e.StartReallocate? {
      StartAccounts(max, s, e);
    } else if e.FinishAllocate? {
      AllocationAccounts(max, s, e);
    } else if e.FinishReallocate? {
      ReallocationAccounts(max, s, e);
    } else {
      FreeAccounts(max, s, e);
    }
  }

  // ----- the bound -----

  function Gifts(calls: map<nat, Call>): map<nat, int> {
    map t <- calls :: Given(calls[t])
  }

  /** The bytes given back by shrinks in flight. */
  ghost function Shrinking(s: Shared): int {
    Sum(Gifts(s.calls))
  }

  lemma GiftStarted(calls: map<nat, Call>, t: nat, c: Call)
    requires t !in calls
    ensures Sum(Gifts(calls[t := c])) == Sum(Gifts(calls)) + Given(c)
  {
    assert Gifts(calls[t := c]) == Gifts(calls)[t := Given(c)];
    SumUpdate(Gifts(calls), t, Given(c));
  }

  lemma GiftFinished(calls: map<nat, Call>, t: nat)
    requires t in calls
    ensures Sum(Gifts(calls - {t})) == Sum(Gifts(calls)) - Given(calls[t])
  {
    assert Gifts(calls - {t}) == Gifts(calls) - {t};
    SumSplit(Gifts(calls), t);
  }

  /** Calls in flight take at most what shrinks gave back. */
  lemma {:induction false} InFlightAtLeast(calls: map<nat, Call>)
    ensures Sum(Deltas(calls)) + Sum(Gifts(calls)) >= 0
    decreases |calls|
  {
    if calls == map[] {
      assert Deltas(calls) == map[] && Gifts(calls) == map[];
    } else {
      var t :| t in calls;
      InFlightAtLeast(calls - {t});
      CallFinished(calls, t);
      GiftFinished(calls, t);
    }
  }

  /** Live bytes exceed the limit by no more than what shrinks in flight or refused gave back. */
  ghost predicate Bounded(max: nat, s: Shared) {
    s.residue + s.returned >= 0 && Sum(s.live) <= max + s.returned + Shrinking(s)
  }

  lemma StartKeepsBound(max: nat, s: Shared, e: Event)
    requires Bounded(max, s) && Enabled(s, e) && (e.StartAllocate? || e.StartReallocate?)
    ensures Bounded(max, Apply(max, s, e))
  {
    GiftStarted(s.calls, e.t, Apply(max, s, e).calls[e.t]);
  }

  lemma RefusalKeepsBound(max: nat, s: Shared, e: Event)
    requires Bounded(max, s) && Enabled(s, e) && (e.FinishAllocate? || e.FinishReallocate?) && s.count > max
    ensures Bounded(max, Apply(max, s, e))
  {
    GiftFinished(s.calls, e.t);
  }

  /** A grant happens only when the whole count, in-flight bytes included, is within the limit. */
  lemma GrantKeepsBound(max: nat, s: Shared, e: Event)
    requires Consistent(s) && Accounted(s) && Bounded(max, s) && Enabled(s, e)
    requires (e.FinishAllocate? || e.FinishReallocate?) && s.count <= max
    ensures Bounded(max, Apply(max, s, e))
  {
    GrantAccounts(max, s, e);
    BoundFromCount(max, Apply(max, s, e), s.count);
  }

  lemma BoundFromCount(max: nat, s: Shared, count: int)
    requires Sum(s.live) == count - s.residue - Sum(Deltas(s.calls)) && count <= max && s.residue + s.returned >= 0
    ensures Bounded(max, s)
  {
    InFlightAtLeast(s.calls);
  }

  lemma GrantAccounts(max: nat, s: Shared, e: Event)
    requires Consistent(s) && Accounted(s) && Enabled(s, e) && (e.FinishAllocate? || e.FinishReallocate?)
             && s.count <= max
    ensures var s' := Apply(max, s, e);
            && Sum(s'.live) == s.count - s.residue - Sum(Deltas(s'.calls))
            && s'.residue == s.residue && s'.returned == s.returned
  {
    StepAccounts(max, s, e);
  }

  lemma StepKeepsBound(max: nat, s: Shared, e: Event)
    requires Consistent(s) && Accounted(s) && Bounded(max, s) && Enabled(s, e)
    ensures Bounded(max, Apply(max, s, e))
  {
    if e.StartAllocate? || e.StartReallocate? {
      StartKeepsBound(max, s, e);
    } else if e.FreeBlock? {
      FreeAccounts(max, s, e);
    } else if s.count > max {
      RefusalKeepsBound(max, s, e);
    } else {
      GrantKeepsBound(max, s, e);
    }
  }

  ghost predicate Good(max: nat, s: Shared) {
    Consistent(s) && Accounted(s) && Bounded(max, s)
  }

  lemma InitialIsGood(max: nat, s: Shared)
    requires s == INITIAL
    ensures Good(max, s)
  {
    NothingInFlight(s.calls);
    assert Sum(s.live) == 0;
  }

  lemma NothingInFlight(calls: map<nat, Call>)
    requires calls == map[]
    ensures Sum(Deltas(calls)) == 0 && Sum(Gifts(calls)) == 0
  {
    assert Deltas(calls) == map[];
    assert Gifts(calls) == map[];
  }

  /** Over every interleaving of additions and loads: every byte of the count is live, in flight or left by a
      refused call, and the live bytes exceed the limit by no more than what shrinks in flight or refused gave
      back. */
  lemma {:induction false} InterleavingBound(max: nat, events: seq<Event>, s: Shared)
    requires Run(max, events, s)
    ensures Good(max, s)
    ensures Sum(s.live) <= max + s.returned + Shrinking(s)
  {
    if events == [] {
      InitialIsGood(max, s);
    } else {
      var n := |events| - 1;
      var before :| Run(max, events[..n], before) && Enabled(before, events[n]) && s == Apply(max, before, events[n]);
      InterleavingBound(max, events[..n], before);
      StepConsistent(max, before, events[n]);
      StepAccounts(max, before, events[n]);
      StepKeepsBound(max, before, events[n]);
    }
  }

  /** However additions and loads interleave, live bytes are within the limit whenever no shrink is in flight
      and none was refused; granted shrinks do no harm. */
  lemma InterleavingKeepsBound(max: nat, events: seq<Event>, s: Shared)
    requires Run(max, events, s) && s.returned == 0 && forall t <- s.calls :: Given(s.calls[t]) == 0
    ensures Sum(s.live) <= max
  {
    InterleavingBound(max, events, s);
    NoGifts(s.calls);
  }

  lemma {:induction false} NoGifts(calls: map<nat, Call>)
    requires forall t <- calls :: Given(calls[t]) == 0
    ensures Sum(Gifts(calls)) == 0
    decreases |calls|
  {
    if calls == map[] {
      assert Gifts(calls) == map[];
    } else {
      var t :| t in calls;
      GiftFinished(calls, t);
      NoGifts(calls - {t});
    }
  }

  /** A grant leaves the live bytes within the limit exactly when the count, less what is in flight after it and
      what refused calls left, is. */
  lemma GrantIsBoundedIff(max: nat, events: seq<Event>, s: Shared, e: Event)
    requires Run(max, events, s) && Enabled(s, e) && (e.FinishAllocate? || e.FinishReallocate?) && s.count <= max
    ensures var s' := Apply(max, s, e);
            Sum(s'.live) <= max <==> s.count - s.residue - (InFlight(s) - DeltaOf(s.calls[e.t])) <= max
  {
    InterleavingBound(max, events, s);
    StepAccounts(max, s, e);
    CallFinished(s.calls, e.t);
  }

  lemma RunExtends(max: nat, events: seq<Event>, s: Shared, e: Event)
    requires Run(max, events, s) && Enabled(s, e)
    ensures Run(max, events + [e], Apply(max, s, e))
  {
    assert (events + [e])[..|events|] == events;
  }

  lemma TwoBlocks(events: seq<Event>, calls: map<nat, Call>)
    requires calls == map[1 := Resizing(0, 2, -6)] && Run(10, events, Shared(2, map[0 := 8], calls, 0, 0))
    ensures Run(10, events + [StartAllocate(2, 8)] + [FinishAllocate(2, 1)],
                Shared(10, map[0 := 8, 1 := 8], calls, 0, 0))
  {
    var s := Shared(2, map[0 := 8], calls, 0, 0);
    RunExtends(10, events, s, StartAllocate(2, 8));
    var s1 := Apply(10, s, StartAllocate(2, 8));
    RunExtends(10, events + [StartAllocate(2, 8)], s1, FinishAllocate(2, 1));
    assert Apply(10, s1, FinishAllocate(2, 1)).calls == calls;
    assert Apply(10, s1, FinishAllocate(2, 1)).live == map[0 := 8, 1 := 8];
  }

  lemma BothRefused(events: seq<Event>, live: map<nat, int>)
    requires Run(10, events, Shared(10, live, map[1 := Resizing(0, 2, -6)], 0, 0)) && 0 in live
    ensures exists p :: Run(10, p, Shared(11, live, map[], -5, 6))
  {
    var s := Shared(10, live, map[1 := Resizing(0, 2, -6)], 0, 0);
    RunExtends(10, events, s, StartAllocate(3, 1));
    var s1 := Apply(10, s, StartAllocate(3, 1));
    var e1 := events + [StartAllocate(3, 1)];
    RunExtends(10, e1, s1, FinishReallocate(1));
    var s2 := Apply(10, s1, FinishReallocate(1));
    assert s2.calls == map[3 := Adding(1)];
    RunExtends(10, e1 + [FinishReallocate(1)], s2, FinishAllocate(3, 7 + Fresh(live)));
    var s3 := Apply(10, s2, FinishAllocate(3, 7 + Fresh(live)));
    assert s3.calls == map[];
    assert Run(10, e1 + [FinishReallocate(1)] + [FinishAllocate(3, 7 + Fresh(live))], Shared(11, live, map[], -5, 6));
  }

  /** A number larger than every key. */
  ghost function Fresh(live: map<nat, int>): (n: nat)
    ensures forall p <- live :: p < n
  {
    if live == map[] then 0
    else
      var k :| k in live;
      var n := Fresh(live - {k});
      assert forall p <- live :: p == k || p in live - {k};
      if n <= k then k + 1 else n
  }

  /** The excess is reached: a shrink gives six bytes back before it is granted, another thread takes them, and the
      shrink is then refused. No call is in flight at the end, and 16 bytes are live under a limit of 10. */
  lemma ShrinkBreaksTheBound()
    ensures exists events, s :: Run(10, events, s) && s.calls == map[] && Sum(s.live) == 16 == 10 + s.returned
  {
    RunExtends(10, [], INITIAL, StartAllocate(0, 8));
    var e1 := [] + [StartAllocate(0, 8)];
    var s1 := Apply(10, INITIAL, StartAllocate(0, 8));
    RunExtends(10, e1, s1, FinishAllocate(0, 0));
    var s2 := Apply(10, s1, FinishAllocate(0, 0));
    assert s2 == Shared(8, map[0 := 8], map[], 0, 0);
    var e2 := e1 + [FinishAllocate(0, 0)];
    RunExtends(10, e2, s2, StartReallocate(1, 0, 2));
    var s3 := Apply(10, s2, StartReallocate(1, 0, 2));
    assert s3 == Shared(2, map[0 := 8], map[1 := Resizing(0, 2, -6)], 0, 0);
    var e3 := e2 + [StartReallocate(1, 0, 2)];
    TwoBlocks(e3, s3.calls);
    var live: map<nat, int> := map[0 := 8, 1 := 8];
    BothRefused(e3 + [StartAllocate(2, 8)] + [FinishAllocate(2, 1)], live);
    var p :| Run(10, p, Shared(11, live, map[], -5, 6));
    SumSplit(live, 0);
    SumSplit(live - {0}, 1);
    assert live - {0} - {1} == map[];
  }
}
