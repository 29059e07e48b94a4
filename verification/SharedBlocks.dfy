/** The producer and the consumers of module3/practice4/practice4.c: a chain of
    variable-length blocks in one shared int array, claimed under a semaphore.
    Each critical section is one method; runs interleave them in any order. */
module SharedBlocks {

  const MAX_BLOCK_LEN := 5

  // ----- The chain in memory -----

  /** A block as the producer wrote it: mem[offset] is the count, mem[offset + 1]
      the offset of the next block or 0, and the values follow. */
  datatype Block = Block(offset: nat, values: seq<int>)

  function End(b: Block): nat {
    b.offset + 2 + |b.values|
  }

  /** The blocks fill [1, end) without gap or overlap. */
  ghost predicate Tiling(blocks: seq<Block>, end: nat) {
    && (forall i :: 0 <= i < |blocks| ==> 1 <= |blocks[i].values| <= MAX_BLOCK_LEN)
    && (forall i :: 0 < i < |blocks| ==> blocks[i].offset == End(blocks[i - 1]))
    && (if blocks == [] then end == 1 else blocks[0].offset == 1 && end == End(blocks[|blocks| - 1]))
  }

  /** The offset that leads to block i: 0 after the last one. */
  function OffsetOf(blocks: seq<Block>, i: nat): nat {
    if i < |blocks| then blocks[i].offset else 0
  }

  /** Block i is in memory; once claimed, its count is 0. */
  ghost predicate InMemory(mem: seq<int>, blocks: seq<Block>, i: nat, claimed: nat)
    requires i < |blocks|
  {
    var b := blocks[i];
    && End(b) <= |mem|
    && mem[b.offset] == (if i < claimed then 0 else |b.values|)
    && mem[b.offset + 1] == OffsetOf(blocks, i + 1)
    && mem[b.offset + 2..End(b)] == b.values
  }

  ghost predicate Chained(mem: seq<int>, blocks: seq<Block>, claimed: nat) {
    forall i :: 0 <= i < |blocks| ==> InMemory(mem, blocks, i, claimed)
  }

  /** The shared array after some number of claims, blocks[..claimed] being the
      claimed ones. */
  ghost predicate Holds(mem: seq<int>, blocks: seq<Block>, end: nat, claimed: nat) {
    && Tiling(blocks, end) && 1 <= end <= |mem| && claimed <= |blocks|
    && mem[0] == OffsetOf(blocks, 0)
    && Chained(mem, blocks, claimed)
  }

  /** Blocks lie in chain order, each inside the tiled part. */
  lemma {:induction false} OffsetsGrow(blocks: seq<Block>, end: nat, i: nat, j: nat)
    requires Tiling(blocks, end) && i <= j < |blocks|
    ensures i < j ==> End(blocks[i]) <= blocks[j].offset
    ensures 1 <= blocks[j].offset && End(blocks[j]) <= end
    decreases j
  {
    if i < j {
      OffsetsGrow(blocks, end, i, j - 1);
    }
    PositiveOffset(blocks, end, j);
    EndsInside(blocks, end, j);
  }

  lemma {:induction false} PositiveOffset(blocks: seq<Block>, end: nat, j: nat)
    requires Tiling(blocks, end) && j < |blocks|
    ensures 1 <= blocks[j].offset
  {
    if j > 0 {
      PositiveOffset(blocks, end, j - 1);
    }
  }

  lemma {:induction false} EndsInside(blocks: seq<Block>, end: nat, j: nat)
    requires Tiling(blocks, end) && j < |blocks|
    ensures End(blocks[j]) <= end
    decreases |blocks| - j
  {
    if j + 1 < |blocks| {
      assert blocks[j + 1].offset == End(blocks[j]);
      EndsInside(blocks, end, j + 1);
    }
  }

  // ----- The producer -----

  /** The part of the layout loop that writes one block; the n-th call of rand()
      answers rand(n). */
  method WriteBlock(mem: array<int>, pos: nat, count: nat, rand: nat -> nat, calls: nat) returns (ghost values: seq<int>)
    requires pos + 2 + count <= mem.Length
    modifies mem
    ensures |values| == count && forall k :: 0 <= k < count ==> values[k] == rand(calls + k) % 100
    ensures mem[pos] == count && mem[pos + 1] == 0 && mem[pos + 2..pos + 2 + count] == values
    ensures forall a :: 0 <= a < mem.Length && !(pos <= a < pos + 2 + count) ==> mem[a] == old(mem[a])
  {
    mem[pos] := count;
    mem[pos + 1] := 0;
    values := [];
    var i := 0;
    while i < count
      invariant 0 <= i <= count && |values| == i
      invariant forall k :: 0 <= k < i ==> values[k] == rand(calls + k) % 100
      invariant mem[pos] == count && mem[pos + 1] == 0
      invariant forall k :: 0 <= k < i ==> mem[pos + 2 + k] == values[k]
      invariant forall a :: 0 <= a < mem.Length && !(pos <= a < pos + 2 + i) ==> mem[a] == old(mem[a])
    {
      mem[pos + 2 + i] := rand(calls + i) % 100;
      values := values + [rand(calls + i) % 100];
      i := i + 1;
    }
  }

  /** A block written behind a chain, once the last block points to it, makes
      the chain one longer. */
  lemma {:induction false} ChainGrows(m: seq<int>, m': seq<int>, blocks: seq<Block>, b: Block)
    requires Tiling(blocks, b.offset) && Chained(m, blocks, 0) && 1 <= |b.values| <= MAX_BLOCK_LEN
    requires 1 <= b.offset && End(b) <= |m| == |m'|
    requires blocks != [] ==> blocks[|blocks| - 1].offset + 1 < |m|
    requires m'[b.offset] == |b.values| && m'[b.offset + 1] == 0 && m'[b.offset + 2..End(b)] == b.values
    requires blocks != [] ==> m'[blocks[|blocks| - 1].offset + 1] == b.offset
    requires forall a :: 1 <= a < b.offset && !(blocks != [] && a == blocks[|blocks| - 1].offset + 1) ==> m'[a] == m[a]
    ensures Tiling(blocks + [b], End(b)) && Chained(m', blocks + [b], 0)
  {
    var all := blocks + [b];
    forall i | 0 <= i < |all| ensures InMemory(m', all, i, 0) {
      if i < |blocks| {
        assert InMemory(m, blocks, i, 0);
        OffsetsGrow(blocks, b.offset, i, |blocks| - 1);
        OffsetsGrow(blocks, b.offset, i, i);
      }
    }
  }

  /** Sizes and values are those drawn: one call of rand() for the size of each
      block, then one for each of its values, with none left out. Before a block
      at some offset that makes offset - 1 calls but one less for every block. */
  ghost predicate AsDrawn(blocks: seq<Block>, rand: nat -> nat, size: nat) {
    forall i :: 0 <= i < |blocks| ==> BlockAsDrawn(blocks[i], i, rand, size)
  }

  ghost predicate BlockAsDrawn(b: Block, i: nat, rand: nat -> nat, size: nat) {
    b.offset + 2 < size && b.offset > i &&
    var room := size - b.offset - 2;
    && |b.values| == 1 + rand(b.offset - 1 - i) % (if room < MAX_BLOCK_LEN then room else MAX_BLOCK_LEN)
    && forall k :: 0 <= k < |b.values| ==> b.values[k] == rand(b.offset - i + k) % 100
  }

  lemma OneMoreDrawn(blocks: seq<Block>, b: Block, rand: nat -> nat, size: nat)
    requires AsDrawn(blocks, rand, size) && BlockAsDrawn(b, |blocks|, rand, size)
    ensures AsDrawn(blocks + [b], rand, size)
  {
    var all := blocks + [b];
    assert forall i :: 0 <= i < |all| ==> all[i] == if i < |blocks| then blocks[i] else b;
  }

  /** The part of the layout loop that draws the size of a block and writes it; n
      blocks lie before it. */
  method DrawBlock(mem: array<int>, pos: nat, rand: nat -> nat, calls: nat, ghost n: nat) returns (count: nat, ghost b: Block)
    requires n < pos && pos + 2 < mem.Length && calls == pos - 1 - n
    modifies mem
    ensures b.offset == pos && |b.values| == count && 1 <= count <= MAX_BLOCK_LEN && End(b) <= mem.Length
    ensures BlockAsDrawn(b, n, rand, mem.Length)
    ensures mem[pos] == count && mem[pos + 1] == 0 && mem[pos + 2..End(b)] == b.values
    ensures forall a :: 0 <= a < mem.Length && !(pos <= a < End(b)) ==> mem[a] == old(mem[a])
  {
    var room := mem.Length - pos - 2;
    var maxLen := if room < MAX_BLOCK_LEN then room else MAX_BLOCK_LEN;
    count := 1 + rand(calls) % maxLen;
    ghost var values := WriteBlock(mem, pos, count, rand, calls + 1);
    b := Block(pos, values);
  }

  /** One round of the layout loop, as far as it writes to the array. */
  method AppendBlock(mem: array<int>, pos: nat, prev: int, rand: nat -> nat, calls: nat, ghost blocks: seq<Block>)
    returns (count: nat, ghost b: Block)
    requires |blocks| < pos && pos + 2 < mem.Length && calls == pos - 1 - |blocks|
    requires prev == if blocks == [] then -1 else blocks[|blocks| - 1].offset
    requires Tiling(blocks, pos) && Chained(mem[..], blocks, 0)
    modifies mem
    ensures b.offset == pos && |b.values| == count && 1 <= count <= MAX_BLOCK_LEN && End(b) <= mem.Length
    ensures BlockAsDrawn(b, |blocks|, rand, mem.Length)
    ensures Tiling(blocks + [b], End(b)) && Chained(mem[..], blocks + [b], 0)
    ensures forall a :: End(b) <= a < mem.Length ==> mem[a] == old(mem[a])
  {
    ghost var m := mem[..];
    count, b := DrawBlock(mem, pos, rand, calls, |blocks|);
    if prev != -1 {
      OffsetsGrow(blocks, pos, |blocks| - 1, |blocks| - 1);
      mem[prev + 1] := pos;
    }
    ChainGrows(m, mem[..], blocks, b);
  }

  /** The layout loop, from any prior contents of an array of any size. */
  method Layout(mem: array<int>, rand: nat -> nat) returns (nblocks: nat, pos: nat, ghost blocks: seq<Block>)
    requires mem.Length >= 1
    modifies mem
    ensures Holds(mem[..], blocks, pos, 0) && nblocks == |blocks|
    ensures pos <= mem.Length <= pos + 2
    ensures forall a :: pos <= a < mem.Length ==> mem[a] == old(mem[a])
    ensures AsDrawn(blocks, rand, mem.Length)
  {
    pos, nblocks, blocks := 1, 0, [];
    var prev: int := -1;
    var calls: nat := 0;
    while pos + 2 < mem.Length
      invariant 1 <= pos <= mem.Length && nblocks == |blocks|
      invariant prev == if blocks == [] then -1 else blocks[|blocks| - 1].offset
      invariant Tiling(blocks, pos) && Chained(mem[..], blocks, 0)
      invariant forall a :: pos <= a < mem.Length ==> mem[a] == old(mem[a])
      invariant nblocks < pos && calls == pos - 1 - nblocks && AsDrawn(blocks, rand, mem.Length)
    {
      var count;
      ghost var b;
      count, b := AppendBlock(mem, pos, prev, rand, calls, blocks);
      calls := calls + 1 + count;
      OneMoreDrawn(blocks, b, rand, mem.Length);
      prev := pos;
      nblocks := nblocks + 1;
      blocks := blocks + [b];
      pos := pos + 2 + count;
    }
    ghost var m := mem[..];
    mem[0] := if nblocks > 0 then 1 else 0;
    HeadSet(m, mem[..], blocks, pos);
  }

  lemma {:induction false} HeadSet(m: seq<int>, m': seq<int>, blocks: seq<Block>, end: nat)
    requires Tiling(blocks, end) && 1 <= end <= |m| == |m'| && Chained(m, blocks, 0)
    requires m'[1..] == m[1..] && m'[0] == OffsetOf(blocks, 0)
    ensures Holds(m', blocks, end, 0)
  {
    forall i | 0 <= i < |blocks| ensures InMemory(m', blocks, i, 0) {
      assert InMemory(m, blocks, i, 0);
      OffsetsGrow(blocks, end, i, i);
      assert forall a :: 1 <= a < |m| ==> m'[a] == m'[1..][a - 1] == m[a];
    }
  }

  // ----- The walk along the chain -----

  /** The chain from an offset stays inside the array at growing offsets until
      it ends at 0, so the walk along it terminates. */
  ghost predicate Walkable(mem: seq<int>, offset: int)
    decreases |mem| - offset
  {
    offset == 0 ||
    (0 < offset < |mem| - 1 &&
     (mem[offset + 1] == 0 || (mem[offset + 1] > offset && Walkable(mem, mem[offset + 1]))))
  }

  /** Where the walk stops: the first block whose count is not 0, or -1. */
  ghost function FirstFull(mem: seq<int>, offset: int): int
    requires Walkable(mem, offset)
    decreases |mem| - offset
  {
    if offset == 0 then -1
    else if mem[offset] != 0 then offset
    else if mem[offset + 1] == 0 then -1
    else FirstFull(mem, mem[offset + 1])
  }

  lemma {:induction false} WalkFrom(mem: seq<int>, blocks: seq<Block>, end: nat, claimed: nat, i: nat)
    requires Holds(mem, blocks, end, claimed) && i <= |blocks|
    ensures Walkable(mem, OffsetOf(blocks, i))
    ensures i <= claimed ==>
      FirstFull(mem, OffsetOf(blocks, i)) == if claimed < |blocks| then blocks[claimed].offset else -1
    decreases |blocks| - i
  {
    if i < |blocks| {
      assert InMemory(mem, blocks, i, claimed);
      OffsetsGrow(blocks, end, i, i);
      WalkFrom(mem, blocks, end, claimed, i + 1);
      if i + 1 < |blocks| {
        OffsetsGrow(blocks, end, i, i + 1);
      }
    }
  }

  /** After any number of claims the chain from mem[0] can still be walked, and
      the walk stops at the first block not yet claimed. */
  lemma {:induction false} ChainSurvivesClaims(mem: seq<int>, blocks: seq<Block>, end: nat, claimed: nat)
    requires Holds(mem, blocks, end, claimed)
    ensures Walkable(mem, mem[0])
    ensures FirstFull(mem, mem[0]) == if claimed < |blocks| then blocks[claimed].offset else -1
  {
    WalkFrom(mem, blocks, end, claimed, 0);
  }

  /** Zeroing the count of the first unclaimed block claims it, and only it. */
  lemma {:induction false} ClaimNext(mem: seq<int>, blocks: seq<Block>, end: nat, claimed: nat)
    requires Holds(mem, blocks, end, claimed) && claimed < |blocks|
    requires blocks[claimed].offset < |mem|
    ensures Holds(mem[blocks[claimed].offset := 0], blocks, end, claimed + 1)
  {
    var off := blocks[claimed].offset;
    var mem' := mem[off := 0];
    OffsetsGrow(blocks, end, claimed, claimed);
    var claimed' := claimed + 1;
    forall i | 0 <= i < |blocks| ensures InMemory(mem', blocks, i, claimed') {
      assert InMemory(mem, blocks, i, claimed);
      OffsetsGrow(blocks, end, i, i);
      if i < claimed { OffsetsGrow(blocks, end, i, claimed); }
      if i > claimed { OffsetsGrow(blocks, end, claimed, i); }
    }
  }

  // ----- The consumers and the producer's poll -----

  ghost predicate IsMin(m: int, s: seq<int>) {
    m in s && forall v :: v in s ==> m <= v
  }

  ghost predicate IsMax(m: int, s: seq<int>) {
    m in s && forall v :: v in s ==> v <= m
  }

  /** What a consumer prints about the block it claimed. */
  datatype Report = Report(found: int, count: int, min: int, max: int)

  /** The report gives the offset of the block and the count, least and greatest
      of the values the producer wrote there. */
  ghost predicate Reports(r: Report, b: Block) {
    r.found == b.offset && r.count == |b.values| && IsMin(r.min, b.values) && IsMax(r.max, b.values)
  }

  /** The walk both sides share: offset of the first block whose count is not 0. */
  method Walk(mem: array<int>, ghost blocks: seq<Block>, ghost end: nat, ghost claimed: nat) returns (found: int)
    requires Holds(mem[..], blocks, end, claimed)
    ensures found == if claimed < |blocks| then blocks[claimed].offset else -1
  {
    var offset := mem[0];
    found := -1;
    ghost var i := 0;
    while offset != 0
      invariant i <= claimed && offset == OffsetOf(blocks, i) && found == -1
      invariant offset == 0 ==> i == |blocks|
      decreases |blocks| - i
    {
      assert InMemory(mem[..], blocks, i, claimed);
      OffsetsGrow(blocks, end, i, i);
      if mem[offset] != 0 {
        found := offset;
        break;
      }
      offset := mem[offset + 1];
      i := i + 1;
      if i < |blocks| { OffsetsGrow(blocks, end, i, i); }
    }
  }

  /** The min/max scan of a consumer over the block at an offset. */
  method Scan(mem: array<int>, found: nat, count: nat) returns (mn: int, mx: int)
    requires count > 0 && found + 2 + count <= mem.Length
    ensures IsMin(mn, mem[found + 2..found + 2 + count]) && IsMax(mx, mem[found + 2..found + 2 + count])
  {
    ghost var values := mem[found + 2..found + 2 + count];
    mn, mx := mem[found + 2], mem[found + 2];
    var i := 1;
    assert values[..1] == [mn];
    while i < count
      invariant 1 <= i <= count
      invariant IsMin(mn, values[..i]) && IsMax(mx, values[..i])
    {
      var v := mem[found + 2 + i];
      assert values[..i + 1] == values[..i] + [v];
      if v < mn { mn := v; }
      if v > mx { mx := v; }
      i := i + 1;
    }
    assert values[..count] == values;
  }

  /** The critical section of a consumer. */
  method Claim(mem: array<int>, ghost blocks: seq<Block>, ghost end: nat, ghost claimed: nat) returns (r: Report)
    requires Holds(mem[..], blocks, end, claimed)
    modifies mem
    ensures claimed < |blocks| ==> Reports(r, blocks[claimed]) && Holds(mem[..], blocks, end, claimed + 1)
    ensures claimed < |blocks| ==> r.found < mem.Length && mem[..] == old(mem[..])[r.found := 0]
    ensures claimed == |blocks| ==> r == Report(-1, 0, 0, 0) && mem[..] == old(mem[..])
  {
    var found := Walk(mem, blocks, end, claimed);
    var count, mn, mx := 0, 0, 0;
    if found != -1 {
      ghost var b := blocks[claimed];
      assert InMemory(mem[..], blocks, claimed, claimed);
      OffsetsGrow(blocks, end, claimed, claimed);
      count := mem[found];
      assert mem[found + 2..found + 2 + count] == mem[..][found + 2..End(b)] == b.values;
      mn, mx := Scan(mem, found, count);
      ClaimNext(mem[..], blocks, end, claimed);
      mem[found] := 0;
    }
    r := Report(found, count, mn, mx);
  }

  /** The critical section of the producer's completion poll. */
  method Poll(mem: array<int>, ghost blocks: seq<Block>, ghost end: nat, ghost claimed: nat) returns (done: bool)
    requires Holds(mem[..], blocks, end, claimed)
    ensures done <==> claimed == |blocks|
  {
    var offset := mem[0];
    done := true;
    ghost var i := 0;
    while offset != 0
      invariant i <= claimed && offset == OffsetOf(blocks, i) && done
      invariant offset == 0 ==> i == |blocks|
      decreases |blocks| - i
    {
      assert InMemory(mem[..], blocks, i, claimed);
      OffsetsGrow(blocks, end, i, i);
      if mem[offset] != 0 {
        done := false;
        break;
      }
      offset := mem[offset + 1];
      i := i + 1;
      if i < |blocks| { OffsetsGrow(blocks, end, i, i); }
    }
  }

  // ----- Every interleaving -----

  /** Whose critical section runs next. */
  datatype Turn = Consumer(id: nat) | Producer

  /** The shared array, who reported what in which order, which consumers have
      exited, and whether the producer has announced completion. */
  datatype System = System(mem: seq<int>, reports: seq<(nat, Report)>, exited: set<nat>, announced: bool)

  /** The block the memory shows at an offset. */
  ghost predicate Shows(mem: seq<int>, offset: int, b: Block) {
    && offset == b.offset && End(b) <= |mem| && mem[offset] == |b.values| > 0
    && mem[offset + 2..End(b)] == b.values
  }

  /** One turn of a process that still runs: its critical section, and what it
      does with the outcome. */
  ghost predicate Step(s: System, turn: Turn, s': System) {
    s.mem != [] && Walkable(s.mem, s.mem[0]) &&
    var found := FirstFull(s.mem, s.mem[0]);
    match turn
    case Consumer(id) =>
      id !in s.exited &&
      if found == -1 then s' == s.(exited := s.exited + {id})
      else ConsumerClaims(s, id, found, s')
    case Producer =>
      !s.announced && s' == s.(announced := found == -1)
  }

  ghost predicate ConsumerClaims(s: System, id: nat, found: int, s': System) {
    && 0 <= found < |s.mem|
    && s' == System(s.mem[found := 0], s'.reports, s.exited, s.announced)
    && |s'.reports| == |s.reports| + 1 && s'.reports[..|s.reports|] == s.reports
    && s'.reports[|s.reports|].0 == id
    && forall b :: Shows(s.mem, found, b) ==> Reports(s'.reports[|s.reports|].1, b)
  }

  ghost predicate Run(states: seq<System>, turns: seq<Turn>) {
    && |states| == |turns| + 1
    && forall k :: 0 <= k < |turns| ==> Step(states[k], turns[k], states[k + 1])
  }

  /** What every turn keeps: the reports made so far are those of the first
      blocks, in chain order, and exactly those blocks are claimed; a consumer
      has exited, or completion was announced, only if all blocks are claimed. */
  ghost predicate Inv(s: System, blocks: seq<Block>, end: nat) {
    && Holds(s.mem, blocks, end, |s.reports|)
    && (forall k :: 0 <= k < |s.reports| ==> Reports(s.reports[k].1, blocks[k]))
    && (s.exited != {} || s.announced ==> |s.reports| == |blocks|)
  }

  lemma {:induction false} StepKeepsInv(s: System, turn: Turn, s': System, blocks: seq<Block>, end: nat)
    requires Inv(s, blocks, end) && Step(s, turn, s')
    ensures Inv(s', blocks, end)
    ensures |s'.reports| == |s.reports| + if turn.Consumer? && |s.reports| < |blocks| then 1 else 0
    ensures |s'.exited| == |s.exited| + if turn.Consumer? && |s.reports| == |blocks| then 1 else 0
  {
    var k := |s.reports|;
    ChainSurvivesClaims(s.mem, blocks, end, k);
    if turn.Consumer? && k < |blocks| {
      OffsetsGrow(blocks, end, k, k);
      assert InMemory(s.mem, blocks, k, k);
      assert Shows(s.mem, blocks[k].offset, blocks[k]);
      ClaimNext(s.mem, blocks, end, k);
      assert forall j :: 0 <= j < k ==> s'.reports[j] == s'.reports[..k][j] == s.reports[j];
    }
  }

  /** What Claim answers makes a turn of its consumer. */
  lemma {:induction false} ClaimIsTurn(s: System, id: nat, r: Report, blocks: seq<Block>, end: nat)
    requires Inv(s, blocks, end) && |s.reports| < |blocks| && id !in s.exited
    requires Reports(r, blocks[|s.reports|]) && 0 <= r.found < |s.mem|
    ensures Step(s, Consumer(id), s.(mem := s.mem[r.found := 0], reports := s.reports + [(id, r)]))
  {
    var k := |s.reports|;
    ChainSurvivesClaims(s.mem, blocks, end, k);
    assert InMemory(s.mem, blocks, k, k);
    forall b | Shows(s.mem, r.found, b) ensures b == blocks[k] {
      assert b.values == s.mem[b.offset + 2..End(b)];
    }
  }

  function ConsumerTurns(turns: seq<Turn>): nat {
    if turns == [] then 0
    else ConsumerTurns(turns[..|turns| - 1]) + if turns[|turns| - 1].Consumer? then 1 else 0
  }

  /** Under every interleaving of any number of consumers and the producer's
      polls, from what Layout left in memory: the n-th report is the n-th block's,
      as the producer wrote it; a consumer's turn never goes to waste, it claims
      a block or is that consumer's last; a consumer exits and the producer
      announces completion only once every block has been claimed. */
  lemma {:induction false} EveryInterleaving(states: seq<System>, turns: seq<Turn>, blocks: seq<Block>, end: nat)
    requires Run(states, turns)
    requires states[0].reports == [] && states[0].exited == {} && !states[0].announced
    requires Holds(states[0].mem, blocks, end, 0)
    ensures Inv(states[|turns|], blocks, end)
    ensures |states[|turns|].reports| == if ConsumerTurns(turns) < |blocks| then ConsumerTurns(turns) else |blocks|
    ensures |states[|turns|].reports| + |states[|turns|].exited| == ConsumerTurns(turns)
    decreases |turns|
  {
    if turns != [] {
      var n := |turns| - 1;
      EveryInterleaving(states[..n + 1], turns[..n], blocks, end);
      assert Step(states[n], turns[n], states[n + 1]);
      StepKeepsInv(states[n], turns[n], states[n + 1], blocks, end);
    }
  }

  /** No block is reported twice: the offsets reported grow. */
  lemma {:induction false} NoBlockTwice(s: System, blocks: seq<Block>, end: nat, i: nat, j: nat)
    requires Inv(s, blocks, end) && i < j < |s.reports|
    ensures s.reports[i].1.found < s.reports[j].1.found
  {
    OffsetsGrow(blocks, end, i, j);
  }
}
