// Memory as one array of 32-bit words, and the host's allocator.

module Memory {
  import opened Words
  import opened Placement
  import opened Relocation

  /** memcpy of whole words between ranges that do not overlap. Addresses and sizes are in bytes. */
  method CopyWords(mem: array<Word>, dst: int, src: int, size: int)
    requires 0 <= size && size % 4 == 0 && dst % 4 == 0 && src % 4 == 0
    requires size > 0 ==> 0 <= dst && dst + size <= 4 * mem.Length && 0 <= src && src + size <= 4 * mem.Length
    requires Apart(dst, size, src, size)
    modifies mem
    ensures forall a :: dst / 4 <= a < dst / 4 + size / 4 ==> mem[a] == old(mem[a - dst / 4 + src / 4])
    ensures forall a :: 0 <= a < mem.Length && !(dst / 4 <= a < dst / 4 + size / 4) ==> mem[a] == old(mem[a])
  {
    var n := size / 4;
    for i := 0 to n
      invariant forall a :: dst / 4 <= a < dst / 4 + i ==> mem[a] == old(mem[a - dst / 4 + src / 4])
      invariant forall a :: 0 <= a < mem.Length && !(dst / 4 <= a < dst / 4 + i) ==> mem[a] == old(mem[a])
    {
      mem[dst / 4 + i] := mem[src / 4 + i];
    }
  }

  /** memset to zero. */
  method ZeroWords(mem: array<Word>, dst: int, size: int)
    requires 0 <= size && size % 4 == 0 && dst % 4 == 0
    requires size > 0 ==> 0 <= dst && dst + size <= 4 * mem.Length
    modifies mem
    ensures forall a :: dst / 4 <= a < dst / 4 + size / 4 ==> mem[a] == 0
    ensures forall a :: 0 <= a < mem.Length && !(dst / 4 <= a < dst / 4 + size / 4) ==> mem[a] == old(mem[a])
  {
    var n := size / 4;
    for i := 0 to n
      invariant forall a :: dst / 4 <= a < dst / 4 + i ==> mem[a] == 0
      invariant forall a :: 0 <= a < mem.Length && !(dst / 4 <= a < dst / 4 + i) ==> mem[a] == old(mem[a])
    {
      mem[dst / 4 + i] := 0;
    }
  }

  // ----- the allocator -----

  /** What an allocation was for: no section means the main block. */
  datatype Purpose = Purpose(section: Option<Name>, align: int, flags: int)

  datatype HeapBlock = HeapBlock(addr: int, size: int, purpose: Purpose)

  datatype Event = Allocated(block: HeapBlock) | Refused(size: int, purpose: Purpose) | Freed(addr: int, purpose: Purpose)

  type Heap = map<int, HeapBlock>

  /** The blocks outstanding after a history, or None if a free had no matching allocation:
      wrong address, freed twice, or with another section, alignment or flags. */
  function Outstanding(log: seq<Event>): Option<Heap> {
    if log == [] then Some(map[])
    else
      match (Outstanding(log[..|log| - 1]), log[|log| - 1])
      case (None, _) => None
      case (Some(heap), Refused(_, _)) => Some(heap)
      case (Some(heap), Allocated(b)) => if b.addr in heap || b.addr == 0 then None else Some(heap[b.addr := b])
      case (Some(heap), Freed(addr, purpose)) =>
        if addr in heap && heap[addr].purpose == purpose then Some(heap - {addr}) else None
  }

  /** The requests of a history, answered or refused, without the frees. */
  function Asked(log: seq<Event>): seq<Event> {
    if log == [] then []
    else Asked(log[..|log| - 1]) + if log[|log| - 1].Freed? then [] else [log[|log| - 1]]
  }

  lemma AskedStep(log: seq<Event>, e: Event)
    ensures Asked(log + [e]) == Asked(log) + if e.Freed? then [] else [e]
  {
    assert (log + [e])[..|log + [e]| - 1] == log;
  }

  /** The requests made between two moments. */
  function AskedSince(was: seq<Event>, now: seq<Event>): seq<Event> {
    if |Asked(was)| <= |Asked(now)| then Asked(now)[|Asked(was)|..] else []
  }

  lemma SinceIs(was: seq<Event>, now: seq<Event>, asked: seq<Event>)
    requires Asked(now) == Asked(was) + asked
    ensures AskedSince(was, now) == asked
  {
    assert Asked(now)[|Asked(was)|..] == asked;
  }

  lemma NothingAsked(log: seq<Event>)
    ensures AskedSince(log, log) == [] && Asked(log) == Asked(log) + []
  {
    SinceIs(log, log, []);
  }

  /** Granted, at an address aligned as it was asked to be. */
  predicate Served(e: Event) {
    e.Allocated? && Aligned(e.block.addr, e.block.purpose.align)
  }

  /** Bytes asked for in a list of requests. */
  function BytesAsked(asked: seq<Event>): int {
    if asked == [] then 0
    else BytesAsked(asked[1..]) + match asked[0]
      case Allocated(b) => b.size
      case Refused(size, _) => size
      case Freed(_, _) => 0
  }

  datatype Range = Range(addr: int, size: int)

  /** An allocator: what it would answer at its n-th call, memory in use that is not its own, and the end of memory. */
  datatype Allocator = Allocator(answers: nat -> Word, taken: seq<Range>, limit: int)

  /** Memory that is not in use. */
  predicate FreeMemory(a: Allocator, log: seq<Event>, addr: int, size: int) {
    && addr + size <= a.limit
    && (forall r :: r in a.taken ==> Apart(addr, size, r.addr, r.size))
    && (Outstanding(log).Some? ==> forall b :: b in Outstanding(log).value ==> Apart(addr, size, b, Outstanding(log).value[b].size))
    && (Outstanding(log).Some? ==> addr !in Outstanding(log).value)
  }

  /** Its answer after a history: a refusal, or any memory that is not in use, aligned or not. */
  function Answer(a: Allocator, log: seq<Event>, size: int): Word {
    if FreeMemory(a, log, a.answers(|log|), size) then a.answers(|log|) else 0
  }

  class Host {
    /** Every allocator call so far. */
    var log: seq<Event>
    /** Memory in use that is not the allocator's: images, caller-supplied buffers. */
    var taken: seq<Range>
    /** What the allocator would answer at its n-th call: any function. */
    const answers: nat -> Word

    constructor (answers: nat -> Word)
      ensures log == [] && taken == [] && this.answers == answers
    {
      log, taken := [], [];
      this.answers := answers;
    }

    /** As a value, in a memory of `limit` bytes. */
    function As(limit: int): Allocator
      reads this`taken
    {
      Allocator(answers, taken, limit)
    }

    /** What it answers to a request now. */
    function Reply(size: int, limit: int): Word
      reads this
    {
      Answer(As(limit), log, size)
    }

    lemma ReplyIs(size: int, limit: int)
      ensures Reply(size, limit) == Answer(As(limit), log, size)
    {}

    /** Any allocator: it may refuse, or return any memory that is not in use, aligned or not.
        It is never asked for zero bytes. */
    method Malloc(size: int, purpose: Purpose, limit: int) returns (p: Word)
      requires size > 0
      modifies this`log
      ensures log == old(log) + [if p == 0 then Refused(size, purpose) else Allocated(HeapBlock(p, size, purpose))]
      ensures Asked(log) == Asked(old(log)) + [if p == 0 then Refused(size, purpose) else Allocated(HeapBlock(p, size, purpose))]
      ensures p == old(Reply(size, limit))
      ensures p != 0 ==> old(FreeMemory(As(limit), log, p, size))
    {
      p := Reply(size, limit);
      AskedStep(log, if p == 0 then Refused(size, purpose) else Allocated(HeapBlock(p, size, purpose)));
      log := log + [if p == 0 then Refused(size, purpose) else Allocated(HeapBlock(p, size, purpose))];
    }

    method Release(p: int, purpose: Purpose)
      modifies this`log
      ensures log == old(log) + [Freed(p, purpose)] && Asked(log) == Asked(old(log))
    {
      AskedStep(log, Freed(p, purpose));
      log := log + [Freed(p, purpose)];
    }
  }

  lemma OutstandingStep(log: seq<Event>, e: Event)
    ensures Outstanding(log + [e]) ==
      match (Outstanding(log), e)
      case (None, _) => None
      case (Some(heap), Refused(_, _)) => Some(heap)
      case (Some(heap), Allocated(b)) => if b.addr in heap || b.addr == 0 then None else Some(heap[b.addr := b])
      case (Some(heap), Freed(addr, purpose)) =>
        if addr in heap && heap[addr].purpose == purpose then Some(heap - {addr}) else None
  {
    assert (log + [e])[..|log + [e]| - 1] == log;
  }

  /** What is outstanding was asked for. */
  lemma {:induction false} OutstandingAsked(log: seq<Event>)
    requires Outstanding(log).Some?
    ensures forall addr :: addr in Outstanding(log).value ==>
      Outstanding(log).value[addr].addr == addr && Allocated(Outstanding(log).value[addr]) in Asked(log)
    decreases |log|
  {
    if log == [] {
    } else {
      OutstandingAsked(log[..|log| - 1]);
    }
  }
}
