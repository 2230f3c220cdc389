/**
 * The SD card driver: whole blocks are read through a cache that holds one of them, programmed one
 * at a time, and erased a sector at a time. Whether the card cooperates is decided by its answers.
 */
module SdCard {
  import opened Machine
  import BlockCache

  const BLOCK_SIZE: nat := 512
  const SECTORS_IN_BLOCK: nat := 128
  const SECTOR_SIZE: nat := 65536

  type Block = s: seq<byte> | |s| == BLOCK_SIZE witness seq(BLOCK_SIZE, _ => 0)

  function Filled(x: byte): (b: Block)
    ensures forall i :: 0 <= i < BLOCK_SIZE ==> b[i] == x
  {
    seq(BLOCK_SIZE, _ => x)
  }

  const BLANK: Block := Filled(0xFF)

  /**
   * The contents of the card, the block in the cache, and the blocks whose contents are undefined
   * because they were erased and not programmed since.
   */
  datatype Card = Card(blocks: map<uint32, Block>, cached: Option<(uint32, Block)>, erased: set<uint32>)
  {
    function Content(b: uint32): Block {
      if b in blocks then blocks[b] else BLANK
    }

    /** What is cached is on the card, or undefined. */
    predicate Coherent() {
      cached.Some? ==> cached.value.1 == Content(cached.value.0) || cached.value.0 in erased
    }

    function Evicted(b: uint32): Card {
      if cached.Some? && cached.value.0 == b then this.(cached := None) else this
    }

    /** The byte at an address. */
    function ByteAt(address: nat): byte {
      Content(Wrap(address / BLOCK_SIZE))[address % BLOCK_SIZE]
    }
  }

  /** The block is erased together with the given one, which is the first of them. */
  predicate InSector(first: uint32, b: uint32) {
    AmongFirst(first, b, SECTORS_IN_BLOCK)
  }

  predicate AmongFirst(first: uint32, b: uint32, n: nat) {
    Wrap(b - first) < n
  }

  /** A refusal before anything was sent, a failure that may have changed what was addressed, or success. */
  datatype Answer<T> = NotSelected | Failed(left: T) | Done

  datatype Operation =
    | Read(block: uint32, readable: bool)
    | Program(block: uint32, data: Block, answer: Answer<Block>)
    | Erase(first: uint32, remains: map<uint32, Block>, selected: bool)

  /** Looks a block up in the cache and loads it if necessary. */
  function Access(c: Card, b: uint32, readable: bool): (r: (Card, Option<Block>)) {
    if c.cached.Some? && c.cached.value.0 == b then (c, Some(c.cached.value.1))
    else if readable then (c.(cached := Some((b, c.Content(b)))), Some(c.Content(b)))
    else (c.(cached := None), None)
  }

  function Step(c: Card, op: Operation): Card {
    match op
    case Read(b, readable) => Access(c, b, readable).0
    case Program(b, data, answer) =>
      if answer.NotSelected? then c
      else
        c.Evicted(b).(blocks := c.blocks[b := if answer.Done? then data else answer.left], erased := c.erased - {b})
    case Erase(first, remains, selected) =>
      if !selected then c
      else c.Evicted(first).(blocks := c.blocks + remains, erased := c.erased + remains.Keys)
  }

  predicate ValidOperation(op: Operation) {
    op.Erase? ==> forall b: uint32 :: b in op.remains <==> InSector(op.first, b)
  }

  function After(c: Card, run: seq<Operation>): Card {
    if run == [] then c else Step(After(c, run[..|run| - 1]), run[|run| - 1])
  }

  lemma CoherentKept(c: Card, op: Operation)
    requires c.Coherent() && ValidOperation(op)
    ensures Step(c, op).Coherent()
  {
  }

  /** Over any run, with any failures, the cached block is the one on the card, or undefined. */
  lemma {:induction false} AlwaysCoherent(c: Card, run: seq<Operation>)
    requires c.Coherent() && forall i :: 0 <= i < |run| ==> ValidOperation(run[i])
    ensures After(c, run).Coherent()
  {
    hide Step;
    if run != [] {
      AlwaysCoherent(c, run[..|run| - 1]);
      CoherentKept(After(c, run[..|run| - 1]), run[|run| - 1]);
    }
  }

  predicate Touches(op: Operation, b: uint32) {
    match op
    case Read(_, _) => false
    case Program(block, _, answer) => block == b && !answer.NotSelected?
    case Erase(first, _, selected) => InSector(first, b) && selected
  }

  /** The block is on the card with this content, is defined, and is not cached with another one. */
  predicate Settled(c: Card, b: uint32, data: Block) {
    c.Coherent() && c.Content(b) == data && b !in c.erased
  }

  lemma {:induction false} SettledUntilTouched(c: Card, b: uint32, data: Block, run: seq<Operation>)
    requires Settled(c, b, data)
    requires forall i :: 0 <= i < |run| ==> ValidOperation(run[i]) && !Touches(run[i], b)
    ensures Settled(After(c, run), b, data)
  {
    hide Step, Settled;
    if run != [] {
      SettledUntilTouched(c, b, data, run[..|run| - 1]);
      SettledStep(After(c, run[..|run| - 1]), b, data, run[|run| - 1]);
    }
  }

  lemma SettledStep(c: Card, b: uint32, data: Block, op: Operation)
    requires Settled(c, b, data) && ValidOperation(op) && !Touches(op, b)
    ensures Settled(Step(c, op), b, data)
  {
    CoherentKept(c, op);
  }

  /**
   * What was programmed is what is read back, however many reads, programs and erasures of other
   * blocks, successful or not, happen in between.
   */
  lemma ReadsWhatWasProgrammed(c: Card, b: uint32, data: Block, run: seq<Operation>, readable: bool)
    requires c.Coherent()
    requires forall i :: 0 <= i < |run| ==> ValidOperation(run[i]) && !Touches(run[i], b)
    ensures var r := Access(After(Step(c, Program(b, data, Done)), run), b, readable).1;
            (r.Some? ==> r.value == data) && (readable ==> r.Some?)
  {
    CoherentKept(c, Program(b, data, Done));
    ReadsWhatWasThere(Step(c, Program(b, data, Done)), b, run, readable);
  }

  /** The same goes for a block that the run does not touch, ... */
  lemma ReadsWhatWasThere(c: Card, b: uint32, run: seq<Operation>, readable: bool)
    requires c.Coherent() && b !in c.erased
    requires forall i :: 0 <= i < |run| ==> ValidOperation(run[i]) && !Touches(run[i], b)
    ensures var r := Access(After(c, run), b, readable).1;
            (r.Some? ==> r.value == c.Content(b)) && (readable ==> r.Some?)
  {
    hide After;
    SettledUntilTouched(c, b, c.Content(b), run);
  }

  /** ... and for what a program operation that failed has left behind. */
  lemma ReadsWhatWasLeft(c: Card, b: uint32, data: Block, left: Block, run: seq<Operation>, readable: bool)
    requires c.Coherent()
    requires forall i :: 0 <= i < |run| ==> ValidOperation(run[i]) && !Touches(run[i], b)
    ensures var r := Access(After(Step(c, Program(b, data, Failed(left))), run), b, readable).1;
            (r.Some? ==> r.value == left) && (readable ==> r.Some?)
  {
    CoherentKept(c, Program(b, data, Failed(left)));
    ReadsWhatWasThere(Step(c, Program(b, data, Failed(left))), b, run, readable);
  }

  /** A card that cannot be selected stays as it is. */
  lemma NotSelectedChangesNothing(c: Card, b: uint32, data: Block, remains: map<uint32, Block>)
    ensures Step(c, Program(b, data, NotSelected)) == c && Step(c, Erase(b, remains, false)) == c
  {
  }

  /** What an erasure makes of a block is what is read, unless the block is cached and not the first one. */
  lemma ReadsWhatErasureMade(c: Card, first: uint32, remains: map<uint32, Block>, b: uint32)
    requires ValidOperation(Erase(first, remains, true)) && InSector(first, b)
    ensures var c' := Step(c, Erase(first, remains, true));
            && c'.Content(b) == remains[b]
            && (c.cached.Some? && c.cached.value.0 == b && b != first ==>
                  Access(c', b, true).1 == Some(c.cached.value.1))
            && (!(c.cached.Some? && c.cached.value.0 == b && b != first) ==>
                  Access(c', b, true).1 == Some(remains[b]))
  {
  }

  // ----------------------------------------------------------------------------------------
  // What is cached, and what is undefined
  // ----------------------------------------------------------------------------------------

  /** The operation does not push the block out of the cache, if it is there. */
  predicate Spares(op: Operation, b: uint32) {
    match op
    case Read(block, _) => block == b
    case Program(block, _, answer) => block != b || answer.NotSelected?
    case Erase(first, _, selected) => first != b || !selected
  }

  predicate IsCached(c: Card, b: uint32) {
    c.cached.Some? && c.cached.value.0 == b
  }

  /** The block was loaded just before the p-th operation, or was cached at the start. */
  predicate Loaded(c: Card, run: seq<Operation>, b: uint32, p: nat)
    requires p <= |run|
  {
    if p == 0 then IsCached(c, b) else run[p - 1] == Read(b, true)
  }

  predicate SparedSince(run: seq<Operation>, b: uint32, p: nat) {
    forall k :: p <= k < |run| ==> Spares(run[k], b)
  }

  lemma CachedStep(c: Card, op: Operation, b: uint32)
    ensures IsCached(Step(c, op), b) <==> op == Read(b, true) || (IsCached(c, b) && Spares(op, b))
  {
  }

  /**
   * A block is cached if and only if it was loaded once and since then nothing else was read and the
   * block itself was neither programmed nor was it the first one of an erased sector.
   */
  lemma {:induction false} CachedIff(c: Card, run: seq<Operation>, b: uint32)
    ensures IsCached(After(c, run), b) <==>
            exists p :: 0 <= p <= |run| && Loaded(c, run, b, p) && SparedSince(run, b, p)
  {
    hide Step, Spares, IsCached;
    if run == [] {
      assert SparedSince(run, b, 0);
    } else {
      var front, last := run[..|run| - 1], run[|run| - 1];
      CachedIff(c, front, b);
      CachedStep(After(c, front), last, b);
      forall p | 0 <= p < |run|
        ensures Loaded(c, run, b, p) == Loaded(c, front, b, p)
        ensures SparedSince(run, b, p) <==> SparedSince(front, b, p) && Spares(last, b)
      {
        assert forall k :: 0 <= k < |front| ==> run[k] == front[k];
      }
      assert SparedSince(run, b, |run|);
    }
  }

  /** Without the card, exactly the cached block can be read, and any other attempt gives that one up. */
  lemma ReadableWithoutCardIff(c: Card, run: seq<Operation>, b: uint32)
    ensures Access(After(c, run), b, false).1.Some? <==>
            exists p :: 0 <= p <= |run| && Loaded(c, run, b, p) && SparedSince(run, b, p)
    ensures Access(After(c, run), b, false).1.None? ==> forall b' :: !IsCached(Access(After(c, run), b, false).0, b')
  {
    hide After, Loaded, SparedSince;
    CachedIff(c, run, b);
  }

  /** The operation erases the block. */
  predicate Erases(op: Operation, b: uint32) {
    op.Erase? && op.selected && InSector(op.first, b)
  }

  /** The operation programs the block, successfully or not. */
  predicate Programs(op: Operation, b: uint32) {
    op.Program? && op.block == b && !op.answer.NotSelected?
  }

  predicate ErasedBefore(c: Card, run: seq<Operation>, b: uint32, p: nat)
    requires p <= |run|
  {
    if p == 0 then b in c.erased else Erases(run[p - 1], b)
  }

  predicate NotProgrammedSince(run: seq<Operation>, b: uint32, p: nat) {
    forall k :: p <= k < |run| ==> !Programs(run[k], b)
  }

  lemma ErasedStep(c: Card, op: Operation, b: uint32)
    requires ValidOperation(op)
    ensures b in Step(c, op).erased <==> Erases(op, b) || (b in c.erased && !Programs(op, b))
  {
  }

  /** The blocks whose contents are undefined are those that were erased and not programmed since. */
  lemma {:induction false} ErasedIff(c: Card, run: seq<Operation>, b: uint32)
    requires forall i :: 0 <= i < |run| ==> ValidOperation(run[i])
    ensures b in After(c, run).erased <==>
            exists p :: 0 <= p <= |run| && ErasedBefore(c, run, b, p) && NotProgrammedSince(run, b, p)
  {
    hide Step, Programs, Erases;
    if run == [] {
      assert NotProgrammedSince(run, b, 0);
    } else {
      var front, last := run[..|run| - 1], run[|run| - 1];
      ErasedIff(c, front, b);
      ErasedStep(After(c, front), last, b);
      forall p | 0 <= p < |run|
        ensures ErasedBefore(c, run, b, p) == ErasedBefore(c, front, b, p)
        ensures NotProgrammedSince(run, b, p) <==> NotProgrammedSince(front, b, p) && !Programs(last, b)
      {
        assert forall k :: 0 <= k < |front| ==> run[k] == front[k];
      }
      assert NotProgrammedSince(run, b, |run|);
    }
  }

  /** A sector consists of the given block and the 127 that follow it. */
  lemma SectorIs(first: uint32, i: nat)
    requires i < SECTORS_IN_BLOCK
    ensures InSector(first, Wrap(first + i))
    ensures forall b: uint32 :: InSector(first, b) ==> b == Wrap(first + Wrap(b - first))
  {
    forall b: uint32 | InSector(first, b)
      ensures b == Wrap(first + Wrap(b - first))
    {
      SectorMember(first, b, Wrap(b - first));
    }
    SectorMember(first, Wrap(first + i), i);
  }

  /** The first n blocks of a sector, all with the same content. */
  function Uniform(first: uint32, n: nat, x: Block): map<uint32, Block> {
    if n == 0 then map[] else Uniform(first, n - 1, x)[Wrap(first + n - 1) := x]
  }

  lemma {:induction false} UniformCovers(first: uint32, n: nat, x: Block)
    requires n <= SECTORS_IN_BLOCK
    ensures forall b: uint32 :: b in Uniform(first, n, x) <==> AmongFirst(first, b, n)
    ensures forall b: uint32 :: b in Uniform(first, n, x) ==> Uniform(first, n, x)[b] == x
  {
    if n > 0 {
      UniformCovers(first, n - 1, x);
      forall b: uint32
        ensures AmongFirst(first, b, n) <==> AmongFirst(first, b, n - 1) || b == Wrap(first + n - 1)
      {
        SectorMember(first, b, n - 1);
      }
      hide Wrap, AmongFirst;
    }
  }

  lemma SectorMember(first: uint32, b: uint32, n: nat)
    requires n < SECTORS_IN_BLOCK
    ensures Wrap(b - first) == n <==> b == Wrap(first + n)
  {
  }

  /** What is cached is on the card. */
  predicate Exact(c: Card) {
    c.cached.Some? ==> c.cached.value.1 == c.Content(c.cached.value.0)
  }

  /** An erasure leaves the cache exact, whatever it makes of the erased blocks. */
  ghost predicate EraseIsSafe(c: Card, first: uint32) {
    forall remains: map<uint32, Block> ::
      ValidOperation(Erase(first, remains, true)) ==> Exact(Step(c, Erase(first, remains, true)))
  }

  /**
   * With an exact cache, erasing a sector is safe if and only if no block of it is cached, except
   * the first one.
   */
  lemma EraseIsSafeIff(c: Card, first: uint32)
    requires Exact(c)
    ensures EraseIsSafe(c, first) <==>
            (c.cached.Some? && InSector(first, c.cached.value.0) ==> c.cached.value.0 == first)
  {
    if c.cached.Some? && InSector(first, c.cached.value.0) && c.cached.value.0 != first {
      var (b, data) := c.cached.value;
      var other := Filled(if data[0] == 0 then 1 else 0);
      var remains := Uniform(first, SECTORS_IN_BLOCK, other);
      UniformCovers(first, SECTORS_IN_BLOCK, other);
      assert other[0] != data[0];
      assert ValidOperation(Erase(first, remains, true)) && !Exact(Step(c, Erase(first, remains, true)));
    }
  }

  /** So a block can be read, erased, and read again with its old contents. */
  lemma StaleRead()
    ensures var remains := Uniform(0, SECTORS_IN_BLOCK, Filled(0));
            var erase := Erase(0, remains, true);
            var c := After(Card(map[], None, {}), [Read(1, true), erase]);
            && ValidOperation(erase)
            && Access(c, 1, true).1 == Some(BLANK) && c.Content(1) == Filled(0) != BLANK
  {
    var remains := Uniform(0, SECTORS_IN_BLOCK, Filled(0));
    UniformCovers(0, SECTORS_IN_BLOCK, Filled(0));
    var first, second, start := Read(1, true), Erase(0, remains, true), Card(map[], None, {});
    assert [first, second][..1] == [first] && [first][..0] == [];
    assert After(start, [first]) == Step(start, first);
    assert After(start, [first, second]) == Step(Step(start, first), second);
    assert Filled(0)[0] != BLANK[0];
  }

  // ----------------------------------------------------------------------------------------
  // Addresses
  // ----------------------------------------------------------------------------------------

  /** Reading and programming agree on which block a filesystem address is in, 32-bit overflow included. */
  lemma AddressesAgree(sector: uint32, off: nat)
    ensures Wrap((sector * SECTOR_SIZE + off) / BLOCK_SIZE) == Wrap(Wrap(sector * SECTORS_IN_BLOCK) + off / BLOCK_SIZE)
    ensures (sector * SECTOR_SIZE + off) % BLOCK_SIZE == off % BLOCK_SIZE
  {
    var q, r := off / BLOCK_SIZE, off % BLOCK_SIZE;
    assert sector * SECTOR_SIZE + off == BLOCK_SIZE * (sector * SECTORS_IN_BLOCK + q) + r;
    QuotientIs(sector * SECTOR_SIZE + off, BLOCK_SIZE, sector * SECTORS_IN_BLOCK + q, r);
    WrapSum(sector * SECTORS_IN_BLOCK, q);
  }

  /** Addresses count the bytes of the blocks, which are 512 bytes long. */
  lemma ByteAtIs(c: Card, b: uint32, i: nat)
    requires i < 512
    ensures c.ByteAt(512 * b + i) == c.Content(b)[i]
  {
    hide Card.Content;
  }

  lemma WrapSum(a: nat, b: nat)
    ensures Wrap(Wrap(a) + b) == Wrap(a + b)
  {
    var m := 0x1_0000_0000;
    assert a == m * (a / m) + Wrap(a);
    WrapMultiple(Wrap(a) + b, a / m);
  }

  // ----------------------------------------------------------------------------------------
  // The driver
  // ----------------------------------------------------------------------------------------

  class Driver {
    const cache: BlockCache.BlockCache
    /** What is on the card; other blocks are blank. */
    var blocks: map<uint32, Block>
    ghost var erased: set<uint32>

    ghost predicate Valid()
      reads this, cache, cache.block
    {
      cache.block.Length == BLOCK_SIZE && View().Coherent()
    }

    ghost function View(): Card
      reads this, cache, cache.block
      requires cache.block.Length == BLOCK_SIZE
    {
      var cached := cache.Cached();
      Card(blocks, if cached == None then None else Some((cached.value.0, cached.value.1)), erased)
    }

    constructor (blocks: map<uint32, Block>)
      ensures Valid() && fresh(cache) && fresh(cache.block) && View() == Card(blocks, None, {})
    {
      cache := new BlockCache.BlockCache(BLOCK_SIZE);
      this.blocks, erased := blocks, {};
    }

    /** Reads a block from the card, if the card lets us. */
    method ReadBlockIntoBuffer(block: uint32, buf: array<byte>, readable: bool)
      requires buf.Length == BLOCK_SIZE
      modifies buf
      ensures readable ==> buf[..] == Card(blocks, None, {}).Content(block)
    {
      if readable {
        var content := if block in blocks then blocks[block] else BLANK;
        forall i | 0 <= i < BLOCK_SIZE {
          buf[i] := content[i];
        }
      }
    }

    /** A pointer to the block in the cache, or null if it could not be read. */
    method EnsureBlockIsCached(block: uint32, readable: bool) returns (ptr: array?<byte>)
      requires Valid()
      modifies cache, cache.block
      ensures Valid() && View() == Access(old(View()), block, readable).0
      ensures ptr == if Access(old(View()), block, readable).1.Some? then cache.block else null
      ensures ptr != null ==> ptr[..] == Access(old(View()), block, readable).1.value
    {
      CoherentKept(View(), Read(block, readable));
      ptr := cache.GetBlock(block);
      if ptr == null {
        var buf := cache.GetScratchArea();
        ReadBlockIntoBuffer(block, buf, readable);
        if readable {
          ptr := cache.Commit(block);
        }
      }
    }

    /** Copies part of one block to the given place in the buffer. */
    method CopyFromBlock(buf: array<byte>, at: nat, n: nat, block: uint32, offset: nat, readable: bool)
      returns (ok: bool)
      requires Valid() && buf != cache.block && at + n <= buf.Length && offset + n <= BLOCK_SIZE
      modifies cache, cache.block, buf
      ensures Valid() && (readable ==> ok)
      ensures ok && block !in erased ==> buf[at..at + n] == View().Content(block)[offset..offset + n]
      ensures forall i :: 0 <= i < buf.Length && !(at <= i < at + n) ==> buf[i] == old(buf[i])
    {
      var cachePtr := EnsureBlockIsCached(block, readable);
      if cachePtr == null {
        return false;
      }
      forall i | 0 <= i < n {
        buf[at + i] := cachePtr[offset + i];
      }
      assert buf[at..at + n] == cachePtr[offset..offset + n];
      return true;
    }

    /** Reads any range of bytes, block by block; answers(k) tells whether the k-th block can be read. */
    method ReadData(buf: array<byte>, address: nat, length: nat, answers: nat -> bool) returns (ok: bool)
      requires Valid() && buf != cache.block && length <= buf.Length
      modifies cache, cache.block, buf
      ensures Valid()
      ensures ok ==> HoldsRange(buf, View(), address, length)
      ensures forall i :: length <= i < buf.Length ==> buf[i] == old(buf[i])
      ensures (forall k :: answers(k)) ==> ok
    {
      hide Agrees, Card.ByteAt;
      ghost var card := View();
      var block, offset := Wrap(address / BLOCK_SIZE), address % BLOCK_SIZE;
      var done, k := 0, 0;
      NothingRead(buf, card, address);
      while done < length
        invariant Valid() && done <= length && k >= 0 && blocks == card.blocks && erased == card.erased
        invariant done < length ==>
                    block == Wrap((address + done) / BLOCK_SIZE) && offset == (address + done) % BLOCK_SIZE
        invariant HoldsRange(buf, card, address, done)
        invariant forall i :: length <= i < buf.Length ==> buf[i] == old(buf[i])
      {
        var toReadNow := BLOCK_SIZE - offset;
        if length - done < toReadNow {
          toReadNow := length - done;
        }
        ghost var before := buf[..];
        ok := CopyFromBlock(buf, done, toReadNow, block, offset, answers(k));
        if !ok {
          return false;
        }
        ReadFurther(before, buf, card, address, done, toReadNow);
        if done + toReadNow < length {
          BlockEnds(address, done, toReadNow);
        }
        done, k := done + toReadNow, k + 1;
        block, offset := Wrap(block as int + 1), 0;
      }
      CacheDoesNotMatter(buf, card, View(), address, length);
      return true;
    }

    /** Programs one block. */
    method ProgramBlockFromBuffer(block: uint32, data: array<byte>, answer: Answer<Block>) returns (ok: bool)
      requires Valid() && data.Length == BLOCK_SIZE
      modifies this, cache
      ensures Valid() && ok == answer.Done?
      ensures View() == Step(old(View()), Program(block, old(data[..]), answer))
    {
      CoherentKept(View(), Program(block, data[..], answer));
      if answer.NotSelected? {
        return false;
      }
      cache.Evict(block);
      blocks := blocks[block := if answer.Done? then data[..] else answer.left];
      erased := erased - {block};
      return answer.Done?;
    }

    /** Erases a sector. */
    method EraseSectorFromBlock(block: uint32, remains: map<uint32, Block>, selected: bool, done: bool)
      returns (ok: bool)
      requires Valid() && ValidOperation(Erase(block, remains, selected))
      modifies this, cache
      ensures Valid() && ok == (selected && done)
      ensures View() == Step(old(View()), Erase(block, remains, selected))
    {
      CoherentKept(View(), Erase(block, remains, selected));
      if !selected {
        return false;
      }
      cache.Evict(block);
      blocks := blocks + remains;
      erased := erased + remains.Keys;
      return done;
    }

    /** The read handler of the filesystem. */
    method SpiRead(sector: uint32, off: nat, buf: array<byte>, size: nat, answers: nat -> bool) returns (ok: bool)
      requires Valid() && buf != cache.block && size <= buf.Length && off % BLOCK_SIZE == 0
      modifies cache, cache.block, buf
      ensures Valid() && ((forall k :: answers(k)) ==> ok)
      ensures ok ==> HoldsRange(buf, View(), sector * SECTOR_SIZE + off, size)
    {
      ok := ReadData(buf, sector * SECTOR_SIZE + off, size, answers);
    }

    /** The program handler of the filesystem. */
    method SpiWrite(sector: uint32, off: nat, data: array<byte>, size: nat, answer: Answer<Block>) returns (ok: bool)
      requires Valid() && size == data.Length == BLOCK_SIZE && off % BLOCK_SIZE == 0
      modifies this, cache
      ensures Valid() && ok == answer.Done?
      ensures ok ==> HoldsRange(data, View(), sector * SECTOR_SIZE + off, size)
    {
      var block := Wrap(Wrap(sector * SECTORS_IN_BLOCK) + off / BLOCK_SIZE);
      ok := ProgramBlockFromBuffer(block, data, answer);
      if ok {
        ProgrammedRange(data, View(), sector, off);
      }
    }
  }

  /** A block that was programmed is the range of addresses that begins where it is read from. */
  lemma ProgrammedRange(data: array<byte>, card: Card, sector: uint32, off: nat)
    requires data.Length == BLOCK_SIZE && off % BLOCK_SIZE == 0
    requires card.Content(Wrap(Wrap(sector * SECTORS_IN_BLOCK) + off / BLOCK_SIZE)) == data[..]
    ensures HoldsRange(data, card, sector * SECTOR_SIZE + off, BLOCK_SIZE)
  {
    AddressesAgree(sector, off);
    var start := sector * SECTOR_SIZE + off;
    forall i | 0 <= i < BLOCK_SIZE
      ensures data[i] == card.ByteAt(start + i)
    {
      InBlock(start, i);
    }
  }

  /** The buffer begins with the bytes of a range of the card, apart from erased blocks. */
  ghost predicate HoldsRange(buf: array<byte>, card: Card, address: nat, length: nat)
    requires length <= buf.Length
    reads buf
  {
    Agrees(buf[..], card, address, length)
  }

  ghost predicate Agrees(s: seq<byte>, card: Card, address: nat, length: nat)
    requires length <= |s|
  {
    forall i :: 0 <= i < length && Wrap((address + i) / BLOCK_SIZE) !in card.erased ==>
      s[i] == card.ByteAt(address + i)
  }

  lemma NothingRead(buf: array<byte>, card: Card, address: nat)
    ensures HoldsRange(buf, card, address, 0)
  {
  }

  lemma CacheDoesNotMatter(buf: array<byte>, card: Card, card': Card, address: nat, length: nat)
    requires length <= buf.Length && HoldsRange(buf, card, address, length)
    requires card.blocks == card'.blocks && card.erased == card'.erased
    ensures HoldsRange(buf, card', address, length)
  {
    assert forall a :: card.ByteAt(a) == card'.ByteAt(a);
  }

  lemma InBlock(address: nat, i: nat)
    requires address % BLOCK_SIZE + i < BLOCK_SIZE
    ensures (address + i) / BLOCK_SIZE == address / BLOCK_SIZE && (address + i) % BLOCK_SIZE == address % BLOCK_SIZE + i
  {
  }

  lemma BlockEnds(address: nat, done: nat, n: nat)
    requires (address + done) % BLOCK_SIZE + n == BLOCK_SIZE
    ensures (address + (done + n)) % BLOCK_SIZE == 0
    ensures Wrap((address + (done + n)) / BLOCK_SIZE) == Wrap(Wrap((address + done) / BLOCK_SIZE) + 1)
  {
    var q := (address + done) / BLOCK_SIZE;
    assert address + (done + n) == BLOCK_SIZE * (q + 1);
    WrapSum(q, 1);
  }

  lemma ReadFurther(before: seq<byte>, buf: array<byte>, card: Card, address: nat, done: nat, n: nat)
    requires |before| == buf.Length && done + n <= buf.Length && Agrees(before, card, address, done)
    requires (address + done) % BLOCK_SIZE + n <= BLOCK_SIZE
    requires forall i :: 0 <= i < buf.Length && !(done <= i < done + n) ==> buf[i] == before[i]
    requires var (b, offset) := (Wrap((address + done) / BLOCK_SIZE), (address + done) % BLOCK_SIZE);
             b !in card.erased ==> buf[done..done + n] == card.Content(b)[offset..offset + n]
    ensures HoldsRange(buf, card, address, done + n)
  {
    hide Wrap;
    var b, offset := Wrap((address + done) / BLOCK_SIZE), (address + done) % BLOCK_SIZE;
    forall i | done <= i < done + n && Wrap((address + i) / BLOCK_SIZE) !in card.erased
      ensures buf[i] == card.ByteAt(address + i)
    {
      InBlock(address + done, i - done);
      assert buf[i] == buf[done..done + n][i - done];
    }
  }
}
