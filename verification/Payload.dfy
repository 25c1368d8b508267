/** `shared_payload`: the block behind the pointer, its hidden reference count, the size field
    with the bit stream flag in its top bit, and the messages that share it. */
module Payload {
  import opened Arithmetic
  import opened Lists
  import opened ReleaseProtocol

  /** The send limit of the transport library, in bytes; 8 bits of each byte of twice the limit
      can be counted in 32 bits. */
  type SendLimit = n: nat | 16 * n < TWO_32

  const FLAG_MASK: Word := 0x8000_0000
  const SIZE_MASK: Word := 0x7FFF_FFFF

  // ---- The size field ----

  function SizeOfField(raw: Word): (size: Word)
    ensures size == raw % FLAG_MASK
  {
    SizeMaskIsLow(raw);
    BitAnd(raw, SIZE_MASK)
  }

  predicate FlagOfField(raw: Word) {
    BitAnd(raw, FLAG_MASK) != 0
  }

  function WithFlag(raw: Word, used: bool): Word {
    FlagOr(raw);
    SizeMaskIsLow(raw);
    if used then BitOr(raw, FLAG_MASK) else BitAnd(raw, SIZE_MASK)
  }

  lemma {:induction false} LowIsMod(x: nat, n: nat)
    ensures Low(x, n) == x % Pow2(n)
  {
    if n > 0 {
      LowIsMod(x / 2, n - 1);
      HalfDivMod(x, Pow2(n - 1));
    }
  }

  lemma {:induction false} SizeMaskIsLow(raw: Word)
    ensures BitAnd(raw, SIZE_MASK) == Low(raw, 31) == raw % FLAG_MASK
  {
    Pow2Values();
    AndLowMask(raw, 31);
    LowIsMod(raw, 31);
  }

  lemma {:induction false} OrTopBit(x: nat, k: nat)
    requires x < Pow2(k + 1)
    ensures BitOr(x, Pow2(k)) == Low(x, k) + Pow2(k)
  {
    if k > 0 {
      OrTopBit(x / 2, k - 1);
    }
  }

  lemma {:induction false} FlagOr(raw: Word)
    ensures BitOr(raw, FLAG_MASK) == raw % FLAG_MASK + FLAG_MASK
  {
    Pow2Values();
    OrTopBit(raw, 31);
    LowIsMod(raw, 31);
  }

  lemma {:induction false} FlagAnd(raw: Word)
    ensures BitAnd(raw, FLAG_MASK) == raw - raw % FLAG_MASK
  {
    Pow2Values();
    AndHighMask(raw, 31, 32);
    LowIsMod(raw, 31);
  }

  /** Size and flag share a field without disturbing each other: setting or clearing the flag
      keeps the size, and the flag reads back as set, whatever it was. A plain size has no flag. */
  lemma {:induction false} FieldsAreSeparate(raw: Word, used: bool)
    ensures SizeOfField(WithFlag(raw, used)) == SizeOfField(raw)
    ensures FlagOfField(WithFlag(raw, used)) == used
    ensures WithFlag(raw, FlagOfField(raw)) == raw
    ensures FlagOfField(raw) <==> raw > SIZE_MASK
    ensures raw <= SIZE_MASK ==> SizeOfField(raw) == raw
  {
    hide BitAnd, BitOr, Low;
    var low := raw % FLAG_MASK;
    FlagOr(raw);
    FlagAnd(raw);
    SizeMaskIsLow(raw);
    assert WithFlag(raw, used) == if used then low + FLAG_MASK else low;
    DivModUnique(WithFlag(raw, used), FLAG_MASK, if used then 1 else 0, low);
    FlagAnd(WithFlag(raw, used));
    DivModUnique(raw, FLAG_MASK, if raw > SIZE_MASK then 1 else 0, if raw > SIZE_MASK then raw - FLAG_MASK else raw);
  }

  // ---- The block ----

  /** What `shared_payload::ptr` points into; `live` until it is freed. */
  class Block {
    ghost var live: bool
    var refCount: int
    var sizeField: Word
    const words: array<Word>

    /** Room for the requested size, in whole words. */
    ghost predicate Shaped()
      reads `sizeField
    {
      && 0 < SizeOfField(sizeField) && 16 * SizeOfField(sizeField) < TWO_32
      && 4 * words.Length == CeilToMultipleOf4(SizeOfField(sizeField))
    }

    /** Allocated and not freed. */
    ghost predicate Valid()
      reads this
    {
      live && 0 <= refCount <= MAX_MESSAGES && Shaped()
    }

    /** The block is in the state the release protocol says. */
    ghost predicate Mirrors(s: State)
      reads `refCount, `live
    {
      refCount == s.count && (live <==> s.frees == 0)
    }

    constructor (size: Word)
      requires 0 < size && 16 * size < TWO_32
      ensures Valid() && fresh(words) && refCount == 0 && sizeField == size
    {
      FieldsAreSeparate(size, false);
      live := true;
      refCount := 0;
      sizeField := size;
      words := new Word[CeilToMultipleOf4(size) / 4];
    }

    /** `size()`. */
    function Size(): Word
      requires Valid()
      reads this
    {
      SizeOfField(sizeField)
    }

    /** `word_ceiled_size()`. */
    function WordCeiledSize(): (r: Word)
      requires Valid()
      reads this
      ensures r == 4 * words.Length && Size() <= r < Size() + 4
    {
      CeilToMultipleOf4(Size())
    }

    /** `used_bit_stream()`. */
    predicate UsedBitStream()
      requires Valid()
      reads this
    {
      FlagOfField(sizeField)
    }

    /** `set_used_bit_stream(used)`. */
    method SetUsedBitStream(used: bool)
      requires Valid()
      modifies `sizeField
      ensures Valid() && Size() == old(Size()) && UsedBitStream() == used
    {
      FieldsAreSeparate(sizeField, used);
      sizeField := WithFlag(sizeField, used);
    }

    /** `force_deallocate(payload)`: only a live block may be freed. */
    method ForceDeallocate()
      requires Valid()
      modifies `live
      ensures !live
    {
      live := false;
    }

    /** `increase_ref_count()`. */
    method IncreaseRefCount()
      requires Valid() && refCount < MAX_MESSAGES
      modifies `refCount
      ensures Valid() && refCount == old(refCount) + 1 == Raised(old(refCount))
    {
      hide SizeOfField, CeilToMultipleOf4;
      refCount := Raised(refCount);
    }

    /** The `fetch_sub` of a release, with what it returns. */
    method FetchSub() returns (saw: int)
      requires Valid() && refCount > 0
      modifies `refCount
      ensures Valid() && saw == old(refCount)
      ensures refCount == old(refCount) - 1 == Lowered(old(refCount))
    {
      hide SizeOfField, CeilToMultipleOf4;
      saw := refCount;
      refCount := Lowered(refCount);
    }

    /** What follows the `fetch_sub` that returned `saw`: the last one deallocates the block, the
        others do not look at it any more. */
    method FinishRelease(saw: int)
      requires saw == 1 ==> Valid()
      modifies `live
      ensures live <==> old(live) && saw != 1
    {
      if saw == 1 {
        ForceDeallocate();
      }
    }

    /** `decrease_ref_count_and_deallocate_if_zero()`: one after the other. */
    method DecreaseRefCountAndDeallocateIfZero()
      requires Valid() && refCount > 0
      modifies `refCount, `live
      ensures refCount == old(refCount) - 1 == Lowered(old(refCount))
      ensures live <==> refCount > 0
      ensures live ==> Valid()
    {
      var saw := FetchSub();
      FinishRelease(saw);
    }
  }

  /** `shared_payload::allocate(size)`: no block for a size of zero or above the limit, or when
      there is no memory. */
  method Allocate(limit: SendLimit, size: Word, hasMemory: bool) returns (payload: Block?)
    ensures payload != null <==> 0 < size <= limit && hasMemory
    ensures payload != null ==> fresh(payload) && fresh(payload.words) && payload.Valid()
    ensures payload != null ==> payload.refCount == 0 && payload.Size() == size && !payload.UsedBitStream()
  {
    payload := null;
    if 0 < size && size <= limit {
      if hasMemory {
        FieldsAreSeparate(size, false);
        payload := new Block(size);
      }
    }
  }

  // ---- Messages ----

  /** A message of the transport library, as far as the payload is concerned. */
  class Message {
    var data: Block?
    var cbSize: int
    var releasesPayload: bool
    var conn: nat

    constructor ()
      ensures data == null && !releasesPayload
    {
      data, cbSize, releasesPayload, conn := null, 0, false, 0;
    }

    /** It carries the payload, cut to `size` bytes, and gives its reference back when released. */
    ghost predicate Carries(payload: Block, size: int)
      reads this
    {
      data == payload && cbSize == size && releasesPayload
    }
  }

  /** Bytes sent of a payload of `logical` bytes. */
  function SentSize(usedBitStream: bool, logical: int): int
    requires -0x8000_0000 <= logical < 0x8000_0000
  {
    if usedBitStream then CeilToMultipleOf4Int(logical) else logical
  }

  /** A message never carries more than the block holds, nor less than was asked for; with the
      flag set it carries whole words, and the fewest that are enough. */
  lemma {:induction false} SentSizeFits(payload: Block, logical: nat)
    requires payload.Valid() && logical <= payload.Size()
    ensures logical <= SentSize(payload.UsedBitStream(), logical) <= payload.WordCeiledSize()
    ensures SentSize(payload.UsedBitStream(), logical) < logical + 4
    ensures payload.UsedBitStream() ==> SentSize(payload.UsedBitStream(), logical) % 4 == 0
    ensures !payload.UsedBitStream() ==> SentSize(payload.UsedBitStream(), logical) == logical
  {
    hide SizeOfField, FlagOfField, CeilToMultipleOf4, CeilToMultipleOf4Int;
  }

  /** What is sent of any logical length: the length itself, or with the flag the least multiple of 4
      that is not smaller, unless that is no `int` any more. */
  lemma {:induction false} SentSizeIs(logical: int, size: int)
    requires -0x8000_0000 <= logical <= 0x8000_0000 - 4
    ensures SentSize(false, logical) == logical
    ensures SentSize(true, logical) == size <==> size % 4 == 0 && logical <= size < logical + 4
  {
    hide CeilToMultipleOf4Int;
  }

  /** `add_to_message(msg, logical_bytes_length)`: one more reference, owned by the message. */
  method AddToMessage(payload: Block, msg: Message, logicalBytesLength: int)
    requires payload.Valid() && payload.refCount < MAX_MESSAGES
    requires -0x8000_0000 <= logicalBytesLength < 0x8000_0000
    modifies payload`refCount, msg`data, msg`cbSize, msg`releasesPayload
    ensures payload.Valid() && payload.refCount == old(payload.refCount) + 1
    ensures msg.Carries(payload, SentSize(payload.UsedBitStream(), logicalBytesLength))
  {
    var length := logicalBytesLength;
    if payload.UsedBitStream() {
      length := CeilToMultipleOf4Int(length);
    }
    payload.IncreaseRefCount();
    msg.data := payload;
    msg.cbSize := length;
    msg.releasesPayload := true;
  }

  /** `multicast`: a reference for each connection's message before anything is sent; without
      connections the payload is freed. The result is what is handed to `SendMessages`. */
  method Multicast(connections: seq<nat>, payload: Block, logicalBytesLength: int) returns (messages: seq<Message>)
    requires payload.Valid() && payload.refCount == 0
    requires |connections| <= MAX_MESSAGES && -0x8000_0000 <= logicalBytesLength < 0x8000_0000
    modifies payload`refCount, payload`live
    ensures |messages| == |connections|
    ensures payload.Shaped() && payload.Mirrors(Multicasted(|connections|))
    ensures forall i | 0 <= i < |messages| ::
              && fresh(messages[i]) && messages[i].conn == connections[i]
              && messages[i].Carries(payload, SentSize(FlagOfField(payload.sizeField), logicalBytesLength))
    ensures forall i, j | 0 <= i < j < |messages| :: messages[i] != messages[j]
  {
    messages := [];
    if |connections| == 0 {
      payload.ForceDeallocate();
      return;
    }
    for i := 0 to |connections|
      invariant payload.Valid() && payload.refCount == i == |messages|
      invariant forall k | 0 <= k < i ::
                  && fresh(messages[k]) && messages[k].conn == connections[k]
                  && messages[k].Carries(payload, SentSize(FlagOfField(payload.sizeField), logicalBytesLength))
      invariant forall k, l | 0 <= k < l < i :: messages[k] != messages[l]
    {
      var msg := new Message();
      AddToMessage(payload, msg, logicalBytesLength);
      msg.conn := connections[i];
      messages := messages + [msg];
    }
  }

  /** What the transport library does with a message it is done with: its callback drops the
      reference of the payload the message carries. In the protocol these are the two steps of
      message `m`; that the block is still there follows from the protocol. */
  method ReleaseMessage(msg: Message, ghost s: State, ghost m: nat) returns (ghost t: State)
    requires msg.data != null && msg.releasesPayload && msg.data.Shaped() && msg.data.Mirrors(s)
    requires Invariant(s) && Enabled(s, FetchSub(m))
    modifies msg.data`refCount, msg.data`live
    ensures Enabled(Apply(s, FetchSub(m)), Finish(m)) && t == Apply(Apply(s, FetchSub(m)), Finish(m))
    ensures msg.data.Mirrors(t) && Invariant(t)
  {
    HolderKeepsAlive(s, m);
    CountIsSmall(s);
    msg.data.DecreaseRefCountAndDeallocateIfZero();
    FetchSubKeeps(s, m);
    t := Apply(s, FetchSub(m));
    FinishKeeps(t, m);
    t := Apply(t, Finish(m));
  }

  lemma {:induction false} CountIsSmall(s: State)
    requires Invariant(s)
    ensures 0 <= s.count <= MAX_MESSAGES
  {
  }

  /** One step of one releasing thread, on the message's payload. `saws` holds what each thread
      got from its `fetch_sub`. */
  method ReleaseStep(payload: Block, messages: seq<Message>, saws: array<int>, step: Step, ghost s: State)
    requires payload.Shaped() && payload.Mirrors(s) && Invariant(s) && s.sent && Enabled(s, step)
    requires |messages| == |s.phases| == saws.Length && SawsMatch(saws, s)
    requires forall i | 0 <= i < |messages| :: messages[i].data == payload && messages[i].releasesPayload
    modifies payload`refCount, payload`live, saws
    ensures payload.Mirrors(Apply(s, step)) && SawsMatch(saws, Apply(s, step))
  {
    match step
    case FetchSub(m) =>
      HolderKeepsAlive(s, m);
      CountIsSmall(s);
      saws[m] := messages[m].data.FetchSub();
    case Finish(m) =>
      if saws[m] == 1 {
        FreerFindsItAlive(s, m);
        CountIsSmall(s);
      }
      messages[m].data.FinishRelease(saws[m]);
    case _ =>
      assert false;
  }

  /** The threads between the two steps of a release know what they saw. */
  ghost predicate SawsMatch(saws: array<int>, s: State)
    reads saws
  {
    forall m: nat | m < saws.Length && m < |s.phases| && s.phases[m].Lowering? :: saws[m] == s.phases[m].saw
  }

  /** Releasing the messages of a multicast on the block itself, under every schedule of the
      protocol, overlapping releases included: the block follows the protocol step by step, is
      there whenever a step touches it, and is freed once all the steps are made. */
  method ReleaseAll(payload: Block, messages: seq<Message>, schedule: List<Step>)
    requires payload.Shaped() && |messages| <= MAX_MESSAGES && payload.Mirrors(Multicasted(|messages|))
    requires forall i | 0 <= i < |messages| :: messages[i].data == payload && messages[i].releasesPayload
    requires Feasible(Multicasted(|messages|), schedule)
    modifies payload`refCount, payload`live
    ensures payload.Mirrors(Run(Multicasted(|messages|), schedule))
    ensures schedule.Length() == 2 * |messages| ==> payload.refCount == 0 && !payload.live
  {
    hide Invariant, Block.Shaped, Enabled, Apply;
    var n := |messages|;
    ghost var s := Multicasted(n);
    ghost var steps := MulticastIsRun(n);
    var saws := new int[n];
    var rest := schedule;
    AllHolding(n);
    while rest.Cons?
      invariant payload.Shaped() && payload.Mirrors(s) && Invariant(s) && SawsMatch(saws, s)
      invariant s.sent && |s.phases| == n && fresh(saws)
      invariant Feasible(s, rest) && Run(s, rest) == Run(Multicasted(n), schedule)
      decreases rest
    {
      ReleaseStep(payload, messages, saws, rest.head, s);
      StepKeeps(s, rest.head);
      StaysSent(s, rest.head);
      s := Apply(s, rest.head);
      rest := rest.tail;
    }
    ReleasesComplete(n, schedule);
    if schedule.Length() == 2 * n {
      CompleteIsFreed(s);
    }
  }

  lemma {:induction false} StaysSent(s: State, step: Step)
    requires Enabled(s, step) && s.sent
    ensures Apply(s, step).sent && |Apply(s, step).phases| == |s.phases|
  {
  }
}
