/** The cache hierarchy: a split L1 (I$ and D$) over a unified L2 over a
    main memory of fixed latency. The C code keeps the configuration, the
    sets and the nine counters in globals and mutates them; here they are
    a `Config` and a `State`, and every access is a function from a state
    and an address to the latency and the next state. */
module Hierarchy {
  import opened Bits
  import opened Address
  import opened LruSet

  /** Geometry and timing of one cache level. Zero sets means the level
      is absent and accesses go straight to the level below. */
  datatype Level = Level(numSets: nat, assoc: nat, hitTime: nat)

  datatype Config = Config(
    blockSize: nat,
    memSpeed: nat,
    icache: Level,
    dcache: Level,
    l2: Level,
    inclusive: bool)

  /** The sets of one level with its references, misses and penalty cycles. */
  datatype Cache = Cache(sets: seq<CacheSet>, refs: nat, misses: nat, penalties: nat)

  datatype State = State(icache: Cache, dcache: Cache, l2: Cache)

  /** What an access returns: its latency in cycles and the state after it. */
  datatype Outcome = Outcome(latency: nat, next: State)

  datatype L1Kind = Instruction | Data

  predicate Present(lc: Level)
  {
    lc.numSets > 0
  }

  /** `offset_size`: the width of the block offset. */
  function OffsetBits(cfg: Config): (n: nat)
    requires cfg.blockSize >= 1
  {
    Width(cfg.blockSize)
  }

  /** `icache_index_size` and its siblings: the width of the set index. */
  function IndexBits(lc: Level): (n: nat)
    requires Present(lc)
  {
    Width(lc.numSets)
  }

  /** The number of sets of a level: every index its mask can produce.
      This is the configured count rounded up to a power of two; the C
      code allocates only the configured count (see `AllocatedAsWritten`). */
  function SetCount(lc: Level): (n: nat)
    ensures Present(lc) ==> lc.numSets <= n < 2 * lc.numSets
    ensures !Present(lc) ==> n == 0
  {
    if Present(lc) then Pow2(IndexBits(lc)) else 0
  }

  /** The C code allocates exactly `numSets` sets. */
  function AllocatedAsWritten(lc: Level): (n: nat)
  {
    lc.numSets
  }

  /** What the C code needs of a present level: a positive associativity
      (with zero, a set holding a block is never full and grows without
      bound, and with inclusion on the L2 path dereferences the null front
      pointer of an empty set) and offset plus index narrower
      than the address (the tag is `addr >> (index + offset)`, and a shift
      by 32 or more is undefined). */
  predicate LevelOk(cfg: Config, lc: Level)
    requires cfg.blockSize >= 1
  {
    Present(lc) ==> lc.assoc >= 1 && OffsetBits(cfg) + IndexBits(lc) <= 31
  }

  /** A usable configuration: a block size the logarithm is defined for,
      and every present level as `LevelOk` says. */
  predicate ValidConfig(cfg: Config)
  {
    && cfg.blockSize >= 1
    && LevelOk(cfg, cfg.icache)
    && LevelOk(cfg, cfg.dcache)
    && LevelOk(cfg, cfg.l2)
  }

  /** Offset, index and tag of `addr` under a level's geometry. The index
      always names one of the level's sets. */
  function FieldsOf(cfg: Config, lc: Level, addr: Word): (f: Fields)
    requires cfg.blockSize >= 1 && Present(lc)
    ensures f.index < SetCount(lc)
    ensures f.offset < Pow2(OffsetBits(cfg))
  {
    Decode(addr, OffsetBits(cfg), IndexBits(lc))
  }

  function L1Level(cfg: Config, kind: L1Kind): (lc: Level)
  {
    match kind
    case Instruction => cfg.icache
    case Data => cfg.dcache
  }

  function L1Cache(h: State, kind: L1Kind): (c: Cache)
  {
    match kind
    case Instruction => h.icache
    case Data => h.dcache
  }

  function WithL1(h: State, kind: L1Kind, c: Cache): (h': State)
  {
    match kind
    case Instruction => h.(icache := c)
    case Data => h.(dcache := c)
  }

  /** Every level has exactly its sets. */
  predicate Shaped(cfg: Config, h: State)
  {
    && |h.icache.sets| == SetCount(cfg.icache)
    && |h.dcache.sets| == SetCount(cfg.dcache)
    && |h.l2.sets| == SetCount(cfg.l2)
  }

  /** No counter went down. */
  predicate Grows(c: Cache, c': Cache)
  {
    c.refs <= c'.refs && c.misses <= c'.misses && c.penalties <= c'.penalties
  }

  /** c' is c with at most some blocks taken out: the same counters, the
      same number of sets, and no set holds a tag it did not hold before. */
  ghost predicate OnlyRemoves(c: Cache, c': Cache)
  {
    && c'.refs == c.refs && c'.misses == c.misses && c'.penalties == c.penalties
    && |c'.sets| == |c.sets|
    && forall j, t :: 0 <= j < |c.sets| && HasTag(c'.sets[j], t) ==> HasTag(c.sets[j], t)
  }

  /** `init_cache`: every set empty, every counter zero. */
  function Init(cfg: Config): (h: State)
    requires ValidConfig(cfg)
    ensures Invariant(cfg, h)
    ensures h.icache.refs == 0 && h.icache.misses == 0 && h.icache.penalties == 0
    ensures h.dcache.refs == 0 && h.dcache.misses == 0 && h.dcache.penalties == 0
    ensures h.l2.refs == 0 && h.l2.misses == 0 && h.l2.penalties == 0
    ensures forall j :: 0 <= j < |h.icache.sets| ==> h.icache.sets[j] == []
    ensures forall j :: 0 <= j < |h.dcache.sets| ==> h.dcache.sets[j] == []
    ensures forall j :: 0 <= j < |h.l2.sets| ==> h.l2.sets[j] == []
  {
    EmptyOk(cfg, cfg.icache);
    EmptyOk(cfg, cfg.dcache);
    EmptyOk(cfg, cfg.l2);
    State(Empty(cfg.icache), Empty(cfg.dcache), Empty(cfg.l2))
  }

  function Empty(lc: Level): (c: Cache)
    ensures |c.sets| == SetCount(lc)
    ensures forall j :: 0 <= j < |c.sets| ==> c.sets[j] == []
    ensures c.refs == 0 && c.misses == 0 && c.penalties == 0
  {
    Cache(seq(SetCount(lc), _ => []), 0, 0, 0)
  }

  /** A level with every set empty and no counts is in a valid state. */
  lemma EmptyOk(cfg: Config, lc: Level)
    requires cfg.blockSize >= 1 && LevelOk(cfg, lc)
    ensures CacheOk(cfg, lc, Empty(lc))
  {
  }

  /** `invalidate_icache` / `invalidate_dcache`: remove the block holding
      `addr` from one L1 cache, decoded under that cache's geometry. An
      absent cache has nothing to remove. Afterwards the block is gone
      from its set, no other set changed, and nothing was added. */
  function InvalidateLevel(cfg: Config, lc: Level, c: Cache, addr: Word): (c': Cache)
    requires cfg.blockSize >= 1 && |c.sets| == SetCount(lc)
    ensures OnlyRemoves(c, c')
    ensures Present(lc) ==>
              var f := FieldsOf(cfg, lc, addr);
              && c'.sets[f.index] == Invalidate(c.sets[f.index], f.tag)
              && (DistinctTags(c.sets[f.index]) ==> !HasTag(c'.sets[f.index], f.tag))
              && (forall t :: t != f.tag ==> (HasTag(c'.sets[f.index], t) <==> HasTag(c.sets[f.index], t)))
              && forall j :: 0 <= j < |c.sets| && j != f.index ==> c'.sets[j] == c.sets[j]
  {
    if !Present(lc) then c
    else
      var f := FieldsOf(cfg, lc, addr);
      c.(sets := c.sets[f.index := Invalidate(c.sets[f.index], f.tag)])
  }

  /** The address of the block an L2 eviction drops, rebuilt from its tag
      and set index as `((tag << l2_index_size) + index) << offset_size`. */
  function EvictedAddress(cfg: Config, tag: Word, index: Word): (a: Word)
    requires cfg.blockSize >= 1 && Present(cfg.l2)
  {
    BlockAddress(tag, index, OffsetBits(cfg), IndexBits(cfg.l2))
  }

  /** The inclusion step: drop the block at `addr` from both L1 caches. */
  function BackInvalidate(cfg: Config, h: State, addr: Word): (h': State)
    requires cfg.blockSize >= 1 && Shaped(cfg, h)
    ensures h'.l2 == h.l2
    ensures OnlyRemoves(h.icache, h'.icache) && OnlyRemoves(h.dcache, h'.dcache)
  {
    h.(icache := InvalidateLevel(cfg, cfg.icache, h.icache, addr),
       dcache := InvalidateLevel(cfg, cfg.dcache, h.dcache, addr))
  }

  /** `l2cache_access`. An absent L2 costs the memory latency and changes
      nothing. Otherwise the reference is counted; a hit promotes the block
      and costs the L2 hit time; a miss is counted, charged the memory
      latency, and brings the block in at the MRU end, evicting the LRU
      block of a full set; with inclusion on, that eviction first removes
      the evicted block from the I$ and the D$. */
  function L2Access(cfg: Config, h: State, addr: Word): (o: Outcome)
    requires ValidConfig(cfg) && Shaped(cfg, h)
    ensures Shaped(cfg, o.next)
    ensures OnlyRemoves(h.icache, o.next.icache) && OnlyRemoves(h.dcache, o.next.dcache)
    ensures Grows(h.l2, o.next.l2)
    ensures o.latency <= cfg.memSpeed + cfg.l2.hitTime
  {
    var lc := cfg.l2;
    if !Present(lc) then Outcome(cfg.memSpeed, h)
    else
      var c := h.l2.(refs := h.l2.refs + 1);
      var f := FieldsOf(cfg, lc, addr);
      var s := c.sets[f.index];
      match Find(s, f.tag)
      case Some(i) =>
        Outcome(lc.hitTime, h.(l2 := c.(sets := c.sets[f.index := Promote(s, i)])))
      case None =>
        var l1 :=
          if |s| == lc.assoc && cfg.inclusive
          then BackInvalidate(cfg, h, EvictedAddress(cfg, s[0].tag, f.index))
          else h;
        var c' := c.(misses := c.misses + 1,
                     penalties := c.penalties + cfg.memSpeed,
                     sets := c.sets[f.index := Insert(s, lc.assoc, NewBlock(f.tag))]);
        Outcome(cfg.memSpeed + lc.hitTime, l1.(l2 := c'))
  }

  /** `icache_access` and `dcache_access`, which differ only in the cache
      they use. An absent L1 forwards the access to the L2 and returns its
      latency. Otherwise the reference is counted; a hit promotes the block
      and costs the hit time; a miss is counted, fetched from the L2 (whose
      inclusion step may remove blocks from this very cache), charged the
      L2's latency as penalty, and brought in at the MRU end of its set,
      evicting the LRU block if the set is full. */
  function L1Access(cfg: Config, h: State, kind: L1Kind, addr: Word): (o: Outcome)
    requires ValidConfig(cfg) && Shaped(cfg, h)
    ensures Shaped(cfg, o.next)
    ensures Grows(h.icache, o.next.icache) && Grows(h.dcache, o.next.dcache)
    ensures Grows(h.l2, o.next.l2)
  {
    var lc := L1Level(cfg, kind);
    if !Present(lc) then L2Access(cfg, h, addr)
    else
      var c := L1Cache(h, kind);
      var f := FieldsOf(cfg, lc, addr);
      var s := c.sets[f.index];
      match Find(s, f.tag)
      case Some(i) =>
        Outcome(lc.hitTime, WithL1(h, kind, c.(refs := c.refs + 1, sets := c.sets[f.index := Promote(s, i)])))
      case None =>
        L1Fill(cfg, kind, addr, L2Access(cfg, h, addr))
  }

  /** The end of an L1 miss, once the L2 has answered with `below`: the
      reference and the miss are counted, the L2's latency is charged as
      penalty, and the block comes in at the MRU end of its set, evicting
      the LRU block of a full set. The C code counts the reference and the
      miss before calling the L2; the L2 access never reads or writes the
      L1 counters (`L2AccessIgnoresL1Counters`), so counting them here
      gives the same state. */
  function L1Fill(cfg: Config, kind: L1Kind, addr: Word, below: Outcome): (o: Outcome)
    requires ValidConfig(cfg) && Shaped(cfg, below.next) && Present(L1Level(cfg, kind))
    ensures Shaped(cfg, o.next)
    ensures Grows(below.next.icache, o.next.icache) && Grows(below.next.dcache, o.next.dcache)
    ensures o.next.l2 == below.next.l2
    ensures kind == Instruction ==> o.next.dcache == below.next.dcache
    ensures kind == Data ==> o.next.icache == below.next.icache
  {
    var lc := L1Level(cfg, kind);
    var f := FieldsOf(cfg, lc, addr);
    var c := L1Cache(below.next, kind);
    var c' := c.(refs := c.refs + 1, misses := c.misses + 1, penalties := c.penalties + below.latency,
                 sets := c.sets[f.index := Insert(c.sets[f.index], lc.assoc, NewBlock(f.tag))]);
    Outcome(below.latency + lc.hitTime, WithL1(below.next, kind, c'))
  }

  /** The largest tag a level can hold, plus one. */
  function TagLimit(cfg: Config, lc: Level): (n: nat)
    requires cfg.blockSize >= 1 && Present(lc) && LevelOk(cfg, lc)
  {
    Pow2(32 - OffsetBits(cfg) - IndexBits(lc))
  }

  /** What holds of a level between accesses: every set well formed, no
      more misses than references, and an absent level never touched. */
  predicate CacheOk(cfg: Config, lc: Level, c: Cache)
    requires cfg.blockSize >= 1 && LevelOk(cfg, lc)
  {
    && c.misses <= c.refs
    && if Present(lc) then
         && |c.sets| == SetCount(lc)
         && forall j :: 0 <= j < |c.sets| ==> WellFormed(c.sets[j], lc.assoc, TagLimit(cfg, lc))
       else
         c.sets == [] && c.refs == 0 && c.misses == 0 && c.penalties == 0
  }

  /** The hierarchy invariant: every level as `CacheOk` says, and every L2
      miss charged exactly the memory latency. */
  predicate Invariant(cfg: Config, h: State)
    requires ValidConfig(cfg)
  {
    && CacheOk(cfg, cfg.icache, h.icache)
    && CacheOk(cfg, cfg.dcache, h.dcache)
    && CacheOk(cfg, cfg.l2, h.l2)
    && h.l2.penalties == h.l2.misses * cfg.memSpeed
  }
}
