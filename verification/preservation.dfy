/** The hierarchy invariant is kept by every access, so it holds after any
    sequence of accesses from the initial state: every set within its
    associativity with distinct tags, misses never above references, an
    absent level never counted, and every L2 miss charged the memory
    latency. Also the LRU replacement seen from a level: a miss on a full
    set evicts exactly its least recently used block. */
module Preservation {
  import opened Bits
  import opened Address
  import opened LruSet
  import opened Hierarchy
  import opened Properties

  lemma L1LevelOk(cfg: Config, kind: L1Kind)
    requires ValidConfig(cfg)
    ensures LevelOk(cfg, L1Level(cfg, kind))
  {
    match kind
    case Instruction =>
    case Data =>
  }

  lemma InvariantL1(cfg: Config, h: State, kind: L1Kind)
    requires ValidConfig(cfg) && Invariant(cfg, h)
    ensures LevelOk(cfg, L1Level(cfg, kind))
    ensures CacheOk(cfg, L1Level(cfg, kind), L1Cache(h, kind))
  {
    match kind
    case Instruction =>
    case Data =>
  }

  lemma InvalidateLevelKeepsOk(cfg: Config, lc: Level, c: Cache, addr: Word)
    requires cfg.blockSize >= 1 && LevelOk(cfg, lc) && CacheOk(cfg, lc, c)
    ensures CacheOk(cfg, lc, InvalidateLevel(cfg, lc, c, addr))
  {
    if Present(lc) {
      var f := FieldsOf(cfg, lc, addr);
      InvalidateKeepsWellFormed(c.sets[f.index], lc.assoc, TagLimit(cfg, lc), f.tag);
    }
  }

  /** The tag of any address fits the tag bound of a valid level. */
  lemma TagFits(cfg: Config, lc: Level, addr: Word)
    requires cfg.blockSize >= 1 && Present(lc) && LevelOk(cfg, lc)
    ensures FieldsOf(cfg, lc, addr).tag < TagLimit(cfg, lc)
  {
    DecodeTagBound(addr, OffsetBits(cfg), IndexBits(lc));
  }

  /** An L2 hit keeps the L2 valid: promotion keeps the set well formed. */
  lemma L2HitKeepsOk(cfg: Config, h: State, addr: Word)
    requires ValidConfig(cfg) && Shaped(cfg, h) && Present(cfg.l2) && CacheOk(cfg, cfg.l2, h.l2)
    requires var f := FieldsOf(cfg, cfg.l2, addr); HasTag(h.l2.sets[f.index], f.tag)
    ensures CacheOk(cfg, cfg.l2, L2Access(cfg, h, addr).next.l2)
  {
    var lc := cfg.l2;
    var f := FieldsOf(cfg, lc, addr);
    var s := h.l2.sets[f.index];
    var lim := TagLimit(cfg, lc);
    assert WellFormed(s, lc.assoc, lim);
    var i := Find(s, f.tag).value;
    PromoteKeepsWellFormed(s, lc.assoc, lim, i);
    var c' := L2Access(cfg, h, addr).next.l2;
    assert c' == h.l2.(refs := h.l2.refs + 1, sets := h.l2.sets[f.index := Promote(s, i)]);
    CacheOkAfterUpdate(cfg, lc, h.l2, c', f.index, Promote(s, i));
  }

  /** An L2 miss keeps the L2 valid: the new tag was absent and fits the
      tag bound, so inserting it keeps the set well formed. */
  lemma L2MissKeepsOk(cfg: Config, h: State, addr: Word)
    requires ValidConfig(cfg) && Shaped(cfg, h) && Present(cfg.l2) && CacheOk(cfg, cfg.l2, h.l2)
    requires var f := FieldsOf(cfg, cfg.l2, addr); !HasTag(h.l2.sets[f.index], f.tag)
    ensures CacheOk(cfg, cfg.l2, L2Access(cfg, h, addr).next.l2)
  {
    var lc := cfg.l2;
    var f := FieldsOf(cfg, lc, addr);
    var s := h.l2.sets[f.index];
    var lim := TagLimit(cfg, lc);
    assert WellFormed(s, lc.assoc, lim);
    TagFits(cfg, lc, addr);
    InsertKeepsWellFormed(s, lc.assoc, lim, NewBlock(f.tag));
    var c' := L2Access(cfg, h, addr).next.l2;
    assert c'.sets == h.l2.sets[f.index := Insert(s, lc.assoc, NewBlock(f.tag))];
    CacheOkAfterUpdate(cfg, lc, h.l2, c', f.index, Insert(s, lc.assoc, NewBlock(f.tag)));
  }

  /** An L2 access keeps an L1 cache valid: it leaves it alone or, on an
      inclusion eviction, removes one block from it. */
  lemma L2AccessKeepsL1Ok(cfg: Config, h: State, kind: L1Kind, addr: Word)
    requires ValidConfig(cfg) && Shaped(cfg, h)
    requires CacheOk(cfg, L1Level(cfg, kind), L1Cache(h, kind))
    ensures CacheOk(cfg, L1Level(cfg, kind), L1Cache(L2Access(cfg, h, addr).next, kind))
  {
    L1LevelOk(cfg, kind);
    if Present(cfg.l2) {
      var f := FieldsOf(cfg, cfg.l2, addr);
      var s := h.l2.sets[f.index];
      if !HasTag(s, f.tag) && |s| == cfg.l2.assoc && cfg.inclusive {
        var a := EvictedAddress(cfg, s[0].tag, f.index);
        InvalidateLevelKeepsOk(cfg, L1Level(cfg, kind), L1Cache(h, kind), a);
        match kind
        case Instruction =>
        case Data =>
      } else {
        match kind
        case Instruction =>
        case Data =>
      }
    }
  }

  /** The L2 penalties stay its misses times the memory latency. */
  lemma L2AccessKeepsPenalties(cfg: Config, h: State, addr: Word)
    requires ValidConfig(cfg) && Shaped(cfg, h)
    requires h.l2.penalties == h.l2.misses * cfg.memSpeed
    ensures var c' := L2Access(cfg, h, addr).next.l2;
            c'.penalties == c'.misses * cfg.memSpeed
  {
    if Present(cfg.l2) {
      var f := FieldsOf(cfg, cfg.l2, addr);
      if HasTag(h.l2.sets[f.index], f.tag) {
        L2Hit(cfg, h, addr);
      } else {
        L2Miss(cfg, h, addr);
        MissPenalty(h.l2.misses, cfg.memSpeed);
      }
    }
  }

  lemma MissPenalty(m: nat, speed: nat)
    ensures (m + 1) * speed == m * speed + speed
  {
  }

  /** Every L2 access keeps the invariant. */
  lemma L2PreservesInvariant(cfg: Config, h: State, addr: Word)
    requires ValidConfig(cfg) && Invariant(cfg, h)
    ensures Invariant(cfg, L2Access(cfg, h, addr).next)
  {
    if Present(cfg.l2) {
      var f := FieldsOf(cfg, cfg.l2, addr);
      if HasTag(h.l2.sets[f.index], f.tag) {
        L2HitKeepsOk(cfg, h, addr);
      } else {
        L2MissKeepsOk(cfg, h, addr);
      }
    }
    InvariantL1(cfg, h, Instruction);
    InvariantL1(cfg, h, Data);
    L2AccessKeepsL1Ok(cfg, h, Instruction, addr);
    L2AccessKeepsL1Ok(cfg, h, Data, addr);
    L2AccessKeepsPenalties(cfg, h, addr);
    InvariantOfParts(cfg, L2Access(cfg, h, addr).next, Instruction);
  }

  /** The invariant, assembled from one L1 cache, the other and the L2. */
  lemma InvariantOfParts(cfg: Config, h: State, kind: L1Kind)
    requires ValidConfig(cfg)
    requires CacheOk(cfg, L1Level(cfg, kind), L1Cache(h, kind))
    requires CacheOk(cfg, L1Level(cfg, Other(kind)), L1Cache(h, Other(kind)))
    requires CacheOk(cfg, cfg.l2, h.l2) && h.l2.penalties == h.l2.misses * cfg.memSpeed
    ensures Invariant(cfg, h)
  {
    match kind
    case Instruction =>
    case Data =>
  }

  /** An L1 hit keeps its cache valid: promotion keeps the set well formed. */
  lemma L1HitKeepsOk(cfg: Config, h: State, kind: L1Kind, addr: Word)
    requires ValidConfig(cfg) && Shaped(cfg, h) && Present(L1Level(cfg, kind))
    requires LevelOk(cfg, L1Level(cfg, kind)) && CacheOk(cfg, L1Level(cfg, kind), L1Cache(h, kind))
    requires var f := FieldsOf(cfg, L1Level(cfg, kind), addr);
             HasTag(L1Cache(h, kind).sets[f.index], f.tag)
    ensures CacheOk(cfg, L1Level(cfg, kind), L1Cache(L1Access(cfg, h, kind, addr).next, kind))
  {
    var lc, c := L1Level(cfg, kind), L1Cache(h, kind);
    var f := FieldsOf(cfg, lc, addr);
    var s := c.sets[f.index];
    var i := Find(s, f.tag).value;
    assert WellFormed(s, lc.assoc, TagLimit(cfg, lc));
    PromoteKeepsWellFormed(s, lc.assoc, TagLimit(cfg, lc), i);
    var c' := c.(refs := c.refs + 1, sets := c.sets[f.index := Promote(s, i)]);
    assert L1Cache(L1Access(cfg, h, kind, addr).next, kind) == c' by {
      match kind
      case Instruction =>
      case Data =>
    }
    CacheOkAfterUpdate(cfg, lc, c, c', f.index, Promote(s, i));
  }

  /** An L1 hit keeps the invariant. */
  lemma L1HitKeepsInvariant(cfg: Config, h: State, kind: L1Kind, addr: Word)
    requires ValidConfig(cfg) && Invariant(cfg, h) && Present(L1Level(cfg, kind))
    requires var f := FieldsOf(cfg, L1Level(cfg, kind), addr);
             HasTag(L1Cache(h, kind).sets[f.index], f.tag)
    ensures Invariant(cfg, L1Access(cfg, h, kind, addr).next)
  {
    InvariantL1(cfg, h, kind);
    InvariantL1(cfg, h, Other(kind));
    L1HitKeepsOk(cfg, h, kind, addr);
    L1Hit(cfg, h, kind, addr);
    InvariantOfParts(cfg, L1Access(cfg, h, kind, addr).next, kind);
  }

  /** Replacing one set of a valid cache by a well-formed set, with
      misses still not above references, keeps the cache valid. */
  lemma CacheOkAfterUpdate(cfg: Config, lc: Level, m: Cache, c: Cache, j: nat, s: CacheSet)
    requires cfg.blockSize >= 1 && LevelOk(cfg, lc) && Present(lc)
    requires CacheOk(cfg, lc, m) && j < |m.sets|
    requires WellFormed(s, lc.assoc, TagLimit(cfg, lc))
    requires c.sets == m.sets[j := s] && c.misses <= c.refs
    ensures CacheOk(cfg, lc, c)
  {
  }

  /** An L2 access removes blocks from an L1 cache at most. */
  lemma L2OnlyRemovesL1(cfg: Config, h: State, kind: L1Kind, addr: Word)
    requires ValidConfig(cfg) && Shaped(cfg, h)
    ensures OnlyRemoves(L1Cache(h, kind), L1Cache(L2Access(cfg, h, addr).next, kind))
  {
    match kind
    case Instruction =>
    case Data =>
  }

  /** An L1 miss keeps the invariant: the L2 access keeps it, and the
      missing tag, absent before, is still absent after the L2 access
      (which only removes L1 blocks), so it can be inserted. */
  lemma L1MissKeepsInvariant(cfg: Config, h: State, kind: L1Kind, addr: Word)
    requires ValidConfig(cfg) && Invariant(cfg, h) && Present(L1Level(cfg, kind))
    requires var f := FieldsOf(cfg, L1Level(cfg, kind), addr);
             !HasTag(L1Cache(h, kind).sets[f.index], f.tag)
    ensures Invariant(cfg, L1Access(cfg, h, kind, addr).next)
  {
    var lc, c := L1Level(cfg, kind), L1Cache(h, kind);
    var f := FieldsOf(cfg, lc, addr);
    InvariantL1(cfg, h, kind);
    L1Miss(cfg, h, kind, addr);
    L2PreservesInvariant(cfg, h, addr);
    var below := L2Access(cfg, h, addr);
    InvariantL1(cfg, below.next, kind);
    InvariantL1(cfg, below.next, Other(kind));
    var m := L1Cache(below.next, kind);
    L2OnlyRemovesL1(cfg, h, kind, addr);
    assert !HasTag(m.sets[f.index], f.tag);
    TagFits(cfg, lc, addr);
    var s' := Insert(m.sets[f.index], lc.assoc, NewBlock(f.tag));
    InsertKeepsWellFormed(m.sets[f.index], lc.assoc, TagLimit(cfg, lc), NewBlock(f.tag));
    var h' := L1Access(cfg, h, kind, addr).next;
    CacheOkAfterUpdate(cfg, lc, m, L1Cache(h', kind), f.index, s');
    InvariantOfParts(cfg, h', kind);
  }

  /** Every I$ or D$ access keeps the invariant. */
  lemma L1PreservesInvariant(cfg: Config, h: State, kind: L1Kind, addr: Word)
    requires ValidConfig(cfg) && Invariant(cfg, h)
    ensures Invariant(cfg, L1Access(cfg, h, kind, addr).next)
  {
    var lc := L1Level(cfg, kind);
    if !Present(lc) {
      L1Bypass(cfg, h, kind, addr);
      L2PreservesInvariant(cfg, h, addr);
    } else {
      InvariantL1(cfg, h, kind);
      var f := FieldsOf(cfg, lc, addr);
      if HasTag(L1Cache(h, kind).sets[f.index], f.tag) {
        L1HitKeepsInvariant(cfg, h, kind, addr);
      } else {
        L1MissKeepsInvariant(cfg, h, kind, addr);
      }
    }
  }

  /** LRU replacement in the L2: after a miss the set holds the new tag
      and the old tags, less the front (least recently used) tag exactly
      when the set was full, and stays within its associativity. */
  lemma L2MissEvictsLeastRecent(cfg: Config, h: State, addr: Word)
    requires ValidConfig(cfg) && Invariant(cfg, h) && Present(cfg.l2)
    requires var f := FieldsOf(cfg, cfg.l2, addr); !HasTag(h.l2.sets[f.index], f.tag)
    ensures var f := FieldsOf(cfg, cfg.l2, addr);
            var s := h.l2.sets[f.index];
            var s' := L2Access(cfg, h, addr).next.l2.sets[f.index];
            && |s'| <= cfg.l2.assoc
            && DistinctTags(s')
            && forall t :: HasTag(s', t) <==> t == f.tag || (HasTag(s, t) && !(|s| == cfg.l2.assoc && t == s[0].tag))
  {
    var f := FieldsOf(cfg, cfg.l2, addr);
    var s := h.l2.sets[f.index];
    assert WellFormed(s, cfg.l2.assoc, TagLimit(cfg, cfg.l2));
    InsertTags(s, cfg.l2.assoc, NewBlock(f.tag));
    L2PreservesInvariant(cfg, h, addr);
  }

  /** LRU replacement in an L1 cache: after a miss its set holds the new
      tag and the tags the L2 access left there, less the front tag
      exactly when that set was full, and stays within its associativity. */
  lemma L1MissEvictsLeastRecent(cfg: Config, h: State, kind: L1Kind, addr: Word)
    requires ValidConfig(cfg) && Invariant(cfg, h) && Present(L1Level(cfg, kind))
    requires var f := FieldsOf(cfg, L1Level(cfg, kind), addr);
             !HasTag(L1Cache(h, kind).sets[f.index], f.tag)
    ensures var lc := L1Level(cfg, kind);
            var f := FieldsOf(cfg, lc, addr);
            var m := L1Cache(L2Access(cfg, h, addr).next, kind).sets[f.index];
            var s' := L1Cache(L1Access(cfg, h, kind, addr).next, kind).sets[f.index];
            && |s'| <= lc.assoc
            && DistinctTags(s')
            && !HasTag(m, f.tag)
            && forall t :: HasTag(s', t) <==> t == f.tag || (HasTag(m, t) && !(|m| == lc.assoc && t == m[0].tag))
  {
    var lc := L1Level(cfg, kind);
    var f := FieldsOf(cfg, lc, addr);
    L1Miss(cfg, h, kind, addr);
    L2PreservesInvariant(cfg, h, addr);
    var below := L2Access(cfg, h, addr);
    InvariantL1(cfg, below.next, kind);
    var m := L1Cache(below.next, kind).sets[f.index];
    assert WellFormed(m, lc.assoc, TagLimit(cfg, lc));
    assert OnlyRemoves(L1Cache(h, kind), L1Cache(below.next, kind)) by {
      match kind
      case Instruction =>
      case Data =>
    }
    InsertTags(m, lc.assoc, NewBlock(f.tag));
    L1PreservesInvariant(cfg, h, kind, addr);
    InvariantL1(cfg, L1Access(cfg, h, kind, addr).next, kind);
  }

  /** One reference of a trace: an instruction fetch or a data access. */
  datatype Ref = Ref(kind: L1Kind, addr: Word)

  /** The hierarchy after a trace of references, processed in order. */
  function Run(cfg: Config, h: State, trace: seq<Ref>): (h': State)
    requires ValidConfig(cfg) && Shaped(cfg, h)
    ensures Shaped(cfg, h')
    decreases |trace|
  {
    if |trace| == 0 then h
    else Run(cfg, L1Access(cfg, h, trace[0].kind, trace[0].addr).next, trace[1..])
  }

  lemma {:induction false} RunKeepsInvariant(cfg: Config, h: State, trace: seq<Ref>)
    requires ValidConfig(cfg) && Invariant(cfg, h)
    ensures Invariant(cfg, Run(cfg, h, trace))
    decreases |trace|
  {
    if |trace| > 0 {
      L1PreservesInvariant(cfg, h, trace[0].kind, trace[0].addr);
      RunKeepsInvariant(cfg, L1Access(cfg, h, trace[0].kind, trace[0].addr).next, trace[1..]);
    }
  }

  /** After any trace from the initial state, at every level misses never
      exceed references, an absent level has counted nothing, the L2
      penalties are its misses times the memory latency, and every set is
      within its associativity with distinct tags. */
  lemma CountersAfterAnyTrace(cfg: Config, trace: seq<Ref>)
    requires ValidConfig(cfg)
    ensures var h := Run(cfg, Init(cfg), trace);
            && h.icache.misses <= h.icache.refs
            && h.dcache.misses <= h.dcache.refs
            && h.l2.misses <= h.l2.refs
            && (!Present(cfg.icache) ==> h.icache.refs == 0 && h.icache.penalties == 0)
            && (!Present(cfg.dcache) ==> h.dcache.refs == 0 && h.dcache.penalties == 0)
            && (!Present(cfg.l2) ==> h.l2.refs == 0 && h.l2.penalties == 0)
            && h.l2.penalties == h.l2.misses * cfg.memSpeed
            && (forall j :: 0 <= j < |h.l2.sets| ==>
                  |h.l2.sets[j]| <= cfg.l2.assoc && DistinctTags(h.l2.sets[j]))
  {
    RunKeepsInvariant(cfg, Init(cfg), trace);
    var h := Run(cfg, Init(cfg), trace);
    if Present(cfg.l2) {
      forall j | 0 <= j < |h.l2.sets|
        ensures |h.l2.sets[j]| <= cfg.l2.assoc && DistinctTags(h.l2.sets[j])
      {
        assert WellFormed(h.l2.sets[j], cfg.l2.assoc, TagLimit(cfg, cfg.l2));
      }
    }
  }
}
