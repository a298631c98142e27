/** What the access functions of the hierarchy guarantee: the effect of a
    hit, of a miss and of a bypass on each level, when and how inclusion
    is enforced, and the invariant every access keeps. */
module Properties {
  import opened Bits
  import opened Address
  import opened LruSet
  import opened Hierarchy

  function Other(kind: L1Kind): (k: L1Kind)
  {
    match kind
    case Instruction => Data
    case Data => Instruction
  }

  // ---------------------------------------------------------------------
  // Geometry

  /** The sets of a level cover the configured count, and for a power of
      two they are exactly the configured count. */
  lemma SetCountCoversConfigured(lc: Level)
    requires Present(lc)
    ensures lc.numSets <= SetCount(lc)
    ensures forall k: nat :: lc.numSets == Pow2(k) ==> SetCount(lc) == lc.numSets
  {
    forall k: nat | lc.numSets == Pow2(k)
      ensures SetCount(lc) == lc.numSets
    {
      WidthOfPow2(k);
    }
  }

  /** As written, three configured sets get a two-bit index, and with
      one-byte blocks the address 3 selects set 3 of the three the C code
      allocates: one past the end of the array. */
  lemma IndexOverrunAsWritten()
    ensures var cfg := Config(1, 100, Level(3, 1, 1), Level(0, 0, 0), Level(0, 0, 0), false);
            && ValidConfig(cfg)
            && FieldsOf(cfg, cfg.icache, 3).index == 3
            && FieldsOf(cfg, cfg.icache, 3).index >= AllocatedAsWritten(cfg.icache)
  {
    var cfg := Config(1, 100, Level(3, 1, 1), Level(0, 0, 0), Level(0, 0, 0), false);
    assert Width(1) == 0;
    assert Width(3) == 2;
  }

  // ---------------------------------------------------------------------
  // Frame: the L2 path never reads the L1 counters

  /** The L2 access does the same with any L1 counters: the latency, the
      L2 and the L1 sets come out the same, and the counters pass through. */
  lemma L2AccessIgnoresL1Counters(cfg: Config, h: State, kind: L1Kind, c: Cache, addr: Word)
    requires ValidConfig(cfg) && Shaped(cfg, h)
    requires c.sets == L1Cache(h, kind).sets
    ensures var o, o' := L2Access(cfg, h, addr), L2Access(cfg, WithL1(h, kind, c), addr);
            && o'.latency == o.latency
            && o'.next.l2 == o.next.l2
            && L1Cache(o'.next, Other(kind)) == L1Cache(o.next, Other(kind))
            && L1Cache(o'.next, kind).sets == L1Cache(o.next, kind).sets
            && L1Cache(o'.next, kind).refs == c.refs
            && L1Cache(o'.next, kind).misses == c.misses
            && L1Cache(o'.next, kind).penalties == c.penalties
  {
  }

  // ---------------------------------------------------------------------
  // The L2

  /** An L2 access on a level with zero sets goes to memory: it costs the
      memory latency and changes nothing. */
  lemma L2Bypass(cfg: Config, h: State, addr: Word)
    requires ValidConfig(cfg) && Shaped(cfg, h) && !Present(cfg.l2)
    ensures L2Access(cfg, h, addr) == Outcome(cfg.memSpeed, h)
  {
  }

  /** An L2 hit costs the L2 hit time and counts one reference. The block
      moves from its position to the MRU end; the set keeps its size and
      the other blocks their order; nothing else changes. */
  lemma L2Hit(cfg: Config, h: State, addr: Word)
    requires ValidConfig(cfg) && Shaped(cfg, h) && Present(cfg.l2)
    requires var f := FieldsOf(cfg, cfg.l2, addr); HasTag(h.l2.sets[f.index], f.tag)
    ensures var f := FieldsOf(cfg, cfg.l2, addr);
            var s := h.l2.sets[f.index];
            var o := L2Access(cfg, h, addr);
            var s' := o.next.l2.sets[f.index];
            && o.latency == cfg.l2.hitTime
            && o.next.icache == h.icache && o.next.dcache == h.dcache
            && o.next.l2.refs == h.l2.refs + 1
            && o.next.l2.misses == h.l2.misses && o.next.l2.penalties == h.l2.penalties
            && |o.next.l2.sets| == |h.l2.sets|
            && (forall j :: 0 <= j < |h.l2.sets| && j != f.index ==> o.next.l2.sets[j] == h.l2.sets[j])
            && s' == Promote(s, Find(s, f.tag).value)
  {
    var f := FieldsOf(cfg, cfg.l2, addr);
    var s := h.l2.sets[f.index];
    var i := Find(s, f.tag).value;
    assert s[i].tag == f.tag;
  }

  /** An L2 miss counts one reference and one miss, adds exactly the
      memory latency to the penalties and costs the memory latency plus
      the L2 hit time. The new valid, clean block is the MRU of its set,
      which lost its front (LRU) block exactly when it was full. Only then,
      and only with inclusion on, are the L1 caches touched. */
  lemma L2Miss(cfg: Config, h: State, addr: Word)
    requires ValidConfig(cfg) && Shaped(cfg, h) && Present(cfg.l2)
    requires var f := FieldsOf(cfg, cfg.l2, addr); !HasTag(h.l2.sets[f.index], f.tag)
    ensures var f := FieldsOf(cfg, cfg.l2, addr);
            var s := h.l2.sets[f.index];
            var o := L2Access(cfg, h, addr);
            var s' := o.next.l2.sets[f.index];
            var full := |s| == cfg.l2.assoc;
            && o.latency == cfg.memSpeed + cfg.l2.hitTime
            && o.next.l2.refs == h.l2.refs + 1
            && o.next.l2.misses == h.l2.misses + 1
            && o.next.l2.penalties == h.l2.penalties + cfg.memSpeed
            && |o.next.l2.sets| == |h.l2.sets|
            && (forall j :: 0 <= j < |h.l2.sets| && j != f.index ==> o.next.l2.sets[j] == h.l2.sets[j])
            && s'[|s'| - 1] == NewBlock(f.tag)
            && (full ==> |s'| == |s| && forall j :: 0 <= j < |s| - 1 ==> s'[j] == s[j + 1])
            && (!full ==> |s'| == |s| + 1 && forall j :: 0 <= j < |s| ==> s'[j] == s[j])
            && (!(full && cfg.inclusive) ==> o.next.icache == h.icache && o.next.dcache == h.dcache)
  {
  }

  /** With inclusion off an L2 access never touches the L1 caches. */
  lemma InclusionOffLeavesL1(cfg: Config, h: State, addr: Word)
    requires ValidConfig(cfg) && Shaped(cfg, h) && !cfg.inclusive
    ensures L2Access(cfg, h, addr).next.icache == h.icache
    ensures L2Access(cfg, h, addr).next.dcache == h.dcache
  {
  }

  /** With inclusion on, an L2 miss on a full set evicts the front block,
      and in each present L1 cache the first block at the evicted block's
      address (see `EvictedAddressIsBase`) is unlinked and no longer
      resident, while the other blocks of that set keep their order and
      every other set stays as it was. */
  lemma InclusionEnforced(cfg: Config, h: State, kind: L1Kind, addr: Word)
    requires ValidConfig(cfg) && Invariant(cfg, h) && Present(cfg.l2) && cfg.inclusive
    requires Present(L1Level(cfg, kind))
    requires var f := FieldsOf(cfg, cfg.l2, addr);
             var s := h.l2.sets[f.index];
             !HasTag(s, f.tag) && |s| == cfg.l2.assoc
    ensures var f := FieldsOf(cfg, cfg.l2, addr);
            var ev := h.l2.sets[f.index][0].tag;
            var o := L2Access(cfg, h, addr);
            var lc, before, after := L1Level(cfg, kind), L1Cache(h, kind), L1Cache(o.next, kind);
            var g := FieldsOf(cfg, lc, EvictedAddress(cfg, ev, f.index));
            && !HasTag(o.next.l2.sets[f.index], ev)
            && !HasTag(after.sets[g.index], g.tag)
            && (!HasTag(before.sets[g.index], g.tag) ==> after.sets[g.index] == before.sets[g.index])
            && (HasTag(before.sets[g.index], g.tag) ==>
                  var i := Find(before.sets[g.index], g.tag).value;
                  after.sets[g.index] == before.sets[g.index][..i] + before.sets[g.index][i + 1..])
            && (forall t :: t != g.tag ==> (HasTag(after.sets[g.index], t) <==> HasTag(before.sets[g.index], t)))
            && (forall j :: 0 <= j < |before.sets| && j != g.index ==> after.sets[j] == before.sets[j])
  {
    var f := FieldsOf(cfg, cfg.l2, addr);
    var s := h.l2.sets[f.index];
    var ev := s[0].tag;
    var a := EvictedAddress(cfg, ev, f.index);
    InsertTags(s, cfg.l2.assoc, NewBlock(f.tag));
    var lc := L1Level(cfg, kind);
    var g := FieldsOf(cfg, lc, a);
    assert WellFormed(L1Cache(h, kind).sets[g.index], lc.assoc, TagLimit(cfg, lc));
    var o := L2Access(cfg, h, addr);
    assert Find(s, f.tag).None?;
    assert o.next.icache == InvalidateLevel(cfg, cfg.icache, h.icache, a);
    assert o.next.dcache == InvalidateLevel(cfg, cfg.dcache, h.dcache, a);
    assert L1Cache(o.next, kind) == InvalidateLevel(cfg, lc, L1Cache(h, kind), a) by {
      match kind
      case Instruction =>
      case Data =>
    }
  }

  /** The address the inclusion step rebuilds for an L2 block, from a tag
      and set index the L2 can hold, is computed without wrap-around: it
      is the block's exact base address, and it decodes under the L2
      geometry back to the same tag and set index at offset 0. */
  lemma EvictedAddressIsBase(cfg: Config, tag: Word, index: Word)
    requires ValidConfig(cfg) && Present(cfg.l2)
    requires tag < TagLimit(cfg, cfg.l2) && index < SetCount(cfg.l2)
    ensures EvictedAddress(cfg, tag, index)
         == (tag * Pow2(IndexBits(cfg.l2)) + index) * Pow2(OffsetBits(cfg))
    ensures FieldsOf(cfg, cfg.l2, EvictedAddress(cfg, tag, index)) == Fields(0, index, tag)
  {
    var ob, ib := OffsetBits(cfg), IndexBits(cfg.l2);
    BlockAddressExact(tag, index, ob, ib);
    BlockAddressRoundTrip(tag, index, ob, ib);
  }

  // ---------------------------------------------------------------------
  // The L1 caches

  /** An access to an absent L1 cache is the L2 access, and leaves that L1
      cache (its sets and its counters) as it was. */
  lemma L1Bypass(cfg: Config, h: State, kind: L1Kind, addr: Word)
    requires ValidConfig(cfg) && Shaped(cfg, h) && !Present(L1Level(cfg, kind))
    ensures L1Access(cfg, h, kind, addr) == L2Access(cfg, h, addr)
    ensures L1Cache(L1Access(cfg, h, kind, addr).next, kind) == L1Cache(h, kind)
  {
    match kind
    case Instruction =>
    case Data =>
  }

  /** An L1 hit costs the hit time and counts one reference; the block
      moves to the MRU end, the set keeps its size and the other blocks
      their order, and no other set or level changes. */
  lemma L1Hit(cfg: Config, h: State, kind: L1Kind, addr: Word)
    requires ValidConfig(cfg) && Shaped(cfg, h) && Present(L1Level(cfg, kind))
    requires var f := FieldsOf(cfg, L1Level(cfg, kind), addr);
             HasTag(L1Cache(h, kind).sets[f.index], f.tag)
    ensures var lc, c := L1Level(cfg, kind), L1Cache(h, kind);
            var f := FieldsOf(cfg, lc, addr);
            var s := c.sets[f.index];
            var o := L1Access(cfg, h, kind, addr);
            var c' := L1Cache(o.next, kind);
            && o.latency == lc.hitTime
            && c'.refs == c.refs + 1 && c'.misses == c.misses && c'.penalties == c.penalties
            && o.next.l2 == h.l2
            && L1Cache(o.next, Other(kind)) == L1Cache(h, Other(kind))
            && |c'.sets| == |c.sets|
            && (forall j :: 0 <= j < |c.sets| && j != f.index ==> c'.sets[j] == c.sets[j])
            && c'.sets[f.index] == Promote(s, Find(s, f.tag).value)
  {
    var lc, c := L1Level(cfg, kind), L1Cache(h, kind);
    var f := FieldsOf(cfg, lc, addr);
    var s := c.sets[f.index];
    var i := Find(s, f.tag).value;
    assert s[i].tag == f.tag;
    match kind
    case Instruction =>
    case Data =>
  }

  /** An L1 miss counts one reference and one miss, fetches from the L2,
      adds exactly the L2's latency to the penalties and costs that latency
      plus the hit time. The new valid, clean block is inserted at the MRU
      end of its set as the L2 access left it (see `Insert`), and no other
      set changes. */
  lemma L1Miss(cfg: Config, h: State, kind: L1Kind, addr: Word)
    requires ValidConfig(cfg) && Shaped(cfg, h) && Present(L1Level(cfg, kind))
    requires var f := FieldsOf(cfg, L1Level(cfg, kind), addr);
             !HasTag(L1Cache(h, kind).sets[f.index], f.tag)
    ensures var lc, c := L1Level(cfg, kind), L1Cache(h, kind);
            var f := FieldsOf(cfg, lc, addr);
            var below := L2Access(cfg, h, addr);
            var m := L1Cache(below.next, kind).sets;
            var o := L1Access(cfg, h, kind, addr);
            var c' := L1Cache(o.next, kind);
            && o.latency == below.latency + lc.hitTime
            && c'.refs == c.refs + 1
            && c'.misses == c.misses + 1
            && c'.penalties == c.penalties + below.latency
            && o.next.l2 == below.next.l2
            && L1Cache(o.next, Other(kind)) == L1Cache(below.next, Other(kind))
            && c'.sets == m[f.index := Insert(m[f.index], lc.assoc, NewBlock(f.tag))]
  {
    var lc, c := L1Level(cfg, kind), L1Cache(h, kind);
    var f := FieldsOf(cfg, lc, addr);
    FindNone(c.sets[f.index], f.tag);
    L1MissOutcome(cfg, h, kind, addr);
    L1FillParts(cfg, kind, addr, L2Access(cfg, h, addr));
  }

  /** The L1 miss path, unfolded once. */
  lemma L1MissOutcome(cfg: Config, h: State, kind: L1Kind, addr: Word)
    requires ValidConfig(cfg) && Shaped(cfg, h) && Present(L1Level(cfg, kind))
    requires var f := FieldsOf(cfg, L1Level(cfg, kind), addr);
             Find(L1Cache(h, kind).sets[f.index], f.tag) == None
    ensures L1Access(cfg, h, kind, addr) == L1Fill(cfg, kind, addr, L2Access(cfg, h, addr))
  {
  }

  /** The L2 miss path, unfolded once, when it triggers no inclusion step. */
  lemma L2MissOutcome(cfg: Config, h: State, addr: Word)
    requires ValidConfig(cfg) && Shaped(cfg, h) && Present(cfg.l2)
    requires var f := FieldsOf(cfg, cfg.l2, addr);
             && Find(h.l2.sets[f.index], f.tag) == None
             && !(|h.l2.sets[f.index]| == cfg.l2.assoc && cfg.inclusive)
    ensures var f, l := FieldsOf(cfg, cfg.l2, addr), h.l2;
            L2Access(cfg, h, addr)
              == Outcome(cfg.memSpeed + cfg.l2.hitTime,
                         h.(l2 := Cache(l.sets[f.index := Insert(l.sets[f.index], cfg.l2.assoc, NewBlock(f.tag))],
                                        l.refs + 1, l.misses + 1, l.penalties + cfg.memSpeed)))
  {
  }

  /** What the end of an L1 miss does to each part of the hierarchy. */
  lemma L1FillParts(cfg: Config, kind: L1Kind, addr: Word, below: Outcome)
    requires ValidConfig(cfg) && Shaped(cfg, below.next) && Present(L1Level(cfg, kind))
    ensures var lc, c := L1Level(cfg, kind), L1Cache(below.next, kind);
            var f := FieldsOf(cfg, lc, addr);
            var o := L1Fill(cfg, kind, addr, below);
            && o.latency == below.latency + lc.hitTime
            && L1Cache(o.next, kind)
               == c.(refs := c.refs + 1, misses := c.misses + 1, penalties := c.penalties + below.latency,
                     sets := c.sets[f.index := Insert(c.sets[f.index], lc.assoc, NewBlock(f.tag))])
            && L1Cache(o.next, Other(kind)) == L1Cache(below.next, Other(kind))
            && o.next.l2 == below.next.l2
  {
    var lc, c := L1Level(cfg, kind), L1Cache(below.next, kind);
    var f := FieldsOf(cfg, lc, addr);
    WithL1Parts(below.next, kind, c.(refs := c.refs + 1, misses := c.misses + 1, penalties := c.penalties + below.latency,
                                     sets := c.sets[f.index := Insert(c.sets[f.index], lc.assoc, NewBlock(f.tag))]));
  }

  /** Replacing one L1 cache leaves the other and the L2 alone. */
  lemma WithL1Parts(h: State, kind: L1Kind, c: Cache)
    ensures L1Cache(WithL1(h, kind, c), kind) == c
    ensures L1Cache(WithL1(h, kind, c), Other(kind)) == L1Cache(h, Other(kind))
    ensures WithL1(h, kind, c).l2 == h.l2
  {
    match kind
    case Instruction =>
    case Data =>
  }

  // ---------------------------------------------------------------------
  // Repeated access

  /** Once an address has gone through an L1 cache, its block is resident
      there, and the same address again hits at once (a cold miss is
      followed by a warm hit): hit latency, one more reference, no further
      miss or penalty, and the L2 is not consulted. */
  lemma RepeatedL1AccessHits(cfg: Config, h: State, kind: L1Kind, addr: Word)
    requires ValidConfig(cfg) && Shaped(cfg, h) && Present(L1Level(cfg, kind))
    ensures var lc := L1Level(cfg, kind);
            var f := FieldsOf(cfg, lc, addr);
            var o := L1Access(cfg, h, kind, addr);
            var o2 := L1Access(cfg, o.next, kind, addr);
            var c, c2 := L1Cache(o.next, kind), L1Cache(o2.next, kind);
            && HasTag(c.sets[f.index], f.tag)
            && o2.latency == lc.hitTime
            && c2.refs == c.refs + 1 && c2.misses == c.misses && c2.penalties == c.penalties
            && o2.next.l2 == o.next.l2
  {
    var lc := L1Level(cfg, kind);
    var f := FieldsOf(cfg, lc, addr);
    var o := L1Access(cfg, h, kind, addr);
    var s' := L1Cache(o.next, kind).sets[f.index];
    if HasTag(L1Cache(h, kind).sets[f.index], f.tag) {
      L1Hit(cfg, h, kind, addr);
      var s := L1Cache(h, kind).sets[f.index];
      assert s'[|s| - 1] == s[Find(s, f.tag).value];
    } else {
      L1Miss(cfg, h, kind, addr);
      assert s'[|s'| - 1].tag == f.tag;
    }
    L1Hit(cfg, o.next, kind, addr);
  }

  /** The same for the L2: the block of an address just accessed is
      resident in the L2, and a second access hits with no further miss
      or penalty and leaves both L1 caches alone. */
  lemma RepeatedL2AccessHits(cfg: Config, h: State, addr: Word)
    requires ValidConfig(cfg) && Shaped(cfg, h) && Present(cfg.l2)
    ensures var f := FieldsOf(cfg, cfg.l2, addr);
            var o := L2Access(cfg, h, addr);
            var o2 := L2Access(cfg, o.next, addr);
            && HasTag(o.next.l2.sets[f.index], f.tag)
            && o2.latency == cfg.l2.hitTime
            && o2.next.l2.refs == o.next.l2.refs + 1
            && o2.next.l2.misses == o.next.l2.misses && o2.next.l2.penalties == o.next.l2.penalties
            && o2.next.icache == o.next.icache && o2.next.dcache == o.next.dcache
  {
    var f := FieldsOf(cfg, cfg.l2, addr);
    var o := L2Access(cfg, h, addr);
    var s' := o.next.l2.sets[f.index];
    if HasTag(h.l2.sets[f.index], f.tag) {
      L2Hit(cfg, h, addr);
      var s := h.l2.sets[f.index];
      assert s'[|s| - 1] == s[Find(s, f.tag).value];
    } else {
      L2Miss(cfg, h, addr);
      assert s'[|s'| - 1].tag == f.tag;
    }
    L2Hit(cfg, o.next, addr);
  }
}
