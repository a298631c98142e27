/** The hierarchy-level forms of the classic cache checks: what one access
    does to its set is `Touch` (so the LRU results about runs of `Touch`
    apply to any level), the inclusion step removes the very block the L2
    evicts from an L1 cache while without inclusion that cache is left
    alone, and an absent L1 cache never counts anything, whatever the
    trace. */
module Checks {
  import opened Bits
  import opened Address
  import opened LruSet
  import opened LruOrder
  import opened Hierarchy
  import opened Properties
  import opened Preservation

  /** An L2 access acts on its set as `Touch` and on no other set. */
  lemma L2AccessTouches(cfg: Config, h: State, addr: Word)
    requires ValidConfig(cfg) && Shaped(cfg, h) && Present(cfg.l2)
    ensures var f := FieldsOf(cfg, cfg.l2, addr);
            L2Access(cfg, h, addr).next.l2.sets
              == h.l2.sets[f.index := Touch(h.l2.sets[f.index], cfg.l2.assoc, f.tag)]
  {
  }

  /** Without inclusion, an I$ or D$ access acts on its set as `Touch` and
      on no other set of that cache. */
  lemma L1AccessTouches(cfg: Config, h: State, kind: L1Kind, addr: Word)
    requires ValidConfig(cfg) && Shaped(cfg, h) && Present(L1Level(cfg, kind)) && !cfg.inclusive
    ensures var lc, c := L1Level(cfg, kind), L1Cache(h, kind);
            var f := FieldsOf(cfg, lc, addr);
            L1Cache(L1Access(cfg, h, kind, addr).next, kind).sets
              == c.sets[f.index := Touch(c.sets[f.index], lc.assoc, f.tag)]
  {
    var lc, c := L1Level(cfg, kind), L1Cache(h, kind);
    var f := FieldsOf(cfg, lc, addr);
    if !HasTag(c.sets[f.index], f.tag) {
      L1Miss(cfg, h, kind, addr);
      InclusionOffLeavesL1(cfg, h, addr);
      assert L1Cache(L2Access(cfg, h, addr).next, kind) == c by {
        match kind
        case Instruction =>
        case Data =>
      }
    } else {
      match kind
      case Instruction =>
      case Data =>
    }
  }

  /** With inclusion on, when an L2 miss on a full set evicts the block of
      address `victim`, an I$ or D$ access to `victim` right after it
      misses: the inclusion step removed the block from that cache. */
  lemma InclusionRemovesVictim(cfg: Config, h: State, kind: L1Kind, addr: Word, victim: Word)
    requires ValidConfig(cfg) && Invariant(cfg, h) && Present(cfg.l2) && cfg.inclusive
    requires Present(L1Level(cfg, kind))
    requires var f, v := FieldsOf(cfg, cfg.l2, addr), FieldsOf(cfg, cfg.l2, victim);
             var s := h.l2.sets[f.index];
             && !HasTag(s, f.tag) && |s| == cfg.l2.assoc
             && v.index == f.index && s[0].tag == v.tag
    ensures var g := FieldsOf(cfg, L1Level(cfg, kind), victim);
            !HasTag(L1Cache(L2Access(cfg, h, addr).next, kind).sets[g.index], g.tag)
  {
    var f, v := FieldsOf(cfg, cfg.l2, addr), FieldsOf(cfg, cfg.l2, victim);
    var lc := L1Level(cfg, kind);
    InclusionEnforced(cfg, h, kind, addr);
    var base := EvictedAddress(cfg, v.tag, v.index);
    assert EvictedAddress(cfg, h.l2.sets[f.index][0].tag, f.index) == base;
    SameBlockAsBase(cfg, lc, victim);
    var after := L1Cache(L2Access(cfg, h, addr).next, kind);
    var g, g' := FieldsOf(cfg, lc, base), FieldsOf(cfg, lc, victim);
    assert !HasTag(after.sets[g.index], g.tag);
    assert after.sets[g.index] == after.sets[g'.index];
  }

  /** An address and the base address of its L2 block, as the inclusion
      step rebuilds it, decode to the same set index and tag in an L1
      cache (the levels share the block size). */
  lemma SameBlockAsBase(cfg: Config, lc: Level, victim: Word)
    requires ValidConfig(cfg) && Present(cfg.l2) && Present(lc)
    ensures var v := FieldsOf(cfg, cfg.l2, victim);
            var base := EvictedAddress(cfg, v.tag, v.index);
            && FieldsOf(cfg, lc, base).index == FieldsOf(cfg, lc, victim).index
            && FieldsOf(cfg, lc, base).tag == FieldsOf(cfg, lc, victim).tag
  {
    var v := FieldsOf(cfg, cfg.l2, victim);
    TagFits(cfg, cfg.l2, victim);
    EvictedAddressIsBase(cfg, v.tag, v.index);
    BaseInSameBlock(victim, EvictedAddress(cfg, v.tag, v.index), OffsetBits(cfg), IndexBits(cfg.l2), IndexBits(lc));
  }

  /** Without inclusion, an L1 block stays resident across any L2 access. */
  lemma NoInclusionKeepsResident(cfg: Config, h: State, kind: L1Kind, addr: Word, a: Word)
    requires ValidConfig(cfg) && Shaped(cfg, h) && !cfg.inclusive && Present(L1Level(cfg, kind))
    requires var g := FieldsOf(cfg, L1Level(cfg, kind), a); HasTag(L1Cache(h, kind).sets[g.index], g.tag)
    ensures var g := FieldsOf(cfg, L1Level(cfg, kind), a);
            HasTag(L1Cache(L2Access(cfg, h, addr).next, kind).sets[g.index], g.tag)
  {
    InclusionOffLeavesL1(cfg, h, addr);
    match kind
    case Instruction =>
    case Data =>
  }

  /** An L2 access leaves an absent L1 cache as it was. */
  lemma L2AccessKeepsAbsentL1(cfg: Config, h: State, k: L1Kind, addr: Word)
    requires ValidConfig(cfg) && Shaped(cfg, h) && !Present(L1Level(cfg, k))
    ensures L1Cache(L2Access(cfg, h, addr).next, k) == L1Cache(h, k)
  {
    match k
    case Instruction =>
    case Data =>
  }

  /** Any access leaves an absent L1 cache as it was. */
  lemma AccessKeepsAbsentL1(cfg: Config, h: State, k: L1Kind, kind: L1Kind, addr: Word)
    requires ValidConfig(cfg) && Shaped(cfg, h) && !Present(L1Level(cfg, k))
    ensures L1Cache(L1Access(cfg, h, kind, addr).next, k) == L1Cache(h, k)
  {
    if kind == k || !Present(L1Level(cfg, kind)) {
      L2AccessKeepsAbsentL1(cfg, h, k, addr);
      match kind
      case Instruction =>
      case Data =>
    } else {
      assert k == Other(kind) by {
        match kind
        case Instruction =>
        case Data =>
      }
      var f := FieldsOf(cfg, L1Level(cfg, kind), addr);
      if HasTag(L1Cache(h, kind).sets[f.index], f.tag) {
        L1Hit(cfg, h, kind, addr);
      } else {
        L1Miss(cfg, h, kind, addr);
        L2AccessKeepsAbsentL1(cfg, h, k, addr);
      }
    }
  }

  /** A bypassed (zero-set) I$ or D$ never counts a reference, a miss or a
      penalty cycle and never holds a block, whatever the trace. */
  lemma {:induction false} BypassNeverCounts(cfg: Config, h: State, k: L1Kind, trace: seq<Ref>)
    requires ValidConfig(cfg) && Shaped(cfg, h) && !Present(L1Level(cfg, k))
    ensures L1Cache(Run(cfg, h, trace), k) == L1Cache(h, k)
    decreases |trace|
  {
    if |trace| > 0 {
      AccessKeepsAbsentL1(cfg, h, k, trace[0].kind, trace[0].addr);
      BypassNeverCounts(cfg, L1Access(cfg, h, trace[0].kind, trace[0].addr).next, k, trace[1..]);
    }
  }
}
