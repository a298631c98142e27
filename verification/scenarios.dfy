/** Concrete runs of the hierarchy: the end-to-end example of a 2-way D$
    over a 4-way L2, step by step, and the two single accesses it is made
    of, a miss in both levels and a hit in the D$ alone. */
module Scenarios {
  import opened Bits
  import opened Address
  import opened LruSet
  import opened Hierarchy
  import opened Properties
  import opened Preservation

  /** 64-byte blocks, no I$, a 4-set 2-way D$ (hit time 1), a 4-set 4-way
      L2 (hit time 10) and a memory latency of 100. */
  function Example(inclusive: bool): (cfg: Config)
  {
    Config(64, 100, Level(0, 0, 0), Level(4, 2, 1), Level(4, 4, 10), inclusive)
  }

  lemma ExampleGeometry(inclusive: bool)
    ensures ValidConfig(Example(inclusive))
    ensures OffsetBits(Example(inclusive)) == 6
    ensures IndexBits(Example(inclusive).dcache) == 2 && IndexBits(Example(inclusive).l2) == 2
    ensures SetCount(Example(inclusive).dcache) == 4 && SetCount(Example(inclusive).l2) == 4
  {
    ExampleWidths();
  }

  lemma ExampleWidths()
    ensures Width(64) == 6 && Width(4) == 2 && Width(1) == 0
    ensures Pow2(6) == 64 && Pow2(2) == 4
  {
    assert Pow2(2) == 4;
    assert Pow2(6) == 64;
    WidthOfPow2(6);
    WidthOfPow2(2);
    WidthOfPow2(0);
  }

  /** With 6 offset bits and 2 index bits, block b (the address b * 64)
      falls in set b % 4 with tag b / 4. */
  lemma ExampleFields(b: nat)
    requires b < 0x400_0000
    ensures b * 64 < WORD
    ensures Decode(b * 64, 6, 2) == Fields(0, b % 4, b / 4)
  {
    assert Pow2(6) == 64 && Pow2(2) == 4;
    DecodeUnique(b * 64, 6, 2, Fields(0, b % 4, b / 4));
  }

  /** A data access that misses in the D$ and in the L2, with inclusion
      off: both levels count a reference and a miss, the D$ is charged the
      L2's memory latency plus hit time, and both bring the block in at the
      MRU end of its set. */
  lemma DataMissBoth(cfg: Config, h: State, addr: Word)
    requires ValidConfig(cfg) && Shaped(cfg, h) && !cfg.inclusive
    requires Present(cfg.dcache) && Present(cfg.l2)
    requires var f := FieldsOf(cfg, cfg.dcache, addr); !HasTag(h.dcache.sets[f.index], f.tag)
    requires var g := FieldsOf(cfg, cfg.l2, addr); !HasTag(h.l2.sets[g.index], g.tag)
    ensures var f, g := FieldsOf(cfg, cfg.dcache, addr), FieldsOf(cfg, cfg.l2, addr);
            var o := L1Access(cfg, h, Data, addr);
            var d, l := h.dcache, h.l2;
            && o.latency == cfg.memSpeed + cfg.l2.hitTime + cfg.dcache.hitTime
            && o.next.icache == h.icache
            && o.next.dcache == Cache(d.sets[f.index := Insert(d.sets[f.index], cfg.dcache.assoc, NewBlock(f.tag))],
                                      d.refs + 1, d.misses + 1, d.penalties + cfg.memSpeed + cfg.l2.hitTime)
            && o.next.l2 == Cache(l.sets[g.index := Insert(l.sets[g.index], cfg.l2.assoc, NewBlock(g.tag))],
                                  l.refs + 1, l.misses + 1, l.penalties + cfg.memSpeed)
  {
    var f, g := FieldsOf(cfg, cfg.dcache, addr), FieldsOf(cfg, cfg.l2, addr);
    FindNone(h.dcache.sets[f.index], f.tag);
    FindNone(h.l2.sets[g.index], g.tag);
    L1MissOutcome(cfg, h, Data, addr);
    L2MissOutcome(cfg, h, addr);
    L1FillParts(cfg, Data, addr, L2Access(cfg, h, addr));
  }

  /** A data access that hits in the D$ on a set holding just that block:
      it costs the D$ hit time, counts one reference, and changes nothing
      else. */
  lemma DataHitAlone(cfg: Config, h: State, addr: Word)
    requires ValidConfig(cfg) && Shaped(cfg, h) && Present(cfg.dcache)
    requires var f := FieldsOf(cfg, cfg.dcache, addr); h.dcache.sets[f.index] == [NewBlock(f.tag)]
    ensures var o := L1Access(cfg, h, Data, addr);
            && o.latency == cfg.dcache.hitTime
            && o.next == h.(dcache := h.dcache.(refs := h.dcache.refs + 1))
  {
    var f := FieldsOf(cfg, cfg.dcache, addr);
    var s := h.dcache.sets[f.index];
    assert s[0].tag == f.tag;
    L1Hit(cfg, h, Data, addr);
    PromoteMostRecent(s, 0);
    var o := L1Access(cfg, h, Data, addr);
    assert o.next.dcache.sets[f.index] == s;
    assert o.next.dcache.sets == h.dcache.sets;
  }

  /** The example hierarchy after k of the blocks 0, 1, 2, 3 (at 0x0,
      0x40, 0x80, 0xC0) have been read: the first k sets of the D$ and of
      the L2 hold tag 0, and each level has counted k references and k
      misses. */
  function Filled(k: nat): (h: State)
  {
    var row := seq(4, j => if j < k then [NewBlock(0)] else []);
    State(Cache([], 0, 0, 0), Cache(row, k, k, 110 * k), Cache(row, k, k, 100 * k))
  }

  lemma FilledInitially()
    ensures ValidConfig(Example(false))
    ensures Init(Example(false)) == Filled(0)
  {
    ExampleGeometry(false);
    var h, f := Init(Example(false)), Filled(0);
    assert |h.dcache.sets| == 4 && |h.l2.sets| == 4 && h.icache.sets == [];
    assert h.dcache.sets == f.dcache.sets;
    assert h.l2.sets == f.l2.sets;
  }

  lemma FillShaped(k: nat)
    requires k <= 4
    ensures ValidConfig(Example(false))
    ensures Shaped(Example(false), Filled(k))
  {
    ExampleGeometry(false);
  }

  lemma FillFields(k: nat)
    requires k < 4
    ensures ValidConfig(Example(false))
    ensures FieldsOf(Example(false), Example(false).dcache, k * 64) == Fields(0, k, 0)
    ensures FieldsOf(Example(false), Example(false).l2, k * 64) == Fields(0, k, 0)
  {
    ExampleGeometry(false);
    ExampleFields(k);
  }

  /** A data access to a block whose sets in the D$ and in the L2 are both
      empty, with inclusion off: both sets now hold just that block. */
  lemma DataMissEmpty(cfg: Config, h: State, addr: Word, i: nat, t: Word)
    requires ValidConfig(cfg) && Shaped(cfg, h) && !cfg.inclusive
    requires Present(cfg.dcache) && Present(cfg.l2)
    requires FieldsOf(cfg, cfg.dcache, addr).index == i && FieldsOf(cfg, cfg.dcache, addr).tag == t
    requires FieldsOf(cfg, cfg.l2, addr).index == i && FieldsOf(cfg, cfg.l2, addr).tag == t
    requires i < |h.dcache.sets| && i < |h.l2.sets| && h.dcache.sets[i] == [] && h.l2.sets[i] == []
    ensures L1Access(cfg, h, Data, addr)
         == Outcome(cfg.memSpeed + cfg.l2.hitTime + cfg.dcache.hitTime,
                    State(h.icache,
                          Cache(h.dcache.sets[i := [NewBlock(t)]], h.dcache.refs + 1, h.dcache.misses + 1,
                                h.dcache.penalties + cfg.memSpeed + cfg.l2.hitTime),
                          Cache(h.l2.sets[i := [NewBlock(t)]], h.l2.refs + 1, h.l2.misses + 1,
                                h.l2.penalties + cfg.memSpeed)))
  {
    InsertIntoEmpty(cfg.dcache.assoc, NewBlock(t));
    InsertIntoEmpty(cfg.l2.assoc, NewBlock(t));
    DataMissBoth(cfg, h, addr);
    var o := L1Access(cfg, h, Data, addr);
    assert o.next == State(o.next.icache, o.next.dcache, o.next.l2);
  }

  /** Filling set k of Filled(k) with tag 0 and counting one more miss in
      each level gives Filled(k + 1). */
  lemma FillRow(k: nat)
    requires k < 4
    ensures Filled(k).dcache.sets[k] == [] && Filled(k).l2.sets[k] == []
    ensures State(Cache([], 0, 0, 0),
                  Cache(Filled(k).dcache.sets[k := [NewBlock(0)]], k + 1, k + 1, 110 * k + 100 + 10),
                  Cache(Filled(k).l2.sets[k := [NewBlock(0)]], k + 1, k + 1, 100 * k + 100))
         == Filled(k + 1)
  {
    assert Filled(k).dcache.sets[k := [NewBlock(0)]] == Filled(k + 1).dcache.sets;
  }

  /** Reading block k misses in both levels and fills set k. */
  lemma FillStep(k: nat)
    requires k < 4
    ensures ValidConfig(Example(false))
    ensures Shaped(Example(false), Filled(k))
    ensures L1Access(Example(false), Filled(k), Data, k * 64) == Outcome(111, Filled(k + 1))
  {
    ExampleGeometry(false);
    FillShaped(k);
    FillFields(k);
    FillRow(k);
    DataMissEmpty(Example(false), Filled(k), k * 64, k, 0);
  }

  /** All four sets filled, and the final read of block 0 counted as a hit. */
  function Final(): (h: State)
  {
    Filled(4).(dcache := Filled(4).dcache.(refs := 5))
  }

  /** With every set filled, reading block 0 again hits in the D$. */
  lemma LastStep()
    ensures ValidConfig(Example(false))
    ensures Shaped(Example(false), Filled(4))
    ensures L1Access(Example(false), Filled(4), Data, 0x0) == Outcome(1, Final())
  {
    ExampleGeometry(false);
    FillShaped(0);
    FillFields(0);
    assert Filled(4).dcache.sets[0] == [NewBlock(0)];
    DataHitAlone(Example(false), Filled(4), 0);
  }

  /** Data accesses to 0x0, 0x40, 0x80, 0xC0 and 0x0 again. */
  function ExampleTrace(): (trace: seq<Ref>)
  {
    [Ref(Data, 0x0), Ref(Data, 0x40), Ref(Data, 0x80), Ref(Data, 0xC0), Ref(Data, 0x0)]
  }

  /** A trace whose first reference leads from h to h' runs on from h'. */
  lemma RunStep(cfg: Config, h: State, trace: seq<Ref>, h': State)
    requires ValidConfig(cfg) && Shaped(cfg, h) && |trace| > 0
    requires L1Access(cfg, h, trace[0].kind, trace[0].addr).next == h'
    ensures Shaped(cfg, h') && Run(cfg, h, trace) == Run(cfg, h', trace[1..])
  {
  }

  /** Reading block k from Filled(k) leaves Filled(k + 1) and the trace
      from position k + 1. */
  lemma RunFill(k: nat)
    requires k < 4
    ensures ValidConfig(Example(false)) && Shaped(Example(false), Filled(k))
    ensures Shaped(Example(false), Filled(k + 1))
    ensures Run(Example(false), Filled(k), ExampleTrace()[k..])
         == Run(Example(false), Filled(k + 1), ExampleTrace()[k + 1..])
  {
    FillStep(k);
    TraceAt(k);
    RunStep(Example(false), Filled(k), ExampleTrace()[k..], Filled(k + 1));
  }

  lemma TraceAt(k: nat)
    requires k < 4
    ensures |ExampleTrace()[k..]| > 0 && ExampleTrace()[k..][0] == Ref(Data, k * 64)
    ensures ExampleTrace()[k..][1..] == ExampleTrace()[k + 1..]
  {
  }

  /** The last read of the trace, a D$ hit, ends in Final(). */
  lemma RunLast()
    ensures ValidConfig(Example(false)) && Shaped(Example(false), Filled(4))
    ensures Run(Example(false), Filled(4), ExampleTrace()[4..]) == Final()
  {
    LastStep();
    var t := ExampleTrace()[4..];
    assert t == [Ref(Data, 0x0)];
    RunStep(Example(false), Filled(4), t, Final());
    assert Run(Example(false), Final(), t[1..]) == Final();
  }

  /** From Filled(k), the rest of the example trace ends in Final(). */
  lemma {:induction false} RunFromFilled(k: nat)
    requires k <= 4
    ensures ValidConfig(Example(false)) && Shaped(Example(false), Filled(k))
    ensures Run(Example(false), Filled(k), ExampleTrace()[k..]) == Final()
    decreases 4 - k
  {
    if k == 4 {
      RunLast();
    } else {
      RunFill(k);
      RunFromFilled(k + 1);
    }
  }

  /** The example trace from the initial state, with inclusion off. The
      four blocks fall in the four different sets of the D$ (and of the
      L2), so the first four accesses miss in both levels at 100 + 10 + 1
      cycles each (FillStep), and the fifth hits in the D$ at 1 cycle
      (LastStep), ending in Final(): 5 references and 4 misses in the D$,
      4 of each in the L2, and tag 0 resident in every D$ set. */
  lemma EndToEndExample()
    ensures ValidConfig(Example(false)) && Init(Example(false)) == Filled(0)
    ensures Run(Example(false), Init(Example(false)), ExampleTrace()) == Final()
    ensures var h := Final();
            && h.icache == Cache([], 0, 0, 0)
            && h.dcache.refs == 5 && h.dcache.misses == 4 && h.dcache.penalties == 4 * 111 - 4
            && h.l2.refs == 4 && h.l2.misses == 4 && h.l2.penalties == 4 * 100
            && h.dcache.sets == [[NewBlock(0)], [NewBlock(0)], [NewBlock(0)], [NewBlock(0)]]
  {
    FilledInitially();
    RunFromFilled(0);
    assert ExampleTrace()[0..] == ExampleTrace();
    FinalCounters();
  }

  /** The counters and sets of Final(). */
  lemma FinalCounters()
    ensures var h := Final();
            && h.icache == Cache([], 0, 0, 0)
            && h.dcache.refs == 5 && h.dcache.misses == 4 && h.dcache.penalties == 4 * 111 - 4
            && h.l2.refs == 4 && h.l2.misses == 4 && h.l2.penalties == 4 * 100
            && h.dcache.sets == [[NewBlock(0)], [NewBlock(0)], [NewBlock(0)], [NewBlock(0)]]
  {
    var row := Final().dcache.sets;
    assert |row| == 4 && row[0] == row[1] == row[2] == row[3] == [NewBlock(0)];
  }
}
