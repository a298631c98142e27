/** The LRU policy over a run of accesses to one set. `Touch` is what one
    access does to the set its address maps to (a hit promotes, a miss
    inserts), and `TouchAll` applies a run of them in order. The lemmas
    are the classic checks: distinct blocks fill a set in arrival order,
    one block too many evicts the first, and touching the first again
    before that protects it and evicts the second instead. */
module LruOrder {
  import opened Bits
  import opened LruSet

  /** One access to a set: a hit moves the block to the MRU end, a miss
      brings a new block in there, evicting the LRU block of a full set.
      Either way the tag is resident afterwards; a hit keeps the size. */
  function Touch(s: CacheSet, assoc: nat, tag: Word): (r: CacheSet)
    ensures HasTag(r, tag) && r[|r| - 1].tag == tag
    ensures HasTag(s, tag) ==> |r| == |s|
    ensures !HasTag(s, tag) ==> |r| == if |s| == assoc && |s| > 0 then |s| else |s| + 1
  {
    match Find(s, tag)
    case Some(i) => Promote(s, i)
    case None => Insert(s, assoc, NewBlock(tag))
  }

  /** The accesses of `tags`, in order, starting from the set s. */
  function TouchAll(s: CacheSet, assoc: nat, tags: seq<Word>): (r: CacheSet)
  {
    if |tags| == 0 then s
    else Touch(TouchAll(s, assoc, tags[..|tags| - 1]), assoc, tags[|tags| - 1])
  }

  lemma TouchAllSnoc(s: CacheSet, assoc: nat, tags: seq<Word>, t: Word)
    ensures TouchAll(s, assoc, tags + [t]) == Touch(TouchAll(s, assoc, tags), assoc, t)
  {
    assert (tags + [t])[..|tags|] == tags;
  }

  /** The set holding one fresh block per tag, oldest first. */
  function Blocks(tags: seq<Word>): (r: CacheSet)
    ensures |r| == |tags|
    ensures forall i :: 0 <= i < |tags| ==> r[i] == NewBlock(tags[i])
  {
    if |tags| == 0 then [] else Blocks(tags[..|tags| - 1]) + [NewBlock(tags[|tags| - 1])]
  }

  predicate Distinct(tags: seq<Word>)
  {
    forall i, j :: 0 <= i < j < |tags| ==> tags[i] != tags[j]
  }

  lemma BlocksHasTag(tags: seq<Word>, t: nat)
    ensures HasTag(Blocks(tags), t) <==> t in tags
  {
    if t in tags {
      var i :| 0 <= i < |tags| && tags[i] == t;
      assert Blocks(tags)[i].tag == t;
    }
  }

  /** Up to the associativity, distinct blocks fill an empty set in the
      order they arrive: nothing is evicted. */
  lemma {:induction false} FillInOrder(assoc: nat, tags: seq<Word>)
    requires Distinct(tags) && |tags| <= assoc
    ensures TouchAll([], assoc, tags) == Blocks(tags)
  {
    if |tags| > 0 {
      var n := |tags|;
      var pre, t := tags[..n - 1], tags[n - 1];
      FillInOrder(assoc, pre);
      BlocksHasTag(pre, t);
      assert !HasTag(Blocks(pre), t);
      assert Touch(Blocks(pre), assoc, t) == PushRear(Blocks(pre), NewBlock(t));
    }
  }

  /** How many of the latest of n distinct accesses a set of
      associativity `assoc` is sure to hold: all of them until it fills. */
  function Window(n: nat, assoc: nat): (m: nat)
    ensures m <= n && m <= assoc && (m == n || m == assoc)
  {
    if n < assoc then n else assoc
  }

  /** The last m blocks of s are fresh blocks for the last m tags, in
      the same order. */
  predicate EndsWith(s: CacheSet, tags: seq<Word>, m: nat)
  {
    && m <= |s| && m <= |tags|
    && forall j :: |s| - m <= j < |s| ==> s[j] == NewBlock(tags[j + |tags| - |s|])
  }

  /** Whatever a well-formed set held before, a run of distinct accesses
      keeps it well formed and leaves it ending with fresh blocks for the
      latest accesses, as many as fit, in arrival order. */
  lemma {:induction false} KeepsRecent(s: CacheSet, assoc: nat, tags: seq<Word>)
    requires assoc >= 1 && WellFormed(s, assoc, WORD) && Distinct(tags)
    ensures WellFormed(TouchAll(s, assoc, tags), assoc, WORD)
    ensures EndsWith(TouchAll(s, assoc, tags), tags, Window(|tags|, assoc))
    decreases |tags|
  {
    if |tags| > 0 {
      var n := |tags|;
      var pre, t := tags[..n - 1], tags[n - 1];
      DistinctLast(tags);
      KeepsRecent(s, assoc, pre);
      TouchStep(TouchAll(s, assoc, pre), assoc, pre, t);
    }
  }

  /** Distinct tags split into distinct earlier ones and a new last one. */
  lemma DistinctLast(tags: seq<Word>)
    requires |tags| > 0 && Distinct(tags)
    ensures var n := |tags|;
            && Distinct(tags[..n - 1]) && tags[n - 1] !in tags[..n - 1]
            && tags[..n - 1] + [tags[n - 1]] == tags
  {
    var pre := tags[..|tags| - 1];
    forall i | 0 <= i < |pre|
      ensures pre[i] == tags[i]
    {
    }
  }

  /** One more access, of a tag not among the earlier ones. */
  lemma TouchStep(r: CacheSet, assoc: nat, pre: seq<Word>, t: Word)
    requires assoc >= 1 && WellFormed(r, assoc, WORD) && t !in pre
    requires EndsWith(r, pre, Window(|pre|, assoc))
    ensures WellFormed(Touch(r, assoc, t), assoc, WORD)
    ensures EndsWith(Touch(r, assoc, t), pre + [t], Window(|pre| + 1, assoc))
  {
    if HasTag(r, t) {
      TouchHitStep(r, assoc, pre, t);
    } else {
      TouchMissStep(r, assoc, pre, t);
    }
  }

  /** A hit can only be on a block older than the recent ones: it moves
      to the rear, right behind them. */
  lemma TouchHitStep(r: CacheSet, assoc: nat, pre: seq<Word>, t: Word)
    requires assoc >= 1 && WellFormed(r, assoc, WORD) && t !in pre && HasTag(r, t)
    requires EndsWith(r, pre, Window(|pre|, assoc))
    ensures WellFormed(Touch(r, assoc, t), assoc, WORD)
    ensures EndsWith(Touch(r, assoc, t), pre + [t], Window(|pre| + 1, assoc))
  {
    var m, m' := Window(|pre|, assoc), Window(|pre| + 1, assoc);
    var i := Find(r, t).value;
    assert forall j :: |r| - m <= j < |r| ==> r[j].tag != t;
    assert i < |r| - m && m == |pre| && m' == m + 1;
    var r' := Promote(r, i);
    PromoteKeepsWellFormed(r, assoc, WORD, i);
    forall j | |r'| - m' <= j < |r'|
      ensures r'[j] == NewBlock((pre + [t])[j + |pre| + 1 - |r'|])
    {
      if j < |r| - 1 {
        assert r'[j] == r[j + 1];
      } else {
        assert r'[j] == r[i];
      }
    }
  }

  /** A miss appends a fresh block behind the recent ones, dropping the
      front block of a full set. */
  lemma TouchMissStep(r: CacheSet, assoc: nat, pre: seq<Word>, t: Word)
    requires assoc >= 1 && WellFormed(r, assoc, WORD) && t !in pre && !HasTag(r, t)
    requires EndsWith(r, pre, Window(|pre|, assoc))
    ensures WellFormed(Touch(r, assoc, t), assoc, WORD)
    ensures EndsWith(Touch(r, assoc, t), pre + [t], Window(|pre| + 1, assoc))
  {
    var r' := Insert(r, assoc, NewBlock(t));
    FindNone(r, t);
    assert Touch(r, assoc, t) == r';
    InsertKeepsWellFormed(r, assoc, WORD, NewBlock(t));
    InsertEndsWith(r, assoc, pre, t);
  }

  lemma InsertEndsWith(r: CacheSet, assoc: nat, pre: seq<Word>, t: Word)
    requires assoc >= 1 && |r| <= assoc && EndsWith(r, pre, Window(|pre|, assoc))
    ensures EndsWith(Insert(r, assoc, NewBlock(t)), pre + [t], Window(|pre| + 1, assoc))
  {
    if |r| == assoc {
      InsertFullEndsWith(r, assoc, pre, t);
    } else {
      InsertRoomEndsWith(r, assoc, pre, t);
    }
  }

  lemma InsertFullEndsWith(r: CacheSet, assoc: nat, pre: seq<Word>, t: Word)
    requires assoc >= 1 && |r| == assoc && EndsWith(r, pre, Window(|pre|, assoc))
    ensures EndsWith(Insert(r, assoc, NewBlock(t)), pre + [t], Window(|pre| + 1, assoc))
  {
    var m' := Window(|pre| + 1, assoc);
    var r', p' := Insert(r, assoc, NewBlock(t)), pre + [t];
    assert |r'| == |r| && |p'| == |pre| + 1;
    forall j | |r'| - m' <= j < |r'|
      ensures r'[j] == NewBlock(p'[j + |p'| - |r'|])
    {
      if j < |r| - 1 {
        assert r'[j] == r[j + 1] == NewBlock(pre[j + 1 + |pre| - |r|]);
        assert p'[j + |p'| - |r'|] == pre[j + 1 + |pre| - |r|];
      }
    }
  }

  lemma InsertRoomEndsWith(r: CacheSet, assoc: nat, pre: seq<Word>, t: Word)
    requires assoc >= 1 && |r| < assoc && EndsWith(r, pre, Window(|pre|, assoc))
    ensures EndsWith(Insert(r, assoc, NewBlock(t)), pre + [t], Window(|pre| + 1, assoc))
  {
    var m' := Window(|pre| + 1, assoc);
    var r', p' := Insert(r, assoc, NewBlock(t)), pre + [t];
    assert |r'| == |r| + 1 && |p'| == |pre| + 1 && m' == |pre| + 1;
    forall j | |r'| - m' <= j < |r'|
      ensures r'[j] == NewBlock(p'[j + |p'| - |r'|])
    {
      if j < |r| {
        assert r'[j] == r[j] == NewBlock(pre[j + |pre| - |r|]);
        assert p'[j + |p'| - |r'|] == pre[j + |pre| - |r|];
      }
    }
  }

  /** A set of at most A blocks that ends with fresh blocks for the last
      A tags holds exactly those. */
  lemma FullWindow(r: CacheSet, assoc: nat, tags: seq<Word>)
    requires |r| <= assoc && EndsWith(r, tags, assoc)
    ensures r == Blocks(tags[|tags| - assoc..])
  {
    var b := Blocks(tags[|tags| - assoc..]);
    forall j | 0 <= j < |r|
      ensures r[j] == b[j]
    {
      assert tags[|tags| - assoc..][j] == tags[j + |tags| - |r|];
    }
  }

  /** The LRU eviction check: whatever a well-formed set of associativity
      A held before, after A + 1 distinct blocks it holds the last A of
      them in arrival order, so the first one is gone and touching it
      again misses. */
  lemma EvictsLeastRecent(s: CacheSet, assoc: nat, tags: seq<Word>)
    requires assoc >= 1 && WellFormed(s, assoc, WORD)
    requires |tags| == assoc + 1 && Distinct(tags)
    ensures TouchAll(s, assoc, tags) == Blocks(tags[1..])
    ensures !HasTag(TouchAll(s, assoc, tags), tags[0])
    ensures forall k :: 1 <= k < |tags| ==> HasTag(TouchAll(s, assoc, tags), tags[k])
  {
    KeepsRecent(s, assoc, tags);
    FullWindow(TouchAll(s, assoc, tags), assoc, tags);
    LaterResident(tags);
  }

  /** Fresh blocks for all but the first of distinct tags hold exactly
      those later tags. */
  lemma LaterResident(tags: seq<Word>)
    requires |tags| >= 1 && Distinct(tags)
    ensures !HasTag(Blocks(tags[1..]), tags[0])
    ensures forall k :: 1 <= k < |tags| ==> HasTag(Blocks(tags[1..]), tags[k])
  {
    BlocksHasTag(tags[1..], tags[0]);
    forall k | 1 <= k < |tags|
      ensures HasTag(Blocks(tags[1..]), tags[k])
    {
      BlocksHasTag(tags[1..], tags[k]);
      assert tags[1..][k - 1] == tags[k];
    }
  }

  /** Touching the oldest block of a set moves it to the MRU end. */
  lemma TouchOldest(assoc: nat, tags: seq<Word>)
    requires |tags| >= 1 && Distinct(tags)
    ensures Touch(Blocks(tags), assoc, tags[0]) == Blocks(tags[1..] + [tags[0]])
  {
    var s, u := Blocks(tags), tags[1..] + [tags[0]];
    var i := Find(s, tags[0]).value;
    assert tags[i] == tags[0];
    var r := Promote(s, i);
    assert |r| == |Blocks(u)|;
    forall j | 0 <= j < |r|
      ensures r[j] == Blocks(u)[j]
    {
      if j < |s| - 1 {
        assert r[j] == s[j + 1];
      }
    }
  }

  /** A new block on a full set of fresh blocks drops the oldest. */
  lemma TouchNewOnFull(assoc: nat, tags: seq<Word>, t: Word)
    requires |tags| == assoc >= 1 && t !in tags
    ensures Touch(Blocks(tags), assoc, t) == Blocks(tags[1..] + [t])
  {
    BlocksHasTag(tags, t);
    assert Touch(Blocks(tags), assoc, t) == PushRear(PopFront(Blocks(tags)), NewBlock(t));
  }

  /** The promotion check: whatever a well-formed set held before, after
      A distinct blocks, touching the first one again makes it the most
      recent, so block A + 1 evicts the second block instead; the first
      stays resident. */
  lemma PromotionProtects(s: CacheSet, assoc: nat, tags: seq<Word>)
    requires assoc >= 2 && WellFormed(s, assoc, WORD)
    requires |tags| == assoc + 1 && Distinct(tags)
    ensures var r := TouchAll(s, assoc, tags[..assoc] + [tags[0], tags[assoc]]);
            && r == Blocks(tags[2..assoc] + [tags[0], tags[assoc]])
            && HasTag(r, tags[0]) && !HasTag(r, tags[1]) && HasTag(r, tags[assoc])
  {
    var pre := tags[..assoc];
    var mid := tags[1..assoc] + [tags[0]];
    assert Distinct(pre) by {
      forall i, j | 0 <= i < j < |pre|
        ensures pre[i] != pre[j]
      {
        assert pre[i] == tags[i] && pre[j] == tags[j];
      }
    }
    KeepsRecent(s, assoc, pre);
    FullWindow(TouchAll(s, assoc, pre), assoc, pre);
    assert pre[|pre| - assoc..] == pre;
    TouchOldest(assoc, pre);
    MidFacts(assoc, tags);
    TouchNewOnFull(assoc, mid, tags[assoc]);
    TouchAllSnoc(s, assoc, pre, tags[0]);
    TouchAllSnoc(s, assoc, pre + [tags[0]], tags[assoc]);
    Residents(assoc, tags);
  }

  /** The sequences the promotion check passes through. */
  lemma MidFacts(assoc: nat, tags: seq<Word>)
    requires assoc >= 2 && |tags| == assoc + 1 && Distinct(tags)
    ensures var pre, mid := tags[..assoc], tags[1..assoc] + [tags[0]];
            && |pre| == assoc && |mid| == assoc
            && pre[1..] + [pre[0]] == mid
            && tags[assoc] !in mid
            && mid[1..] + [tags[assoc]] == tags[2..assoc] + [tags[0], tags[assoc]]
            && pre + [tags[0]] + [tags[assoc]] == tags[..assoc] + [tags[0], tags[assoc]]
  {
    var pre, mid := tags[..assoc], tags[1..assoc] + [tags[0]];
    assert pre[1..] == tags[1..assoc];
    assert mid[1..] == tags[2..assoc] + [tags[0]];
    forall k | 0 <= k < |mid|
      ensures mid[k] != tags[assoc]
    {
      if k < assoc - 1 {
        assert mid[k] == tags[k + 1];
      }
    }
  }

  lemma Residents(assoc: nat, tags: seq<Word>)
    requires assoc >= 2 && |tags| == assoc + 1 && Distinct(tags)
    ensures var last := Blocks(tags[2..assoc] + [tags[0], tags[assoc]]);
            HasTag(last, tags[0]) && !HasTag(last, tags[1]) && HasTag(last, tags[assoc])
  {
    var last := tags[2..assoc] + [tags[0], tags[assoc]];
    BlocksHasTag(last, tags[0]);
    BlocksHasTag(last, tags[1]);
    BlocksHasTag(last, tags[assoc]);
    assert last[|last| - 2] == tags[0] && last[|last| - 1] == tags[assoc];
    forall k | 0 <= k < |last|
      ensures last[k] != tags[1]
    {
      if k < assoc - 2 {
        assert last[k] == tags[k + 2];
      }
    }
  }
}
