/** One cache set as an LRU queue. The C code keeps a doubly-linked list
    with front and rear pointers; here the set is the sequence of its
    blocks in recency order: index 0 is the least recently used block
    (the front), the last index the most recently used one (the rear). */
module LruSet {
  import opened Bits

  datatype Option<T> = None | Some(value: T)

  /** A resident line. `dirty` is carried along as the C struct does, but
      every block is created clean and nothing ever sets or reads it. */
  datatype Block = Block(tag: Word, valid: bool, dirty: bool)

  type CacheSet = seq<Block>

  /** `create_cache_block(tag, 1, 0)`: the block a miss brings in. */
  function NewBlock(tag: Word): (b: Block)
  {
    Block(tag, true, false)
  }

  predicate HasTag(s: CacheSet, tag: nat)
  {
    exists i :: 0 <= i < |s| && s[i].tag == tag
  }

  predicate DistinctTags(s: CacheSet)
  {
    forall i, j :: 0 <= i < j < |s| ==> s[i].tag != s[j].tag
  }

  /** The state a set keeps between accesses: no more blocks than the
      associativity, no tag twice, every block valid and clean, and every
      tag below `tagLimit` (what fits above the index and offset bits). */
  predicate WellFormed(s: CacheSet, assoc: nat, tagLimit: nat)
  {
    && |s| <= assoc
    && DistinctTags(s)
    && forall i :: 0 <= i < |s| ==> s[i].valid && !s[i].dirty && s[i].tag < tagLimit
  }

  /** A set without the tag has no position for it. */
  lemma FindNone(s: CacheSet, tag: nat)
    requires !HasTag(s, tag)
    ensures Find(s, tag) == None
  {
  }

  /** The scan of the access and invalidation loops: the position of the
      first block, front to rear, whose tag matches. */
  function Find(s: CacheSet, tag: nat): (r: Option<nat>)
    ensures r.Some? ==> r.value < |s| && s[r.value].tag == tag
    ensures r.Some? ==> forall j :: 0 <= j < r.value ==> s[j].tag != tag
    ensures r.None? <==> !HasTag(s, tag)
  {
    if |s| == 0 then None
    else if s[0].tag == tag then Some(0)
    else
      match Find(s[1..], tag)
      case None =>
        assert forall i :: 1 <= i < |s| ==> s[i] == s[1..][i - 1];
        None
      case Some(i) => Some(i + 1)
  }

  /** `pop_blk_from_set`: drop the front (least recently used) block; an
      empty set is left as it is. */
  function PopFront(s: CacheSet): (r: CacheSet)
    ensures |s| == 0 ==> r == s
    ensures |s| > 0 ==> [s[0]] + r == s
  {
    if |s| == 0 then s else s[1..]
  }

  /** `push_blk_into_set`: the block becomes the rear (most recently used). */
  function PushRear(s: CacheSet, b: Block): (r: CacheSet)
    ensures |r| == |s| + 1 && r[|s|] == b
    ensures forall j :: 0 <= j < |s| ==> r[j] == s[j]
  {
    s + [b]
  }

  datatype Popped = Popped(block: Block, rest: CacheSet)

  /** `pop_set_index`: unlink the block at position i. The others keep
      their relative order and close the gap. */
  function PopAt(s: CacheSet, i: nat): (p: Popped)
    requires i < |s|
    ensures p.block == s[i]
    ensures |p.rest| == |s| - 1
    ensures forall j :: 0 <= j < i ==> p.rest[j] == s[j]
    ensures forall j :: i <= j < |p.rest| ==> p.rest[j] == s[j + 1]
  {
    Popped(s[i], s[..i] + s[i + 1..])
  }

  /** Putting the popped block back where it was gives the set again. */
  lemma PopAtReinsert(s: CacheSet, i: nat)
    requires i < |s|
    ensures var p := PopAt(s, i); p.rest[..i] + [p.block] + p.rest[i..] == s
  {
    var p := PopAt(s, i);
    var t := p.rest[..i] + [p.block] + p.rest[i..];
    assert |t| == |s|;
    forall j | 0 <= j < |s|
      ensures t[j] == s[j]
    {
      if j < i {
      } else if j == i {
      } else {
        assert t[j] == p.rest[j - 1];
      }
    }
  }

  /** The hit path: pop the matching block and push it to the rear. */
  function Promote(s: CacheSet, i: nat): (r: CacheSet)
    requires i < |s|
    ensures |r| == |s| && r[|s| - 1] == s[i]
    ensures forall j :: 0 <= j < i ==> r[j] == s[j]
    ensures forall j :: i <= j < |s| - 1 ==> r[j] == s[j + 1]
  {
    var p := PopAt(s, i);
    PushRear(p.rest, p.block)
  }

  /** Promoting the most recently used block changes nothing. */
  lemma PromoteMostRecent(s: CacheSet, i: nat)
    requires i < |s| && i == |s| - 1
    ensures Promote(s, i) == s
  {
    var r := Promote(s, i);
    assert forall j :: 0 <= j < |s| ==> r[j] == s[j];
  }

  /** Promotion only reorders: the same blocks, the same tags. */
  lemma PromotePermutes(s: CacheSet, i: nat)
    requires i < |s|
    ensures multiset(Promote(s, i)) == multiset(s)
  {
    var r := Promote(s, i);
    PopAtReinsert(s, i);
    var p := PopAt(s, i);
    assert r == p.rest + [p.block];
    assert s == p.rest[..i] + [p.block] + p.rest[i..];
    assert p.rest == p.rest[..i] + p.rest[i..];
    calc {
      multiset(s);
      multiset(p.rest[..i]) + multiset{p.block} + multiset(p.rest[i..]);
      multiset(p.rest[..i] + p.rest[i..]) + multiset{p.block};
      multiset(r);
    }
  }

  /** Promotion keeps the set of resident tags and their distinctness. */
  lemma PromoteKeepsTags(s: CacheSet, i: nat)
    requires i < |s|
    ensures forall t :: HasTag(Promote(s, i), t) <==> HasTag(s, t)
    ensures DistinctTags(Promote(s, i)) <==> DistinctTags(s)
  {
    var r := Promote(s, i);
    var n := |s|;
    forall t
      ensures HasTag(r, t) <==> HasTag(s, t)
    {
      if HasTag(r, t) {
        var k :| 0 <= k < n && r[k].tag == t;
        assert s[Origin(k, i, n)] == r[k];
      }
      if HasTag(s, t) {
        var k :| 0 <= k < n && s[k].tag == t;
        assert r[Target(k, i, n)] == s[k];
      }
    }
    if DistinctTags(s) {
      forall a, b | 0 <= a < b < n
        ensures r[a].tag != r[b].tag
      {
        assert r[a] == s[Origin(a, i, n)] && r[b] == s[Origin(b, i, n)];
      }
    }
    if DistinctTags(r) {
      forall a, b | 0 <= a < b < n
        ensures s[a].tag != s[b].tag
      {
        assert s[a] == r[Target(a, i, n)] && s[b] == r[Target(b, i, n)];
      }
    }
  }

  /** Where the block at position j after promoting position i came from. */
  function Origin(j: nat, i: nat, n: nat): (k: nat)
    requires j < n && i < n
    ensures k < n
  {
    if j == n - 1 then i else if j < i then j else j + 1
  }

  /** Where the block at position j goes when position i is promoted. */
  function Target(j: nat, i: nat, n: nat): (k: nat)
    requires j < n && i < n
    ensures k < n
  {
    if j == i then n - 1 else if j < i then j else j - 1
  }

  /** The miss path: if the set is at its associativity, drop the front
      block, then push the new block to the rear. */
  function Insert(s: CacheSet, assoc: nat, b: Block): (r: CacheSet)
    ensures |r| >= 1 && r[|r| - 1] == b
    ensures |s| == assoc && |s| > 0 ==>
              |r| == |s| && forall j :: 0 <= j < |s| - 1 ==> r[j] == s[j + 1]
    ensures !(|s| == assoc && |s| > 0) ==>
              |r| == |s| + 1 && forall j :: 0 <= j < |s| ==> r[j] == s[j]
  {
    PushRear(if |s| == assoc then PopFront(s) else s, b)
  }

  /** How many blocks an insertion drops from the front: one exactly
      when the set is full. */
  function Dropped(s: CacheSet, assoc: nat): (d: nat)
    ensures d <= 1 && d <= |s|
  {
    if |s| == assoc && |s| > 0 then 1 else 0
  }

  /** An insertion keeps a suffix of the set and appends the block. */
  lemma InsertIsSuffix(s: CacheSet, assoc: nat, b: Block)
    ensures Insert(s, assoc, b) == s[Dropped(s, assoc)..] + [b]
  {
  }

  /** The tags of the set without its first d blocks, d at most 1. */
  lemma SuffixTags(s: CacheSet, d: nat, t: nat)
    requires DistinctTags(s) && d <= 1 && d <= |s|
    ensures HasTag(s[d..], t) <==> HasTag(s, t) && !(d == 1 && t == s[0].tag)
  {
    if HasTag(s[d..], t) {
      var k :| 0 <= k < |s| - d && s[d..][k].tag == t;
      assert s[k + d].tag == t;
    }
    if HasTag(s, t) && !(d == 1 && t == s[0].tag) {
      var k :| 0 <= k < |s| && s[k].tag == t;
      assert s[d..][k - d] == s[k];
    }
  }

  lemma SnocTags(u: CacheSet, b: Block, t: nat)
    ensures HasTag(u + [b], t) <==> HasTag(u, t) || t == b.tag
  {
    if HasTag(u + [b], t) && t != b.tag {
      var k :| 0 <= k < |u| + 1 && (u + [b])[k].tag == t;
      assert u[k].tag == t;
    }
    if HasTag(u, t) {
      var k :| 0 <= k < |u| && u[k].tag == t;
      assert (u + [b])[k] == u[k];
    }
    assert (u + [b])[|u|] == b;
  }

  /** A block whose tag the set lacks keeps the tags distinct. */
  lemma SnocDistinct(u: CacheSet, b: Block)
    requires DistinctTags(u) && !HasTag(u, b.tag)
    ensures DistinctTags(u + [b])
  {
    var r := u + [b];
    forall x, y | 0 <= x < y < |r|
      ensures r[x].tag != r[y].tag
    {
      assert r[x] == u[x];
      if y == |u| {
        assert r[y] == b;
      } else {
        assert r[y] == u[y];
      }
    }
  }

  /** An empty set takes the block and holds nothing else. */
  lemma InsertIntoEmpty(assoc: nat, b: Block)
    ensures Insert([], assoc, b) == [b]
  {
  }

  /** Inserting a tag the set lacks keeps the set well formed. */
  lemma InsertKeepsWellFormed(s: CacheSet, assoc: nat, tagLimit: nat, b: Block)
    requires assoc >= 1 && WellFormed(s, assoc, tagLimit)
    requires b.valid && !b.dirty && b.tag < tagLimit
    requires !HasTag(s, b.tag)
    ensures WellFormed(Insert(s, assoc, b), assoc, tagLimit)
  {
    var d := Dropped(s, assoc);
    var u := s[d..];
    InsertIsSuffix(s, assoc, b);
    assert DistinctTags(u) by {
      forall x, y | 0 <= x < y < |u|
        ensures u[x].tag != u[y].tag
      {
        assert u[x] == s[x + d] && u[y] == s[y + d];
      }
    }
    SuffixTags(s, d, b.tag);
    SnocDistinct(u, b);
    var r := u + [b];
    forall k | 0 <= k < |r|
      ensures r[k].valid && !r[k].dirty && r[k].tag < tagLimit
    {
      if k < |u| {
        assert r[k] == s[k + d];
      }
    }
  }

  /** After inserting a block, the resident tags are the old ones plus the
      new one, less the front tag exactly when the set was full. */
  lemma InsertTags(s: CacheSet, assoc: nat, b: Block)
    requires DistinctTags(s)
    ensures forall t :: HasTag(Insert(s, assoc, b), t)
              <==> t == b.tag || (HasTag(s, t) && !(|s| == assoc && t == s[0].tag))
  {
    var d := Dropped(s, assoc);
    InsertIsSuffix(s, assoc, b);
    forall t
      ensures HasTag(Insert(s, assoc, b), t)
              <==> t == b.tag || (HasTag(s, t) && !(|s| == assoc && t == s[0].tag))
    {
      SnocTags(s[d..], b, t);
      SuffixTags(s, d, t);
    }
  }

  /** `invalidate_icache` / `invalidate_dcache` on one set: remove the
      first block with the tag, keeping the order of the rest; a set
      without the tag is unchanged. */
  function Invalidate(s: CacheSet, tag: nat): (r: CacheSet)
    ensures !HasTag(s, tag) ==> r == s
    ensures HasTag(s, tag) ==> |r| == |s| - 1
    ensures HasTag(s, tag) ==> var i := Find(s, tag).value; r == s[..i] + s[i + 1..]
    ensures forall t :: HasTag(r, t) ==> HasTag(s, t)
    ensures forall t :: t != tag ==> (HasTag(r, t) <==> HasTag(s, t))
    ensures DistinctTags(s) ==> DistinctTags(r) && !HasTag(r, tag)
  {
    match Find(s, tag)
    case None => s
    case Some(i) =>
      var r := PopAt(s, i).rest;
      InvalidateFacts(s, tag, i);
      r
  }

  lemma InvalidateFacts(s: CacheSet, tag: nat, i: nat)
    requires i < |s| && s[i].tag == tag
    ensures var r := PopAt(s, i).rest;
            && (forall t :: HasTag(r, t) ==> HasTag(s, t))
            && (forall t :: t != tag ==> (HasTag(r, t) <==> HasTag(s, t)))
            && (DistinctTags(s) ==> DistinctTags(r) && !HasTag(r, tag))
  {
    var r := PopAt(s, i).rest;
    forall t | HasTag(r, t)
      ensures HasTag(s, t)
    {
      var k :| 0 <= k < |r| && r[k].tag == t;
      assert r[k] == s[if k < i then k else k + 1];
    }
    forall t | t != tag && HasTag(s, t)
      ensures HasTag(r, t)
    {
      var k :| 0 <= k < |s| && s[k].tag == t;
      if k < i {
        assert r[k] == s[k];
      } else {
        assert k > i;
        assert r[k - 1] == s[k];
      }
    }
    if DistinctTags(s) {
      forall x, y | 0 <= x < y < |r|
        ensures r[x].tag != r[y].tag
      {
        var x', y' := if x < i then x else x + 1, if y < i then y else y + 1;
        assert r[x] == s[x'] && r[y] == s[y'] && x' < y';
      }
      forall k | 0 <= k < |r|
        ensures r[k].tag != tag
      {
        assert r[k] == s[if k < i then k else k + 1];
      }
    }
  }

  /** Removing a block never breaks the set's invariant. */
  lemma InvalidateKeepsWellFormed(s: CacheSet, assoc: nat, tagLimit: nat, tag: nat)
    requires WellFormed(s, assoc, tagLimit)
    ensures WellFormed(Invalidate(s, tag), assoc, tagLimit)
  {
    var r := Invalidate(s, tag);
    match Find(s, tag)
    case None =>
    case Some(i) =>
      assert r == PopAt(s, i).rest;
      forall k | 0 <= k < |r|
        ensures r[k].valid && !r[k].dirty && r[k].tag < tagLimit
      {
        assert r[k] == s[if k < i then k else k + 1];
      }
  }

  /** Promotion never breaks the set's invariant. */
  lemma PromoteKeepsWellFormed(s: CacheSet, assoc: nat, tagLimit: nat, i: nat)
    requires i < |s| && WellFormed(s, assoc, tagLimit)
    ensures WellFormed(Promote(s, i), assoc, tagLimit)
  {
    var r := Promote(s, i);
    PromoteKeepsTags(s, i);
    forall k | 0 <= k < |r|
      ensures r[k].valid && !r[k].dirty && r[k].tag < tagLimit
    {
      assert r[k] == s[Origin(k, i, |s|)];
    }
  }
}
