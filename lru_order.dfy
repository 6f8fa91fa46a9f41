/**
  What LRU's resident sequence means: the most recently used distinct pages,
  least recently used first. This is the claim that an access-ordered set
  lists the resident pages by increasing last use, and it gives LRU's
  inclusion property: more frames never cause more faults.
*/
module LruOrder {
  import opened Paging

  /** The position of the last reference to `x` in `refs`, or -1 when there is none. */
  function LastUse(refs: seq<Page>, x: Page): (i: int)
    ensures -1 <= i < |refs|
    ensures i >= 0 <==> x in refs
    ensures i >= 0 ==> refs[i] == x
    decreases |refs|
  {
    if refs == [] then -1
    else if refs[|refs| - 1] == x then |refs| - 1
    else
      assert refs == refs[..|refs| - 1] + [refs[|refs| - 1]];
      LastUse(refs[..|refs| - 1], x)
  }

  lemma LastUseOfPrefix(refs: seq<Page>)
    requires refs != []
    ensures forall x :: LastUse(refs, x) ==
              if x == refs[|refs| - 1] then |refs| - 1 else LastUse(refs[..|refs| - 1], x)
  {
  }

  /** No reference after the one `LastUse` returns names the page again. */
  lemma {:induction false} LastUseIsLast(refs: seq<Page>, x: Page)
    ensures forall j :: LastUse(refs, x) < j < |refs| ==> refs[j] != x
    decreases |refs|
  {
    if refs != [] && refs[|refs| - 1] != x {
      LastUseIsLast(refs[..|refs| - 1], x);
    }
  }

  /** The pages of `s` were last used in strictly increasing order. */
  predicate IncreasingUse(refs: seq<Page>, s: seq<Page>) {
    forall i, j :: 0 <= i < j < |s| ==> LastUse(refs, s[i]) < LastUse(refs, s[j])
  }

  /** Every page of `refs` missing from `s` was last used before the head of `s`. */
  predicate OthersUsedEarlier(refs: seq<Page>, s: seq<Page>) {
    forall y :: y in refs && y !in s ==> s != [] && LastUse(refs, y) < LastUse(refs, s[0])
  }

  /**
    `resident` is exactly the `min(frames, distinct pages)` most recently used
    pages of `refs`, ordered by increasing last use.
  */
  predicate RecencyOrdered(refs: seq<Page>, frames: int, resident: seq<Page>) {
    && Distinct(resident)
    && |resident| == Min(frames, |Pages(refs)|)
    && (forall x :: x in resident ==> x in refs)
    && IncreasingUse(refs, resident)
    && OthersUsedEarlier(refs, resident)
  }

  /** In a recency-ordered sequence the head is the least recently used page. */
  lemma HeadIsLeastRecent(refs: seq<Page>, s: seq<Page>)
    requires IncreasingUse(refs, s)
    ensures forall z :: z in s ==> LastUse(refs, s[0]) <= LastUse(refs, z)
  {
    forall z | z in s
      ensures LastUse(refs, s[0]) <= LastUse(refs, z)
    {
      var j :| 0 <= j < |s| && s[j] == z;
      if j > 0 {
        assert LastUse(refs, s[0]) < LastUse(refs, s[j]);
      }
    }
  }

  lemma IncreasingUseDrop(refs: seq<Page>, s: seq<Page>, k: nat)
    requires k < |s| && IncreasingUse(refs, s)
    ensures IncreasingUse(refs, s[..k] + s[k + 1..])
  {
    var t := s[..k] + s[k + 1..];
    forall i, j | 0 <= i < j < |t|
      ensures LastUse(refs, t[i]) < LastUse(refs, t[j])
    {
      var i', j' := if i < k then i else i + 1, if j < k then j else j + 1;
      assert t[i] == s[i'] && t[j] == s[j'];
    }
  }

  /** Referencing `p` changes no other page's last use. */
  lemma IncreasingUseExtend(refs: seq<Page>, s: seq<Page>)
    requires refs != [] && refs[|refs| - 1] !in s
    requires IncreasingUse(refs[..|refs| - 1], s)
    ensures IncreasingUse(refs, s)
    ensures forall x :: x in s ==> LastUse(refs, x) < |refs| - 1
  {
    LastUseOfPrefix(refs);
    forall i, j | 0 <= i < j < |s|
      ensures LastUse(refs, s[i]) < LastUse(refs, s[j])
    {
      assert LastUse(refs[..|refs| - 1], s[i]) < LastUse(refs[..|refs| - 1], s[j]);
    }
  }

  lemma IncreasingUseSnoc(refs: seq<Page>, s: seq<Page>, p: Page)
    requires IncreasingUse(refs, s)
    requires forall x :: x in s ==> LastUse(refs, x) < LastUse(refs, p)
    ensures IncreasingUse(refs, s + [p])
  {
    var t := s + [p];
    forall i, j | 0 <= i < j < |t|
      ensures LastUse(refs, t[i]) < LastUse(refs, t[j])
    {
      assert t[i] == s[i] && t[i] in s;
      if j < |s| {
        assert t[j] == s[j];
      }
    }
  }

  /** On a hit the page moves to the most recently used end; the others keep their order. */
  lemma HitKeepsIncreasingUse(refs: seq<Page>, resident: seq<Page>)
    requires refs != [] && Distinct(resident) && refs[|refs| - 1] in resident
    requires IncreasingUse(refs[..|refs| - 1], resident)
    ensures IncreasingUse(refs, Remove(resident, refs[|refs| - 1]) + [refs[|refs| - 1]])
  {
    var init, p := refs[..|refs| - 1], refs[|refs| - 1];
    var k :| 0 <= k < |resident| && resident[k] == p;
    assert p !in resident[..k];
    RemoveAt(resident, k);
    var rest := resident[..k] + resident[k + 1..];
    IncreasingUseDrop(init, resident, k);
    IncreasingUseExtend(refs, rest);
    IncreasingUseSnoc(refs, rest, p);
  }

  /** On a hit every page that is not resident was still used before the new head. */
  lemma HitKeepsOthersEarlier(refs: seq<Page>, frames: int, resident: seq<Page>)
    requires frames > 0 && refs != []
    requires RecencyOrdered(refs[..|refs| - 1], frames, resident)
    requires refs[|refs| - 1] in resident
    ensures OthersUsedEarlier(refs, Remove(resident, refs[|refs| - 1]) + [refs[|refs| - 1]])
  {
    var init, p := refs[..|refs| - 1], refs[|refs| - 1];
    var r := Remove(resident, p) + [p];
    HeadIsLeastRecent(init, resident);
    LastUseOfPrefix(refs);
    forall y | y in refs && y !in r
      ensures r != [] && LastUse(refs, y) < LastUse(refs, r[0])
    {
      assert y != p && y !in resident;
      assert refs == init + [p];
      assert y in init;
      assert LastUse(init, y) < LastUse(init, resident[0]);
      if r[0] != p {
        assert r[0] in resident;
      }
    }
  }

  /** A hit moves the page to the most recently used end and keeps the order. */
  lemma HitKeepsRecencyOrder(refs: seq<Page>, frames: int, resident: seq<Page>)
    requires frames > 0 && refs != []
    requires RecencyOrdered(refs[..|refs| - 1], frames, resident)
    requires refs[|refs| - 1] in resident
    ensures RecencyOrdered(refs, frames, Access(LeastRecentlyUsed, frames, resident, refs[|refs| - 1]))
  {
    var init, p := refs[..|refs| - 1], refs[|refs| - 1];
    PagesOfPrefix(refs);
    assert Pages(refs) == Pages(init);
    var r := Access(LeastRecentlyUsed, frames, resident, p);
    assert r == Remove(resident, p) + [p];
    HitKeepsIncreasingUse(refs, resident);
    HitKeepsOthersEarlier(refs, frames, resident);
    assert forall x :: x in init ==> x in refs;
  }

  /** While a frame is free, every page referenced so far is still resident. */
  lemma FreeFrameHoldsAll(refs: seq<Page>, frames: int, resident: seq<Page>)
    requires RecencyOrdered(refs, frames, resident) && |resident| < frames
    ensures forall x :: x in refs ==> x in resident
  {
    DistinctCard(resident);
    assert Pages(resident) <= Pages(refs);
    SubsetCard(Pages(resident), Pages(refs));
    assert forall x :: x in refs ==> x in Pages(refs);
  }

  /** A fault with a free frame appends a page that was never referenced before. */
  lemma FillKeepsRecencyOrder(refs: seq<Page>, frames: int, resident: seq<Page>)
    requires frames > 0 && refs != []
    requires RecencyOrdered(refs[..|refs| - 1], frames, resident)
    requires refs[|refs| - 1] !in resident && |resident| < frames
    ensures refs[|refs| - 1] !in refs[..|refs| - 1]
    ensures RecencyOrdered(refs, frames, Access(LeastRecentlyUsed, frames, resident, refs[|refs| - 1]))
  {
    var init, p := refs[..|refs| - 1], refs[|refs| - 1];
    FreeFrameHoldsAll(init, frames, resident);
    PagesOfPrefix(refs);
    assert p !in Pages(init);
    var r := Access(LeastRecentlyUsed, frames, resident, p);
    assert r == resident + [p];
    IncreasingUseExtend(refs, resident);
    IncreasingUseSnoc(refs, resident, p);
    assert refs == init + [p];
    assert forall x :: x in refs ==> x in r;
    assert forall x :: x in r ==> x in refs;
  }

  /** After an eviction the evicted page and the older ones were used before the new head. */
  lemma EvictKeepsOthersEarlier(refs: seq<Page>, frames: int, resident: seq<Page>)
    requires frames > 0 && refs != []
    requires RecencyOrdered(refs[..|refs| - 1], frames, resident)
    requires refs[|refs| - 1] !in resident && |resident| == frames
    ensures OthersUsedEarlier(refs, resident[1..] + [refs[|refs| - 1]])
  {
    var init, p := refs[..|refs| - 1], refs[|refs| - 1];
    var r := resident[1..] + [p];
    LastUseOfPrefix(refs);
    forall y | y in refs && y !in r
      ensures r != [] && LastUse(refs, y) < LastUse(refs, r[0])
    {
      assert y != p;
      assert refs == init + [p];
      assert y in init;
      if frames > 1 {
        assert r[0] == resident[1];
        assert LastUse(init, resident[0]) < LastUse(init, resident[1]);
        if y != resident[0] {
          assert y !in resident;
          assert LastUse(init, y) < LastUse(init, resident[0]);
        }
      }
    }
  }

  /** A fault with every frame taken evicts the least recently used page. */
  lemma EvictKeepsRecencyOrder(refs: seq<Page>, frames: int, resident: seq<Page>)
    requires frames > 0 && refs != []
    requires RecencyOrdered(refs[..|refs| - 1], frames, resident)
    requires refs[|refs| - 1] !in resident && |resident| == frames
    ensures RecencyOrdered(refs, frames, Access(LeastRecentlyUsed, frames, resident, refs[|refs| - 1]))
  {
    var init, p := refs[..|refs| - 1], refs[|refs| - 1];
    PagesOfPrefix(refs);
    SubsetCard(Pages(init), Pages(refs));
    var rest := resident[1..];
    var r := Access(LeastRecentlyUsed, frames, resident, p);
    assert r == rest + [p];
    IncreasingUseDrop(init, resident, 0);
    assert resident[..0] + resident[1..] == rest;
    assert p !in rest;
    IncreasingUseExtend(refs, rest);
    LastUseOfPrefix(refs);
    IncreasingUseSnoc(refs, rest, p);
    EvictKeepsOthersEarlier(refs, frames, resident);
  }

  /** The LRU run keeps its resident pages recency-ordered after every reference. */
  lemma {:induction false} LruResidentRecencyOrdered(frames: int, refs: seq<Page>)
    requires frames > 0
    ensures RecencyOrdered(refs, frames, Run(LeastRecentlyUsed, frames, refs).resident)
    decreases |refs|
  {
    if refs == [] {
      assert Pages(refs) == {};
    } else {
      var init, p := refs[..|refs| - 1], refs[|refs| - 1];
      LruResidentRecencyOrdered(frames, init);
      var prev := Run(LeastRecentlyUsed, frames, init).resident;
      if p in prev {
        HitKeepsRecencyOrder(refs, frames, prev);
      } else if |prev| < frames {
        FillKeepsRecencyOrder(refs, frames, prev);
      } else {
        EvictKeepsRecencyOrder(refs, frames, prev);
      }
    }
  }

  /**
    Inclusion property: the pages LRU keeps with fewer frames are also kept
    with more frames, after any reference string.
  */
  lemma LruInclusion(refs: seq<Page>, small: int, large: int)
    requires 0 < small <= large
    ensures Pages(Run(LeastRecentlyUsed, small, refs).resident) <= Pages(Run(LeastRecentlyUsed, large, refs).resident)
  {
    var a := Run(LeastRecentlyUsed, small, refs).resident;
    var b := Run(LeastRecentlyUsed, large, refs).resident;
    LruResidentRecencyOrdered(small, refs);
    LruResidentRecencyOrdered(large, refs);
    HeadIsLeastRecent(refs, a);
    HeadIsLeastRecent(refs, b);
    forall x | x in Pages(a)
      ensures x in Pages(b)
    {
      if x !in b {
        assert x in refs;
        forall z | z in Pages(b)
          ensures z in Pages(a) - {x}
        {
          assert LastUse(refs, x) < LastUse(refs, b[0]) <= LastUse(refs, z);
        }
        SubsetCard(Pages(b), Pages(a) - {x});
        DistinctCard(a);
        DistinctCard(b);
        assert false;
      }
    }
  }

  /** LRU never faults more when it is given more frames (it has no Belady anomaly). */
  lemma {:induction false} LruFaultsMonotone(refs: seq<Page>, small: int, large: int)
    requires 0 < small <= large
    ensures Run(LeastRecentlyUsed, large, refs).faults <= Run(LeastRecentlyUsed, small, refs).faults
    decreases |refs|
  {
    if refs != [] {
      var init, p := refs[..|refs| - 1], refs[|refs| - 1];
      LruFaultsMonotone(init, small, large);
      LruInclusion(init, small, large);
      assert p in Run(LeastRecentlyUsed, small, init).resident ==> p in Pages(Run(LeastRecentlyUsed, small, init).resident);
    }
  }
}
