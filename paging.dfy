/**
  Vocabulary shared by every page-replacement simulator: pages, the resident
  sequence of a run, the effect of one reference and a whole run.

  Both policies keep the resident pages in a sequence whose head is the next
  page to evict. They differ only on a hit: FIFO leaves the sequence alone,
  LRU moves the referenced page to the tail (the most recently used end).
*/
module Paging {

  /** A page identifier (a Java `int`; only equality is used). */
  type Page = int

  datatype Policy = FirstInFirstOut | LeastRecentlyUsed

  predicate Distinct(s: seq<Page>) {
    forall i, j :: 0 <= i < j < |s| ==> s[i] != s[j]
  }

  /** The pages occurring in a sequence. */
  function Pages(s: seq<Page>): set<Page> {
    set x | x in s
  }

  function Min(a: int, b: int): int {
    if a <= b then a else b
  }

  lemma PagesSnoc(s: seq<Page>, p: Page)
    ensures Pages(s + [p]) == Pages(s) + {p}
  {
    assert forall x :: x in s + [p] <==> x in s || x == p;
  }

  lemma PagesOfPrefix(s: seq<Page>)
    requires s != []
    ensures Pages(s) == Pages(s[..|s| - 1]) + {s[|s| - 1]}
  {
    assert s == s[..|s| - 1] + [s[|s| - 1]];
    PagesSnoc(s[..|s| - 1], s[|s| - 1]);
  }

  /** Without repetitions, dropping the head removes exactly that page. */
  lemma DropHeadMembers(s: seq<Page>)
    requires Distinct(s) && s != []
    ensures forall x :: x in s[1..] <==> x in s && x != s[0]
  {
    assert forall x :: x in s <==> x == s[0] || x in s[1..];
  }

  /** A sequence without repetitions has as many pages as elements. */
  lemma {:induction false} DistinctCard(s: seq<Page>)
    requires Distinct(s)
    ensures |Pages(s)| == |s|
  {
    if s != [] {
      var init := s[..|s| - 1];
      assert Distinct(init);
      DistinctCard(init);
      PagesOfPrefix(s);
      assert s[|s| - 1] !in init;
    }
  }

  lemma SubsetCard(a: set<Page>, b: set<Page>)
    requires a <= b
    ensures |a| <= |b|
    ensures |a| == |b| ==> a == b
  {
    assert b == a + (b - a);
    assert |b| == |a| + |b - a|;
    if |a| == |b| {
      assert |b - a| == 0;
    }
  }

  /** `s` with the first occurrence of `x` removed (`LinkedHashSet.remove`). */
  function Remove(s: seq<Page>, x: Page): (r: seq<Page>)
    ensures x !in s ==> r == s
    ensures x in s ==> |r| == |s| - 1
    ensures forall y :: y in r ==> y in s
    ensures Distinct(s) ==> Distinct(r) && x !in r && forall y :: y in s && y != x ==> y in r
  {
    if s == [] then []
    else if s[0] == x then s[1..]
    else
      var rest := Remove(s[1..], x);
      assert Distinct(s) ==> s[0] !in s[1..];
      [s[0]] + rest
  }

  /** Removing a page keeps the others in their order: it cuts out its position. */
  lemma {:induction false} RemoveAt(s: seq<Page>, k: nat)
    requires k < |s| && s[k] !in s[..k]
    ensures Remove(s, s[k]) == s[..k] + s[k + 1..]
  {
    if k > 0 {
      assert s[k] != s[0];
      assert s[1..][k - 1] == s[k];
      assert s[1..][..k - 1] == s[1..k];
      RemoveAt(s[1..], k - 1);
      assert s[1..][k..] == s[k + 1..];
    }
  }

  /**
    The resident sequence after referencing `p` with `frames` frames: on a
    hit FIFO keeps it and LRU moves `p` to the tail; on a fault with every
    frame taken the head is evicted; a faulting page is appended at the tail.
  */
  function Access(policy: Policy, frames: int, resident: seq<Page>, p: Page): (r: seq<Page>)
    requires frames > 0 && Distinct(resident) && |resident| <= frames
    ensures Distinct(r) && |r| <= frames && p in r
  {
    if p in resident then
      if policy == FirstInFirstOut then resident
      else Remove(resident, p) + [p]
    else if |resident| == frames then
      resident[1..] + [p]
    else
      resident + [p]
  }

  /** Membership after an access, page by page: the accessed page, and every other page except an evicted head. */
  lemma AccessMembers(policy: Policy, frames: int, resident: seq<Page>, p: Page)
    requires frames > 0 && Distinct(resident) && |resident| <= frames
    ensures forall x :: x in Access(policy, frames, resident, p) <==>
              x == p || (x in resident && !(p !in resident && |resident| == frames && x == resident[0]))
  {
    if p !in resident && |resident| == frames {
      assert forall x :: x in resident <==> x == resident[0] || x in resident[1..];
      assert resident[0] !in resident[1..];
    }
  }

  /** A hit keeps the same resident pages, under either policy. */
  lemma HitMembers(policy: Policy, frames: int, resident: seq<Page>, p: Page)
    requires frames > 0 && Distinct(resident) && |resident| <= frames && p in resident
    ensures forall x :: x in Access(policy, frames, resident, p) <==> x in resident
  {
    AccessMembers(policy, frames, resident, p);
  }

  /** A fault with a free frame adds the page and keeps every other one. */
  lemma FillMembers(policy: Policy, frames: int, resident: seq<Page>, p: Page)
    requires frames > 0 && Distinct(resident) && |resident| < frames && p !in resident
    ensures forall x :: x in Access(policy, frames, resident, p) <==> x == p || x in resident
  {
  }

  /** A fault with every frame taken swaps the head for the page. */
  lemma EvictMembers(policy: Policy, frames: int, resident: seq<Page>, p: Page)
    requires frames > 0 && Distinct(resident) && |resident| == frames && p !in resident
    ensures forall x :: x in Access(policy, frames, resident, p) <==> x == p || (x in resident && x != resident[0])
  {
    DropHeadMembers(resident);
  }

  /** The state of a simulation: resident pages (head evicted next) and faults so far. */
  datatype Sim = Sim(resident: seq<Page>, faults: nat)

  /**
    The simulation of `refs` from empty memory: every reference is a fault
    exactly when its page is not resident at that moment.
  */
  function Run(policy: Policy, frames: int, refs: seq<Page>): (s: Sim)
    requires frames > 0
    ensures Distinct(s.resident) && |s.resident| <= frames
    ensures s.faults <= |refs|
    ensures refs != [] ==> refs[|refs| - 1] in s.resident
    decreases |refs|
  {
    if refs == [] then Sim([], 0)
    else
      var prev := Run(policy, frames, refs[..|refs| - 1]);
      var p := refs[|refs| - 1];
      Sim(Access(policy, frames, prev.resident, p), if p in prev.resident then prev.faults else prev.faults + 1)
  }

  /** Reference `i` performs one more access on the run so far and counts a fault exactly on a miss. */
  lemma RunStep(policy: Policy, frames: int, refs: seq<Page>, i: nat)
    requires frames > 0 && i < |refs|
    ensures var prev := Run(policy, frames, refs[..i]);
            Run(policy, frames, refs[..i + 1])
            == Sim(Access(policy, frames, prev.resident, refs[i]), if refs[i] in prev.resident then prev.faults else prev.faults + 1)
  {
    assert refs[..i + 1][..i] == refs[..i];
  }

  /** A run only ever holds pages that were referenced. */
  lemma {:induction false} ResidentReferenced(policy: Policy, frames: int, refs: seq<Page>)
    requires frames > 0
    ensures forall x :: x in Run(policy, frames, refs).resident ==> x in refs
    decreases |refs|
  {
    if refs != [] {
      var init, p := refs[..|refs| - 1], refs[|refs| - 1];
      ResidentReferenced(policy, frames, init);
      AccessMembers(policy, frames, Run(policy, frames, init).resident, p);
      assert forall x :: x in init ==> x in refs;
    }
  }

  /** Every distinct page faults at least once: on its first reference it cannot be resident. */
  lemma {:induction false} FaultsAtLeastDistinct(policy: Policy, frames: int, refs: seq<Page>)
    requires frames > 0
    ensures |Pages(refs)| <= Run(policy, frames, refs).faults
    decreases |refs|
  {
    if refs != [] {
      var init, p := refs[..|refs| - 1], refs[|refs| - 1];
      FaultsAtLeastDistinct(policy, frames, init);
      PagesOfPrefix(refs);
      if p !in init {
        assert p !in Pages(init);
        ResidentReferenced(policy, frames, init);
      } else {
        assert Pages(refs) == Pages(init);
      }
    }
  }

  /**
    With at least as many frames as distinct pages nothing is ever evicted:
    every distinct page faults exactly once and all of them end up resident.
  */
  lemma {:induction false} NoEvictionWhenEnoughFrames(policy: Policy, frames: int, refs: seq<Page>)
    requires frames > 0 && |Pages(refs)| <= frames
    ensures Run(policy, frames, refs).faults == |Pages(refs)|
    ensures Pages(Run(policy, frames, refs).resident) == Pages(refs)
    decreases |refs|
  {
    if refs != [] {
      var init, p := refs[..|refs| - 1], refs[|refs| - 1];
      PagesOfPrefix(refs);
      SubsetCard(Pages(init), Pages(refs));
      NoEvictionWhenEnoughFrames(policy, frames, init);
      var prev := Run(policy, frames, init);
      if p !in init {
        assert p !in Pages(prev.resident);
        DistinctCard(prev.resident);
        assert |prev.resident| < frames;
        PagesSnoc(prev.resident, p);
      } else {
        assert p in Pages(prev.resident);
      }
    }
  }

  /** A reference string naming one page only faults once, with any number of frames. */
  lemma RepeatedPageFaultsOnce(policy: Policy, frames: int, refs: seq<Page>, p: Page)
    requires frames > 0 && refs != []
    requires forall i :: 0 <= i < |refs| ==> refs[i] == p
    ensures Run(policy, frames, refs).faults == 1
  {
    assert refs[0] in refs;
    assert Pages(refs) == {p};
    NoEvictionWhenEnoughFrames(policy, frames, refs);
  }
}
