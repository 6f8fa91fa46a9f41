/**
  The three page-replacement simulators of the bonus exercise and their input
  guard. Each simulator is one pass over the reference string that updates
  local collections in place and counts page faults; each is proved to count
  the faults of the matching policy's `Run`.
*/
module Simulators {
  import opened Wrappers
  import opened Paging
  import LruOrder
  import opened JavaInt

  /**
    FIFO: a queue keeps arrival order and a set answers membership. A page
    that is not in the set faults; with every frame taken the queue head is
    polled and dropped from the set; the new page joins both.
  */
  method Fifo(references: seq<Page>, frames: int) returns (faults: nat)
    requires frames > 0
    ensures faults == Run(FirstInFirstOut, frames, references).faults
    ensures |Pages(references)| <= faults <= |references|
  {
    var memory: seq<Page> := [];   // the queue, oldest page first
    var pages: set<Page> := {};    // the pages of `memory`
    faults := 0;
    for i := 0 to |references|
      invariant Run(FirstInFirstOut, frames, references[..i]) == Sim(memory, faults)
      invariant forall x :: x in pages <==> x in memory
    {
      var page := references[i];
      RunStep(FirstInFirstOut, frames, references, i);
      if page !in pages {
        faults := faults + 1;
        if |memory| == frames {
          var removed := memory[0];
          DropHeadMembers(memory);
          memory := memory[1..];
          pages := pages - {removed};
        }
        memory := memory + [page];
        pages := pages + {page};
      }
    }
    assert references[..|references|] == references;
    FaultsAtLeastDistinct(FirstInFirstOut, frames, references);
  }

  /**
    LRU by scanning: a map from each resident page to the logical time of
    its last use. A fault with every frame taken scans the resident set for
    the smallest time and evicts that page; every reference, hit or fault,
    then stamps its page with the current time.
  */
  method Lru(references: seq<Page>, frames: int) returns (faults: nat)
    requires frames > 0
    requires |references| <= IntMax
    ensures faults == Run(LeastRecentlyUsed, frames, references).faults
    ensures |Pages(references)| <= faults <= |references|
  {
    var lastUse: map<Page, int> := map[];   // page -> time of its last use
    var memory: set<Page> := {};            // the resident pages
    faults := 0;
    var time := 0;
    ghost var resident: seq<Page> := [];    // the same pages, least recently used first
    for i := 0 to |references|
      invariant time == i
      invariant LruState(references[..i], frames, resident, faults, memory, lastUse)
    {
      var page := references[i];
      time := time + 1;
      if page !in memory {
        faults := faults + 1;
        if |memory| == frames {
          StampFacts(references, i, frames, resident, faults - 1, memory, lastUse);
          var victim := ScanLeastRecent(memory, lastUse);
          LruEvict(references, i, frames, resident, faults - 1, memory, lastUse, victim);
          memory := memory - {victim};
          lastUse := lastUse - {victim};
        } else {
          LruFill(references, i, frames, resident, faults - 1, memory, lastUse);
        }
        memory := memory + {page};
      } else {
        LruHit(references, i, frames, resident, faults, memory, lastUse);
      }
      lastUse := lastUse[page := time];
      resident := Access(LeastRecentlyUsed, frames, resident, page);
    }
    assert references[..|references|] == references;
    FaultsAtLeastDistinct(LeastRecentlyUsed, frames, references);
  }

  /**
    What the LRU simulator keeps between references: its set holds the pages
    of the LRU run so far, each stamped with the time of its last use, and
    the stamp map has an entry for exactly those pages.
  */
  ghost predicate LruState(refs: seq<Page>, frames: int, resident: seq<Page>, faults: nat, memory: set<Page>, lastUse: map<Page, int>)
    requires frames > 0
  {
    && Run(LeastRecentlyUsed, frames, refs) == Sim(resident, faults)
    && (forall x :: x in memory <==> x in resident)
    && Stamped(refs, memory, lastUse)
    && (forall x :: x in lastUse ==> x in memory)
  }

  /** Every resident page carries one plus the position of its last reference as its time stamp. */
  ghost predicate Stamped(refs: seq<Page>, memory: set<Page>, lastUse: map<Page, int>) {
    forall x :: x in memory ==> x in lastUse && lastUse[x] == LruOrder.LastUse(refs, x) + 1
  }

  /**
    Before reference `i` the stamped pages are exactly the resident ones, no
    more than `frames` of them; their stamps are distinct times already
    passed, so the scan's `Integer.MAX_VALUE` start exceeds them all.
  */
  lemma StampFacts(refs: seq<Page>, i: nat, frames: int, resident: seq<Page>, faults: nat, memory: set<Page>, lastUse: map<Page, int>)
    requires frames > 0 && i < |refs| <= IntMax
    requires LruState(refs[..i], frames, resident, faults, memory, lastUse)
    ensures lastUse.Keys == memory
    ensures |memory| == |resident| <= frames
    ensures forall x :: x in memory ==> 1 <= lastUse[x] <= i < IntMax
    ensures forall x, y :: x in memory && y in memory && x != y ==> lastUse[x] != lastUse[y]
  {
    SameSize(resident, memory);
    forall x
      ensures x in lastUse.Keys <==> x in memory
    {
      if x in lastUse { assert x in memory; }
    }
    ResidentReferenced(LeastRecentlyUsed, frames, refs[..i]);
    forall x | x in memory
      ensures 1 <= lastUse[x] <= i
    {
      assert x in refs[..i];
    }
    forall x, y | x in memory && y in memory && lastUse[x] == lastUse[y]
      ensures x == y
    {
      var k := LruOrder.LastUse(refs[..i], x);
      assert k >= 0 && refs[..i][k] == x;
    }
  }

  /** Stamping the referenced page with the new time keeps every stamp right. */
  lemma StampedAfterUse(refs: seq<Page>, i: nat, memory0: set<Page>, lastUse: map<Page, int>, memory: set<Page>)
    requires i < |refs|
    requires forall x :: x in memory ==> x in memory0 || x == refs[i]
    requires Stamped(refs[..i], memory0, lastUse)
    ensures Stamped(refs[..i + 1], memory, lastUse[refs[i] := i + 1])
  {
    LruOrder.LastUseOfPrefix(refs[..i + 1]);
    assert refs[..i + 1][..i] == refs[..i];
  }

  /** A hit: the set is unchanged and the page gets the new stamp. */
  lemma LruHit(refs: seq<Page>, i: nat, frames: int, resident: seq<Page>, faults: nat, memory: set<Page>, lastUse: map<Page, int>)
    requires frames > 0 && i < |refs|
    requires LruState(refs[..i], frames, resident, faults, memory, lastUse)
    requires refs[i] in memory
    ensures LruState(refs[..i + 1], frames, Access(LeastRecentlyUsed, frames, resident, refs[i]), faults,
                     memory, lastUse[refs[i] := i + 1])
  {
    RunStep(LeastRecentlyUsed, frames, refs, i);
    HitMembers(LeastRecentlyUsed, frames, resident, refs[i]);
    StampedAfterUse(refs, i, memory, lastUse, memory);
  }

  /** A fault with a free frame: the page joins the set with the new stamp. */
  lemma LruFill(refs: seq<Page>, i: nat, frames: int, resident: seq<Page>, faults: nat, memory: set<Page>, lastUse: map<Page, int>)
    requires frames > 0 && i < |refs|
    requires LruState(refs[..i], frames, resident, faults, memory, lastUse)
    requires refs[i] !in memory && |memory| != frames
    ensures LruState(refs[..i + 1], frames, Access(LeastRecentlyUsed, frames, resident, refs[i]), faults + 1,
                     memory + {refs[i]}, lastUse[refs[i] := i + 1])
  {
    RunStep(LeastRecentlyUsed, frames, refs, i);
    SameSize(resident, memory);
    FillMembers(LeastRecentlyUsed, frames, resident, refs[i]);
    StampedAfterUse(refs, i, memory, lastUse, memory + {refs[i]});
  }

  /** A fault with every frame taken: the page with the smallest stamp leaves, the new page joins. */
  lemma LruEvict(refs: seq<Page>, i: nat, frames: int, resident: seq<Page>, faults: nat, memory: set<Page>, lastUse: map<Page, int>,
                 victim: Page)
    requires frames > 0 && i < |refs|
    requires LruState(refs[..i], frames, resident, faults, memory, lastUse)
    requires refs[i] !in memory && |memory| == frames
    requires victim in memory
    requires forall x :: x in memory ==> lastUse[victim] <= lastUse[x]
    ensures LruState(refs[..i + 1], frames, Access(LeastRecentlyUsed, frames, resident, refs[i]), faults + 1,
                     memory - {victim} + {refs[i]}, (lastUse - {victim})[refs[i] := i + 1])
  {
    RunStep(LeastRecentlyUsed, frames, refs, i);
    SameSize(resident, memory);
    LeastStampIsHead(refs[..i], frames, resident, memory, lastUse, victim);
    EvictedMemory(frames, resident, memory, refs[i]);
    StampedAfterEvict(refs[..i], memory, lastUse, victim);
    StampedAfterUse(refs, i, memory - {victim}, lastUse - {victim}, memory - {victim} + {refs[i]});
  }

  /** Dropping the head from the set and adding the page gives the members of the access. */
  lemma EvictedMemory(frames: int, resident: seq<Page>, memory: set<Page>, p: Page)
    requires frames > 0 && Distinct(resident) && |resident| == frames && p !in resident
    requires forall x :: x in memory <==> x in resident
    ensures forall x :: x in memory - {resident[0]} + {p} <==> x in Access(LeastRecentlyUsed, frames, resident, p)
  {
    EvictMembers(LeastRecentlyUsed, frames, resident, p);
  }

  /** Evicting a page and forgetting its stamp keeps the other stamps. */
  lemma StampedAfterEvict(refs: seq<Page>, memory: set<Page>, lastUse: map<Page, int>, victim: Page)
    requires Stamped(refs, memory, lastUse)
    ensures Stamped(refs, memory - {victim}, lastUse - {victim})
  {
  }

  /** A set with the same members as a sequence without repetitions has its length. */
  lemma SameSize(resident: seq<Page>, memory: set<Page>)
    requires Distinct(resident)
    requires forall x :: x in memory <==> x in resident
    ensures |memory| == |resident|
  {
    DistinctCard(resident);
    forall x
      ensures x in memory <==> x in Pages(resident)
    {
    }
    assert memory == Pages(resident);
  }

  /**
    LRU with an access-ordered set: a hit moves the page to the end, a fault
    with every frame taken removes the first (least recently used) page, and
    a faulting page is added at the end.
  */
  method LruOptimized(references: seq<Page>, frames: int) returns (faults: nat)
    requires frames > 0
    ensures faults == Run(LeastRecentlyUsed, frames, references).faults
    ensures |Pages(references)| <= faults <= |references|
  {
    var memory: seq<Page> := [];   // the LinkedHashSet in iteration order
    faults := 0;
    for i := 0 to |references|
      invariant Run(LeastRecentlyUsed, frames, references[..i]) == Sim(memory, faults)
    {
      var page := references[i];
      assert references[..i + 1][..i] == references[..i];
      if page in memory {
        memory := Remove(memory, page);
        memory := memory + [page];
      } else {
        faults := faults + 1;
        if |memory| == frames {
          var lruPage := memory[0];
          memory := Remove(memory, lruPage);
        }
        memory := memory + [page];
      }
    }
    assert references[..|references|] == references;
    FaultsAtLeastDistinct(LeastRecentlyUsed, frames, references);
  }

  /**
    The scan of the LRU simulator: starting from the sentinel page -1 and
    `Integer.MAX_VALUE`, keep the page with the smallest time seen so far.
  */
  method ScanLeastRecent(memory: set<Page>, lastUse: map<Page, int>) returns (lruPage: Page)
    requires memory != {} && memory <= lastUse.Keys
    requires forall x :: x in memory ==> lastUse[x] < IntMax
    ensures lruPage in memory
    ensures forall x :: x in memory ==> lastUse[lruPage] <= lastUse[x]
  {
    lruPage := -1;
    var least := IntMax;
    var toVisit := memory;
    while toVisit != {}
      invariant toVisit <= memory
      invariant toVisit == memory || (lruPage in memory && least == lastUse[lruPage])
      invariant toVisit == memory ==> least == IntMax
      invariant forall x :: x in memory - toVisit ==> least <= lastUse[x]
      decreases |toVisit|
    {
      assert exists p :: p in toVisit by {
        if forall p :: p !in toVisit {
          assert false;
        }
      }
      var p :| p in toVisit;
      if lastUse[p] < least {
        least := lastUse[p];
        lruPage := p;
      }
      toVisit := toVisit - {p};
    }
  }

  /** The page with the smallest stamp is the head of the recency order: the page LRU evicts. */
  lemma LeastStampIsHead(refs: seq<Page>, frames: int, resident: seq<Page>, memory: set<Page>, lastUse: map<Page, int>, victim: Page)
    requires frames > 0 && resident == Run(LeastRecentlyUsed, frames, refs).resident && resident != []
    requires forall x :: x in memory <==> x in resident
    requires Stamped(refs, memory, lastUse)
    requires victim in memory
    requires forall x :: x in memory ==> lastUse[victim] <= lastUse[x]
    ensures victim == resident[0]
  {
    LruOrder.LruResidentRecencyOrdered(frames, refs);
    var j :| 0 <= j < |resident| && resident[j] == victim;
  }

  /** Why an input is refused, in the order the guard checks. */
  datatype InputError = NonPositiveFrames | EmptyReferences

  /**
    The input guard: the frame count is checked first, then the reference
    string. `None` means the input is accepted.
  */
  function ValidateInput(frames: int, references: seq<Page>): (r: Option<InputError>)
    ensures r == None <==> frames > 0 && references != []
    ensures frames <= 0 ==> r == Some(NonPositiveFrames)
    ensures frames > 0 && references == [] ==> r == Some(EmptyReferences)
  {
    if frames <= 0 then Some(NonPositiveFrames)
    else if |references| == 0 then Some(EmptyReferences)
    else None
  }

  /** The fault counts of the three simulators on one input. */
  datatype Comparison = Comparison(fifo: nat, lru: nat, lruOptimized: nat)

  /**
    The driver: refuse an invalid input, otherwise run the three simulators on
    the same reference string. Both LRU simulators agree, and when every
    distinct page fits in memory the policies cannot differ.
  */
  method CompareAlgorithms(frames: int, references: seq<Page>) returns (r: Result<Comparison, InputError>)
    requires |references| <= IntMax
    ensures r.Failure? <==> ValidateInput(frames, references).Some?
    ensures r.Failure? ==> r.error == ValidateInput(frames, references).value
    ensures r.Success? ==>
              && frames > 0
              && r.value.fifo == Run(FirstInFirstOut, frames, references).faults
              && r.value.lru == Run(LeastRecentlyUsed, frames, references).faults
              && r.value.lruOptimized == r.value.lru
    ensures r.Success? && |Pages(references)| <= frames ==>
              r.value.fifo == r.value.lru == |Pages(references)|
  {
    var invalid := ValidateInput(frames, references);
    if invalid.Some? {
      return Failure(invalid.value);
    }
    var fifo := Fifo(references, frames);
    var lru := Lru(references, frames);
    var lruOptimized := LruOptimized(references, frames);
    if |Pages(references)| <= frames {
      NoEvictionWhenEnoughFrames(FirstInFirstOut, frames, references);
      NoEvictionWhenEnoughFrames(LeastRecentlyUsed, frames, references);
    }
    return Success(Comparison(fifo, lru, lruOptimized));
  }
}
