/**
  The stand-alone FIFO simulator of the third exercise: it checks the frame
  count, the input line and every token, then replays the reference string
  through a queue and a set and reports every step (hit or fault, the frames
  in arrival order, the evicted page, the running fault count) and the
  final totals.
*/
module FifoTrace {
  import opened Wrappers
  import opened JavaInt
  import opened Paging
  import FifoOrder

  /** Why the program stops before simulating, in the order it checks. */
  datatype InputError = NonPositiveFrames | BlankLine | InvalidToken(token: string)

  /** One printed line of the simulation. */
  datatype Step = Step(page: Page, hit: bool, frames: seq<Page>, evicted: Option<Page>, totalFaults: nat)

  /** The whole run: the steps, then the final fault and hit totals. */
  datatype Report = Report(trace: seq<Step>, pageFaults: nat, pageHits: nat)

  /**
    The tokens of the input line converted in order; the first token that
    `Integer.parseInt` rejects is the error.
  */
  function ParseTokens(parts: seq<string>): (r: Result<seq<Page>, string>)
    ensures r.Success? ==>
              && |r.value| == |parts|
              && forall i :: 0 <= i < |parts| ==> ParseInt(parts[i]) == Some(r.value[i])
    ensures r.Failure? ==>
              exists k :: 0 <= k < |parts| && ParseInt(parts[k]).None? && r.error == parts[k]
                          && forall i :: 0 <= i < k ==> ParseInt(parts[i]).Some?
    decreases |parts|
  {
    if parts == [] then Success([])
    else match ParseInt(parts[0])
      case None => Failure(parts[0])
      case Some(v) =>
        match ParseTokens(parts[1..])
        case Failure(bad) =>
          assert exists k :: 0 <= k < |parts| - 1 && ParseInt(parts[1..][k]).None? && bad == parts[1..][k]
                             && forall i :: 0 <= i < k ==> ParseInt(parts[1..][i]).Some?;
          var k :| 0 <= k < |parts| - 1 && ParseInt(parts[1..][k]).None? && bad == parts[1..][k]
                   && forall i :: 0 <= i < k ==> ParseInt(parts[1..][i]).Some?;
          assert forall i :: 0 <= i < k + 1 ==> ParseInt(parts[i]).Some? by {
            forall i | 0 <= i < k + 1 ensures ParseInt(parts[i]).Some? {
              if i > 0 {
                assert parts[i] == parts[1..][i - 1];
              }
            }
          }
          Failure(bad)
        case Success(rest) =>
          assert forall i :: 1 <= i < |parts| ==> parts[i] == parts[1..][i - 1];
          Success([v] + rest)
  }

  /** The tokens are accepted exactly when every one of them is an `int`. */
  lemma ParseTokensSucceeds(parts: seq<string>)
    ensures ParseTokens(parts).Success? <==> forall i :: 0 <= i < |parts| ==> ParseInt(parts[i]).Some?
  {
  }

  /**
    The conversion loop: fill an array of `parts.length` pages, token by
    token, and stop at the first token that is not an `int`.
  */
  method ParsePages(parts: seq<string>) returns (r: Result<seq<Page>, string>)
    ensures r == ParseTokens(parts)
  {
    var pages := new int[|parts|];
    for i := 0 to |parts|
      invariant forall j :: 0 <= j < i ==> ParseInt(parts[j]) == Some(pages[j])
    {
      var parsed := ParseInt(parts[i]);
      if parsed.None? {
        r := Failure(parts[i]);
        ParseTokensSucceeds(parts);
        var expected := ParseTokens(parts);
        var k :| 0 <= k < |parts| && ParseInt(parts[k]).None? && expected.error == parts[k]
                 && forall j :: 0 <= j < k ==> ParseInt(parts[j]).Some?;
        assert forall j :: 0 <= j < i ==> ParseInt(parts[j]).Some?;
        assert k == i;
        return;
      }
      pages[i] := parsed.value;
    }
    r := Success(pages[..]);
    ParseTokensSucceeds(parts);
    var expected := ParseTokens(parts);
    assert forall j :: 0 <= j < |parts| ==> Some(expected.value[j]) == Some(pages[j]);
    assert expected.value == pages[..];
  }

  /**
    The line printed for referencing `p` with the frames and fault count of
    `before`: hit or fault, the frames afterwards, the displaced page and
    the running fault count.
  */
  function NextStep(numFrames: int, before: Sim, p: Page): Step
    requires numFrames > 0 && Distinct(before.resident) && |before.resident| <= numFrames
  {
    var hit := p in before.resident;
    var evicted := if !hit && |before.resident| == numFrames then Some(before.resident[0]) else None;
    Step(p, hit, Access(FirstInFirstOut, numFrames, before.resident, p), evicted,
         if hit then before.faults else before.faults + 1)
  }

  /** Step `i` of the simulation of `pages`. */
  function StepAt(pages: seq<Page>, numFrames: int, i: nat): Step
    requires numFrames > 0 && i < |pages|
  {
    NextStep(numFrames, Run(FirstInFirstOut, numFrames, pages[..i]), pages[i])
  }

  /**
    What every printed step promises: a hit is a page already resident and
    changes nothing; a fault counts one and puts the page at the tail; a
    page is displaced only when every frame was taken, and it is the old
    head, no longer resident. The frames and count shown are those of the
    run so far.
  */
  lemma StepFacts(pages: seq<Page>, numFrames: int, i: nat)
    requires numFrames > 0 && i < |pages|
    ensures var before, s := Run(FirstInFirstOut, numFrames, pages[..i]), StepAt(pages, numFrames, i);
            && s.page == pages[i]
            && (s.hit <==> pages[i] in before.resident)
            && Sim(s.frames, s.totalFaults) == Run(FirstInFirstOut, numFrames, pages[..i + 1])
            && Distinct(s.frames) && 0 < |s.frames| <= numFrames && pages[i] in s.frames
            && (s.hit ==> s.frames == before.resident && s.totalFaults == before.faults)
            && (!s.hit ==> s.frames[|s.frames| - 1] == pages[i] && s.totalFaults == before.faults + 1)
            && (s.evicted.Some? <==> !s.hit && |before.resident| == numFrames)
            && (s.evicted.Some? ==> s.evicted.value == before.resident[0] && s.evicted.value !in s.frames)
            && (!s.hit && s.evicted.None? ==> s.frames == before.resident + [pages[i]])
  {
    assert pages[..i + 1][..i] == pages[..i];
  }

  /** The frames and fault count a trace ends with: those of its last line. */
  function StateAfter(trace: seq<Step>): Sim {
    if trace == [] then Sim([], 0) else Sim(trace[|trace| - 1].frames, trace[|trace| - 1].totalFaults)
  }

  /** The printed lines for a whole reference string, each step starting from where the previous one ended. */
  function Trace(numFrames: int, refs: seq<Page>): (t: seq<Step>)
    requires numFrames > 0
    ensures |t| == |refs|
    ensures Distinct(StateAfter(t).resident) && |StateAfter(t).resident| <= numFrames
    decreases |refs|
  {
    if refs == [] then []
    else
      var t := Trace(numFrames, refs[..|refs| - 1]);
      t + [NextStep(numFrames, StateAfter(t), refs[|refs| - 1])]
  }

  /** The trace ends in the state of the FIFO run over the same references. */
  lemma {:induction false} TraceMatchesRun(numFrames: int, refs: seq<Page>)
    requires numFrames > 0
    ensures StateAfter(Trace(numFrames, refs)) == Run(FirstInFirstOut, numFrames, refs)
    decreases |refs|
  {
    if refs != [] {
      TraceMatchesRun(numFrames, refs[..|refs| - 1]);
    }
  }

  /** Line `i` of the trace is step `i`. */
  lemma {:induction false} TraceAt(numFrames: int, refs: seq<Page>, i: nat)
    requires numFrames > 0 && i < |refs|
    ensures Trace(numFrames, refs)[i] == StepAt(refs, numFrames, i)
    decreases |refs|
  {
    var init := refs[..|refs| - 1];
    if i < |refs| - 1 {
      TraceAt(numFrames, init, i);
      assert init[..i] == refs[..i];
    } else {
      assert init == refs[..i];
      TraceMatchesRun(numFrames, init);
    }
  }

  /** Hits and faults together account for every reference. */
  lemma {:induction false} HitsPlusFaults(numFrames: int, refs: seq<Page>)
    requires numFrames > 0
    ensures CountHits(Trace(numFrames, refs)) + Run(FirstInFirstOut, numFrames, refs).faults == |refs|
    decreases |refs|
  {
    TraceMatchesRun(numFrames, refs);
    if refs != [] {
      var init, t := refs[..|refs| - 1], Trace(numFrames, refs);
      HitsPlusFaults(numFrames, init);
      TraceMatchesRun(numFrames, init);
      assert t[..|t| - 1] == Trace(numFrames, init);
    }
  }

  /** Every snapshot lists the resident pages in arrival order, oldest first. */
  lemma SnapshotInArrivalOrder(pages: seq<Page>, numFrames: int, i: nat)
    requires numFrames > 0 && i < |pages|
    ensures var a := FifoOrder.Admissions(numFrames, pages[..i + 1]);
            StepAt(pages, numFrames, i).frames == a[|a| - Min(numFrames, |a|)..]
  {
    StepFacts(pages, numFrames, i);
    FifoOrder.ResidentAreLatestAdmissions(numFrames, pages[..i + 1]);
  }

  /** The number of hits in a trace. */
  function CountHits(trace: seq<Step>): (n: nat)
    ensures n <= |trace|
    decreases |trace|
  {
    if trace == [] then 0
    else CountHits(trace[..|trace| - 1]) + (if trace[|trace| - 1].hit then 1 else 0)
  }

  /**
    The simulation loop: replay every reference on the queue and the set,
    printing one line per reference.
  */
  method SimulateFifo(pages: seq<Page>, numFrames: int) returns (trace: seq<Step>, pageFaults: nat)
    requires numFrames > 0
    ensures trace == Trace(numFrames, pages)
    ensures pageFaults == Run(FirstInFirstOut, numFrames, pages).faults
  {
    var queue: seq<Page> := [];
    var inFrames: set<Page> := {};
    pageFaults := 0;
    trace := [];
    for i := 0 to |pages|
      invariant trace == Trace(numFrames, pages[..i])
      invariant StateAfter(trace) == Sim(queue, pageFaults)
      invariant forall x :: x in inFrames <==> x in queue
    {
      TraceStep(numFrames, pages, i);
      var step;
      queue, inFrames, pageFaults, step := Reference(numFrames, queue, inFrames, pageFaults, pages[i]);
      StateAfterLine(trace, step);
      trace := trace + [step];
    }
    assert pages[..|pages|] == pages;
    TraceMatchesRun(numFrames, pages);
  }

  /**
    One reference: a page in the set is a hit; otherwise the fault count
    rises and, when the queue is full, its head is polled and dropped from
    the set before the new page joins both. The line printed is the step
    computed from the queue and the count before the reference.
  */
  method Reference(numFrames: int, queue: seq<Page>, inFrames: set<Page>, pageFaults: nat, currentPage: Page)
    returns (queue': seq<Page>, inFrames': set<Page>, pageFaults': nat, step: Step)
    requires numFrames > 0 && Distinct(queue) && |queue| <= numFrames
    requires forall x :: x in inFrames <==> x in queue
    ensures step == NextStep(numFrames, Sim(queue, pageFaults), currentPage)
    ensures queue' == step.frames && pageFaults' == step.totalFaults
    ensures forall x :: x in inFrames' <==> x in queue'
  {
    queue', inFrames', pageFaults' := queue, inFrames, pageFaults;
    if currentPage in inFrames' {
      step := Step(currentPage, true, queue', None, pageFaults');
    } else {
      pageFaults' := pageFaults' + 1;
      if |queue'| == numFrames {
        DropHeadMembers(queue');
        var removedPage := queue'[0];
        queue' := queue'[1..];
        inFrames' := inFrames' - {removedPage};
        queue' := queue' + [currentPage];
        inFrames' := inFrames' + {currentPage};
        step := Step(currentPage, false, queue', Some(removedPage), pageFaults');
      } else {
        queue' := queue' + [currentPage];
        inFrames' := inFrames' + {currentPage};
        step := Step(currentPage, false, queue', None, pageFaults');
      }
    }
  }

  /** Reference `i` adds the line computed from where the trace of the earlier references ended. */
  lemma TraceStep(numFrames: int, refs: seq<Page>, i: nat)
    requires numFrames > 0 && i < |refs|
    ensures Trace(numFrames, refs[..i + 1])
            == Trace(numFrames, refs[..i]) + [NextStep(numFrames, StateAfter(Trace(numFrames, refs[..i])), refs[i])]
  {
    assert refs[..i + 1][..i] == refs[..i];
  }

  /** A trace extended by a line ends where that line ends. */
  lemma StateAfterLine(trace: seq<Step>, s: Step)
    ensures StateAfter(trace + [s]) == Sim(s.frames, s.totalFaults)
  {
  }

  /**
    The program: refuse a non-positive frame count, a blank line or a token
    that is not an `int`, in that order; otherwise simulate and total up.
    A blank line is one whose whitespace split yields no token.
  */
  method Simulate(numFrames: int, parts: seq<string>) returns (r: Result<Report, InputError>)
    ensures numFrames <= 0 ==> r == Failure(NonPositiveFrames)
    ensures numFrames > 0 && parts == [] ==> r == Failure(BlankLine)
    ensures numFrames > 0 && parts != [] && ParseTokens(parts).Failure? ==>
              r == Failure(InvalidToken(ParseTokens(parts).error))
    ensures r.Success? <==> numFrames > 0 && parts != [] && ParseTokens(parts).Success?
    ensures r.Success? ==>
              var pages := ParseTokens(parts).value;
              && r.value.trace == Trace(numFrames, pages)
              && r.value.pageFaults == Run(FirstInFirstOut, numFrames, pages).faults
              && r.value.pageHits == |pages| - r.value.pageFaults == CountHits(r.value.trace)
  {
    if numFrames <= 0 {
      return Failure(NonPositiveFrames);
    }
    if parts == [] {
      return Failure(BlankLine);
    }
    var parsed := ParsePages(parts);
    if parsed.Failure? {
      return Failure(InvalidToken(parsed.error));
    }
    var pages := parsed.value;
    var trace, pageFaults := SimulateFifo(pages, numFrames);
    HitsPlusFaults(numFrames, pages);
    r := Success(Report(trace, pageFaults, |pages| - pageFaults));
  }
}
