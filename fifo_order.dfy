/**
  What FIFO's resident sequence means: the pages admitted most recently,
  oldest admission first, so the head is always the page resident longest.
*/
module FifoOrder {
  import opened Paging

  /** The page of every faulting reference under FIFO, in admission order. */
  function Admissions(frames: int, refs: seq<Page>): (a: seq<Page>)
    requires frames > 0
    ensures |a| == Run(FirstInFirstOut, frames, refs).faults
    decreases |refs|
  {
    if refs == [] then []
    else
      var init, p := refs[..|refs| - 1], refs[|refs| - 1];
      var prev := Run(FirstInFirstOut, frames, init);
      Admissions(frames, init) + (if p in prev.resident then [] else [p])
  }

  /** Admitting `p` shifts the window of the last `min(frames, |a|)` admissions by one. */
  lemma AdmitShiftsWindow(a: seq<Page>, p: Page, frames: int)
    requires frames > 0
    ensures var k, a' := Min(frames, |a|), a + [p];
            a'[|a'| - Min(frames, |a'|)..] == (if k == frames then a[|a| - k..][1..] else a[|a| - k..]) + [p]
  {
    var k, a' := Min(frames, |a|), a + [p];
    if k == frames {
      assert a'[|a'| - frames..] == a[|a| - k..][1..] + [p];
    } else {
      assert a'[0..] == a[|a| - k..] + [p];
    }
  }

  /**
    The FIFO queue is the last `min(frames, admissions)` admitted pages in
    admission order: its head is the earliest admitted page still resident.
  */
  lemma {:induction false} ResidentAreLatestAdmissions(frames: int, refs: seq<Page>)
    requires frames > 0
    ensures var a := Admissions(frames, refs);
            Run(FirstInFirstOut, frames, refs).resident == a[|a| - Min(frames, |a|)..]
    decreases |refs|
  {
    if refs != [] {
      var init, p := refs[..|refs| - 1], refs[|refs| - 1];
      ResidentAreLatestAdmissions(frames, init);
      var prev := Run(FirstInFirstOut, frames, init);
      var next := Access(FirstInFirstOut, frames, prev.resident, p);
      assert Run(FirstInFirstOut, frames, refs).resident == next;
      var a := Admissions(frames, init);
      var k := Min(frames, |a|);
      assert prev.resident == a[|a| - k..] && |prev.resident| == k;
      if p in prev.resident {
        assert next == prev.resident;
        assert Admissions(frames, refs) == a;
      } else {
        assert Admissions(frames, refs) == a + [p];
        AdmitShiftsWindow(a, p, frames);
        if k == frames {
          assert next == prev.resident[1..] + [p];
        } else {
          assert next == prev.resident + [p];
        }
      }
    }
  }
}
