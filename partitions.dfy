/**
  Fixed-partition memory allocation with the first-fit strategy: a table of
  five partitions whose sizes never change; a process takes the first free
  partition it fits in, and the unused rest of that partition is its
  internal fragmentation until the process is released.
*/
module Partitions {
  import opened Wrappers

  /** One row of the partition table. */
  datatype Partition = Partition(size: int, free: bool, process: Option<string>, internalFragmentation: int)

  /** The table the program starts with: five free partitions of 100 to 300 units. */
  function InitialTable(): (ps: seq<Partition>)
    ensures |ps| == 5 && WellFormed(ps)
    ensures forall i :: 0 <= i < |ps| ==> ps[i].free && ps[i].internalFragmentation == 0
    ensures Sizes(ps) == [100, 150, 200, 250, 300]
  {
    [Partition(100, true, None, 0), Partition(150, true, None, 0), Partition(200, true, None, 0),
     Partition(250, true, None, 0), Partition(300, true, None, 0)]
  }

  /**
    A row is free exactly when it names no process, and a free row has no
    fragmentation; an occupied row never wastes a negative amount.
  */
  predicate WellFormedRow(p: Partition) {
    && (p.free <==> p.process == None)
    && (p.free ==> p.internalFragmentation == 0)
    && 0 <= p.internalFragmentation
  }

  predicate WellFormed(ps: seq<Partition>) {
    forall i :: 0 <= i < |ps| ==> WellFormedRow(ps[i])
  }

  /** The partition sizes, in table order. */
  function Sizes(ps: seq<Partition>): (s: seq<int>)
    ensures |s| == |ps| && forall i :: 0 <= i < |ps| ==> s[i] == ps[i].size
    decreases |ps|
  {
    if ps == [] then [] else [ps[0].size] + Sizes(ps[1..])
  }

  /** A request of `size` units can go to `p`. */
  predicate Fits(p: Partition, size: int) {
    p.free && size <= p.size
  }

  /** The first partition, in table order, that is free and large enough. */
  function FirstFit(ps: seq<Partition>, size: int): (r: Option<nat>)
    ensures r.Some? ==>
              && r.value < |ps| && Fits(ps[r.value], size)
              && forall j :: 0 <= j < r.value ==> !Fits(ps[j], size)
    ensures r.None? ==> forall j :: 0 <= j < |ps| ==> !Fits(ps[j], size)
    decreases |ps|
  {
    if ps == [] then None
    else if Fits(ps[0], size) then Some(0)
    else
      match FirstFit(ps[1..], size)
      case None => None
      case Some(i) => Some(i + 1)
  }

  /** The first partition holding a process of that name. */
  function FindProcess(ps: seq<Partition>, name: string): (r: Option<nat>)
    ensures r.Some? ==>
              && r.value < |ps| && ps[r.value].process == Some(name)
              && forall j :: 0 <= j < r.value ==> ps[j].process != Some(name)
    ensures r.None? ==> forall j :: 0 <= j < |ps| ==> ps[j].process != Some(name)
    decreases |ps|
  {
    if ps == [] then None
    else if ps[0].process == Some(name) then Some(0)
    else
      match FindProcess(ps[1..], name)
      case None => None
      case Some(i) => Some(i + 1)
  }

  /** The table after allocating `name`: its first-fit partition becomes occupied, or nothing changes. */
  function AfterAllocate(ps: seq<Partition>, name: string, size: int): seq<Partition> {
    match FirstFit(ps, size)
    case None => ps
    case Some(i) => ps[i := Partition(ps[i].size, false, Some(name), ps[i].size - size)]
  }

  /** The table after releasing `name`: its first partition becomes free again, or nothing changes. */
  function AfterRelease(ps: seq<Partition>, name: string): seq<Partition> {
    match FindProcess(ps, name)
    case None => ps
    case Some(i) => ps[i := Partition(ps[i].size, true, None, 0)]
  }

  /** The internal fragmentation of the whole table. */
  function TotalFragmentation(ps: seq<Partition>): int
    decreases |ps|
  {
    if ps == [] then 0 else TotalFragmentation(ps[..|ps| - 1]) + ps[|ps| - 1].internalFragmentation
  }

  /** A table in which no row wastes a negative amount wastes a non-negative total. */
  lemma {:induction false} TotalFragmentationNonNegative(ps: seq<Partition>)
    requires WellFormed(ps)
    ensures 0 <= TotalFragmentation(ps)
    decreases |ps|
  {
    if ps != [] {
      TotalFragmentationNonNegative(ps[..|ps| - 1]);
    }
  }

  /** Changing one row changes the total by the difference of that row's fragmentation. */
  lemma {:induction false} TotalFragmentationUpdate(ps: seq<Partition>, i: nat, p: Partition)
    requires i < |ps|
    ensures TotalFragmentation(ps[i := p])
            == TotalFragmentation(ps) - ps[i].internalFragmentation + p.internalFragmentation
    decreases |ps|
  {
    var last := |ps| - 1;
    if i < last {
      TotalFragmentationUpdate(ps[..last], i, p);
      assert ps[i := p][..last] == ps[..last][i := p];
    } else {
      assert ps[i := p][..last] == ps[..last];
    }
  }

  /** Rewriting a row without changing its size keeps the sizes. */
  lemma SizesUpdate(ps: seq<Partition>, i: nat, p: Partition)
    requires i < |ps| && p.size == ps[i].size
    ensures Sizes(ps[i := p]) == Sizes(ps)
  {
    assert forall j :: 0 <= j < |ps| ==> Sizes(ps[i := p])[j] == Sizes(ps)[j];
  }

  /** Occupying the first-fit partition keeps every row well formed. */
  lemma AllocateKeepsWellFormed(ps: seq<Partition>, name: string, size: int)
    requires WellFormed(ps)
    ensures WellFormed(AfterAllocate(ps, name, size))
  {
    if FirstFit(ps, size).Some? {
      var i := FirstFit(ps, size).value;
      assert WellFormedRow(AfterAllocate(ps, name, size)[i]);
    }
  }

  /** Freeing a partition keeps every row well formed. */
  lemma ReleaseKeepsWellFormed(ps: seq<Partition>, name: string)
    requires WellFormed(ps)
    ensures WellFormed(AfterRelease(ps, name))
  {
  }

  /**
    Allocation keeps the table well formed and the sizes fixed; a successful
    one occupies the chosen partition with the request, whose waste is the
    partition size minus the request.
  */
  lemma AllocateEffect(ps: seq<Partition>, name: string, size: int)
    requires WellFormed(ps)
    ensures var after := AfterAllocate(ps, name, size);
            && WellFormed(after) && Sizes(after) == Sizes(ps)
            && (FirstFit(ps, size).None? ==> after == ps)
            && (FirstFit(ps, size).Some? ==>
                  var i := FirstFit(ps, size).value;
                  && !after[i].free && after[i].process == Some(name)
                  && after[i].internalFragmentation == ps[i].size - size
                  && TotalFragmentation(after) == TotalFragmentation(ps) + ps[i].size - size
                  && forall j :: 0 <= j < |ps| && j != i ==> after[j] == ps[j])
  {
    if FirstFit(ps, size).Some? {
      var i := FirstFit(ps, size).value;
      var p := Partition(ps[i].size, false, Some(name), ps[i].size - size);
      assert AfterAllocate(ps, name, size) == ps[i := p];
      AllocateKeepsWellFormed(ps, name, size);
      TotalFragmentationUpdate(ps, i, p);
      SizesUpdate(ps, i, p);
    }
  }

  /**
    Release keeps the table well formed and the sizes fixed; a successful
    one frees the first partition of that process and removes its waste
    from the total.
  */
  lemma ReleaseEffect(ps: seq<Partition>, name: string)
    requires WellFormed(ps)
    ensures var after := AfterRelease(ps, name);
            && WellFormed(after) && Sizes(after) == Sizes(ps)
            && (FindProcess(ps, name).None? ==> after == ps)
            && (FindProcess(ps, name).Some? ==>
                  var i := FindProcess(ps, name).value;
                  && after[i] == Partition(ps[i].size, true, None, 0)
                  && TotalFragmentation(after) == TotalFragmentation(ps) - ps[i].internalFragmentation
                  && forall j :: 0 <= j < |ps| && j != i ==> after[j] == ps[j])
  {
    if FindProcess(ps, name).Some? {
      var i := FindProcess(ps, name).value;
      var p := Partition(ps[i].size, true, None, 0);
      assert AfterRelease(ps, name) == ps[i := p];
      ReleaseKeepsWellFormed(ps, name);
      TotalFragmentationUpdate(ps, i, p);
      SizesUpdate(ps, i, p);
    }
  }

  /**
    Releasing a process that was just allocated, under a name no partition
    held before, gives back the table as it was.
  */
  lemma ReleaseUndoesAllocate(ps: seq<Partition>, name: string, size: int)
    requires WellFormed(ps)
    requires FindProcess(ps, name).None?
    ensures AfterRelease(AfterAllocate(ps, name, size), name) == ps
  {
    var after := AfterAllocate(ps, name, size);
    if FirstFit(ps, size).Some? {
      var i := FirstFit(ps, size).value;
      assert FindProcess(after, name) == Some(i);
      assert AfterRelease(after, name) == after[i := ps[i]];
    }
  }

  /** A row occupied by `name` with a request of `request` units. */
  function Occupied(size: int, name: string, request: int): Partition {
    Partition(size, false, Some(name), size - request)
  }

  /** A free row. */
  function Vacant(size: int): Partition {
    Partition(size, true, None, 0)
  }

  /** The tables of the sample session, after P1, P2 and P3 are in, after P2 leaves, and after P4 comes in. */
  function AfterP1(): seq<Partition> {
    [Occupied(100, "P1", 90), Vacant(150), Vacant(200), Vacant(250), Vacant(300)]
  }

  function AfterP2(): seq<Partition> {
    [Occupied(100, "P1", 90), Occupied(150, "P2", 140), Vacant(200), Vacant(250), Vacant(300)]
  }

  function AfterP3(): seq<Partition> {
    [Occupied(100, "P1", 90), Occupied(150, "P2", 140), Occupied(200, "P3", 180), Vacant(250), Vacant(300)]
  }

  function AfterReleaseP2(): seq<Partition> {
    [Occupied(100, "P1", 90), Vacant(150), Occupied(200, "P3", 180), Vacant(250), Vacant(300)]
  }

  function AfterP4(): seq<Partition> {
    [Occupied(100, "P1", 90), Occupied(150, "P4", 100), Occupied(200, "P3", 180), Vacant(250), Vacant(300)]
  }

  /** P1 (90 units) takes the 100-unit partition, wasting 10. */
  lemma SessionP1()
    ensures FirstFit(InitialTable(), 90) == Some(0)
    ensures AfterAllocate(InitialTable(), "P1", 90) == AfterP1()
  {
    assert Fits(InitialTable()[0], 90);
  }

  /** P2 (140 units) skips the occupied partition and takes the 150-unit one, wasting 10. */
  lemma SessionP2()
    ensures FirstFit(AfterP1(), 140) == Some(1)
    ensures AfterAllocate(AfterP1(), "P2", 140) == AfterP2()
  {
    assert !Fits(AfterP1()[0], 140) && Fits(AfterP1()[1], 140);
  }

  /** P3 (180 units) takes the 200-unit partition, wasting 20. */
  lemma SessionP3()
    ensures FirstFit(AfterP2(), 180) == Some(2)
    ensures AfterAllocate(AfterP2(), "P3", 180) == AfterP3()
  {
    assert !Fits(AfterP2()[0], 180) && !Fits(AfterP2()[1], 180) && Fits(AfterP2()[2], 180);
  }

  /** Releasing P2 frees the 150-unit partition. */
  lemma SessionReleaseP2()
    ensures FindProcess(AfterP3(), "P2") == Some(1)
    ensures AfterRelease(AfterP3(), "P2") == AfterReleaseP2()
  {
    assert AfterP3()[0].process != Some("P2") by {
      assert "P1"[1] != "P2"[1];
    }
    assert AfterP3()[1].process == Some("P2");
  }

  /** P4 (100 units) reuses the freed 150-unit partition, wasting 50. */
  lemma SessionP4()
    ensures FirstFit(AfterReleaseP2(), 100) == Some(1)
    ensures AfterAllocate(AfterReleaseP2(), "P4", 100) == AfterP4()
  {
    assert !Fits(AfterReleaseP2()[0], 100) && Fits(AfterReleaseP2()[1], 100);
  }

  /** P5 (350 units) is larger than every partition and changes nothing; 80 units are wasted in total. */
  lemma SessionP5()
    ensures FirstFit(AfterP4(), 350) == None
    ensures AfterAllocate(AfterP4(), "P5", 350) == AfterP4()
    ensures TotalFragmentation(AfterP4()) == 80
  {
    var t := AfterP4();
    assert forall j :: 0 <= j < 5 ==> !Fits(t[j], 350);
    assert t[..1][..0] == [];
    assert TotalFragmentation(t[..1]) == 10;
    assert t[..2][..1] == t[..1];
    assert TotalFragmentation(t[..2]) == 60;
    assert t[..3][..2] == t[..2];
    assert TotalFragmentation(t[..3]) == 80;
    assert t[..4][..3] == t[..3];
    assert TotalFragmentation(t[..4]) == 80;
    assert t[..4] == t[..|t| - 1];
  }

  /** The partition table the program mutates, one row per fixed partition. */
  class Memory {
    var partitions: seq<Partition>

    predicate Valid()
      reads this
    {
      WellFormed(partitions)
    }

    constructor ()
      ensures partitions == InitialTable()
      ensures Valid()
    {
      partitions := InitialTable();
    }

    /**
      First fit: walk the table in order and give the request the first free
      partition large enough, recording the name and the waste. The result is
      the chosen row, or `None` when no partition can take it.
    */
    method AllocateProcess(name: string, size: int) returns (r: Option<nat>)
      requires Valid()
      modifies this
      ensures r == FirstFit(old(partitions), size)
      ensures partitions == AfterAllocate(old(partitions), name, size)
      ensures Valid()
    {
      var i := 0;
      while i < |partitions|
        invariant 0 <= i <= |partitions|
        invariant partitions == old(partitions)
        invariant forall j :: 0 <= j < i ==> !Fits(partitions[j], size)
      {
        var partition := partitions[i];
        if partition.free && size <= partition.size {
          partitions := partitions[i := Partition(partition.size, false, Some(name), partition.size - size)];
          AllocateKeepsWellFormed(old(partitions), name, size);
          return Some(i);
        }
        i := i + 1;
      }
      return None;
    }

    /**
      Walk the table in order and free the first partition holding the
      process, clearing its name and its waste. The result says whether such
      a partition was found.
    */
    method ReleaseProcess(name: string) returns (released: bool)
      requires Valid()
      modifies this
      ensures released <==> FindProcess(old(partitions), name).Some?
      ensures partitions == AfterRelease(old(partitions), name)
      ensures Valid()
    {
      var i := 0;
      while i < |partitions|
        invariant 0 <= i <= |partitions|
        invariant partitions == old(partitions)
        invariant forall j :: 0 <= j < i ==> partitions[j].process != Some(name)
      {
        if partitions[i].process == Some(name) {
          partitions := partitions[i := Partition(partitions[i].size, true, None, 0)];
          ReleaseKeepsWellFormed(old(partitions), name);
          return true;
        }
        i := i + 1;
      }
      return false;
    }

    /** The sum of the waste of every partition. */
    method TotalInternalFragmentation() returns (total: int)
      requires Valid()
      ensures total == TotalFragmentation(partitions)
      ensures 0 <= total
    {
      total := 0;
      for i := 0 to |partitions|
        invariant total == TotalFragmentation(partitions[..i])
      {
        assert partitions[..i + 1][..i] == partitions[..i];
        total := total + partitions[i].internalFragmentation;
      }
      assert partitions[..|partitions|] == partitions;
      TotalFragmentationNonNegative(partitions);
    }
  }

  /**
    The sample session run on a fresh table: the outcome of every request
    and the total waste at the end.
  */
  method SampleRun() returns (p1: Option<nat>, p2: Option<nat>, p3: Option<nat>, releasedP2: bool,
                              p4: Option<nat>, p5: Option<nat>, total: int)
    ensures p1 == Some(0) && p2 == Some(1) && p3 == Some(2) && releasedP2
    ensures p4 == Some(1) && p5 == None && total == 80
  {
    var memory := new Memory();
    SessionP1();
    p1 := memory.AllocateProcess("P1", 90);
    SessionP2();
    p2 := memory.AllocateProcess("P2", 140);
    SessionP3();
    p3 := memory.AllocateProcess("P3", 180);
    SessionReleaseP2();
    releasedP2 := memory.ReleaseProcess("P2");
    SessionP4();
    p4 := memory.AllocateProcess("P4", 100);
    SessionP5();
    p5 := memory.AllocateProcess("P5", 350);
    total := memory.TotalInternalFragmentation();
  }
}
