# Page replacement and fixed-partition allocation, modelled in Dafny

This project models three small operating-systems teaching programs.

- **`bonus/questaobonus/src/mainn.java`** counts page faults for a
  reference string under three algorithms:
  - `fifo` uses a queue plus a hash set;
  - `lru` uses a hash set plus a last-use time map, and evicts by a linear
    scan for the smallest stamp;
  - `lruOtimizado` uses an access-ordered `LinkedHashSet`.

  `validarEntrada` guards the input, and `main` runs the three algorithms
  one after the other.
- **`questao3/JavaProject/src/Main.java`** is a stand-alone FIFO simulator.
  It validates the frame count, the input line and every token, then
  replays the references. For each reference it prints a line with the
  page, hit or fault, the frames in arrival order (`queueAsList`), the
  evicted page and the running fault count. At the end it prints the
  fault and hit totals.
- **`questao2/main.py`** manages a table of five fixed partitions:
  - `alocar_processo` gives a process the first free partition large
    enough for it (first fit) and records the unused rest as internal
    fragmentation;
  - `liberar_processo` frees the partition holding a process;
  - `fragmentacao_interna_total` sums the waste.

  A fixed sample session exercises all three.

## How the model is organised

| file | module | contents |
|---|---|---|
| `wrappers.dfy` | `Wrappers` | The `Option` and `Result` types. |
| `paging.dfy` | `Paging` | The specification shared by all the simulators. A resident sequence is kept with the next victim at its head. `Access` applies one reference under a `Policy`. `Run` replays a whole reference string and counts the faults. |
| `fifo_order.dfy` | `FifoOrder` | An independent description of FIFO residency: the latest admissions. |
| `lru_order.dfy` | `LruOrder` | An independent description of LRU residency: the most recently used pages, ordered by last use. Also LRU's inclusion property. |
| `java_int.dfy` | `JavaInt` | The 32-bit `int` range and `Integer.parseInt` on decimal text. |
| `simulators.dfy` | `Simulators` | The three counting methods of `mainn.java`, the LRU scan, the input guard and the driver. |
| `fifo_trace.dfy` | `FifoTrace` | The traced simulator of `Main.java`. |
| `partitions.dfy` | `Partitions` | The partition table, first fit, release, total fragmentation, the `Memory` class over the table, and the sample session. |

Every simulator method keeps the source's own collections as local
variables and updates them one reference at a time:

| collection in the source | Dafny local |
|---|---|
| queue | `seq` |
| hash set | `set` |
| time map | `map` |
| `LinkedHashSet` | `seq` |

Each method is proved to return the fault count of `Paging.Run` for its
policy. The properties of `Run` are proved once, as lemmas.

In the LRU simulator, a ghost copy of the resident sequence ties the hash
set and the stamps to `Run`. The proof shows:

- every stamp is one plus the position of that page's last reference;
- the pages with a stamp are exactly the resident ones;
- the stamps are distinct;
- the page the scan finds is therefore the head of `Run`'s resident
  sequence.

The partition table is a field of the class `Memory`, which its methods
reassign. Each method is specified by a function on the table
(`FirstFit`, `AfterAllocate`, `FindProcess`, `AfterRelease`,
`TotalFragmentation`), and the properties of those functions are lemmas.

## Model

| member | source | states |
|---|---|---|
| Paging.Access | bonus/questaobonus/src/mainn.java:13-27 | One reference never breaks the resident set: after it the pages are distinct, there are no more than `frames` of them, and the referenced page is resident. |
| Paging.AccessMembers | bonus/questaobonus/src/mainn.java:15-26 | After one reference the resident pages are exactly the new page plus the old pages, minus the oldest one when a fault found every frame taken. |
| Paging.Remove | bonus/questaobonus/src/mainn.java:83-86 | Removing a page from the access order drops exactly that page and keeps the others distinct. |
| Paging.Run | bonus/questaobonus/src/mainn.java:8-30 | A whole run never holds more than `frames` distinct pages, never counts more faults than references, and leaves the last referenced page resident. |
| Paging.ResidentReferenced | bonus/questaobonus/src/mainn.java:25-26 | Only pages that were referenced are ever resident. |
| Paging.FaultsAtLeastDistinct | bonus/questaobonus/src/mainn.java:15-16 | Every distinct page faults at least once, under either policy. |
| Paging.NoEvictionWhenEnoughFrames | bonus/questaobonus/src/mainn.java:19-22 | When all distinct pages fit in memory, the faults are exactly the compulsory ones and every referenced page ends up resident. |
| Paging.RepeatedPageFaultsOnce | bonus/questaobonus/src/mainn.java:13-27 | A string that repeats one page faults exactly once. |
| Paging.RunStep | bonus/questaobonus/src/mainn.java:13-28 | A run one reference longer is the shorter run followed by that reference's access, and the fault count grows by one exactly when the page was not resident. |
| FifoOrder.Admissions | bonus/questaobonus/src/mainn.java:15-26 | There is one admission per fault. |
| FifoOrder.ResidentAreLatestAdmissions | bonus/questaobonus/src/mainn.java:19-26 | FIFO's resident pages are the last `min(frames, faults)` admitted pages, oldest first, so the polled head is always the page resident longest. |
| LruOrder.LastUse | bonus/questaobonus/src/mainn.java:41-67 | The position is a reference to the page, and it is -1 exactly when the page was never referenced. |
| LruOrder.LastUseIsLast | bonus/questaobonus/src/mainn.java:41-67 | No reference after the position `LastUse` returns names the page again, so that position is the page's last use, the one its latest stamp records. |
| LruOrder.HitKeepsRecencyOrder | bonus/questaobonus/src/mainn.java:83-86 | Moving a hit page to the tail keeps the resident pages ordered by last use. |
| LruOrder.FillKeepsRecencyOrder | bonus/questaobonus/src/mainn.java:88-97 | Appending a faulting page to a memory with a free frame keeps the order. |
| LruOrder.EvictKeepsRecencyOrder | bonus/questaobonus/src/mainn.java:90-97 | Evicting the head and appending the faulting page keeps the order. |
| LruOrder.LruResidentRecencyOrdered | bonus/questaobonus/src/mainn.java:74-103 | LRU's resident pages are exactly the `min(frames, distinct pages)` most recently used pages, ordered from least to most recently used. Every page not resident was used before the head. |
| LruOrder.LruInclusion | bonus/questaobonus/src/mainn.java:34-70 | With more frames, LRU's resident set contains the resident set of the smaller memory. |
| LruOrder.LruFaultsMonotone | bonus/questaobonus/src/mainn.java:34-70 | With more frames, LRU never faults more. |
| Simulators.Fifo | bonus/questaobonus/src/mainn.java:8-30 | `fifo` returns FIFO's fault count for the reference string. That count is at least the number of distinct pages and at most the number of references. |
| Simulators.Lru | bonus/questaobonus/src/mainn.java:34-70 | `lru`, with its scan for the smallest time stamp, returns LRU's fault count, with the same bounds. |
| Simulators.StampFacts | bonus/questaobonus/src/mainn.java:35-67 | Before each reference the time map has an entry for exactly the pages in memory. There are at most `frames` of them. Their stamps are distinct, between 1 and the elapsed time, and below `Integer.MAX_VALUE`. |
| Simulators.LruHit | bonus/questaobonus/src/mainn.java:43-67 | A hit, followed by restamping the page, keeps the set and the stamps in step with LRU's run. |
| Simulators.LruFill | bonus/questaobonus/src/mainn.java:43-67 | A fault with a free frame, followed by adding and stamping the page, keeps that agreement. |
| Simulators.LruEvict | bonus/questaobonus/src/mainn.java:43-67 | A fault with every frame taken, where the victim carries the least stamp, keeps that agreement. |
| Simulators.ScanLeastRecent | bonus/questaobonus/src/mainn.java:48-56 | The scan returns a page of memory whose stamp is no greater than any other page's stamp. |
| Simulators.LeastStampIsHead | bonus/questaobonus/src/mainn.java:48-60 | The page with the least stamp is the least recently used resident page, that is, the head of LRU's resident sequence. |
| Simulators.LruOptimized | bonus/questaobonus/src/mainn.java:74-103 | `lruOtimizado` returns the same count as LRU's run, so it agrees with `lru` on every input. |
| Simulators.ValidateInput | bonus/questaobonus/src/mainn.java:107-117 | The input is accepted exactly when `frames > 0` and the reference string is not empty. A bad frame count is reported before an empty string. |
| Simulators.CompareAlgorithms | bonus/questaobonus/src/mainn.java:136-145 | An invalid input returns the guard's error and runs nothing. Otherwise the method returns FIFO's and LRU's counts, and the two LRU counts agree. When every distinct page fits, FIFO and LRU both count exactly the distinct pages. |
| JavaInt.ParseInt | questao3/JavaProject/src/Main.java:36-44 | A parsed token is a Java `int`. It starts with a digit or a sign, and its sign follows the leading `-`. |
| JavaInt.ParseShow | questao3/JavaProject/src/Main.java:36-44 | Every Java `int` written in decimal parses back to itself. |
| FifoTrace.ParseTokens | questao3/JavaProject/src/Main.java:34-44 | On success, each token converts to the page at the same position. On failure, the error names the first token that does not convert. |
| FifoTrace.ParseTokensSucceeds | questao3/JavaProject/src/Main.java:36-44 | Conversion succeeds exactly when every token is a valid `int`. |
| FifoTrace.ParsePages | questao3/JavaProject/src/Main.java:35-44 | The conversion loop stops at the first bad token and agrees with `ParseTokens`. |
| FifoTrace.StepFacts | questao3/JavaProject/src/Main.java:56-90 | Each printed line reports the page, and "hit" exactly when the page was resident. The frames and the running count are those of the FIFO run up to that reference. On a fault the page joins at the tail. An eviction happens exactly on a fault with every frame taken, and it is the oldest page. |
| FifoTrace.Trace | questao3/JavaProject/src/Main.java:56-90 | There is one printed line per reference, and the state after the last line is a valid resident set. |
| FifoTrace.TraceMatchesRun | questao3/JavaProject/src/Main.java:56-90 | The frames and count on the last line are FIFO's run, the same count `mainn.fifo` returns. |
| FifoTrace.TraceAt | questao3/JavaProject/src/Main.java:56-90 | Line `i` of the trace is the step computed from the run up to reference `i`. |
| FifoTrace.HitsPlusFaults | questao3/JavaProject/src/Main.java:93-100 | The hits and the faults add up to the number of references. |
| FifoTrace.SnapshotInArrivalOrder | questao3/JavaProject/src/Main.java:62-115 | The frames each line prints through `queueAsList` are the window of the latest admissions, oldest first. |
| FifoTrace.CountHits | questao3/JavaProject/src/Main.java:100 | The hits never exceed the number of lines. |
| FifoTrace.Reference | questao3/JavaProject/src/Main.java:57-88 | One pass of the loop body produces the printed step, keeps the queue and the set holding the same pages, and updates the queue and the count to that step's frames and total. |
| FifoTrace.SimulateFifo | questao3/JavaProject/src/Main.java:49-90 | The loop prints exactly the trace and counts FIFO's faults. |
| FifoTrace.Simulate | questao3/JavaProject/src/Main.java:16-100 | The checks stop the program in this order: a non-positive frame count, then a blank line, then the first bad token. On success the report holds the trace, FIFO's fault count, and hits equal to references minus faults. |
| Partitions.InitialTable | questao2/main.py:2-8 | There are five partitions, all free, with no waste, of 100, 150, 200, 250 and 300 units in that order. |
| Partitions.Sizes | questao2/main.py:2-8 | The list of partition sizes in table order. |
| Partitions.FirstFit | questao2/main.py:11-14 | The chosen partition is the first one that is free and large enough. No partition is chosen exactly when none is free and large enough. |
| Partitions.FindProcess | questao2/main.py:24-25 | The found partition is the first one holding the process. Nothing is found exactly when no partition holds it. |
| Partitions.AllocateKeepsWellFormed | questao2/main.py:11-20 | An allocation keeps every row consistent: free exactly when no process is recorded, no waste on a free row, and waste never negative. |
| Partitions.ReleaseKeepsWellFormed | questao2/main.py:23-31 | A release keeps every row consistent. |
| Partitions.AllocateEffect | questao2/main.py:11-20 | A failed allocation changes nothing. A successful one marks the first-fit partition as occupied by the process, with waste equal to its size minus the request. The total waste grows by that amount, no other row changes, and no size changes. |
| Partitions.ReleaseEffect | questao2/main.py:23-31 | An unknown name changes nothing. Otherwise the process's partition becomes free with zero waste, the total waste drops by the old waste, and no other row changes. |
| Partitions.ReleaseUndoesAllocate | questao2/main.py:11-31 | Releasing a process that was just allocated, when it held no partition before, restores the table. |
| Partitions.TotalFragmentationNonNegative | questao2/main.py:47-48 | The total waste of a consistent table is never negative. |
| Partitions.TotalFragmentationUpdate | questao2/main.py:47-48 | Replacing one row changes the total waste by the difference between the two rows' waste. |
| Partitions.SizesUpdate | questao2/main.py:15-17 | Changing a row without changing its size keeps the list of sizes. |
| Partitions.SessionP1 | questao2/main.py:51 | P1 (90) goes to the 100-unit partition. |
| Partitions.SessionP2 | questao2/main.py:52 | P2 (140) goes to the 150-unit partition. |
| Partitions.SessionP3 | questao2/main.py:53 | P3 (180) goes to the 200-unit partition. |
| Partitions.SessionReleaseP2 | questao2/main.py:54 | Releasing P2 frees the 150-unit partition. |
| Partitions.SessionP4 | questao2/main.py:55 | P4 (100) takes the freed 150-unit partition, not the 250-unit one. |
| Partitions.SessionP5 | questao2/main.py:56-58 | P5 (350) fits nowhere and changes nothing. The final total waste is 80. |
| Partitions.Memory.constructor | questao2/main.py:2-8 | Memory starts with the initial table. |
| Partitions.Memory.AllocateProcess | questao2/main.py:11-20 | The loop returns the first-fit index, or none, and leaves the table as `AfterAllocate` describes. |
| Partitions.Memory.ReleaseProcess | questao2/main.py:23-31 | The method reports success exactly when some partition held the process, and leaves the table as `AfterRelease` describes. |
| Partitions.Memory.TotalInternalFragmentation | questao2/main.py:47-48 | The sum loop returns the total waste, which is never negative. |
| Partitions.SampleRun | questao2/main.py:51-58 | The sample session gives the partitions 0, 1 and 2, then the release, then partition 1, then no partition, and a total waste of 80. |

## Left out

- **Console I/O.** Reading with `Scanner`, every printed message and the
  `printf` formats are left out. A printed trace line becomes a `Step`
  value, and an error message becomes an error value.
- **Fault and hit rates.** The floating-point rates in `main` (both Java
  programs) are not modelled.
- **Splitting the input line.** `trim().split("\\s+")` is not modelled. The
  model starts from the list of tokens, and a blank line is the empty
  list. In `mainn.java`, `Integer.parseInt` throwing on a bad token (an
  uncaught exception) is not modelled either: the references are given
  as integers.
- JavaInt.ParseInt: accepts ASCII decimal digits only. `Integer.parseInt`
  also accepts other Unicode decimal digits.
- **`queueAsList`'s copy.** The printed list is the queue value itself.
  Queues are values in the model, so the copy's separation from the live
  queue (no aliasing) is not modelled.
- **Hash set iteration order.** The scan in `lru` visits the set in
  `HashSet` order. The model lets the scan visit the pages in any order.
  Stamps are distinct, so every order finds the same page.
- **`lruOtimizado`'s time map.** `tempoUso` is written but never read there,
  so it is not modelled in `Simulators.LruOptimized`.
- Simulators.Fifo, Simulators.Lru, Simulators.LruOptimized: require
  `frames > 0`, which `main` checks through `validarEntrada` before calling
  them. With a frame count of 0, `fifo` would unbox a `null` from `poll`.
  With a negative count, all three simulators would never evict.
- Simulators.Lru: requires no more than `Integer.MAX_VALUE` references, the
  length limit of a Java array. This keeps the `int` time counter from
  wrapping.
- **Worked paging strings.** Concrete reference strings, and Belady's
  anomaly for FIFO, are not evaluated in the model.

  Worked by hand from the code for the string `1 2 3 4 1 2 5 1 2 3 4 5`:

  | frames | FIFO faults | LRU faults |
  |---|---|---|
  | 3 | 9 | 10 |
  | 4 | 10 | 8 |

  A count of 9 for LRU with 3 frames, sometimes quoted for this string, is
  not what the code computes.
- **`exibir_memoria`** (questao2/main.py:34-44) only formats text and is not
  modelled. The sample session's tables are stated directly instead.
- **Process names** are strings. Releasing `None` as a name in the Python
  code would match a free partition, and is not modelled.
- Partitions.AllocateEffect: does not bound the waste by the partition's
  size. The code accepts a negative request, whose waste then exceeds the
  partition's size.
- **Other exercises.** `questao1/main.c` and `questao5/main.py` are not
  part of this model.
