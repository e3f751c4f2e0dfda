# Sample workloads of the MTAPI task runtime, modelled in Dafny

The task runtime starts *actions* as *tasks* on worker threads and lets callers wait for them, one at a time or in groups. This project models the sequential logic of the two sample workloads the runtime ships with:

- **Wavefront Smith-Waterman alignment** (`mtapi_c/smithwaterman/smithwaterman.c`). This is a Gotoh-style local alignment with affine gap penalties. Each pair of sequences is aligned into three integer matrices `e`, `f` and `h`. Row 0 and column 0 are first set to zero. The interior cells are then computed one anti-diagonal ("wave") at a time. Each cell is a task, and after starting the tasks of a wave the program waits for their group (with a timeout argument of `NULL`, commented "no time out") before it starts the next wave.
  - `AlignmentScores` gives the scoring model as pure functions:
    - `Similarity`;
    - the three recurrences `ScoreE`, `ScoreF` and `ScoreH`.
  - `Wavefront` gives the schedule:
    - how many waves there are;
    - how many elements each wave has, and where it starts;
    - lemmas that every interior cell is visited exactly once, and that every cell a task reads is final before that task's wave starts.
  - `SmithWaterman` works in place on `array2<int>` matrices:
    - the cell task `CalculateElement`;
    - the border zeroing;
    - the wave loop for one pair (`AlignPair`);
    - the loop over all pairs (`AlignAll`).
  - The wave loop is proved against the recurrences: afterwards every cell of all three matrices equals its score function.
- **Recursive Fibonacci action** (`mtapi_c/fibonacci/fibonacci.cc`). The action first checks the sizes of its argument and result buffers, and reports any error by setting the status of its task context. It then computes Fib(n) as follows:
  - it starts a sub-task for n - 1;
  - it computes n - 2 by calling itself inline, in the same task context;
  - it waits for the sub-task with an infinite timeout;
  - it adds the two results.

  `FibonacciTask.FibonacciAction` is a recursive method. On entry it takes:
  - the argument;
  - the argument size;
  - the result buffer (null, or a buffer of a given size);
  - the status of the task context.

  It returns:
  - the new status;
  - what was stored into the result buffer;
  - the arguments of the sub-tasks it started.

  Starting a sub-task and then waiting for it with `MTAPI_INFINITE` is modelled as running that sub-task to completion, in a fresh task context, at the point where it starts.

The program does not compile as written, so the model follows the evident intent:
- `calculate_element` reads the argument struct through a pointer with `args.np` (line 51).
- The struct's `sequences` field is declared `unsigned int` (line 37) but indexed as an array of strings (line 75).
- `main` assigns a field `args.extensions` that does not exist (line 274).

The model therefore reads the fields of the argument block, and treats `sequences` as a sequence of strings.

The program fixes `m = n` (line 203). The schedule and `AlignPair` are stated and proved for any `n <= m`, and `AlignAll` uses `m = n` as the program does.

In the Fibonacci sample the action checks its buffer sizes itself (`mtapi_c/fibonacci/fibonacci.cc` lines 30-57):
- a wrong argument size sets `MTAPI_ERR_ARG_SIZE`, but the action carries on;
- a wrong result size sets `MTAPI_ERR_RESULT_SIZE` and returns.

## Model

| member | source | states |
|---|---|---|
| `AlignmentScores.Similarity` | mtapi_c/smithwaterman/smithwaterman.c:91-93 | the score is 2 exactly when the characters are equal, and -1 otherwise |
| `AlignmentScores.SimilaritySymmetric` | mtapi_c/smithwaterman/smithwaterman.c:91-93 | the similarity is symmetric and lies between -1 and 2 |
| `AlignmentScores.ScoreFloor` | mtapi_c/smithwaterman/smithwaterman.c:65-83 | `h` is never negative; `e` and `f` never drop below minus the opening penalty |
| `AlignmentScores.ScoreCeiling` | mtapi_c/smithwaterman/smithwaterman.c:65-83 | no cell of `h`, `e` or `f` exceeds 2 points per character of the shorter prefix (proved by induction over the recurrences) |
| `AlignmentScores.SelfAlignmentDiagonal` | mtapi_c/smithwaterman/smithwaterman.c:75-93 | aligning a sequence with itself scores exactly 2r at diagonal cell (r, r) |
| `Wavefront.Waves` | mtapi_c/smithwaterman/smithwaterman.c:227 | with signed arithmetic, the number of waves is one past the wave of the far corner cell (n, m), and empty sequences give no wave |
| `Wavefront.WavesAsWritten` | mtapi_c/smithwaterman/smithwaterman.c:227 | the unsigned wave count stays below 2^32, equals the signed count whenever n + m >= 1, and wraps to 2^32 - 1 when n + m == 0 |
| `Wavefront.ShapeAsWritten` | mtapi_c/smithwaterman/smithwaterman.c:241-262 | the three wave cases on unsigned integers agree with `Shape` whenever 1 <= n <= m < 2^32 |
| `Wavefront.Shape` | mtapi_c/smithwaterman/smithwaterman.c:241-264 | for each of the three cases of the wave loop, element i of wave w is cell (np - i, mp + i), with 1 <= np - i <= n, 1 <= mp + i <= m and (np - i) + (mp + i) == w + 2 |
| `Wavefront.WaveReachesCell` | mtapi_c/smithwaterman/smithwaterman.c:227-264 | every interior cell (r, c) is an element of wave r + c - 2 < n + m - 1, and on that wave it lies in the row range the elements cover |
| `Wavefront.VisitedExactlyOnce` | mtapi_c/smithwaterman/smithwaterman.c:227-264 | across all waves, the (wave, element) pairs that land on an interior cell form exactly one pair |
| `Wavefront.OnlyInteriorVisited` | mtapi_c/smithwaterman/smithwaterman.c:241-264 | no wave element lands on row 0, on column 0 or outside the matrices |
| `Wavefront.ReadsEarlierWaves` | mtapi_c/smithwaterman/smithwaterman.c:65-313 | each of the left, upper and diagonal cells a task reads is on row 0 or column 0, or is visited on a strictly earlier wave, so the wait-all after each wave is enough |
| `Wavefront.EmptySequencesOverrun` | mtapi_c/smithwaterman/smithwaterman.c:227-248 | with empty sequences, the unsigned wave count wraps to 2^32 - 1, and wave 0 computes cell (1, 1) outside 1 x 1 matrices |
| `Wavefront.EmptySequencesNoWork` | mtapi_c/smithwaterman/smithwaterman.c:227-262 | with signed arithmetic, empty row sequences give no wave with elements |
| `SmithWaterman.CalculateElement` | mtapi_c/smithwaterman/smithwaterman.c:43-84 | the new `e` cell = max(h[r][c-1] - open, e[r][c-1] - extension); the new `f` cell = max(h[r-1][c] - open, f[r-1][c] - extension); the new `h` cell = max(0, h[r-1][c-1] + similarity, e, f), for r = np - i and c = mp + i; every other cell of the three matrices is unchanged |
| `SmithWaterman.ZeroBorders` | mtapi_c/smithwaterman/smithwaterman.c:235-237 | afterwards, row 0 and column 0 of `h`, `e` and `f` are zero, and the interior is unchanged |
| `SmithWaterman.ComputeCell` | mtapi_c/smithwaterman/smithwaterman.c:272-297 | one cell task with its own argument block: once its left, upper and diagonal neighbours hold `ScoreH`/`ScoreE`/`ScoreF`, its own cell does too, and every other cell keeps its value |
| `SmithWaterman.RunElement` | mtapi_c/smithwaterman/smithwaterman.c:264-305 | running the task of element i keeps every final cell final, makes the element's own cell final, and changes no other cell |
| `SmithWaterman.WaveComplete` | mtapi_c/smithwaterman/smithwaterman.c:306-313 | once every element of a wave has run, every cell of the next diagonal has all its inputs final |
| `SmithWaterman.AlignPair` | mtapi_c/smithwaterman/smithwaterman.c:231-318 | after the zeroing and all the waves, every cell of `h`, `e` and `f` equals `ScoreH`, `ScoreE` or `ScoreF` for the two sequences |
| `SmithWaterman.AlignAll` | mtapi_c/smithwaterman/smithwaterman.c:195-322 | every pair k < l is aligned into the same freshly allocated (n + 1) x (n + 1) matrices, which then hold the scores of the last pair |
| `FibonacciTask.FibonacciAction` | mtapi_c/fibonacci/fibonacci.cc:13-88 | see the FibonacciAction list below |
| `FibonacciTask.Fibonacci` | mtapi_c/fibonacci/fibonacci.cc:90-128 | starting the action on n with int-sized buffers and waiting for it returns n for n < 2, and Fib(n) otherwise |
| `FibonacciTask.RunProgram` | mtapi_c/fibonacci/fibonacci.cc:130-133 | the program's call `Fibonacci(3)` yields 2 |
| `FibonacciTask.FibIterateCorrect` | mtapi_c/fibonacci/fibonacci.cc:61-86 | the recursion the action performs agrees with the iteration over consecutive pairs of Fibonacci numbers |
| `FibonacciTask.FibMonotonic` | mtapi_c/fibonacci/fibonacci.cc:61-86 | Fibonacci numbers never decrease, so both recursive calls stay in int range when the caller's result does |

`FibonacciTask.FibonacciAction` states:
- **Status.**
  - A null result buffer, or one whose size is not `sizeof(int)`, leaves `MTAPI_ERR_RESULT_SIZE`.
  - Otherwise, a wrong argument size leaves `MTAPI_ERR_ARG_SIZE`.
  - Otherwise, the status is unchanged.
- **Result.**
  - A result buffer of the wrong size gets no write, and no sub-task is started.
  - A null buffer ends in an undefined write.
  - A valid buffer receives n for every n < 2, negative n included, and Fib(n) for every greater n.
- **Sub-tasks.** The sub-tasks started have the arguments n - 1, n - 3, …, n/2 of them in all, so none for n < 2, and exactly one started first with argument n - 1.

## Left out

- The runtime itself, which is not part of this model:
  - node, action, job, group and task creation;
  - task attributes, affinity and priority scheduling;
  - `mtapi_job_get`, and the reused task id `TASK_TEST_ID`.
  - The group header and the `Invoke` wrapper are not modelled either, because they only forward to scheduler code that is not shown.
- `SmithWaterman.AlignPair`: the per-wave wait `mtapi_group_wait_all(group, NULL, &mtapi_status)` (lines 309-313) passes `NULL` as its timeout, which the group interface (`mtapi_cpp/include/embb/mtapi/group.h` lines 122-128) measures in milliseconds and lets end with `MTAPI_TIMEOUT`. The model takes it as the unbounded wait that the comment "no time out" intends: every task of a wave finishes before the next wave starts. Under a 0 ms reading, the next wave could read cells that are not yet final, and `AlignPair`'s result is not promised then.
- Concurrency:
  - The tasks of one wave run one after the other in the model. `ReadsEarlierWaves` shows that no task reads a cell that another task of the same wave writes.
  - The single stack `args` block that the program shares between concurrently started tasks (lines 272-297) is a data race. The model gives each task its own argument block instead.
- I/O and timing:
  - reading the sequence file with `fscanf`;
  - the `malloc` calls, including the stray `sub` allocations at lines 218 and 224. The model allocates the three matrices with `new`;
  - `clock_gettime`, `printf`, the OpenMP pragmas;
  - the initialise/finalise loop in `mtapi_c/smithwaterman/smithwaterman.cc`.
- The variable `line` (lines 247, 254 and 261) is computed but never used, so it is not modelled.
- `SmithWaterman.CalculateElement`: models integers as unbounded.
  - `h - open` is computed in unsigned arithmetic and then stored into an `int`. This matches integer subtraction only while the values stay in int range.
  - `ScoreFloor` and `ScoreCeiling` bound every stored value between -open and 2n. The intermediate `e[r][c-1] - extension` and `f[r-1][c] - extension` (lines 66 and 71) can reach -(open + extension), so the values fit 32 bits when 2n and -(open + extension) do.
- `FibonacciTask.FibonacciAction`: requires the Fibonacci number of its argument to fit an int on every path that goes past the result-buffer check, because signed overflow is undefined in C. In practice this means n <= 46, since Fib(46) = 1836311903.
  - Reading `n` through a pointer when the argument size is wrong is modelled as reading the given int.
  - The status a sub-task leaves in its own context is not observed, because the program ignores it.
- `FibonacciTask.FibonacciAction`: with a null result buffer, the program writes through an uninitialised pointer. The model stops at that write and reports `UndefinedWrite`.
- The sequences are assumed to have the length `n` read from the file. The format `%s` could also read shorter or longer strings.

## Findings

| source | as written | input that shows it | evidently intended | confidence | as-written member | corrected member |
|---|---|---|---|---|---|---|
| mtapi_c/smithwaterman/smithwaterman.c:227-248 | `waves = n + m - 1` and `wave < n-1` are computed on `unsigned int` | a header with n = 0 and q >= 2 (any sequence token then already overruns the one-byte buffers of lines 199-200): `waves` wraps to 4294967295, and wave 0 runs cell (1, 1) of matrices that have a single row and a single column | empty sequences give no waves, and the matrices are just their zeroed border | medium, not executed | `Wavefront.EmptySequencesOverrun` | `Wavefront.EmptySequencesNoWork` (signed `Wavefront.Waves`, used by `SmithWaterman.AlignPair`, which is proved for n = 0 too) |
