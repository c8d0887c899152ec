# Mandelbrot escape-time grid: serial and MPI master/worker

The repository computes, for a `resolution` x `resolution` grid of points c of the
complex plane, how many steps of z := z*z + c (from z = 0) pass before |z|^2
exceeds 4.0, capped at `MAX_ITER`.

- `main_serial.c` fills the grid with a nested row/column loop.
- `p1/main_mpi.c` splits the work by rows over MPI ranks:
  - Rank 0, the master, first sends one row index to each worker.
  - In its main loop it then receives a finished row from any worker and sends that same worker the next row index, until every row has been handed out.
  - It then receives one last result from every worker, in rank order.
  - Last, it sends every worker the kill value -1.
  - Each result carries its row index in element 0. The master copies the rest of the result into that row of its grid.
  - A worker loops: it receives an index, stops on -1, and otherwise computes the row and sends it back.

The model has four modules:

- **`Escape`** (`escape.dfy`): the per-cell counting loop shared by both programs. It comes with a recursive reference definition, `EscapeTime`, and the loop is proved equal to it.
- **`Serial`** (`serial.dfy`): the serial nested fill over an `array2<int>`.
- **`Mpi`** (`mpi.dfy`): the worker's receive loop, the master's merge into its grid, and the master's four phases: priming, main loop, drain and kill.
  - The master runs as one sequential program.
  - Which worker's result arrives in main-loop pass n is an explicit parameter, `replies[n]`. This stands in for `MPI_ANY_SOURCE`.
  - The row each worker is computing is kept in `held`.
  - Every message the master sends or receives is appended to a log of `Send(dest, value)` / `Recv(src, row)` events.
- **`Equivalence`** (`equivalence.dfy`):
  - For every process count with 2 <= numprocess <= resolution + 1 and every arrival order, the MPI grid equals the serial grid. Larger process counts are outside the model; see the master's conditions below.
  - Each worker, fed the messages the master sent it, answers with exactly the results the master received from it, and leaves its loop on the final kill.

Floating-point arithmetic is not modelled. `Orbit(i, j, k)` is |z|^2 after step k for the cell in row i (real axis) and column j (imaginary axis). The comparison with the threshold 4.0 is modelled exactly: it is strict.

The model keeps three behaviours of the source:

- **The loop's exit.** When no step diverges, the count leaves the loop equal to `MAX_ITER` and is pulled back to `MAX_ITER - 1`.
  - A point that first diverges at the last step is stored exactly like a point that never diverges.
  - With `MAX_ITER = 0`, the stored value is -1, as in the C code.
- **The integer sizes.** With the constants in the repository (`resolution` 10000, `MAX_ITER` 1000), every integer the core handles fits in an `int`. Grid indices are below 10000, counts are below 1000, and the kill value is -1. The model therefore uses unbounded integers without modelling wrap-around.
- **The master's conditions.**
  - The master requires at least two processes, as `p1/main_mpi.c:60-65` enforces.
  - It also requires `resolution >= numprocess - 1`. The priming loop at `p1/main_mpi.c:87-90` sends indices 0 .. numprocess-2 without comparing them to `resolution`. With more workers than rows, an index that is not a row of the grid would be sent (`PrimingIgnoresResolution`), and its result would be merged at a row outside the grid. The source has no guard for this case, so it is excluded rather than modelled.

## Model

| member | source | states |
|---|---|---|
| Escape.EscapeCount | main_serial.c:54-68 | The counting loop with its break and its `k == MAX_ITER` correction returns `EscapeTime`. For `MAX_ITER >= 1` the result is in [0, MAX_ITER-1], no earlier step diverges, and either the returned step diverges or it is the cap minus one. For `MAX_ITER = 0` the result is -1. |
| Escape.EscapeTimeIsFirst | main_serial.c:54-68 | For `MAX_ITER >= 1` the stored count is the first diverging step below the cap, or `MAX_ITER - 1` when none diverges. |
| Escape.EscapeCountUnique | main_serial.c:54-68 | A value in range, reached without earlier divergence, that diverges or is the cap, is exactly `EscapeTime` (both directions). |
| Escape.EscapeTimeOfDivergent | main_serial.c:58-61 | If step k < MAX_ITER diverges and no earlier step does, the count is k. |
| Escape.LastStepIsInvisible | main_serial.c:63-68 | When no step before MAX_ITER-1 diverges, the count is MAX_ITER-1, whether or not the last step diverges. |
| Escape.ThresholdIsStrict | main_serial.c:58 | A modulus that never exceeds 4.0, even one equal to it, never counts as diverged, so the count is MAX_ITER-1. |
| Escape.CellIsLocal | main_serial.c:53-69 | A cell's count depends only on that cell's own orbit below the cap. |
| Serial.SerialGrid | main_serial.c:45-72 | The nested fill gives a res x res grid whose cell (i, j) is `EscapeTime(i, j)`. The cells are written in strictly increasing row-major order, each once, all inside the grid, and every cell is written. |
| Mpi.WorkerLoop | p1/main_mpi.c:174-216 | The worker answers every message before the first kill with `[row] + the row's counts`, one reply per message in order, and stops at the kill without replying. It has terminated exactly when it replied to fewer messages than it was sent. If so, it consumed the replies plus the kill; otherwise it consumed every message. |
| Mpi.AnsweredMatches | p1/main_mpi.c:176-209 | In a finished exchange (every assignment followed by its result), the rows the master received are exactly the values it sent, in order, and none of them is the kill value. |
| Mpi.KilledExchange | p1/main_mpi.c:174-216 | An exchange that ends with the kill is the received rows followed by one kill. |
| Mpi.Prime | p1/main_mpi.c:87-92 | The priming loop sends row r to rank r+1 for every worker: each row below numprocess-1 once, no results yet. Each worker then holds exactly its own initial row. |
| Mpi.PrimingIgnoresResolution | p1/main_mpi.c:87-90 | With more workers than rows, the priming loop sends a row index equal to the resolution, which is not a row of the grid. |
| Mpi.Receive | p1/main_mpi.c:96 | The receive buffer holds the incoming message. |
| Mpi.Merge | p1/main_mpi.c:99-105 | Row `holding[0]` of the grid gets buffer elements 1..res, and every other row is unchanged. |
| Mpi.Collect | p1/main_mpi.c:96-105 | After receiving a worker's result for row `computed`, the buffer is `[computed] + that row's counts`. That row of the grid then holds its escape counts, every other row is unchanged, and the merge count of that row goes up by one. |
| Mpi.Pass | p1/main_mpi.c:94-107 | One main-loop pass: receive from the scheduled worker src, send src the next row, and merge. Afterwards src holds the new row, the other workers are unchanged, and every dispatched row that is no longer held has been merged exactly once and received exactly once. The merge count of the received row goes up by one, and rows never merged are left as they were. |
| Mpi.Dispatch | p1/main_mpi.c:94-107 | The main loop hands out rows numprocess-1 .. res-1. In pass n it receives from `replies[n]` and sends row numprocess-1+n to that same rank. Each row is sent exactly once, the row bookkeeping is preserved, and rows never merged are left as they were. |
| Mpi.DrainOne | p1/main_mpi.c:109-121 | One drain step: receive the last result of rank r and merge it. The row r held becomes merged and received once, its merge count goes up by one, r's exchange is finished, and rows never merged are left as they were. |
| Mpi.DrainAll | p1/main_mpi.c:109-121 | The drain loop receives one result from each rank 1 .. numprocess-1, in rank order. Afterwards every row has been merged, rows never merged are unchanged, and no worker holds work. |
| Mpi.KillAll | p1/main_mpi.c:123-128 | The kill loop sends -1 to each rank, in rank order, after its exchange is finished. No row is sent and nothing is received, and every worker ends holding only the kill. |
| Mpi.RunMaster | p1/main_mpi.c:68-128 | For every arrival schedule, the master's grid holds `EscapeTime` in every cell, and every row is merged exactly once. The log: each row is sent once and received once (`Receipts`), and no other row is received; only rows and -1 are sent; the log is the priming sends, then a receive and a send to the same rank per pass, then one receive from each rank in order, then the kill round; no -1 comes before the kill round; every worker's exchange is its answered assignments followed by one kill. |
| Equivalence.ParallelMatchesSerial | p1/main_mpi.c:174-209 | For 2 <= numprocess <= res + 1 and every arrival schedule, the MPI master's grid and the serial grid have the same dimensions and agree in every cell. On the master's own log, each worker rank was sent its received rows followed by one kill, and its loop answers each of those rows with exactly the buffer the master received. |
| Equivalence.RunWorkers | p1/main_mpi.c:168-216 | Every worker rank, run on the values the master sent it, was sent its received rows and then one kill, and answers them with the master's received buffers, in order. |
| Equivalence.WorkerMatchesMaster | p1/main_mpi.c:174-216 | Run on the values the master sent one rank, the worker's loop terminates after reading all of them. It produces one reply per result the master received from that rank, equal to the buffer the master merged. |

## Left out

- Complex and floating-point arithmetic are left out: `next_z`, the position of each cell from the bounds {-2.0, 0.5} and {-2, 2}, and rounding. The arithmetic is abstracted by the `Orbit` parameter, so the model shows that the count is computed from whatever moduli the iteration produces. It does not show which points are in the Mandelbrot set.
- MPI transport is left out: `MPI_Init`, ranks as separate processes, message tags, buffering, blocking and `MPI_Status`. The run is modelled as one sequential program. The any-source receive is the explicit `replies` schedule, which is required to name real worker ranks and to be long enough. What the simulated workers compute is `Reply`, and `WorkerLoop` is proved to produce exactly that.
- Deadlock and fairness under real message passing are left out. The master's loops are modelled as always receiving the result they wait for.
- Timing (`clock`, `MPI_Wtime`) and the printed messages are left out. They do not affect the grid.
- Writing `output.dat` is left out. In `p1/main_mpi.c` it is disabled by `if(0)`. In `main_serial.c` it reads the grid after the fill and changes nothing.
- `malloc` / `free` of the grid and buffers are left out. They are Dafny allocations.
- `p1/main_omp.c` is not part of this model.
- The python driver and plotting scripts are not part of this model.
- Mpi.WorkerLoop does not model the uninitialised `i` the worker tests before its first receive at `p1/main_mpi.c:174`. The model assumes that test passes, so the loop always receives at least once. If the garbage value happened to be -1, the worker would exit at once and the master would block.
- Mpi.RunMaster: `resolution < numprocess - 1` is excluded by a precondition rather than modelled. `PrimingIgnoresResolution` shows the out-of-range index the priming loop would send.
