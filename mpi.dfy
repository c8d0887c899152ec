/** The MPI master/worker program, run as one sequential simulation.
    Rank 0 is the master; ranks 1 .. numprocess - 1 are workers. The master's receive
    from any source becomes an explicit choice: `replies[n]` is the rank whose result
    arrives in pass n of the master's main loop. The log records every message the
    master sends or receives, in the order the master performs them. */
module Mpi {
  import opened Escape

  /** The termination token. Row indices are never negative, so it is never a row. */
  const Kill: int := -1

  /** One message, as the master sees it: a row index or Kill sent to rank `dest`, or a
      result received from rank `src` whose element 0 names row `row`. */
  datatype Event = Send(dest: nat, value: int) | Recv(src: nat, row: int)

  /** The worker rank an event is exchanged with. */
  function Peer(e: Event): nat
  {
    if e.Send? then e.dest else e.src
  }

  /** The buffer a worker sends back for row `row`: the row index, then the escape
      count of each of the row's res cells. */
  function Reply(orbit: Orbit, res: nat, maxIter: nat, row: int): seq<int>
  {
    [row] + seq(res, j => EscapeTime(orbit, row, j, maxIter))
  }

  /** The events of `log` exchanged with rank w, in order. */
  function Projection(log: seq<Event>, w: nat): seq<Event>
  {
    if log == [] then []
    else Projection(log[..|log| - 1], w) + (if Peer(log[|log| - 1]) == w then [log[|log| - 1]] else [])
  }

  /** How many times `value` has been sent, to any rank. */
  function Dispatches(log: seq<Event>, value: int): nat
  {
    if log == [] then 0
    else Dispatches(log[..|log| - 1], value) + (if log[|log| - 1].Send? && log[|log| - 1].value == value then 1 else 0)
  }

  /** How many results the master has received. */
  function Results(log: seq<Event>): nat
  {
    if log == [] then 0
    else Results(log[..|log| - 1]) + (if log[|log| - 1].Recv? then 1 else 0)
  }

  /** How many results naming row `row` the master has received. */
  function Receipts(log: seq<Event>, row: int): nat
  {
    if log == [] then 0
    else Receipts(log[..|log| - 1], row) + (if log[|log| - 1].Recv? && log[|log| - 1].row == row then 1 else 0)
  }

  lemma AppendEvent(log: seq<Event>, e: Event)
    ensures forall w :: Projection(log + [e], w) == Projection(log, w) + (if Peer(e) == w then [e] else [])
    ensures forall x :: Dispatches(log + [e], x) == Dispatches(log, x) + (if e.Send? && e.value == x then 1 else 0)
    ensures Results(log + [e]) == Results(log) + (if e.Recv? then 1 else 0)
    ensures forall x :: Receipts(log + [e], x) == Receipts(log, x) + (if e.Recv? && e.row == x then 1 else 0)
  {
    assert (log + [e])[..|log|] == log;
  }

  /** A worker's exchange with the master so far is a run of assignment/result pairs,
      each result tagged with the row of the assignment just before it. */
  ghost predicate Answered(p: seq<Event>)
    decreases |p|
  {
    if |p| < 2 then p == []
    else
      p[|p| - 2].Send? && p[|p| - 2].value != Kill
      && p[|p| - 1] == Recv(p[|p| - 2].dest, p[|p| - 2].value)
      && Answered(p[..|p| - 2])
  }

  /** Worker w holds exactly one outstanding message, `value`, the last one it was sent. */
  ghost predicate Holding(p: seq<Event>, w: nat, value: int)
  {
    |p| >= 1 && p[|p| - 1] == Send(w, value) && Answered(p[..|p| - 1])
  }

  lemma AssignmentOpens(p: seq<Event>, w: nat, value: int)
    requires Answered(p)
    ensures Holding(p + [Send(w, value)], w, value)
  {
    assert (p + [Send(w, value)])[..|p|] == p;
  }

  lemma ResultCloses(p: seq<Event>, w: nat, row: int)
    requires Holding(p, w, row) && row != Kill
    ensures Answered(p + [Recv(w, row)])
  {
    var q := p + [Recv(w, row)];
    assert q[..|q| - 2] == p[..|p| - 1];
  }

  /** The values the master sent in the exchange `p`, in order: what the worker reads. */
  function Assignments(p: seq<Event>): seq<int>
  {
    if p == [] then []
    else Assignments(p[..|p| - 1]) + (if p[|p| - 1].Send? then [p[|p| - 1].value] else [])
  }

  /** The rows named by the results the master received in the exchange `p`, in order. */
  function Received(p: seq<Event>): seq<int>
  {
    if p == [] then []
    else Received(p[..|p| - 1]) + (if p[|p| - 1].Recv? then [p[|p| - 1].row] else [])
  }

  /** In an answered exchange every assignment came back, in order, and none was Kill. */
  lemma {:induction false} AnsweredMatches(p: seq<Event>)
    requires Answered(p)
    ensures Assignments(p) == Received(p) && Kill !in Received(p)
    decreases |p|
  {
    if |p| >= 2 {
      var q := p[..|p| - 2];
      var p1 := p[..|p| - 1];
      assert p1[..|p1| - 1] == q;
      AnsweredMatches(q);
    }
  }

  /** A worker that was sent Kill last read every row it was sent, then Kill. */
  lemma KilledExchange(p: seq<Event>, w: nat)
    requires Holding(p, w, Kill)
    ensures Assignments(p) == Received(p) + [Kill] && Kill !in Received(p)
  {
    AnsweredMatches(p[..|p| - 1]);
  }

  /** What the priming loop sends: row r to rank r + 1, for every worker. */
  function PrimingSends(workers: nat): seq<Event>
  {
    seq(workers, (r: nat) => Send(r + 1, r))
  }

  /** What the final loop sends: Kill to every worker rank, in rank order. */
  function KillRound(workers: nat): seq<Event>
  {
    seq(workers, (r: nat) => Send(r + 1, Kill))
  }

  /** The master's receive of one worker result followed by its merge; `row` is the
      row named by the result's element 0, and its merge count goes up by one. */
  method Collect(orbit: Orbit, maxIter: nat, res: nat, grid: array2<int>, holding: array<int>,
                 computed: int, ghost writes: seq<nat>)
    returns (row: int, ghost writes': seq<nat>)
    requires grid.Length0 == res && grid.Length1 == res && holding.Length == res + 1
    requires 0 <= computed < res && |writes| == res
    requires GridAgrees(grid, orbit, maxIter, writes)
    modifies grid, holding
    ensures row == computed && writes' == writes[row := writes[row] + 1]
    ensures holding[..] == Reply(orbit, res, maxIter, computed)
    ensures forall c :: 0 <= c < res ==> grid[row, c] == EscapeTime(orbit, row, c, maxIter)
    ensures forall r, c :: 0 <= r < res && r != row && 0 <= c < res ==> grid[r, c] == old(grid[r, c])
    ensures GridAgrees(grid, orbit, maxIter, writes')
  {
    Receive(holding, Reply(orbit, res, maxIter, computed));
    row := Merge(grid, holding);
    writes' := writes[row := writes[row] + 1];
  }

  /** The priming loop hands out row r to rank r + 1 whatever the resolution: with fewer
      rows than workers, the row indices res .. workers - 1 are sent although they are not
      rows of the grid (nothing bounds r by the resolution). */
  lemma PrimingIgnoresResolution(workers: nat, res: nat)
    requires res < workers
    ensures Send(res + 1, res) in PrimingSends(workers)
  {
    assert PrimingSends(workers)[res] == Send(res + 1, res);
  }

  /** Copies a received result into the grid: row holding[0] gets elements
      1 .. res of the buffer; every other row is left as it was. */
  method Merge(grid: array2<int>, holding: array<int>) returns (j: int)
    requires holding.Length == grid.Length1 + 1
    requires 0 <= holding[0] < grid.Length0
    modifies grid
    ensures j == holding[0]
    ensures forall r, c :: 0 <= r < grid.Length0 && 0 <= c < grid.Length1 ==>
      grid[r, c] == if r == j then holding[c + 1] else old(grid[r, c])
  {
    j := holding[0];
    for k := 0 to grid.Length1
      invariant forall r, c :: 0 <= r < grid.Length0 && 0 <= c < grid.Length1 ==>
        grid[r, c] == if r == j && c < k then holding[c + 1] else old(grid[r, c])
    {
      grid[j, k] := holding[k + 1];
    }
  }

  /** A worker's receive loop over the messages `inbox` it is sent. It answers every
      message up to the first Kill with the tagged row, and stops at Kill without
      replying; `consumed` counts the messages it has taken in, and `terminated` says
      whether it has left its loop. */
  method WorkerLoop(orbit: Orbit, res: nat, maxIter: nat, inbox: seq<int>)
    returns (replies: seq<seq<int>>, consumed: nat, terminated: bool)
    ensures |replies| <= |inbox|
    ensures forall n :: 0 <= n < |replies| ==> inbox[n] != Kill && replies[n] == Reply(orbit, res, maxIter, inbox[n])
    ensures terminated <==> |replies| < |inbox|
    ensures terminated ==> inbox[|replies|] == Kill && consumed == |replies| + 1
    ensures !terminated ==> consumed == |inbox|
  {
    var buffer := new int[res + 1];
    replies, consumed, terminated := [], 0, false;
    while !terminated && consumed < |inbox|
      invariant consumed <= |inbox|
      invariant terminated ==> 1 <= consumed && inbox[consumed - 1] == Kill && |replies| == consumed - 1
      invariant !terminated ==> |replies| == consumed
      invariant forall n :: 0 <= n < |replies| ==> inbox[n] != Kill && replies[n] == Reply(orbit, res, maxIter, inbox[n])
    {
      var i := inbox[consumed];
      consumed := consumed + 1;
      if i != Kill {
        buffer[0] := i;
        for j := 0 to res
          invariant buffer[0] == i
          invariant forall c :: 0 <= c < j ==> buffer[c + 1] == EscapeTime(orbit, i, c, maxIter)
        {
          var k := EscapeCount(orbit, i, j, maxIter);
          buffer[j + 1] := k;
        }
        assert buffer[..] == Reply(orbit, res, maxIter, i);
        replies := replies + [buffer[..]];
      } else {
        terminated := true;
      }
    }
  }

  /** Replacing the row of one worker by a row no worker holds keeps the held rows
      pairwise distinct, drops the old row and adds the new one. */
  lemma ReplaceHeld(held: seq<int>, h: seq<int>, k: nat, x: int)
    requires k < |held| && x !in held && h == held[k := x]
    requires forall v, w :: 0 <= v < w < |held| ==> held[v] != held[w]
    ensures forall v, w :: 0 <= v < w < |h| ==> h[v] != h[w]
    ensures forall r :: r in h <==> r == x || (r in held && r != held[k])
  {
    forall r
      ensures r in h <==> r == x || (r in held && r != held[k])
    {
      assert h[k] == x;
      if r in held && r != held[k] {
        var v :| 0 <= v < |held| && held[v] == r;
        assert h[v] == r;
      }
      if r in h && r != x {
        var v :| 0 <= v < |h| && h[v] == r;
        assert v != k && held[v] == r;
        assert held[k] != held[v] by {
          assert v < k || k < v;
        }
      }
    }
  }

  /** Taking the first held row off the front of the distinct held rows. */
  lemma DropHeld(held: seq<int>, d: nat)
    requires d < |held|
    requires forall v, w :: 0 <= v < w < |held| ==> held[v] != held[w]
    ensures forall r :: r in held[d..] <==> r == held[d] || r in held[d + 1..]
    ensures held[d] !in held[d + 1..]
  {
    assert held[d..] == [held[d]] + held[d + 1..];
    forall v | d + 1 <= v < |held|
      ensures held[v] != held[d]
    {
    }
  }

  /** Where the rows stand while results are outstanding: rows below `next` have been
      handed out; worker w computes row held[w - 1], and no two workers compute the same
      row; the first `drained` workers have returned their last result. A row has been
      merged once if it was handed out and is no longer being computed, and not at all
      otherwise. */
  ghost predicate RowStates(res: nat, numprocess: nat, next: int, drained: nat, held: seq<int>, writes: seq<nat>)
  {
    numprocess >= 2 && numprocess - 1 <= next <= res && drained <= numprocess - 1
    && |held| == numprocess - 1 && |writes| == res
    && (forall w :: 0 <= w < |held| ==> 0 <= held[w] < next)
    && (forall v, w :: 0 <= v < w < |held| ==> held[v] != held[w])
    && (forall r :: 0 <= r < res ==> writes[r] == if r < next && r !in held[drained..] then 1 else 0)
  }

  /** Each row below `next` has been sent exactly once, and nothing but rows was sent. */
  ghost predicate SentOnce(res: nat, next: int, log: seq<Event>)
  {
    (forall x :: Dispatches(log, x) == if 0 <= x < next then 1 else 0)
    && (forall n :: 0 <= n < |log| && log[n].Send? ==> 0 <= log[n].value < res)
  }

  /** Each drained worker has had all its assignments answered; each other worker holds
      exactly one assignment, held[w - 1]. */
  ghost predicate Conversations(numprocess: nat, drained: nat, held: seq<int>, log: seq<Event>)
  {
    |held| == numprocess - 1
    && forall w :: 1 <= w < numprocess ==>
         if w <= drained then Answered(Projection(log, w)) else Holding(Projection(log, w), w, held[w - 1])
  }

  /** The results received so far name each merged row once and no other row. */
  ghost predicate Counted(log: seq<Event>, writes: seq<nat>)
  {
    forall x :: Receipts(log, x) == if 0 <= x < |writes| then writes[x] else 0
  }

  lemma RecvCounted(log: seq<Event>, writes: seq<nat>, src: nat, row: int)
    requires Counted(log, writes) && 0 <= row < |writes|
    ensures Counted(log + [Recv(src, row)], writes[row := writes[row] + 1])
  {
    AppendEvent(log, Recv(src, row));
  }

  lemma SendUncounted(log: seq<Event>, writes: seq<nat>, dest: nat, value: int)
    requires Counted(log, writes)
    ensures Counted(log + [Send(dest, value)], writes)
  {
    AppendEvent(log, Send(dest, value));
  }

  /** The master's bookkeeping while results are outstanding. */
  ghost predicate Progress(res: nat, numprocess: nat, next: int, drained: nat,
                           held: seq<int>, log: seq<Event>, writes: seq<nat>)
  {
    RowStates(res, numprocess, next, drained, held, writes)
    && SentOnce(res, next, log)
    && Results(log) == next - (numprocess - 1) + drained
    && Counted(log, writes)
    && Conversations(numprocess, drained, held, log)
  }

  /** Every row merged so far holds the escape counts of its cells. */
  ghost predicate GridAgrees(grid: array2<int>, orbit: Orbit, maxIter: nat, writes: seq<nat>)
    reads grid
  {
    forall r, c :: 0 <= r < grid.Length0 && 0 <= c < grid.Length1 && r < |writes| && writes[r] == 1 ==>
      grid[r, c] == EscapeTime(orbit, r, c, maxIter)
  }

  /** A result arriving in the master's receive buffer. */
  method Receive(holding: array<int>, message: seq<int>)
    requires holding.Length == |message|
    modifies holding
    ensures holding[..] == message
  {
    forall k | 0 <= k < holding.Length {
      holding[k] := message[k];
    }
  }

  /** The priming loop: rank r + 1 is sent row r, for every worker. */
  method Prime(numprocess: nat) returns (held: seq<int>, log: seq<Event>)
    requires numprocess >= 1
    ensures |held| == numprocess - 1 && forall w :: 0 <= w < |held| ==> held[w] == w
    ensures log == PrimingSends(numprocess - 1)
    ensures forall x :: Dispatches(log, x) == if 0 <= x < numprocess - 1 then 1 else 0
    ensures Results(log) == 0 && forall x :: Receipts(log, x) == 0
    ensures forall w :: 1 <= w < numprocess ==> Holding(Projection(log, w), w, w - 1)
  {
    held, log := [], [];
    for r := 0 to numprocess - 1
      invariant |held| == r && forall w :: 0 <= w < r ==> held[w] == w
      invariant log == PrimingSends(r)
      invariant forall x :: Dispatches(log, x) == if 0 <= x < r then 1 else 0
      invariant Results(log) == 0 && forall x :: Receipts(log, x) == 0
      invariant forall w :: 1 <= w < numprocess ==> Projection(log, w) == if w <= r then [Send(w, w - 1)] else []
    {
      AppendEvent(log, Send(r + 1, r));
      log := log + [Send(r + 1, r)];
      held := held + [r];
    }
    forall w | 1 <= w < numprocess
      ensures Holding(Projection(log, w), w, w - 1)
    {
      assert Projection(log, w)[..0] == [];
    }
  }

  /** One pass of the master's main loop: take the result of worker src, send that same
      worker row `next`, and merge the result at the row its element 0 names. */
  method Pass(orbit: Orbit, maxIter: nat, res: nat, numprocess: nat, src: nat,
              grid: array2<int>, holding: array<int>, next: int,
              held: seq<int>, log: seq<Event>, ghost writes: seq<nat>)
    returns (held': seq<int>, log': seq<Event>, ghost writes': seq<nat>)
    requires Progress(res, numprocess, next, 0, held, log, writes) && next < res
    requires 1 <= src < numprocess
    requires grid.Length0 == res && grid.Length1 == res && holding.Length == res + 1
    requires GridAgrees(grid, orbit, maxIter, writes)
    modifies grid, holding
    ensures Progress(res, numprocess, next + 1, 0, held', log', writes')
    ensures GridAgrees(grid, orbit, maxIter, writes')
    ensures held' == held[src - 1 := next]
    ensures log' == log + [Recv(src, held[src - 1]), Send(src, next)]
    ensures writes' == writes[held[src - 1] := writes[held[src - 1]] + 1]
    ensures forall r, c :: 0 <= r < res && 0 <= c < res && writes'[r] == 0 ==> grid[r, c] == old(grid[r, c])
  {
    var row;
    row, writes' := Collect(orbit, maxIter, res, grid, holding, held[src - 1], writes);
    log' := log + [Recv(src, row), Send(src, next)];
    held' := held[src - 1 := next];
    PassKeepsProgress(res, numprocess, next, src, held, log, writes);
  }

  lemma PassKeepsProgress(res: nat, numprocess: nat, next: int, src: nat,
                          held: seq<int>, log: seq<Event>, writes: seq<nat>)
    requires Progress(res, numprocess, next, 0, held, log, writes) && next < res
    requires 1 <= src < numprocess
    ensures Progress(res, numprocess, next + 1, 0, held[src - 1 := next],
                     log + [Recv(src, held[src - 1]), Send(src, next)], writes[held[src - 1] := writes[held[src - 1]] + 1])
  {
    PassRowStates(res, numprocess, next, src, held, writes);
    PassSentOnce(res, next, src, held[src - 1], log);
    PassConversations(numprocess, next, src, held, log);
    PassCounted(log, writes, src, held[src - 1], next);
  }

  lemma PassCounted(log: seq<Event>, writes: seq<nat>, src: nat, row: int, next: int)
    requires Counted(log, writes) && 0 <= row < |writes|
    ensures Counted(log + [Recv(src, row), Send(src, next)], writes[row := writes[row] + 1])
  {
    RecvCounted(log, writes, src, row);
    SendUncounted(log + [Recv(src, row)], writes[row := writes[row] + 1], src, next);
    assert log + [Recv(src, row)] + [Send(src, next)] == log + [Recv(src, row), Send(src, next)];
  }

  lemma PassRowStates(res: nat, numprocess: nat, next: int, src: nat, held: seq<int>, writes: seq<nat>)
    requires RowStates(res, numprocess, next, 0, held, writes) && next < res
    requires 1 <= src < numprocess
    ensures RowStates(res, numprocess, next + 1, 0, held[src - 1 := next], writes[held[src - 1] := writes[held[src - 1]] + 1])
  {
    var row := held[src - 1];
    var held' := held[src - 1 := next];
    var writes' := writes[row := writes[row] + 1];
    assert held[0..] == held && held'[0..] == held';
    assert next !in held;
    ReplaceHeld(held, held', src - 1, next);
    assert row in held;
    forall r | 0 <= r < res
      ensures writes'[r] == if r < next + 1 && r !in held' then 1 else 0
    {
    }
  }

  lemma PassSentOnce(res: nat, next: int, src: nat, row: int, log: seq<Event>)
    requires SentOnce(res, next, log) && 0 <= next < res
    ensures SentOnce(res, next + 1, log + [Recv(src, row), Send(src, next)])
    ensures Results(log + [Recv(src, row), Send(src, next)]) == Results(log) + 1
  {
    var mid := log + [Recv(src, row)];
    var log' := mid + [Send(src, next)];
    assert log' == log + [Recv(src, row), Send(src, next)];
    AppendEvent(log, Recv(src, row));
    AppendEvent(mid, Send(src, next));
    forall n | 0 <= n < |log'| && log'[n].Send?
      ensures 0 <= log'[n].value < res
    {
      if n < |log| {
        assert log'[n] == log[n];
      }
    }
  }

  lemma PassConversations(numprocess: nat, next: int, src: nat, held: seq<int>, log: seq<Event>)
    requires Conversations(numprocess, 0, held, log)
    requires 1 <= src < numprocess && held[src - 1] != Kill
    ensures Conversations(numprocess, 0, held[src - 1 := next], log + [Recv(src, held[src - 1]), Send(src, next)])
  {
    var row := held[src - 1];
    var held' := held[src - 1 := next];
    var mid := log + [Recv(src, row)];
    var log' := mid + [Send(src, next)];
    assert log' == log + [Recv(src, row), Send(src, next)];
    AppendEvent(log, Recv(src, row));
    AppendEvent(mid, Send(src, next));
    ResultCloses(Projection(log, src), src, row);
    AssignmentOpens(Projection(mid, src), src, next);
    forall w | 1 <= w < numprocess
      ensures Holding(Projection(log', w), w, held'[w - 1])
    {
      if w != src {
        assert Projection(log', w) == Projection(log, w);
      }
    }
  }

  /** One step of the drain loop: take the last result of worker r and merge it. */
  method DrainOne(orbit: Orbit, maxIter: nat, res: nat, numprocess: nat, r: nat,
                  grid: array2<int>, holding: array<int>,
                  held: seq<int>, log: seq<Event>, ghost writes: seq<nat>)
    returns (log': seq<Event>, ghost writes': seq<nat>)
    requires 1 <= r < numprocess
    requires Progress(res, numprocess, res, r - 1, held, log, writes)
    requires grid.Length0 == res && grid.Length1 == res && holding.Length == res + 1
    requires GridAgrees(grid, orbit, maxIter, writes)
    modifies grid, holding
    ensures Progress(res, numprocess, res, r, held, log', writes')
    ensures GridAgrees(grid, orbit, maxIter, writes')
    ensures log' == log + [Recv(r, held[r - 1])]
    ensures writes' == writes[held[r - 1] := writes[held[r - 1]] + 1]
    ensures forall x, c :: 0 <= x < res && 0 <= c < res && writes'[x] == 0 ==> grid[x, c] == old(grid[x, c])
  {
    var row;
    row, writes' := Collect(orbit, maxIter, res, grid, holding, held[r - 1], writes);
    log' := log + [Recv(r, row)];
    DrainKeepsProgress(res, numprocess, r, held, log, writes);
  }

  lemma DrainKeepsProgress(res: nat, numprocess: nat, r: nat,
                           held: seq<int>, log: seq<Event>, writes: seq<nat>)
    requires 1 <= r < numprocess
    requires Progress(res, numprocess, res, r - 1, held, log, writes)
    ensures Progress(res, numprocess, res, r, held, log + [Recv(r, held[r - 1])],
                     writes[held[r - 1] := writes[held[r - 1]] + 1])
  {
    DrainRowStates(res, numprocess, r, held, writes);
    DrainSentOnce(res, r, held[r - 1], log);
    DrainConversations(numprocess, r, held, log);
    RecvCounted(log, writes, r, held[r - 1]);
  }

  lemma DrainRowStates(res: nat, numprocess: nat, r: nat, held: seq<int>, writes: seq<nat>)
    requires 1 <= r < numprocess
    requires RowStates(res, numprocess, res, r - 1, held, writes)
    ensures RowStates(res, numprocess, res, r, held, writes[held[r - 1] := writes[held[r - 1]] + 1])
  {
    var row := held[r - 1];
    var writes' := writes[row := writes[row] + 1];
    DropHeld(held, r - 1);
    forall x | 0 <= x < res
      ensures writes'[x] == if x < res && x !in held[r..] then 1 else 0
    {
    }
  }

  lemma DrainSentOnce(res: nat, r: nat, row: int, log: seq<Event>)
    requires SentOnce(res, res, log)
    ensures SentOnce(res, res, log + [Recv(r, row)]) && Results(log + [Recv(r, row)]) == Results(log) + 1
  {
    var log' := log + [Recv(r, row)];
    AppendEvent(log, Recv(r, row));
    forall n | 0 <= n < |log'| && log'[n].Send?
      ensures 0 <= log'[n].value < res
    {
      assert log'[n] == log[n];
    }
  }

  lemma DrainConversations(numprocess: nat, r: nat, held: seq<int>, log: seq<Event>)
    requires 1 <= r < numprocess
    requires Conversations(numprocess, r - 1, held, log) && held[r - 1] != Kill
    ensures Conversations(numprocess, r, held, log + [Recv(r, held[r - 1])])
  {
    var log' := log + [Recv(r, held[r - 1])];
    AppendEvent(log, Recv(r, held[r - 1]));
    ResultCloses(Projection(log, r), r, held[r - 1]);
    forall w | 1 <= w < numprocess
      ensures if w <= r then Answered(Projection(log', w)) else Holding(Projection(log', w), w, held[w - 1])
    {
      if w != r {
        assert Projection(log', w) == Projection(log, w);
      }
    }
  }

  /** Workers below rank r have been sent Kill after all their results came in; the
      others have had every assignment answered. */
  ghost predicate KillsSent(numprocess: nat, r: nat, log: seq<Event>)
  {
    forall w :: 1 <= w < numprocess ==>
      if w < r then Holding(Projection(log, w), w, Kill) else Answered(Projection(log, w))
  }

  lemma KillStep(numprocess: nat, r: nat, log: seq<Event>)
    requires 1 <= r < numprocess && KillsSent(numprocess, r, log)
    ensures KillsSent(numprocess, r + 1, log + [Send(r, Kill)])
    ensures forall x :: 0 <= x ==> Dispatches(log + [Send(r, Kill)], x) == Dispatches(log, x)
    ensures Results(log + [Send(r, Kill)]) == Results(log)
    ensures forall x :: Receipts(log + [Send(r, Kill)], x) == Receipts(log, x)
  {
    AppendEvent(log, Send(r, Kill));
    AssignmentOpens(Projection(log, r), r, Kill);
    forall w | 1 <= w < numprocess
      ensures if w < r + 1 then Holding(Projection(log + [Send(r, Kill)], w), w, Kill)
              else Answered(Projection(log + [Send(r, Kill)], w))
    {
      if w != r {
        assert Projection(log + [Send(r, Kill)], w) == Projection(log, w);
      }
    }
  }

  /** The final loop: Kill to every worker, once each, after all results are in. */
  method KillAll(numprocess: nat, log: seq<Event>) returns (log': seq<Event>)
    requires numprocess >= 1
    requires forall w :: 1 <= w < numprocess ==> Answered(Projection(log, w))
    ensures log' == log + KillRound(numprocess - 1)
    ensures forall x :: 0 <= x ==> Dispatches(log', x) == Dispatches(log, x)
    ensures Results(log') == Results(log) && forall x :: Receipts(log', x) == Receipts(log, x)
    ensures forall w :: 1 <= w < numprocess ==> Holding(Projection(log', w), w, Kill)
  {
    log' := log;
    for r := 1 to numprocess
      invariant log' == log + KillRound(r - 1)
      invariant forall x :: 0 <= x ==> Dispatches(log', x) == Dispatches(log, x)
      invariant Results(log') == Results(log) && forall x :: Receipts(log', x) == Receipts(log, x)
      invariant KillsSent(numprocess, r, log')
    {
      KillStep(numprocess, r, log');
      assert KillRound(r) == KillRound(r - 1) + [Send(r, Kill)];
      log' := log' + [Send(r, Kill)];
    }
  }

  /** `log` extends `log0` by `passes` main-loop passes: in pass n the result of worker
      replies[n] is received and that worker is sent row first + n. */
  ghost predicate PassShape(log0: seq<Event>, log: seq<Event>, replies: seq<nat>, first: int, passes: nat)
  {
    |log| == |log0| + 2 * passes && log[..|log0|] == log0 && passes <= |replies|
    && forall n :: 0 <= n < passes ==>
         log[|log0| + 2 * n].Recv? && log[|log0| + 2 * n].src == replies[n]
         && log[|log0| + 2 * n + 1] == Send(replies[n], first + n)
  }

  lemma PassShapeStep(log0: seq<Event>, log: seq<Event>, replies: seq<nat>, first: int, passes: nat, row: int)
    requires PassShape(log0, log, replies, first, passes) && passes < |replies|
    ensures PassShape(log0, log + [Recv(replies[passes], row), Send(replies[passes], first + passes)], replies, first, passes + 1)
  {
    var log' := log + [Recv(replies[passes], row), Send(replies[passes], first + passes)];
    assert log'[..|log0|] == log[..|log0|];
    forall n | 0 <= n < passes
      ensures log'[|log0| + 2 * n] == log[|log0| + 2 * n] && log'[|log0| + 2 * n + 1] == log[|log0| + 2 * n + 1]
    {
    }
  }

  /** `log` extends `log0` by one result from each of the ranks 1 .. done, in rank order. */
  ghost predicate DrainShape(log0: seq<Event>, log: seq<Event>, done: nat)
  {
    |log| == |log0| + done && log[..|log0|] == log0
    && forall m :: |log0| <= m < |log| ==> log[m].Recv? && log[m].src == m - |log0| + 1
  }

  lemma DrainShapeStep(log0: seq<Event>, log: seq<Event>, done: nat, row: int)
    requires DrainShape(log0, log, done)
    ensures DrainShape(log0, log + [Recv(done + 1, row)], done + 1)
  {
    assert (log + [Recv(done + 1, row)])[..|log0|] == log[..|log0|];
  }

  /** The master's main loop: while rows remain, take a result from worker replies[n]
      and hand that worker the next row. */
  method Dispatch(orbit: Orbit, maxIter: nat, res: nat, numprocess: nat, replies: seq<nat>,
                  grid: array2<int>, holding: array<int>,
                  held: seq<int>, log: seq<Event>, ghost writes: seq<nat>)
    returns (held': seq<int>, log': seq<Event>, ghost writes': seq<nat>)
    requires Progress(res, numprocess, numprocess - 1, 0, held, log, writes)
    requires |replies| >= res - (numprocess - 1)
    requires forall n :: 0 <= n < |replies| ==> 1 <= replies[n] < numprocess
    requires grid.Length0 == res && grid.Length1 == res && holding.Length == res + 1
    requires GridAgrees(grid, orbit, maxIter, writes)
    modifies grid, holding
    ensures Progress(res, numprocess, res, 0, held', log', writes')
    ensures GridAgrees(grid, orbit, maxIter, writes')
    ensures PassShape(log, log', replies, numprocess - 1, res - (numprocess - 1))
    ensures forall r, c :: 0 <= r < res && 0 <= c < res && writes'[r] == 0 ==> grid[r, c] == old(grid[r, c])
  {
    var workers := numprocess - 1;
    held', log', writes' := held, log, writes;
    var i := workers;
    while i < res
      invariant Progress(res, numprocess, i, 0, held', log', writes')
      invariant GridAgrees(grid, orbit, maxIter, writes')
      invariant PassShape(log, log', replies, workers, i - workers)
      invariant forall r, c :: 0 <= r < res && 0 <= c < res && writes'[r] == 0 ==> grid[r, c] == old(grid[r, c])
    {
      PassShapeStep(log, log', replies, workers, i - workers, held'[replies[i - workers] - 1]);
      held', log', writes' := Pass(orbit, maxIter, res, numprocess, replies[i - workers], grid, holding, i, held', log', writes');
      i := i + 1;
    }
  }

  /** The drain loop: one more result from every worker, in rank order. */
  method DrainAll(orbit: Orbit, maxIter: nat, res: nat, numprocess: nat,
                  grid: array2<int>, holding: array<int>,
                  held: seq<int>, log: seq<Event>, ghost writes: seq<nat>)
    returns (log': seq<Event>, ghost writes': seq<nat>)
    requires Progress(res, numprocess, res, 0, held, log, writes)
    requires grid.Length0 == res && grid.Length1 == res && holding.Length == res + 1
    requires GridAgrees(grid, orbit, maxIter, writes)
    modifies grid, holding
    ensures Progress(res, numprocess, res, numprocess - 1, held, log', writes')
    ensures GridAgrees(grid, orbit, maxIter, writes')
    ensures DrainShape(log, log', numprocess - 1)
    ensures forall x, c :: 0 <= x < res && 0 <= c < res && writes'[x] == 0 ==> grid[x, c] == old(grid[x, c])
  {
    log', writes' := log, writes;
    for r := 1 to numprocess
      invariant Progress(res, numprocess, res, r - 1, held, log', writes')
      invariant GridAgrees(grid, orbit, maxIter, writes')
      invariant DrainShape(log, log', r - 1)
      invariant forall x, c :: 0 <= x < res && 0 <= c < res && writes'[x] == 0 ==> grid[x, c] == old(grid[x, c])
    {
      DrainShapeStep(log, log', r - 1, held[r - 1]);
      log', writes' := DrainOne(orbit, maxIter, res, numprocess, r, grid, holding, held, log', writes');
    }
  }

  /** The master (rank 0). It primes every worker with one row, then in each pass of its
      main loop takes the result of worker replies[n], hands that worker the next row and
      merges the result; once every row has been handed out it takes one more result from
      each worker in rank order and finally sends every worker Kill. `writes[r]` counts the
      merges into row r. */
  method RunMaster(orbit: Orbit, res: nat, maxIter: nat, numprocess: nat, replies: seq<nat>)
    returns (grid: array2<int>, log: seq<Event>, ghost writes: seq<nat>)
    requires numprocess >= 2
    requires res >= numprocess - 1
    requires |replies| >= res - (numprocess - 1)
    requires forall n :: 0 <= n < |replies| ==> 1 <= replies[n] < numprocess
    ensures fresh(grid) && grid.Length0 == res && grid.Length1 == res
    ensures forall i, j :: 0 <= i < res && 0 <= j < res ==> grid[i, j] == EscapeTime(orbit, i, j, maxIter)
    ensures |writes| == res && forall r :: 0 <= r < res ==> writes[r] == 1
    ensures CompleteRun(res, numprocess, replies, log)
  {
    var workers := numprocess - 1;
    var holding := new int[res + 1];
    grid := new int[res, res];
    writes := seq(res, _ => 0);

    var held;
    held, log := Prime(numprocess);
    PrimedProgress(res, numprocess, held, log);
    ghost var primed := log;

    held, log, writes := Dispatch(orbit, maxIter, res, numprocess, replies, grid, holding, held, log, writes);
    ghost var dispatched := log;
    log, writes := DrainAll(orbit, maxIter, res, numprocess, grid, holding, held, log, writes);
    AllDrained(res, numprocess, held, log, writes);
    ghost var drained := log;
    log := KillAll(numprocess, log);
    CompletedRun(res, numprocess, replies, primed, dispatched, drained, log);
  }

  /** What the master's log looks like once the run is over. Every row is received
      once and handed out once, and nothing but rows and Kill is ever sent; the log is
      the priming sends, then one receive and one send per main-loop pass, the latter to
      the rank that just replied, then one receive from each worker in rank order, and
      last the kill round, with no Kill anywhere before it. Each worker's own exchange is
      a run of answered assignments closed by its one Kill. */
  ghost predicate CompleteRun(res: nat, numprocess: nat, replies: seq<nat>, log: seq<Event>)
    requires numprocess >= 2 && res >= numprocess - 1 && |replies| >= res - (numprocess - 1)
  {
    RunCounts(res, log)
    && RunLayout(res, numprocess, replies, log)
    && (forall w :: 1 <= w < numprocess ==> Holding(Projection(log, w), w, Kill))
  }

  /** Every row is received once and handed out once, no other row is received, and
      nothing but rows and Kill is sent. */
  ghost predicate RunCounts(res: nat, log: seq<Event>)
  {
    Results(log) == res
    && (forall x :: Receipts(log, x) == if 0 <= x < res then 1 else 0)
    && (forall r :: 0 <= r < res ==> Dispatches(log, r) == 1)
    && (forall n :: 0 <= n < |log| && log[n].Send? ==> 0 <= log[n].value < res || log[n].value == Kill)
  }

  /** The order of the master's events: priming, main-loop passes, drain, kill round. */
  ghost predicate RunLayout(res: nat, numprocess: nat, replies: seq<nat>, log: seq<Event>)
    requires numprocess >= 2 && res >= numprocess - 1 && |replies| >= res - (numprocess - 1)
  {
    var workers := numprocess - 1;
    |log| == 2 * res + workers
    && log[..workers] == PrimingSends(workers)
    && (forall n :: 0 <= n < res - workers ==>
          log[workers + 2 * n].Recv? && log[workers + 2 * n].src == replies[n]
          && log[workers + 2 * n + 1] == Send(replies[n], workers + n))
    && (forall m :: 2 * res - workers <= m < 2 * res ==> log[m].Recv? && log[m].src == m - (2 * res - workers) + 1)
    && (forall n :: 0 <= n < 2 * res ==> !(log[n].Send? && log[n].value == Kill))
    && log[2 * res..] == KillRound(workers)
  }

  lemma CompletedRun(res: nat, numprocess: nat, replies: seq<nat>,
                     primed: seq<Event>, dispatched: seq<Event>, drained: seq<Event>, log: seq<Event>)
    requires numprocess >= 2 && res >= numprocess - 1 && |replies| >= res - (numprocess - 1)
    requires primed == PrimingSends(numprocess - 1)
    requires PassShape(primed, dispatched, replies, numprocess - 1, res - (numprocess - 1))
    requires DrainShape(dispatched, drained, numprocess - 1)
    requires Results(drained) == res && forall r :: 0 <= r < res ==> Dispatches(drained, r) == 1
    requires forall x :: Receipts(drained, x) == if 0 <= x < res then 1 else 0
    requires forall n :: 0 <= n < |drained| && drained[n].Send? ==> 0 <= drained[n].value < res
    requires log == drained + KillRound(numprocess - 1)
    requires forall x :: 0 <= x ==> Dispatches(log, x) == Dispatches(drained, x)
    requires Results(log) == Results(drained) && forall x :: Receipts(log, x) == Receipts(drained, x)
    requires forall w :: 1 <= w < numprocess ==> Holding(Projection(log, w), w, Kill)
    ensures CompleteRun(res, numprocess, replies, log)
  {
    KilledSends(res, numprocess - 1, drained, log);
    LaidOut(res, numprocess, replies, primed, dispatched, drained, log);
  }

  lemma LaidOut(res: nat, numprocess: nat, replies: seq<nat>,
                primed: seq<Event>, dispatched: seq<Event>, drained: seq<Event>, log: seq<Event>)
    requires numprocess >= 2 && res >= numprocess - 1 && |replies| >= res - (numprocess - 1)
    requires primed == PrimingSends(numprocess - 1)
    requires PassShape(primed, dispatched, replies, numprocess - 1, res - (numprocess - 1))
    requires DrainShape(dispatched, drained, numprocess - 1)
    requires |drained| <= |log| && log[..|drained|] == drained && log[|drained|..] == KillRound(numprocess - 1)
    requires forall n :: 0 <= n < |drained| ==> !(log[n].Send? && log[n].value == Kill)
    ensures RunLayout(res, numprocess, replies, log)
  {
    var workers := numprocess - 1;
    assert drained[..|dispatched|] == dispatched;
    assert |log| == |drained| + |log[|drained|..]|;
    ShapeCarries(primed, dispatched, drained, log, replies, workers, res - workers);
    DrainCarries(dispatched, drained, log, workers);
  }

  /** The drain's receives stay where they are as the log grows. */
  lemma DrainCarries(dispatched: seq<Event>, drained: seq<Event>, log: seq<Event>, done: nat)
    requires DrainShape(dispatched, drained, done)
    requires |log| >= |drained| && log[..|drained|] == drained
    ensures forall m :: |dispatched| <= m < |drained| ==> log[m].Recv? && log[m].src == m - |dispatched| + 1
  {
    forall m | |dispatched| <= m < |drained|
      ensures log[m] == drained[m]
    {
    }
  }

  /** Appending the kill round: every send is a row or Kill, and Kill only at the end. */
  lemma KilledSends(res: nat, workers: nat, drained: seq<Event>, log: seq<Event>)
    requires forall n :: 0 <= n < |drained| && drained[n].Send? ==> 0 <= drained[n].value < res
    requires log == drained + KillRound(workers)
    ensures |drained| <= |log| && log[..|drained|] == drained && log[|drained|..] == KillRound(workers)
    ensures forall n :: 0 <= n < |log| && log[n].Send? ==> 0 <= log[n].value < res || log[n].value == Kill
    ensures forall n :: 0 <= n < |drained| ==> !(log[n].Send? && log[n].value == Kill)
  {
    assert log[..|drained|] == drained;
    assert log[|drained|..] == KillRound(workers);
    forall n | 0 <= n < |log| && log[n].Send?
      ensures 0 <= log[n].value < res || log[n].value == Kill
    {
      if n < |drained| {
        assert log[n] == drained[n];
      } else {
        assert log[n] == KillRound(workers)[n - |drained|];
      }
    }
    forall n | 0 <= n < |drained|
      ensures !(log[n].Send? && log[n].value == Kill)
    {
      assert log[n] == drained[n];
    }
  }

  /** The main-loop passes stay where they are as the log grows. */
  lemma ShapeCarries(primed: seq<Event>, dispatched: seq<Event>, drained: seq<Event>, log: seq<Event>,
                     replies: seq<nat>, first: int, passes: nat)
    requires PassShape(primed, dispatched, replies, first, passes)
    requires |drained| >= |dispatched| && drained[..|dispatched|] == dispatched
    requires |log| >= |drained| && log[..|drained|] == drained
    ensures |primed| <= |log| && log[..|primed|] == primed
    ensures forall n :: 0 <= n < passes ==>
      log[|primed| + 2 * n].Recv? && log[|primed| + 2 * n].src == replies[n]
      && log[|primed| + 2 * n + 1] == Send(replies[n], first + n)
  {
    assert log[..|primed|] == dispatched[..|primed|];
    forall n | 0 <= n < passes
      ensures log[|primed| + 2 * n] == dispatched[|primed| + 2 * n]
      ensures log[|primed| + 2 * n + 1] == dispatched[|primed| + 2 * n + 1]
    {
      assert log[|primed| + 2 * n] == drained[|primed| + 2 * n];
      assert log[|primed| + 2 * n + 1] == drained[|primed| + 2 * n + 1];
    }
  }

  lemma PrimedProgress(res: nat, numprocess: nat, held: seq<int>, log: seq<Event>)
    requires numprocess >= 2 && res >= numprocess - 1
    requires |held| == numprocess - 1 && forall w :: 0 <= w < |held| ==> held[w] == w
    requires log == PrimingSends(numprocess - 1)
    requires forall x :: Dispatches(log, x) == if 0 <= x < numprocess - 1 then 1 else 0
    requires Results(log) == 0 && forall x :: Receipts(log, x) == 0
    requires forall w :: 1 <= w < numprocess ==> Holding(Projection(log, w), w, w - 1)
    ensures Progress(res, numprocess, numprocess - 1, 0, held, log, seq(res, _ => 0))
  {
    assert held[0..] == held;
    forall r | 0 <= r < numprocess - 1
      ensures r in held
    {
      assert held[r] == r;
    }
  }

  lemma AllDrained(res: nat, numprocess: nat, held: seq<int>, log: seq<Event>, writes: seq<nat>)
    requires numprocess >= 2
    requires Progress(res, numprocess, res, numprocess - 1, held, log, writes)
    ensures |writes| == res && forall r :: 0 <= r < res ==> writes[r] == 1
    ensures forall w :: 1 <= w < numprocess ==> Answered(Projection(log, w))
    ensures Results(log) == res && forall r :: 0 <= r < res ==> Dispatches(log, r) == 1
    ensures forall x :: Receipts(log, x) == if 0 <= x < res then 1 else 0
    ensures forall n :: 0 <= n < |log| && log[n].Send? ==> 0 <= log[n].value < res
  {
    assert held[numprocess - 1..] == [];
  }
}
