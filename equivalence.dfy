/** The two programs side by side: the MPI run fills the same grid as the serial loop,
    and every worker, fed the messages the master sent it, replies with exactly the
    results the master received from it and then stops. */
module Equivalence {
  import opened Escape
  import opened Serial
  import opened Mpi

  /** The headline property: for every process count with 2 <= numprocess <= res + 1
      and every order in which results arrive, the master's grid equals the serial grid.
      Besides, each worker rank w, run on the values the master sent it, leaves its loop
      on the final Kill having read every message, and its replies, collected in
      answers[w - 1], are exactly the results the master received from w, in order. */
  method ParallelMatchesSerial(orbit: Orbit, res: nat, maxIter: nat, numprocess: nat, replies: seq<nat>)
    returns (mpi: array2<int>, serial: array2<int>, log: seq<Event>, answers: seq<seq<seq<int>>>)
    requires numprocess >= 2
    requires res >= numprocess - 1
    requires |replies| >= res - (numprocess - 1)
    requires forall n :: 0 <= n < |replies| ==> 1 <= replies[n] < numprocess
    ensures mpi.Length0 == serial.Length0 == res && mpi.Length1 == serial.Length1 == res
    ensures forall i, j :: 0 <= i < res && 0 <= j < res ==> mpi[i, j] == serial[i, j]
    ensures |answers| == numprocess - 1
    ensures forall w :: 1 <= w < numprocess ==>
      Assignments(Projection(log, w)) == Received(Projection(log, w)) + [Kill]
      && |answers[w - 1]| == |Received(Projection(log, w))|
      && forall n :: 0 <= n < |answers[w - 1]| ==>
           answers[w - 1][n] == Reply(orbit, res, maxIter, Received(Projection(log, w))[n])
  {
    ghost var writes;
    mpi, log, writes := RunMaster(orbit, res, maxIter, numprocess, replies);
    ghost var order;
    serial, order := SerialGrid(orbit, res, maxIter);
    answers := RunWorkers(orbit, res, maxIter, numprocess, log);
  }

  /** Every worker rank 1 .. numprocess - 1 run on the values the master sent it. */
  method RunWorkers(orbit: Orbit, res: nat, maxIter: nat, numprocess: nat, log: seq<Event>)
    returns (answers: seq<seq<seq<int>>>)
    requires numprocess >= 1
    requires forall w :: 1 <= w < numprocess ==> Holding(Projection(log, w), w, Kill)
    ensures |answers| == numprocess - 1
    ensures forall w :: 1 <= w < numprocess ==>
      Assignments(Projection(log, w)) == Received(Projection(log, w)) + [Kill]
      && |answers[w - 1]| == |Received(Projection(log, w))|
      && forall n :: 0 <= n < |answers[w - 1]| ==>
           answers[w - 1][n] == Reply(orbit, res, maxIter, Received(Projection(log, w))[n])
  {
    answers := [];
    for w := 1 to numprocess
      invariant |answers| == w - 1
      invariant forall v :: 1 <= v < w ==>
        Assignments(Projection(log, v)) == Received(Projection(log, v)) + [Kill]
        && |answers[v - 1]| == |Received(Projection(log, v))|
        && forall n :: 0 <= n < |answers[v - 1]| ==>
             answers[v - 1][n] == Reply(orbit, res, maxIter, Received(Projection(log, v))[n])
    {
      KilledExchange(Projection(log, w), w);
      var answer, consumed, terminated := WorkerMatchesMaster(orbit, res, maxIter, Projection(log, w), w);
      answers := answers + [answer];
    }
  }

  /** The worker side of one rank's exchange: run on the values the master sent it, the
      worker's loop replies once per received result, with the buffer the master took
      in, and leaves its loop on the final Kill having read every message. */
  method WorkerMatchesMaster(orbit: Orbit, res: nat, maxIter: nat, p: seq<Event>, w: nat)
    returns (replies: seq<seq<int>>, consumed: nat, terminated: bool)
    requires Holding(p, w, Kill)
    ensures terminated && consumed == |Assignments(p)|
    ensures |replies| == |Received(p)|
    ensures forall n :: 0 <= n < |replies| ==> replies[n] == Reply(orbit, res, maxIter, Received(p)[n])
  {
    KilledExchange(p, w);
    var inbox := Assignments(p);
    replies, consumed, terminated := WorkerLoop(orbit, res, maxIter, inbox);
    assert inbox[|inbox| - 1] == Kill;
  }
}
