/** The loop of ParallelMemcpyPool::copy that hands out the chunks (src/parallel_memcpy.cpp, lines 96-112), as it
    works on the array of worker states.  The step machine runs the same loop one iteration per event. */
module MemcpyChunks {
  import opened MemcpyMachine
  import opened MemcpyInvariant

  method AssignChunks(states: array<Job>, job: Job)
    requires states.Length > 0
    modifies states
    ensures forall w: nat :: w < states.Length ==> states[w] == Chunk(job, states.Length, w)
  {
    var workerCount := states.Length;
    var workerSize := job.size / workerCount;
    var offset := 0;
    var index := 0;
    while index != workerCount - 1
      invariant 0 <= index <= workerCount - 1
      invariant offset == ChunkOffset(job.size, workerCount, index)
      invariant forall w: nat :: w < index ==> states[w] == Chunk(job, workerCount, w)
    {
      states[index] := Job(job.dst + offset, job.src + offset, workerSize);
      OffsetNext(job.size, workerCount, index);
      offset := offset + workerSize;
      index := index + 1;
    }
    OffsetBounded(job.size, workerCount, workerCount - 1);
    states[workerCount - 1] := Job(job.dst + offset, job.src + offset, job.size - offset);
  }

  /** Memory after the first `done` workers have copied their chunks, one after the other. */
  ghost function AfterChunks(mem: seq<Byte>, job: Job, workers: nat, done: nat): (r: seq<Byte>)
    requires 0 < workers && done <= workers && job.FitsIn(mem)
    ensures |r| == |mem|
  {
    if done == 0 then mem
    else
      ChunkInside(job, workers, done - 1);
      CopyBytes(AfterChunks(mem, job, workers, done - 1), Chunk(job, workers, done - 1))
  }

  /** The first chunks are the beginning of the copy; all of them are the copy, for every size and every number of
      workers, more workers than bytes included. */
  lemma {:induction false} ChunksMakeTheCopy(mem: seq<Byte>, job: Job, workers: nat, done: nat)
    requires 0 < done <= workers && job.FitsIn(mem)
    ensures Chunk(job, workers, done - 1).dst + Chunk(job, workers, done - 1).size <= job.dst + job.size
    ensures var last := Chunk(job, workers, done - 1);
            AfterChunks(mem, job, workers, done) == CopyBytes(mem, job.(size := last.dst + last.size - job.dst))
    ensures done == workers ==> AfterChunks(mem, job, workers, done) == CopyBytes(mem, job)
  {
    ChunkInside(job, workers, done - 1);
    ChunksAdjacent(job, workers, done - 1);
    if done > 1 {
      ChunksMakeTheCopy(mem, job, workers, done - 1);
      ChunksAdjacent(job, workers, done - 2);
    }
  }
}
