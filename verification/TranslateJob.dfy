/** What the sequential loop, the worker pool and the pipeline have in common. */
module TranslateJob {
  import opened Common

  // The error values the source compares by identity, and every other error.
  datatype Error = EOF | Continue | Failed(code: int)

  // What one call of translate() hands back.
  datatype Answer<+OUT> = Answer(output: OUT, err: Option<Error>)

  // What a worker sends to the collector: indexedResult and pipelineResult.
  datatype Record<+OUT> = Record(idx: nat, cont: bool, output: OUT, err: Option<Error>)

  // How often index i is in a channel of records, or in a channel of indices.
  function InRecords<OUT>(rs: seq<Record<OUT>>, i: nat): nat {
    if rs == [] then 0 else (if rs[0].idx == i then 1 else 0) + InRecords(rs[1..], i)
  }

  function InJobs(jobs: seq<nat>, i: nat): nat {
    if jobs == [] then 0 else (if jobs[0] == i then 1 else 0) + InJobs(jobs[1..], i)
  }

  lemma {:induction false} InRecordsSnoc<OUT>(rs: seq<Record<OUT>>, r: Record<OUT>, i: nat)
    ensures InRecords(rs + [r], i) == InRecords(rs, i) + if r.idx == i then 1 else 0
  {
    if rs != [] {
      assert (rs + [r])[1..] == rs[1..] + [r];
      InRecordsSnoc(rs[1..], r, i);
    }
  }

  lemma {:induction false} InJobsSnoc(jobs: seq<nat>, j: nat, i: nat)
    ensures InJobs(jobs + [j], i) == InJobs(jobs, i) + if j == i then 1 else 0
  {
    if jobs != [] {
      assert (jobs + [j])[1..] == jobs[1..] + [j];
      InJobsSnoc(jobs[1..], j, i);
    }
  }
}
