/** The linked job queue behind g_work and g_done, as it is inside its critical sections. */
module JobQueues {

  /** A job's link field; `contents` of the queue is the list it spells. */
  class TsJob {
    var next: TsJob?

    constructor () { next := null; }
  }

  class JobQueue {
    var head: TsJob?
    var tail: TsJob?
    var count: int
    ghost var contents: seq<TsJob>

    ghost predicate Valid()
      reads this, contents
    {
      && (forall i, j :: 0 <= i < j < |contents| ==> contents[i] != contents[j])
      && head == (if contents == [] then null else contents[0])
      && tail == (if contents == [] then null else contents[|contents| - 1])
      && (forall i {:trigger contents[i].next} :: 0 <= i < |contents| ==>
            contents[i].next == if i + 1 < |contents| then contents[i + 1] else null)
      && count == |contents|
    }

    constructor ()
      ensures Valid() && contents == []
    {
      head, tail, count := null, null, 0;
      contents := [];
    }

    /** Appends a job that is in no queue. */
    method Push(job: TsJob)
      requires Valid() && job !in contents
      modifies this, contents, job
      ensures Valid() && contents == old(contents) + [job]
    {
      job.next := null;
      if tail != null { tail.next := job; } else { head := job; }
      tail := job;
      count := count + 1;
      contents := contents + [job];
    }

    /** One look at the queue: the oldest job, unlinked, or null if there is none. */
    method Pop() returns (job: TsJob?)
      requires Valid()
      modifies this, contents
      ensures Valid()
      ensures old(contents) == [] ==> job == null && contents == []
      ensures old(contents) != [] ==> job == old(contents)[0] && contents == old(contents)[1..] && job.next == null
    {
      job := head;
      if job == null { return; }
      head := job.next;
      if head == null { tail := null; }
      count := count - 1;
      contents := contents[1..];
      job.next := null;
    }
  }
}
