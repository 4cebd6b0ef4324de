/** The tc-exec broker (cmd/tc-exec/main.go, cmd/tc-exec/mailbox.go): a submitted command is
    dispatched over the socket or over its mailbox, whichever comes first.

    Each method is one step of one goroutine, no larger than a section under the broker's lock;
    steps of all goroutines interleave freely.  Valid holds after every step. */
module Broker {

  import opened Basics

  /** A job id: 24 random bytes, read as a number. */
  type Id = nat

  datatype Job = Job(command: string, workdir: string, created: int)

  const MAX_JOBS := 128
  const MAX_WORKERS := 8
  /** Ten minutes, in nanoseconds. */
  const JOB_TTL := 600_000_000_000

  /** Where a mailbox goroutine stands: about to look for its job, about to read a request, waiting
      for the dispatch it started, on its way out, or past its cleanup but not yet counted out. */
  datatype Phase = Polling | Polled | Waiting(d: nat) | Leaving | Cleaned

  /** Where one dispatch stands: with no worker slot yet, with one, with the job it took (if any),
      running its command, or over. */
  datatype Stage = Asked | HasSlot | Took(taken: Option<Job>) | Running(job: Job) | Over

  /** A dispatch of job `id`, started by the mailbox of that job or by a socket connection. */
  datatype Dispatch = Dispatch(id: Id, byMailbox: bool, stage: Stage)

  /** The dispatch with the job it finds in the table, if it is there. */
  function Taking(jobs: map<Id, Job>, x: Dispatch): Dispatch {
    x.(stage := Took(if x.id in jobs then Some(jobs[x.id]) else None))
  }

  /** Who may still run a job: anyone who takes it, the dispatch that took it, or nobody. */
  datatype Right = Pending | Held(d: nat) | Spent

  datatype Run = Run(id: Id, job: Job, at: int)

  predicate UsesSlot(s: Stage) { s.HasSlot? || s.Took? || s.Running? }

  ghost function Slots(ds: map<nat, Dispatch>): set<nat> { set d | d in ds && UsesSlot(ds[d].stage) }

  /** The jobs not older than their time. */
  ghost function Unexpired(jobs: map<Id, Job>, at: int): map<Id, Job> {
    map id | id in jobs && at - jobs[id].created <= JOB_TTL :: jobs[id]
  }

  ghost function Live(boxes: map<Id, Phase>): set<Id> { set id | id in boxes && !boxes[id].Cleaned? }

  /* ----- the invariant ----- */

  /** The right to run a job is in one place: the table, one dispatch, or nowhere. */
  ghost predicate RightsOk(jobs: map<Id, Job>, ds: map<nat, Dispatch>, submitted: map<Id, Job>, right: map<Id, Right>) {
    && right.Keys == submitted.Keys
    && (forall id :: id in right ==> (right[id].Pending? <==> id in jobs))
    && (forall id :: id in jobs ==> id in submitted && jobs[id] == submitted[id])
    && (forall d :: d in ds ==> HoldsRight(submitted, right, d, ds[d]))
  }

  ghost predicate HoldsRight(submitted: map<Id, Job>, right: map<Id, Right>, d: nat, x: Dispatch) {
    x.stage.Took? && x.stage.taken.Some? ==>
      x.id in submitted && x.id in right && submitted[x.id] == x.stage.taken.value && right[x.id] == Held(d)
  }

  /** No job ran twice, and each ran its own command within its time. */
  ghost predicate RunsOk(submitted: map<Id, Job>, right: map<Id, Right>, runs: seq<Run>) {
    && (forall i :: 0 <= i < |runs| ==> RunOk(submitted, right, runs[i]))
    && (forall i, j :: 0 <= i < j < |runs| ==> runs[i].id != runs[j].id)
  }

  ghost predicate RunOk(submitted: map<Id, Job>, right: map<Id, Right>, r: Run) {
    && r.id in submitted && r.id in right && submitted[r.id] == r.job && right[r.id] == Spent
    && r.at - r.job.created <= JOB_TTL
  }

  ghost predicate Bounded(jobs: map<Id, Job>, workers: nat, active: nat, ds: map<nat, Dispatch>, boxes: map<Id, Phase>) {
    && |jobs| <= MAX_JOBS && active <= MAX_JOBS && workers <= MAX_WORKERS
    && workers == |Slots(ds)| && active == |Live(boxes)|
  }

  /** Each mailbox waits for the one dispatch it started. */
  ghost predicate BoxesOk(ds: map<nat, Dispatch>, boxes: map<Id, Phase>) {
    && (forall id :: id in boxes && boxes[id].Waiting? ==> StartedBy(ds, id, boxes[id].d))
    && (forall d :: d in ds && ds[d].byMailbox ==> ds[d].id in boxes && boxes[ds[d].id] == Waiting(d))
  }

  ghost predicate StartedBy(ds: map<nat, Dispatch>, id: Id, d: nat) {
    d in ds && ds[d].byMailbox && ds[d].id == id
  }

  /** In mailbox mode every pending job has a live mailbox; after closeMailbox there is none. */
  ghost predicate MailboxOk(mailbox: bool, jobs: map<Id, Job>, boxes: map<Id, Phase>, submitted: map<Id, Job>,
                            closing: bool, closed: bool) {
    && boxes.Keys <= submitted.Keys
    && (mailbox ==> jobs.Keys <= Live(boxes))
    && (!mailbox ==> boxes == map[])
    && (closed ==> closing && boxes == map[])
  }

  /* ----- what each kind of step keeps ----- */

  /** Runs survive as long as what was submitted and spent stays so. */
  lemma RunsKept(submitted: map<Id, Job>, right: map<Id, Right>, runs: seq<Run>, submitted': map<Id, Job>, right': map<Id, Right>)
    requires RunsOk(submitted, right, runs)
    requires forall id :: id in submitted ==> id in submitted' && submitted'[id] == submitted[id]
    requires forall id :: id in right && right[id] == Spent ==> id in right' && right'[id] == Spent
    ensures RunsOk(submitted', right', runs)
  {
    assert forall r :: RunOk(submitted, right, r) ==> RunOk(submitted', right', r);
  }

  /** A pending job leaves the table for `place`: the dispatch that took it, or nowhere. */
  lemma TakeRight(jobs: map<Id, Job>, ds: map<nat, Dispatch>, submitted: map<Id, Job>, right: map<Id, Right>, id: Id, place: Right)
    requires RightsOk(jobs, ds, submitted, right) && id in jobs && !place.Pending?
    ensures RightsOk(jobs - {id}, ds, submitted, right[id := place])
  {
    forall d | d in ds
      ensures HoldsRight(submitted, right[id := place], d, ds[d])
    {
      assert HoldsRight(submitted, right, d, ds[d]);
    }
  }

  lemma AddRight(jobs: map<Id, Job>, ds: map<nat, Dispatch>, submitted: map<Id, Job>, right: map<Id, Right>, id: Id, j: Job)
    requires RightsOk(jobs, ds, submitted, right) && id !in submitted
    ensures RightsOk(jobs[id := j], ds, submitted[id := j], right[id := Pending])
  {
    forall d | d in ds
      ensures HoldsRight(submitted[id := j], right[id := Pending], d, ds[d])
    {
      assert HoldsRight(submitted, right, d, ds[d]);
    }
  }

  /** A dispatch that holds no right, or is new, moves to a stage that holds none. */
  lemma MoveDispatch(jobs: map<Id, Job>, ds: map<nat, Dispatch>, submitted: map<Id, Job>, right: map<Id, Right>, d: nat, x: Dispatch)
    requires RightsOk(jobs, ds, submitted, right) && !(x.stage.Took? && x.stage.taken.Some?)
    ensures RightsOk(jobs, ds[d := x], submitted, right)
  {
  }

  lemma FewerJobs(jobs: map<Id, Job>, workers: nat, active: nat, ds: map<nat, Dispatch>, boxes: map<Id, Phase>, id: Id)
    requires Bounded(jobs, workers, active, ds, boxes)
    ensures Bounded(jobs - {id}, workers, active, ds, boxes)
  {
    Fewer((jobs - {id}).Keys, jobs.Keys);
  }

  /** What changes when one dispatch moves: the slots in use, and nothing about mailboxes. */
  lemma MoveSlots(ds: map<nat, Dispatch>, d: nat, x: Dispatch)
    ensures d in ds && UsesSlot(ds[d].stage) == UsesSlot(x.stage) ==> |Slots(ds[d := x])| == |Slots(ds)|
    ensures d !in ds && !UsesSlot(x.stage) ==> |Slots(ds[d := x])| == |Slots(ds)|
    ensures d in ds && !UsesSlot(ds[d].stage) && UsesSlot(x.stage) ==> |Slots(ds[d := x])| == |Slots(ds)| + 1
    ensures d in ds && UsesSlot(ds[d].stage) && !UsesSlot(x.stage) ==> |Slots(ds[d := x])| == |Slots(ds)| - 1
  {
    if UsesSlot(x.stage) {
      assert Slots(ds[d := x]) == Slots(ds) + {d};
    } else {
      assert Slots(ds[d := x]) == Slots(ds) - {d};
    }
  }

  lemma MoveStarted(ds: map<nat, Dispatch>, boxes: map<Id, Phase>, d: nat, x: Dispatch)
    requires BoxesOk(ds, boxes) && d in ds && x.id == ds[d].id && x.byMailbox == ds[d].byMailbox
    ensures BoxesOk(ds[d := x], boxes)
  {
    forall id | id in boxes && boxes[id].Waiting?
      ensures StartedBy(ds[d := x], id, boxes[id].d)
    {
      assert StartedBy(ds, id, boxes[id].d);
    }
  }

  lemma MoveBox(boxes: map<Id, Phase>, id: Id, p: Phase)
    requires id in boxes && !boxes[id].Cleaned?
    ensures !p.Cleaned? ==> Live(boxes[id := p]) == Live(boxes)
    ensures p.Cleaned? ==> Live(boxes[id := p]) == Live(boxes) - {id} && |Live(boxes)| == |Live(boxes[id := p])| + 1
  {
    if p.Cleaned? {
      assert Live(boxes) == Live(boxes[id := p]) + {id};
    }
  }

  /** A dispatch keeps its slot and takes a job out of the table. */
  lemma TakeBounds(m: bool, jobs: map<Id, Job>, workers: nat, active: nat, ds: map<nat, Dispatch>, boxes: map<Id, Phase>,
                   submitted: map<Id, Job>, closing: bool, closed: bool, d: nat, x: Dispatch)
    requires Bounded(jobs, workers, active, ds, boxes) && MailboxOk(m, jobs, boxes, submitted, closing, closed)
    requires d in ds && UsesSlot(ds[d].stage) && UsesSlot(x.stage)
    ensures Bounded(jobs - {x.id}, workers, active, ds[d := x], boxes)
    ensures MailboxOk(m, jobs - {x.id}, boxes, submitted, closing, closed)
  {
    MoveSlots(ds, d, x);
    FewerJobs(jobs, workers, active, ds, boxes, x.id);
  }

  lemma SlotsInUse(ds: map<nat, Dispatch>, d: nat)
    requires d in ds && UsesSlot(ds[d].stage)
    ensures 1 <= |Slots(ds)|
  {
    assert Slots(ds) == (Slots(ds) - {d}) + {d};
  }

  lemma RightsCover(jobs: map<Id, Job>, ds: map<nat, Dispatch>, submitted: map<Id, Job>, right: map<Id, Right>)
    requires RightsOk(jobs, ds, submitted, right)
    ensures right.Keys == submitted.Keys && jobs.Keys <= submitted.Keys
    ensures forall id :: id in jobs ==> right[id].Pending? && jobs[id] == submitted[id]
  {
  }

  lemma NewBox(m: bool, ds: map<nat, Dispatch>, boxes: map<Id, Phase>, id: Id)
    requires BoxesOk(ds, boxes) && id !in boxes
    ensures BoxesOk(ds, WithBox(m, boxes, id))
  {
    forall i | i in boxes && boxes[i].Waiting?
      ensures StartedBy(ds, i, boxes[i].d)
    {
    }
  }

  /** A new job's right to run is in the table, and no run is touched. */
  lemma SubmitRights(jobs: map<Id, Job>, ds: map<nat, Dispatch>, submitted: map<Id, Job>, right: map<Id, Right>, runs: seq<Run>,
                     id: Id, j: Job)
    requires RightsOk(jobs, ds, submitted, right) && RunsOk(submitted, right, runs) && id !in submitted
    ensures RightsOk(jobs[id := j], ds, submitted[id := j], right[id := Pending])
    ensures RunsOk(submitted[id := j], right[id := Pending], runs) && jobs.Keys <= submitted.Keys
  {
    hide RightsOk, RunsOk;
    AddRight(jobs, ds, submitted, right, id, j);
    RightsCover(jobs, ds, submitted, right);
    RunsKept(submitted, right, runs, submitted[id := j], right[id := Pending]);
  }

  /** A new job's mailbox, in mailbox mode. */
  function WithBox(m: bool, boxes: map<Id, Phase>, id: Id): map<Id, Phase> {
    if m then boxes[id := Polling] else boxes
  }

  lemma SubmitBounds(m: bool, jobs: map<Id, Job>, workers: nat, active: nat, ds: map<nat, Dispatch>, boxes: map<Id, Phase>,
                     submitted: map<Id, Job>, closing: bool, closed: bool, id: Id, j: Job)
    requires Bounded(jobs, workers, active, ds, boxes) && MailboxOk(m, jobs, boxes, submitted, closing, closed)
    requires id !in submitted && jobs.Keys <= submitted.Keys && |jobs| < MAX_JOBS && active < MAX_JOBS && !(m && closing)
    ensures id !in boxes
    ensures Bounded(jobs[id := j], workers, if m then active + 1 else active, ds, WithBox(m, boxes, id))
    ensures MailboxOk(m, jobs[id := j], WithBox(m, boxes, id), submitted[id := j], closing, closed)
  {
    assert id !in boxes;
    SubmitCounts(m, jobs, workers, active, ds, boxes, id, j);
    SubmitMailbox(m, jobs, boxes, submitted, closing, closed, id, j);
  }

  lemma SubmitCounts(m: bool, jobs: map<Id, Job>, workers: nat, active: nat, ds: map<nat, Dispatch>, boxes: map<Id, Phase>,
                     id: Id, j: Job)
    requires Bounded(jobs, workers, active, ds, boxes) && |jobs| < MAX_JOBS && active < MAX_JOBS && id !in jobs && id !in boxes
    ensures Bounded(jobs[id := j], workers, if m then active + 1 else active, ds, WithBox(m, boxes, id))
  {
    OneMoreJob(jobs, id, j);
    OneMoreBox(boxes, id);
    hide Slots, Live;
  }

  lemma SubmitMailbox(m: bool, jobs: map<Id, Job>, boxes: map<Id, Phase>, submitted: map<Id, Job>, closing: bool, closed: bool,
                      id: Id, j: Job)
    requires MailboxOk(m, jobs, boxes, submitted, closing, closed) && id !in boxes && !(m && closing)
    ensures MailboxOk(m, jobs[id := j], WithBox(m, boxes, id), submitted[id := j], closing, closed)
  {
    OneMoreBox(boxes, id);
    hide Live;
  }

  lemma OneMoreJob(jobs: map<Id, Job>, id: Id, j: Job)
    requires id !in jobs
    ensures jobs[id := j].Keys == jobs.Keys + {id} && |jobs[id := j]| == |jobs| + 1
  {
  }

  lemma OneMoreBox(boxes: map<Id, Phase>, id: Id)
    requires id !in boxes
    ensures Live(boxes[id := Polling]) == Live(boxes) + {id} && |Live(boxes[id := Polling])| == |Live(boxes)| + 1
  {
    assert Live(boxes[id := Polling]) == Live(boxes) + {id};
  }

  /** A new dispatch that holds no slot and no right yet. */
  lemma NewDispatch(ds: map<nat, Dispatch>, boxes: map<Id, Phase>, d: nat, id: Id)
    requires BoxesOk(ds, boxes) && d !in ds
    ensures BoxesOk(ds[d := Dispatch(id, false, Asked)], boxes)
  {
    var ds' := ds[d := Dispatch(id, false, Asked)];
    forall i | i in boxes && boxes[i].Waiting?
      ensures StartedBy(ds', i, boxes[i].d)
    {
      assert StartedBy(ds, i, boxes[i].d);
    }
  }

  /** A mailbox starts its dispatch and waits for it. */
  lemma StartDispatch(ds: map<nat, Dispatch>, boxes: map<Id, Phase>, d: nat, id: Id)
    requires BoxesOk(ds, boxes) && d !in ds && id in boxes && !boxes[id].Waiting?
    ensures BoxesOk(ds[d := Dispatch(id, true, Asked)], boxes[id := Waiting(d)])
  {
    var ds', boxes' := ds[d := Dispatch(id, true, Asked)], boxes[id := Waiting(d)];
    forall i | i in boxes' && boxes'[i].Waiting?
      ensures StartedBy(ds', i, boxes'[i].d)
    {
      assert i != id ==> StartedBy(ds, i, boxes[i].d);
    }
    forall e | e in ds' && ds'[e].byMailbox
      ensures ds'[e].id in boxes' && boxes'[ds'[e].id] == Waiting(e)
    {
      assert e != d ==> boxes[ds[e].id] == Waiting(e);
    }
  }

  /** A mailbox that waits for nothing moves to another such phase. */
  lemma MoveIdle(ds: map<nat, Dispatch>, boxes: map<Id, Phase>, id: Id, p: Phase)
    requires BoxesOk(ds, boxes) && id in boxes && !boxes[id].Waiting? && !p.Waiting?
    ensures BoxesOk(ds, boxes[id := p]) && BoxesOk(ds, boxes - {id})
  {
    assert forall i, d :: StartedBy(ds, i, d) && i in boxes && boxes[i] == Waiting(d) ==> i != id;
  }

  /** A dispatch is over and its goroutine gone; a mailbox that waited for it leaves. */
  lemma EndDispatch(ds: map<nat, Dispatch>, boxes: map<Id, Phase>, d: nat)
    requires BoxesOk(ds, boxes) && d in ds
    ensures BoxesOk(ds - {d}, if ds[d].byMailbox then boxes[ds[d].id := Leaving] else boxes)
  {
    var ds', boxes' := ds - {d}, if ds[d].byMailbox then boxes[ds[d].id := Leaving] else boxes;
    forall i | i in boxes' && boxes'[i].Waiting?
      ensures StartedBy(ds', i, boxes'[i].d)
    {
      assert i in boxes && boxes'[i] == boxes[i] && StartedBy(ds, i, boxes[i].d);
    }
    forall e | e in ds' && ds'[e].byMailbox
      ensures ds'[e].id in boxes' && boxes'[ds'[e].id] == Waiting(e)
    {
      assert e in ds && boxes[ds[e].id] == Waiting(e);
    }
  }

  lemma EndSlots(ds: map<nat, Dispatch>, d: nat)
    requires d in ds && !UsesSlot(ds[d].stage)
    ensures Slots(ds - {d}) == Slots(ds)
  {
  }

  lemma EndRights(jobs: map<Id, Job>, ds: map<nat, Dispatch>, submitted: map<Id, Job>, right: map<Id, Right>, d: nat)
    requires RightsOk(jobs, ds, submitted, right)
    ensures RightsOk(jobs, ds - {d}, submitted, right)
  {
  }

  /** The dispatch that took a pending job now holds the only right to run it. */
  lemma HoldRight(jobs: map<Id, Job>, ds: map<nat, Dispatch>, submitted: map<Id, Job>, right: map<Id, Right>, d: nat, x: Dispatch)
    requires RightsOk(jobs, ds, submitted, right) && x.id in jobs && x.stage == Took(Some(jobs[x.id]))
    ensures RightsOk(jobs - {x.id}, ds[d := x], submitted, right[x.id := Held(d)])
  {
    TakeRight(jobs, ds, submitted, right, x.id, Held(d));
    assert HoldsRight(submitted, right[x.id := Held(d)], d, x);
  }

  /** What a dispatch takes from the table, it holds. */
  lemma MoveRight(jobs: map<Id, Job>, ds: map<nat, Dispatch>, submitted: map<Id, Job>, right: map<Id, Right>, runs: seq<Run>, d: nat)
    requires RightsOk(jobs, ds, submitted, right) && RunsOk(submitted, right, runs) && d in ds
    ensures var x := Taking(jobs, ds[d]);
            var right' := if x.id in jobs then right[x.id := Held(d)] else right;
            RightsOk(jobs - {x.id}, ds[d := x], submitted, right') && RunsOk(submitted, right', runs)
  {
    hide RightsOk, RunsOk;
    var x := Taking(jobs, ds[d]);
    if x.id in jobs {
      HoldRight(jobs, ds, submitted, right, d, x);
      RightsCover(jobs, ds, submitted, right);
      RunsKept(submitted, right, runs, submitted, right[x.id := Held(d)]);
    } else {
      MoveDispatch(jobs, ds, submitted, right, d, x);
      assert jobs - {x.id} == jobs;
    }
  }

  /** The dispatch that holds a right gives it up, by running the job or refusing it. */
  lemma SpendRight(jobs: map<Id, Job>, ds: map<nat, Dispatch>, submitted: map<Id, Job>, right: map<Id, Right>, d: nat, x: Dispatch)
    requires RightsOk(jobs, ds, submitted, right) && d in ds && ds[d].stage.Took? && ds[d].stage.taken.Some?
    requires x.id == ds[d].id && !x.stage.Took?
    ensures x.id in right && right[x.id] == Held(d) && x.id in submitted && submitted[x.id] == ds[d].stage.taken.value
    ensures RightsOk(jobs, ds[d := x], submitted, right[x.id := Spent])
  {
    assert HoldsRight(submitted, right, d, ds[d]);
    forall e | e in ds && e != d
      ensures HoldsRight(submitted, right[x.id := Spent], e, ds[e])
    {
      assert HoldsRight(submitted, right, e, ds[e]);
    }
  }

  lemma AddRun(submitted: map<Id, Job>, right: map<Id, Right>, runs: seq<Run>, r: Run, d: nat)
    requires RunsOk(submitted, right, runs)
    requires r.id in submitted && submitted[r.id] == r.job && r.id in right && right[r.id] == Held(d)
    requires r.at - r.job.created <= JOB_TTL
    ensures RunsOk(submitted, right[r.id := Spent], runs + [r])
  {
    assert forall i :: 0 <= i < |runs| ==> RunOk(submitted, right, runs[i]) && runs[i].id != r.id;
    RunsKept(submitted, right, runs, submitted, right[r.id := Spent]);
    assert RunOk(submitted, right[r.id := Spent], r);
  }

  class Broker {
    /** The broker has a mailbox directory. */
    const mailbox: bool
    var jobs: map<Id, Job>
    var workers: nat
    var active: nat
    var closing: bool
    /** closeMailbox has returned. */
    var closed: bool
    var now: int

    /** The goroutines: mailboxes by job, counted in the wait group, and dispatches. */
    var boxes: map<Id, Phase>
    var dispatches: map<nat, Dispatch>

    /** History: every job submitted, what was run, and (ghost) who may still run each job. */
    var submitted: map<Id, Job>
    var runs: seq<Run>
    ghost var right: map<Id, Right>

    ghost predicate Valid()
      reads this
    {
      && RightsOk(jobs, dispatches, submitted, right)
      && RunsOk(submitted, right, runs)
      && Bounded(jobs, workers, active, dispatches, boxes)
      && BoxesOk(dispatches, boxes)
      && MailboxOk(mailbox, jobs, boxes, submitted, closing, closed)
    }

    constructor (m: bool)
      ensures Valid() && mailbox == m && jobs == map[] && !closing && runs == []
    {
      mailbox, jobs, workers, active, closing, closed, now := m, map[], 0, 0, false, false, 0;
      boxes, dispatches, submitted, right, runs := map[], map[], map[], map[], [];
    }

    /** delete(b.jobs, id): from now on nobody can take it. */
    method Forget(id: Id)
      requires Valid()
      modifies `jobs, `right
      ensures Valid() && jobs == old(jobs) - {id}
    {
      hide RightsOk, RunsOk, Bounded, BoxesOk;
      if id in jobs {
        TakeRight(jobs, dispatches, submitted, right, id, Spent);
        FewerJobs(jobs, workers, active, dispatches, boxes, id);
        RunsKept(submitted, right, runs, submitted, right[id := Spent]);
        right := right[id := Spent];
        jobs := jobs - {id};
      } else {
        assert jobs - {id} == jobs;
      }
    }

    /** Deletes every job older than its time, as of `at`. */
    method Expire(at: int)
      requires Valid()
      modifies `jobs, `right
      ensures Valid()
      ensures jobs == Unexpired(old(jobs), at)
      ensures jobs.Keys <= old(jobs).Keys
      ensures forall id :: id in old(jobs) ==> (id in jobs <==> at - old(jobs)[id].created <= 600_000_000_000)
    {
      hide RightsOk, RunsOk, Bounded, BoxesOk, MailboxOk;
      var ids := jobs.Keys;
      while ids != {}
        invariant Valid()
        invariant ids <= jobs.Keys <= old(jobs).Keys
        invariant forall id :: id in jobs ==> jobs[id] == old(jobs)[id]
        invariant forall id :: id in old(jobs) && id !in ids ==> (id in jobs <==> at - old(jobs)[id].created <= JOB_TTL)
        decreases ids
      {
        var id :| id in ids;
        ids := ids - {id};
        if at - jobs[id].created > JOB_TTL {
          Forget(id);
        }
      }
    }

    /** A job goes into the table, with a mailbox of its own in mailbox mode. */
    method AddJob(id: Id, j: Job)
      requires Valid() && id !in submitted && |jobs| < MAX_JOBS && active < MAX_JOBS && !(mailbox && closing)
      modifies `jobs, `right, `submitted, `boxes, `active
      ensures Valid() && jobs == old(jobs)[id := j] && submitted == old(submitted)[id := j]
      ensures boxes == WithBox(mailbox, old(boxes), id)
    {
      hide RightsOk, RunsOk, Bounded, BoxesOk, MailboxOk;
      hide WithBox;
      SubmitRights(jobs, dispatches, submitted, right, runs, id, j);
      SubmitBounds(mailbox, jobs, workers, active, dispatches, boxes, submitted, closing, closed, id, j);
      NewBox(mailbox, dispatches, boxes, id);
      jobs, submitted, right := jobs[id := j], submitted[id := j], right[id := Pending];
      boxes, active := WithBox(mailbox, boxes, id), if mailbox then active + 1 else active;
    }

    /** submit: `id` is the fresh random id, `made` whether the mailbox could be created. */
    method Submit(id: Id, command: string, workdir: string, acceptable: bool, made: bool) returns (ok: bool)
      requires Valid() && id !in submitted
      modifies `jobs, `right, `submitted, `boxes, `active
      ensures Valid()
      // Nothing is accepted over a mailbox once shutdown has begun.
      ensures ok <==> && acceptable && |Unexpired(old(jobs), now)| < MAX_JOBS && old(active) < MAX_JOBS
                      && (mailbox ==> made && !closing)
      ensures jobs == if ok then Unexpired(old(jobs), now)[id := Job(command, workdir, now)]
                      else if acceptable then Unexpired(old(jobs), now) else old(jobs)
      ensures submitted == if ok then old(submitted)[id := Job(command, workdir, now)] else old(submitted)
      ensures boxes == if ok && mailbox then old(boxes)[id := Polling] else old(boxes)
    {
      hide RightsOk, RunsOk, Bounded, BoxesOk, MailboxOk, Unexpired;
      if !acceptable {
        return false;
      }
      Expire(now);
      if |jobs| >= MAX_JOBS || active >= MAX_JOBS || (mailbox && (closing || !made)) {
        return false;
      }
      AddJob(id, Job(command, workdir, now));
      return true;
    }

    /** A dispatch arrives over the socket. */
    method Ask(d: nat, id: Id)
      requires Valid() && d !in dispatches
      modifies `dispatches
      ensures Valid() && dispatches == old(dispatches)[d := Dispatch(id, false, Asked)]
    {
      hide RightsOk, RunsOk, BoxesOk;
      NewDispatch(dispatches, boxes, d, id);
      MoveDispatch(jobs, dispatches, submitted, right, d, Dispatch(id, false, Asked));
      MoveSlots(dispatches, d, Dispatch(id, false, Asked));
      dispatches := dispatches[d := Dispatch(id, false, Asked)];
    }

    /** Takes a worker slot, or is refused because the broker is busy. */
    method Begin(d: nat)
      requires Valid() && d in dispatches && dispatches[d].stage.Asked?
      modifies `dispatches, `workers
      ensures Valid()
      ensures dispatches == old(dispatches)[d := old(dispatches[d]).(stage := if old(workers) < MAX_WORKERS then HasSlot else Over)]
    {
      hide RightsOk, RunsOk, BoxesOk;
      var x := dispatches[d].(stage := if workers < MAX_WORKERS then HasSlot else Over);
      MoveDispatch(jobs, dispatches, submitted, right, d, x);
      MoveSlots(dispatches, d, x);
      MoveStarted(dispatches, boxes, d, x);
      workers := if workers < MAX_WORKERS then workers + 1 else workers;
      dispatches := dispatches[d := x];
    }

    /** Looks the job up and deletes it, under the lock. */
    method Take(d: nat)
      requires Valid() && d in dispatches && dispatches[d].stage.HasSlot?
      modifies `dispatches, `jobs, `right
      ensures Valid()
      ensures jobs == old(jobs) - {old(dispatches[d].id)}
      ensures var x := old(dispatches[d]);
              dispatches == old(dispatches)[d := Dispatch(x.id, x.byMailbox, Took(if x.id in old(jobs) then Some(old(jobs)[x.id]) else None))]
    {
      hide RightsOk, RunsOk, BoxesOk, Bounded, MailboxOk;
      var id := dispatches[d].id;
      var x := Taking(jobs, dispatches[d]);
      TakeBounds(mailbox, jobs, workers, active, dispatches, boxes, submitted, closing, closed, d, x);
      MoveStarted(dispatches, boxes, d, x);
      MoveRight(jobs, dispatches, submitted, right, runs, d);
      right := if id in jobs then right[id := Held(d)] else right;
      dispatches, jobs := dispatches[d := x], jobs - {id};
    }

    /** Runs the job it took, unless there was none or its time is over. */
    method Start(d: nat)
      requires Valid() && d in dispatches && dispatches[d].stage.Took?
      modifies `dispatches, `workers, `right, `runs
      ensures Valid()
      ensures var x := old(dispatches[d]);
              if x.stage.taken.Some? && now - x.stage.taken.value.created <= JOB_TTL
              then && runs == old(runs) + [Run(x.id, x.stage.taken.value, now)]
                   && dispatches == old(dispatches)[d := x.(stage := Running(x.stage.taken.value))]
              else runs == old(runs) && dispatches == old(dispatches)[d := x.(stage := Over)]
    {
      hide RightsOk, RunsOk, BoxesOk;
      var id, taken := dispatches[d].id, dispatches[d].stage.taken;
      var runsIt := taken.Some? && now - taken.value.created <= JOB_TTL;
      var x := dispatches[d].(stage := if runsIt then Running(taken.value) else Over);
      MoveSlots(dispatches, d, x);
      MoveStarted(dispatches, boxes, d, x);
      if taken.Some? {
        SpendRight(jobs, dispatches, submitted, right, d, x);
        if runsIt {
          AddRun(submitted, right, runs, Run(id, taken.value, now), d);
          runs := runs + [Run(id, taken.value, now)];
        } else {
          RunsKept(submitted, right, runs, submitted, right[id := Spent]);
        }
        right := right[id := Spent];
      } else {
        MoveDispatch(jobs, dispatches, submitted, right, d, x);
      }
      if !runsIt {
        SlotsInUse(dispatches, d);
        workers := workers - 1;
      }
      dispatches := dispatches[d := x];
    }

    /** A dispatch of a pending job within its time, with a slot free, runs the command submitted. */
    method Dispatched(d: nat)
      requires Valid() && d in dispatches && dispatches[d].stage.Asked? && workers < MAX_WORKERS
      requires dispatches[d].id in jobs && now - jobs[dispatches[d].id].created <= JOB_TTL
      modifies `dispatches, `workers, `jobs, `right, `runs
      ensures Valid()
      ensures var x := old(dispatches[d]);
              && x.id in submitted && runs == old(runs) + [Run(x.id, submitted[x.id], now)]
              && jobs == old(jobs) - {x.id}
              && d in dispatches && dispatches[d] == Dispatch(x.id, x.byMailbox, Running(submitted[x.id]))
    {
      hide RightsOk, RunsOk, Bounded, BoxesOk, MailboxOk;
      RightsCover(jobs, dispatches, submitted, right);
      Begin(d);
      Take(d);
      Start(d);
    }

    /** Over the socket. */
    method RunBySocket(d: nat, id: Id)
      requires Valid() && d !in dispatches && workers < MAX_WORKERS && id in jobs && now - jobs[id].created <= JOB_TTL
      modifies `dispatches, `workers, `jobs, `right, `runs
      ensures Valid() && id in submitted && id !in jobs && runs == old(runs) + [Run(id, submitted[id], now)]
    {
      hide RightsOk, RunsOk, Bounded, BoxesOk, MailboxOk;
      Ask(d, id);
      Dispatched(d);
    }

    /** Over the job's mailbox, which looks and then reads the byte D. */
    method RunByMailbox(d: nat, id: Id)
      requires Valid() && d !in dispatches && workers < MAX_WORKERS && id in jobs && now - jobs[id].created <= JOB_TTL
      requires id in boxes && boxes[id].Polling?
      modifies `boxes, `dispatches, `workers, `jobs, `right, `runs
      ensures Valid() && id in submitted && id !in jobs && runs == old(runs) + [Run(id, submitted[id], now)]
      ensures boxes == old(boxes)[id := Waiting(d)]
    {
      hide RightsOk, RunsOk, Bounded, BoxesOk, MailboxOk;
      Look(id);
      Read(id, Some('D' as int), false, d);
      Dispatched(d);
    }

    /** The command ends and its slot is free again. */
    method Finish(d: nat)
      requires Valid() && d in dispatches && dispatches[d].stage.Running?
      modifies `dispatches, `workers
      ensures Valid() && workers + 1 == old(workers)
      ensures dispatches == old(dispatches)[d := old(dispatches[d]).(stage := Over)]
    {
      hide RightsOk, RunsOk, BoxesOk;
      var x := dispatches[d].(stage := Over);
      MoveDispatch(jobs, dispatches, submitted, right, d, x);
      MoveSlots(dispatches, d, x);
      MoveStarted(dispatches, boxes, d, x);
      SlotsInUse(dispatches, d);
      workers := workers - 1;
      dispatches := dispatches[d := x];
    }

    /** The reply reaches the socket, or the mailbox that waited for it, which then leaves. */
    method Reply(d: nat)
      requires Valid() && d in dispatches && dispatches[d].stage.Over?
      modifies `dispatches, `boxes
      ensures Valid() && dispatches == old(dispatches) - {d}
      ensures boxes == if old(dispatches[d].byMailbox) then old(boxes)[old(dispatches[d].id) := Leaving] else old(boxes)
    {
      hide RightsOk, RunsOk;
      var x := dispatches[d];
      EndDispatch(dispatches, boxes, d);
      EndSlots(dispatches, d);
      EndRights(jobs, dispatches, submitted, right, d);
      if x.byMailbox {
        MoveBox(boxes, x.id, Leaving);
        boxes := boxes[x.id := Leaving];
      }
      dispatches := dispatches - {d};
    }

    /** A mailbox looks whether its job is still pending. */
    method Look(id: Id)
      requires Valid() && id in boxes && boxes[id].Polling?
      modifies `boxes
      ensures Valid() && boxes == old(boxes)[id := if id in jobs then Polled else Leaving]
    {
      hide RightsOk, RunsOk, BoxesOk;
      var p := if id in jobs then Polled else Leaving;
      MoveIdle(dispatches, boxes, id, p);
      MoveBox(boxes, id, p);
      boxes := boxes[id := p];
    }

    /** A mailbox finds its time over, cannot read, reads nothing, a refusal, or the byte that starts the job. */
    method Read(id: Id, byte: Option<int>, over: bool, d: nat)
      requires Valid() && id in boxes && boxes[id].Polled? && d !in dispatches
      modifies `boxes, `dispatches
      ensures Valid()
      ensures if !over && byte == Some(68)
              then && boxes == old(boxes)[id := Waiting(d)]
                   && dispatches == old(dispatches)[d := Dispatch(id, true, Asked)]
              else && boxes == old(boxes)[id := if over || byte.Some? then Leaving else Polling]
                   && dispatches == old(dispatches)
    {
      hide RightsOk, RunsOk, BoxesOk;
      if !over && byte == Some(68) {
        StartDispatch(dispatches, boxes, d, id);
        MoveBox(boxes, id, Waiting(d));
        MoveDispatch(jobs, dispatches, submitted, right, d, Dispatch(id, true, Asked));
        MoveSlots(dispatches, d, Dispatch(id, true, Asked));
        boxes, dispatches := boxes[id := Waiting(d)], dispatches[d := Dispatch(id, true, Asked)];
      } else {
        var p := if over || byte.Some? then Leaving else Polling;
        MoveIdle(dispatches, boxes, id, p);
        MoveBox(boxes, id, p);
        boxes := boxes[id := p];
      }
    }

    /** A mailbox on its way out gives its job up and counts itself inactive, under the lock. */
    method Cleanup(id: Id)
      requires Valid() && id in boxes && boxes[id].Leaving?
      modifies `jobs, `right, `boxes, `active
      ensures Valid() && id !in jobs && boxes == old(boxes)[id := Cleaned] && active + 1 == old(active)
    {
      hide RightsOk, RunsOk, BoxesOk;
      Forget(id);
      MoveIdle(dispatches, boxes, id, Cleaned);
      MoveBox(boxes, id, Cleaned);
      active := active - 1;
      boxes := boxes[id := Cleaned];
    }

    /** Its goroutine ends and leaves the wait group. */
    method CountOut(id: Id)
      requires Valid() && id in boxes && boxes[id].Cleaned?
      modifies `boxes
      ensures Valid() && boxes == old(boxes) - {id}
    {
      hide RightsOk, RunsOk, BoxesOk;
      MoveIdle(dispatches, boxes, id, Leaving);
      assert Live(boxes - {id}) == Live(boxes);
      boxes := boxes - {id};
    }

    /** closeMailbox marks the shutdown, under the lock. */
    method BeginClose()
      requires Valid()
      modifies `closing
      ensures Valid() && closing
    {
      closing := true;
    }

    /** closeMailbox returns once the wait group is empty. */
    method EndClose()
      requires Valid() && closing && boxes == map[]
      modifies `closed
      ensures Valid() && closed
    {
      closed := true;
    }

    method Tick(t: nat)
      requires Valid()
      modifies `now
      ensures Valid() && now == old(now) + t
    {
      now := now + t;
    }

    /** After closeMailbox has returned, no mailbox and no worker one started is left. */
    lemma NothingLeft()
      requires Valid() && closed
      ensures boxes == map[] && active == 0
      ensures forall d :: d in dispatches ==> !dispatches[d].byMailbox
      ensures mailbox ==> jobs == map[]
    {
      assert Live(boxes) == {};
      assert mailbox ==> jobs.Keys <= {};
    }

    /** One step of any goroutine, chosen freely. */
    method Step()
      requires Valid()
      modifies this
      ensures Valid() && (old(closed) ==> closed)
    {
      hide RightsOk, RunsOk, Bounded, BoxesOk, MailboxOk;
      var step: int, id: Id, d: nat, t: nat := *, *, *, *;
      match step {
        case 0 =>
          var command: string, workdir: string, acceptable: bool, made: bool := *, *, *, *;
          if id !in submitted {
            var _ := Submit(id, command, workdir, acceptable, made);
          }
        case 1 => if d !in dispatches { Ask(d, id); }
        case 2 => if d in dispatches && dispatches[d].stage.Asked? { Begin(d); }
        case 3 => if d in dispatches && dispatches[d].stage.HasSlot? { Take(d); }
        case 4 => if d in dispatches && dispatches[d].stage.Took? { Start(d); }
        case 5 => if d in dispatches && dispatches[d].stage.Running? { Finish(d); }
        case 6 => if d in dispatches && dispatches[d].stage.Over? { Reply(d); }
        case 7 => if id in boxes && boxes[id].Polling? { Look(id); }
        case 8 =>
          var byte: Option<int>, over: bool := *, *;
          if id in boxes && boxes[id].Polled? && d !in dispatches { Read(id, byte, over, d); }
        case 9 => if id in boxes && boxes[id].Leaving? { Cleanup(id); }
        case 10 => if id in boxes && boxes[id].Cleaned? { CountOut(id); }
        case 11 =>
          var at: int := *;
          Expire(at);
        case 12 => BeginClose();
        case 13 => if closing && boxes == map[] { EndClose(); }
        case _ => Tick(t);
      }
    }
  }

  /** Every run of `fuel` steps, however they interleave: no job's command runs twice, each runs its
      own job's command within its time, the caps hold, every pending job has a live mailbox in mailbox
      mode, and once closeMailbox has returned nothing of it is left. */
  method RunFor(mailbox: bool, fuel: nat)
    returns (runs: seq<Run>, submitted: map<Id, Job>, jobs: map<Id, Job>, boxes: map<Id, Phase>,
             dispatches: map<nat, Dispatch>, closed: bool)
    ensures forall i, j :: 0 <= i < j < |runs| ==> runs[i].id != runs[j].id
    ensures forall i :: 0 <= i < |runs| ==>
              && runs[i].id in submitted && submitted[runs[i].id] == runs[i].job && runs[i].id !in jobs
              && runs[i].at - runs[i].job.created <= 600_000_000_000
    ensures |jobs| <= 128 && |set id | id in boxes && !boxes[id].Cleaned?| <= 128
    ensures |set d | d in dispatches && (dispatches[d].stage.HasSlot? || dispatches[d].stage.Took? || dispatches[d].stage.Running?)| <= 8
    ensures mailbox ==> forall id :: id in jobs ==> id in boxes && !boxes[id].Cleaned?
    ensures closed ==> boxes == map[] && (forall d :: d in dispatches ==> !dispatches[d].byMailbox) && (mailbox ==> jobs == map[])
  {
    var b := new Broker(mailbox);
    for k := 0 to fuel
      invariant b.Valid() && fresh(b)
    {
      hide RightsOk, RunsOk, Bounded, BoxesOk, MailboxOk;
      b.Step();
    }
    runs, submitted, jobs, boxes, dispatches, closed := b.runs, b.submitted, b.jobs, b.boxes, b.dispatches, b.closed;
    if closed {
      b.NothingLeft();
    }
    assert Live(boxes) == set id | id in boxes && !boxes[id].Cleaned?;
    assert Slots(dispatches) == set d | d in dispatches && (dispatches[d].stage.HasSlot? || dispatches[d].stage.Took? || dispatches[d].stage.Running?);
    assert forall i :: 0 <= i < |runs| ==> RunOk(submitted, b.right, runs[i]);
    assert forall id :: id in jobs ==> id in b.right && b.right[id].Pending?;
    assert mailbox ==> forall id :: id in jobs ==> id in Live(boxes);
  }
}
