/**
 * The environments and the round-robin scheduler: kern/sched.c, with the checker of kern/utilities.c and the
 * environment list of kern/user_environment.c. A queue is the sequence of its elements, head first; IntrusiveList
 * proves the list macros to be the sequence operations used here. Environment e is envs[e].
 */
module Scheduler {
  import opened Lists
  import IntrusiveList

  /** ENV_FREE, ENV_READY, ENV_RUNNABLE, ENV_NEW, ENV_EXIT and ENV_UNKNOWN. */
  datatype Status = Free | Ready | Runnable | New | Exit | Unknown

  datatype Pointer = Null | To(e: nat)

  /** Where an environment is. */
  datatype Place = InFree | InNew | InReady | InExit | Current | Nowhere

  /** 1 << ENVGENSHIFT: the first and only generation, as env_init and free_environment leave the id 0. */
  const GENERATION := 4096

  // ---- every environment is in one place ----

  /** The queue holds the environments of the place, each once. */
  ghost predicate Holds(q: seq<nat>, place: seq<Place>, p: Place) {
    NoDuplicates(q) && forall e: nat :: e in q <==> e < |place| && place[e] == p
  }

  ghost predicate Queues(free: seq<nat>, new_: seq<nat>, ready: seq<nat>, exit: seq<nat>, cur: Pointer, place: seq<Place>) {
    && Holds(free, place, InFree) && Holds(new_, place, InNew) && Holds(ready, place, InReady) && Holds(exit, place, InExit)
    && (forall e: nat :: cur == To(e) <==> e < |place| && place[e] == Current)
  }

  /** A preempted environment goes back to the ready queue with the status it ran with. */
  /** Every environment is in one of the queues, or current. */
  ghost predicate AllPlaced(place: seq<Place>) {
    forall e :: 0 <= e < |place| ==> place[e] != Nowhere
  }

  lemma PlacedAfter(place: seq<Place>, e: nat, to: Place)
    requires e < |place|
    ensures AllPlaced(place) ==> (AllPlaced(place[e := to]) <==> to != Nowhere)
  {
    assert place[e := to][e] == to;
  }

  predicate Matches(p: Place, status: Status) {
    match p
    case InFree => status == Free
    case InNew => status == New
    case InReady => status == Ready || status == Runnable
    case InExit => status == Exit
    case Current => status == Runnable
    case Nowhere => status != Free
  }

  ghost predicate Labelled(place: seq<Place>, status: seq<Status>, ids: seq<nat>) {
    && |status| == |ids| == |place| <= GENERATION
    && forall e :: 0 <= e < |place| ==> Matches(place[e], status[e]) && ids[e] == if place[e] == InFree then 0 else GENERATION + e
  }

  /** What becomes of the queue of place p when environment e moves to place to. */
  function Moved(q: seq<nat>, place: seq<Place>, p: Place, e: nat, to: Place): seq<nat>
    requires e < |place|
  {
    if place[e] == p then Without(q, e) else if to == p then [e] + q else q
  }

  function Running(cur: Pointer, e: nat, to: Place): Pointer {
    if to == Current then To(e) else if cur == To(e) then Null else cur
  }

  lemma HoldsTake(q: seq<nat>, place: seq<Place>, p: Place, e: nat, to: Place)
    requires Holds(q, place, p) && e < |place| && place[e] == p && to != p
    ensures Holds(Without(q, e), place[e := to], p)
  {
    WithoutRemoves(q, e);
  }

  lemma HoldsPut(q: seq<nat>, place: seq<Place>, p: Place, e: nat)
    requires Holds(q, place, p) && e < |place| && place[e] != p
    ensures Holds([e] + q, place[e := p], p)
  {
    var q' := [e] + q;
    assert forall i :: 0 < i < |q'| ==> q'[i] == q[i - 1] && q'[i] in q;
  }

  lemma HoldsMoved(q: seq<nat>, place: seq<Place>, p: Place, e: nat, to: Place)
    requires Holds(q, place, p) && e < |place| && place[e] != to
    ensures Holds(Moved(q, place, p, e, to), place[e := to], p)
  {
    hide NoDuplicates, Without;
    if place[e] == p {
      HoldsTake(q, place, p, e, to);
    } else if to == p {
      HoldsPut(q, place, p, e);
    }
  }

  /** A move takes the environment out of the queue it is in, puts it at the head of the one it goes to, and no more. */
  lemma QueuesMoved(free: seq<nat>, new_: seq<nat>, ready: seq<nat>, exit: seq<nat>, cur: Pointer, place: seq<Place>,
                    e: nat, to: Place)
    requires Queues(free, new_, ready, exit, cur, place) && e < |place| && place[e] != to && (to == Current ==> cur == Null)
    ensures Queues(Moved(free, place, InFree, e, to), Moved(new_, place, InNew, e, to), Moved(ready, place, InReady, e, to),
                   Moved(exit, place, InExit, e, to), Running(cur, e, to), place[e := to])
  {
    HoldsMoved(free, place, InFree, e, to);
    HoldsMoved(new_, place, InNew, e, to);
    HoldsMoved(ready, place, InReady, e, to);
    HoldsMoved(exit, place, InExit, e, to);
    hide Holds;
  }

  lemma LabelledMoved(place: seq<Place>, status: seq<Status>, ids: seq<nat>, e: nat, to: Place, st: Status)
    requires Labelled(place, status, ids) && e < |place| && place[e] != InFree && to != InFree && Matches(to, st)
    ensures |status| == |place| && Labelled(place[e := to], status[e := st], ids)
  {
  }

  /** The queue's environments carry the ids of their places in envs, so different ones have different ids. */
  ghost predicate Named(q: seq<nat>, ids: seq<nat>) {
    forall e: nat :: e in q ==> e < |ids| && ids[e] == GENERATION + e
  }

  /** The environment with the id, if there is one. */
  function Index(id: nat): nat {
    if id < GENERATION then 0 else id - GENERATION
  }

  predicate Names(id: nat, q: seq<nat>) {
    id >= GENERATION && Index(id) in q
  }

  lemma QueueNamed(q: seq<nat>, place: seq<Place>, p: Place, status: seq<Status>, ids: seq<nat>)
    requires Holds(q, place, p) && p != InFree && Labelled(place, status, ids)
    ensures Named(q, ids) && |ids| == |place| == |status|
  {
  }

  // ---- round robin, as a function of the ready queue and the current environment ----

  datatype Turn = Turn(ready: seq<nat>, cur: Pointer)

  /** The ready queue with the current environment back at its head. */
  function Requeued(t: Turn): seq<nat> {
    if t.cur == Null then t.ready else [t.cur.e] + t.ready
  }

  /** One scheduling decision: the tail of the queue runs, or nothing. */
  function Decide(t: Turn): (t': Turn)
    ensures t'.cur == Null || t'.cur == t.cur || t'.cur.e in t.ready
  {
    var q := Requeued(t);
    if q == [] then Turn([], Null) else Turn(q[..|q| - 1], To(q[|q| - 1]))
  }

  /**
   * The scheduler stops only if nothing is ready and nothing is current. Otherwise the tail of the ready queue runs and
   * the current environment goes to its head; when nothing else is ready, the current one goes on.
   */
  lemma TailRuns(t: Turn)
    ensures Decide(t).cur == Null <==> t.ready == [] && t.cur == Null
    ensures t.ready == [] ==> Decide(t) == t
    ensures t.ready != [] ==> var init := t.ready[..|t.ready| - 1];
      && Decide(t).cur == To(t.ready[|t.ready| - 1])
      && Decide(t).ready == if t.cur == Null then init else [t.cur.e] + init
  {
    if t.cur != Null && t.ready != [] {
      assert Requeued(t)[..|t.ready|] == [t.cur.e] + t.ready[..|t.ready| - 1];
    }
  }

  /** Where the environments are after a decision. */
  ghost function NextPlace(place: seq<Place>, t: Turn): seq<Place>
    requires (t.cur != Null ==> t.cur.e < |place|) && forall e :: e in t.ready ==> e < |place|
  {
    var back := if t.cur == Null then place else place[t.cur.e := InReady];
    if Decide(t).cur == Null then back else back[Decide(t).cur.e := Current]
  }

  lemma QueuesDecide(free: seq<nat>, new_: seq<nat>, ready: seq<nat>, exit: seq<nat>, cur: Pointer, place: seq<Place>)
    requires Queues(free, new_, ready, exit, cur, place)
    ensures (cur != Null ==> cur.e < |place|) && forall e :: e in ready ==> e < |place|
    ensures var t := Turn(ready, cur);
      && Queues(free, new_, Decide(t).ready, exit, Decide(t).cur, NextPlace(place, t))
      && Holds(Requeued(t), if cur == Null then place else place[cur.e := InReady], InReady)
  {
    var t, q := Turn(ready, cur), Requeued(Turn(ready, cur));
    var back := if cur == Null then place else place[cur.e := InReady];
    if cur != Null {
      QueuesMoved(free, new_, ready, exit, cur, place, cur.e, InReady);
    }
    assert Queues(free, new_, q, exit, Null, back);
    if q != [] {
      WithoutAt(q, |q| - 1);
      assert q[|q| - 1] in q && q[..|q| - 1] + q[|q|..] == q[..|q| - 1];
      QueuesMoved(free, new_, q, exit, Null, back, q[|q| - 1], Current);
    }
  }

  lemma LabelledDecide(place: seq<Place>, status: seq<Status>, ids: seq<nat>, t: Turn)
    requires Labelled(place, status, ids)
    requires |status| == |place| && (t.cur != Null ==> t.cur.e < |place| && place[t.cur.e] == Current)
    requires forall e :: e in t.ready ==> e < |place| && place[e] == InReady
    ensures |status| == |place| && Named(Requeued(t), ids)
    ensures Labelled(NextPlace(place, t), if Decide(t).cur == Null then status else status[Decide(t).cur.e := Runnable], ids)
  {
    var q := Requeued(t);
    assert forall e :: e in q ==> (e in t.ready || t.cur == To(e));
    if q != [] { assert q[|q| - 1] in q; }
  }

  class Scheduler {
    const nenv: nat
    var freeList: seq<nat>
    var newQueue: seq<nat>
    var readyQueue: seq<nat>
    var exitQueue: seq<nat>
    var status: seq<Status>
    var ids: seq<nat>
    var curenv: Pointer
    /** scheduler_status == SCH_STARTED */
    var started: bool
    /** The checker: __chkstatus, __pe, __ne, __pl, __nl. */
    var checking: bool
    var pe: Pointer
    var ne: Pointer
    var pl: nat
    var nl: nat
    ghost var place: seq<Place>

    ghost predicate Valid()
      reads this
    {
      && |place| == nenv && nl == 0 && pl == 0
      && Queues(freeList, newQueue, readyQueue, exitQueue, curenv, place)
      && Labelled(place, status, ids)
    }

    /** Every environment is in the free list, NEW, READY, EXIT or curenv; by Valid it is in only one of them. */
    ghost predicate Complete()
      reads this
    {
      AllPlaced(place)
    }

    ghost function State(): Turn
      reads this
    {
      Turn(readyQueue, curenv)
    }

    /** env_init and sched_init; the checker starts on, as kern/init.c has it. */
    constructor (nenv: nat)
      requires nenv <= GENERATION
      ensures Valid() && Complete() && this.nenv == nenv && !started && State() == Turn([], Null)
      ensures newQueue == [] && exitQueue == [] && freeList == Ascending(0, nenv)
    {
      this.nenv := nenv;
      newQueue, readyQueue, exitQueue, curenv, started := [], [], [], Null, false;
      checking, pe, ne, pl, nl := true, Null, Null, 0, 0;
      freeList, status, ids, place := [], [], [], [];
      new;
      ListFree();
      status := seq(nenv, _ => Free);
      ids := seq(nenv, _ => 0);
      place := seq(nenv, _ => InFree);
      AllFree(nenv);
    }

    /** The loop of env_init: inserting in reverse leaves the environments in order. */
    method ListFree()
      modifies `freeList
      ensures freeList == Ascending(0, nenv)
    {
      freeList := [];
      var iEnv := nenv;
      while iEnv > 0
        invariant 0 <= iEnv <= nenv && freeList == Ascending(iEnv, nenv)
      {
        iEnv := iEnv - 1;
        freeList := [iEnv] + freeList;
      }
    }

    /** env_create up to its environment: the first free one leaves the free list. The program is loaded elsewhere. */
    method EnvCreate() returns (r: Pointer)
      requires Valid()
      modifies `freeList, `status, `ids, `place
      ensures Valid() && State() == old(State())
      ensures old(freeList) == [] ==> r == Null && place == old(place)
      ensures old(freeList) != [] ==>
        && r == To(old(freeList)[0]) && freeList == old(freeList)[1..]
        && r.e < |old(place)| && place == old(place)[r.e := Nowhere]
        && r.e < |ids| && ids[r.e] == 4096 + r.e
    {
      hide Holds, Labelled;
      if freeList == [] {
        return Null;
      }
      var e := freeList[0];
      InQueue(freeList, place, InFree, 0);
      QueuesMoved(freeList, newQueue, readyQueue, exitQueue, curenv, place, e, Nowhere);
      LabelledCreated(place, status, ids, e);
      status := status[e := New];
      ids := ids[e := GENERATION + e];
      freeList := freeList[1..];
      place := place[e := Nowhere];
      r := To(e);
    }

    /** sched_new_env */
    method SchedInsertNew(e: nat)
      requires e < nenv == |place| && place[e] == Nowhere && Valid()
      modifies `newQueue, `status, `place
      ensures Valid() && newQueue == [e] + old(newQueue) && place == old(place)[e := InNew] && State() == old(State())
      ensures |old(status)| == nenv && status == old(status)[e := New]
    {
      hide Holds, Labelled;
      QueuesMoved(freeList, newQueue, readyQueue, exitQueue, curenv, place, e, InNew);
      LabelledMoved(place, status, ids, e, InNew, New);
      status := status[e := New];
      newQueue := [e] + newQueue;
      place := place[e := InNew];
    }

    method SchedRemoveNew(e: nat)
      requires e < nenv == |place| && place[e] == InNew && Valid()
      modifies `newQueue, `status, `place
      ensures Valid() && newQueue == Without(old(newQueue), e) && place == old(place)[e := Nowhere] && State() == old(State())
      ensures |old(status)| == nenv && status == old(status)[e := Unknown]
    {
      hide Holds, Labelled;
      QueuesMoved(freeList, newQueue, readyQueue, exitQueue, curenv, place, e, Nowhere);
      LabelledMoved(place, status, ids, e, Nowhere, Unknown);
      newQueue := Without(newQueue, e);
      status := status[e := Unknown];
      place := place[e := Nowhere];
    }

    method SchedInsertReady(e: nat)
      requires e < nenv == |place| && place[e] == Nowhere && Valid()
      modifies `readyQueue, `status, `place
      ensures Valid() && readyQueue == [e] + old(readyQueue) && place == old(place)[e := InReady]
      ensures |old(status)| == nenv && status == old(status)[e := Ready]
    {
      hide Holds, Labelled;
      QueuesMoved(freeList, newQueue, readyQueue, exitQueue, curenv, place, e, InReady);
      LabelledMoved(place, status, ids, e, InReady, Ready);
      status := status[e := Ready];
      readyQueue := [e] + readyQueue;
      place := place[e := InReady];
    }

    /** It looks the environment up by id first, so it does nothing to one that is not ready. */
    method SchedRemoveReady(e: nat)
      requires e < nenv == |place| && place[e] != InFree && Valid()
      modifies `readyQueue, `status, `place
      ensures Valid()
      ensures old(place)[e] == InReady ==>
        && readyQueue == Without(old(readyQueue), e) && place == old(place)[e := Nowhere]
        && |old(status)| == nenv && status == old(status)[e := Unknown]
      ensures old(place)[e] != InReady ==> readyQueue == old(readyQueue) && place == old(place) && status == old(status)
    {
      hide Holds, Labelled;
      QueueNamed(readyQueue, place, InReady, status, ids);
      InQueueOf(readyQueue, place, InReady, e);
      NamedAt(place, status, ids, e);
      var found := FindEnvInQueue(readyQueue, ids[e]);
      if found != Null {
        QueuesMoved(freeList, newQueue, readyQueue, exitQueue, curenv, place, e, Nowhere);
        LabelledMoved(place, status, ids, e, Nowhere, Unknown);
        readyQueue := Without(readyQueue, e);
        status := status[e := Unknown];
        place := place[e := Nowhere];
      }
    }

    /** cleanup_buffers apart, which touches the modified-frame list only. */
    method SchedInsertExit(e: nat)
      requires e < |status|
      modifies `exitQueue, `status
      ensures exitQueue == [e] + old(exitQueue) && status == old(status)[e := Exit]
    {
      status := status[e := Exit];
      exitQueue := [e] + exitQueue;
    }

    method SchedRemoveExit(e: nat)
      requires e < nenv == |place| && place[e] == InExit && Valid()
      modifies `exitQueue, `status, `place
      ensures Valid() && exitQueue == Without(old(exitQueue), e) && place == old(place)[e := Nowhere] && State() == old(State())
      ensures |old(status)| == nenv && status == old(status)[e := Unknown]
    {
      hide Holds, Labelled;
      QueuesMoved(freeList, newQueue, readyQueue, exitQueue, curenv, place, e, Nowhere);
      LabelledMoved(place, status, ids, e, Nowhere, Unknown);
      exitQueue := Without(exitQueue, e);
      status := status[e := Unknown];
      place := place[e := Nowhere];
    }

    /** find_env_in_queue: the first environment of the queue with the id. */
    method FindEnvInQueue(q: seq<nat>, id: nat) returns (r: Pointer)
      requires Named(q, ids)
      ensures r == if Names(id, q) then To(Index(id)) else Null
    {
      var i := 0;
      while i < |q|
        invariant 0 <= i <= |q| && forall j :: 0 <= j < i ==> q[j] + GENERATION != id
      {
        assert q[i] in q;
        if ids[q[i]] == id {
          return To(q[i]);
        }
        i := i + 1;
      }
      r := Null;
    }

    // ---- the checker ----

    /** schenv: the choice the checker expects; there is one ready queue under round robin. */
    method Schenv()
      requires nl == 0 && pl == 0
      modifies `ne, `nl
      ensures nl == 0 && ne == Decide(State()).cur
    {
      nl, ne := 0, Null;
      if |readyQueue| != 0 {
        ne := To(readyQueue[|readyQueue| - 1]);
        nl := 0;
      }
      if curenv != Null {
        if ne != Null {
          if pl + 1 < nl {
            ne, nl := curenv, pl;
          }
        } else {
          ne, nl := curenv, pl;
        }
      }
    }

    method Chk1()
      requires nl == 0 && pl == 0
      modifies `pe, `ne, `pl, `nl
      ensures nl == 0 && pl == 0 && (checking ==> pe == curenv && ne == Decide(State()).cur)
    {
      if !checking {
        return;
      }
      pe := curenv;
      pl := nl;
      if pe == Null {
        pl := 0;
      }
      Schenv();
    }

    /** The queue assertions of chk2; the one on the timer's counter is left out. */
    method Chk2(se: Pointer) returns (ok: bool)
      requires Named(readyQueue, ids)
      requires checking && ne != Null ==> ne.e < |ids| && ids[ne.e] == GENERATION + ne.e
      requires checking && pe != Null ==> pe.e < |ids| && ids[pe.e] == GENERATION + pe.e
      ensures ok <==> (checking ==>
        && se == ne && (ne != Null ==> ne.e !in readyQueue)
        && (pe != Null && pe != ne ==> pe.e in readyQueue))
    {
      ok := true;
      if !checking {
        return;
      }
      ok := se == ne;
      if ne != Null {
        var r := FindEnvInQueue(readyQueue, ids[ne.e]);
        ok := ok && r == Null;
      }
      if pe != Null && pe != ne {
        var r := FindEnvInQueue(readyQueue, ids[pe.e]);
        ok := ok && r != Null;
      }
    }

    // ---- scheduling ----

    method Enqueue(e: nat)
      modifies `readyQueue
      ensures readyQueue == [e] + old(readyQueue)
    {
      readyQueue := [e] + readyQueue;
    }

    method Dequeue() returns (r: Pointer)
      requires NoDuplicates(readyQueue)
      modifies `readyQueue
      ensures var q := old(readyQueue);
        && (q == [] ==> r == Null && readyQueue == [])
        && (q != [] ==> r == To(q[|q| - 1]) && readyQueue == q[..|q| - 1])
    {
      r := Null;
      if readyQueue != [] {
        WithoutAt(readyQueue, |readyQueue| - 1);
        r := To(readyQueue[|readyQueue| - 1]);
        readyQueue := Without(readyQueue, r.e);
      }
    }

    /** env_run, up to the switch of address space and registers. */
    method EnvRun(e: nat)
      requires e < |status|
      modifies `curenv, `status
      ensures curenv == To(e) && status == old(status)[e := Runnable]
    {
      if curenv != To(e) {
        curenv := To(e);
      }
      status := status[e := Runnable];
    }

    /** The round-robin branch of fos_scheduler. */
    method RoundRobin() returns (next_env: Pointer)
      requires NoDuplicates(Requeued(State()))
      modifies `readyQueue
      ensures Turn(readyQueue, next_env) == Decide(old(State()))
    {
      if curenv != Null {
        Enqueue(curenv.e);
      }
      next_env := Dequeue();
    }

    /** fos_scheduler up to the checks: the environment to run next, and whether the checker's assertions held. */
    method ChooseNext() returns (next_env: Pointer, ok: bool)
      requires Valid()
      modifies `readyQueue, `curenv, `started, `pe, `ne, `pl, `nl
      ensures Turn(readyQueue, next_env) == Decide(old(State())) && curenv == old(curenv) && ok
      ensures nl == 0 && pl == 0 && started
    {
      hide Queues, Holds, Labelled, Named, Decide, NextPlace, Requeued;
      ghost var t := State();
      ReadyPlaces(freeList, newQueue, readyQueue, exitQueue, curenv, place, status, ids);
      QueuesDecide(freeList, newQueue, readyQueue, exitQueue, curenv, place);
      LabelledDecide(place, status, ids, t);
      DistinctQueue(Requeued(t), if curenv == Null then place else place[curenv.e := InReady], InReady);
      Chk1();
      started := true;
      next_env := RoundRobin();
      var old_curenv := curenv;
      curenv := next_env;
      CheckerHolds(freeList, newQueue, readyQueue, exitQueue, t, place, ids);
      ok := Chk2(next_env);
      curenv := old_curenv;
    }

    /** fos_scheduler under round robin; ok says that the checker's assertions held. */
    method FosScheduler() returns (ok: bool)
      requires Valid()
      modifies this
      ensures Valid() && (old(Complete()) ==> Complete()) && ok
      ensures State() == Decide(old(State())) && started == (curenv != Null)
      ensures freeList == old(freeList) && newQueue == old(newQueue) && exitQueue == old(exitQueue)
    {
      hide Queues, Holds, Labelled, Decide, NextPlace, Requeued;
      ghost var t := State();
      ReadyPlaces(freeList, newQueue, readyQueue, exitQueue, curenv, place, status, ids);
      QueuesDecide(freeList, newQueue, readyQueue, exitQueue, curenv, place);
      LabelledDecide(place, status, ids, t);
      DecideCases(t, place);
      var next_env;
      next_env, ok := ChooseNext();
      place := NextPlace(place, t);
      if next_env != Null {
        EnvRun(next_env.e);
      } else {
        curenv := Null;
        started := false;
      }
    }

    /** env_create and sched_new_env, as the load command runs them. */
    method Load() returns (r: Pointer)
      requires Valid()
      modifies `freeList, `newQueue, `status, `ids, `place
      ensures Valid() && (old(Complete()) ==> Complete()) && State() == old(State())
      ensures old(freeList) == [] ==> r == Null && newQueue == old(newQueue)
      ensures old(freeList) != [] ==>
        && r == To(old(freeList)[0]) && freeList == old(freeList)[1..] && newQueue == [r.e] + old(newQueue)
    {
      hide Queues, Labelled;
      r := EnvCreate();
      if r != Null {
        SchedInsertNew(r.e);
      }
    }

    /** The body of the search loop of sched_run_env, and of the loop of sched_run_all. */
    method NewToReady(e: nat)
      requires e in newQueue && Valid()
      modifies `newQueue, `readyQueue, `status, `place
      ensures Valid() && (old(Complete()) ==> Complete())
      ensures newQueue == Without(old(newQueue), e) && readyQueue == [e] + old(readyQueue)
      ensures e < |old(status)| == nenv && status == old(status)[e := Unknown][e := Ready]
    {
      NewPlace(newQueue, place, e);
      hide Queues, Labelled;
      SchedRemoveNew(e);
      SchedInsertReady(e);
    }

    lemma NewPlace(q: seq<nat>, place: seq<Place>, e: nat)
      requires Holds(q, place, InNew) && e in q
      ensures e < |place| && place[e] == InNew
    {
    }

    lemma NewNamed()
      requires Valid()
      ensures Named(newQueue, ids) && Named(readyQueue, ids) && NoDuplicates(newQueue) && NoDuplicates(readyQueue)
      ensures curenv != Null ==> curenv.e < |ids| && ids[curenv.e] == GENERATION + curenv.e
    {
      hide NoDuplicates;
      if curenv != Null { assert curenv == To(curenv.e); }
    }

    /** sched_run_env: a new environment becomes ready, and the scheduler starts if it was stopped. */
    method SchedRunEnv(envId: nat) returns (ok: bool)
      requires Valid()
      modifies this
      ensures Valid() && (old(Complete()) ==> Complete()) && ok
      ensures freeList == old(freeList) && exitQueue == old(exitQueue)
      ensures Names(envId, old(newQueue)) ==>
        && newQueue == Without(old(newQueue), Index(envId))
        && var t := Turn([Index(envId)] + old(readyQueue), old(curenv));
           State() == if old(started) then t else Decide(t)
      ensures !Names(envId, old(newQueue)) ==>
        State() == old(State()) && newQueue == old(newQueue)
    {
      NewNamed();
      hide Queues, Labelled, Decide, Named;
      ok := true;
      var r := FindEnvInQueue(newQueue, envId);
      if r != Null {
        NewToReady(r.e);
        if !started {
          ok := FosScheduler();
        }
      }
    }

    /** The loop of sched_run_all. Each element's successor is saved first, so the walk is over the queue as it was. */
    method AllNewToReady()
      requires Valid()
      modifies `newQueue, `readyQueue, `status, `place
      ensures Valid() && (old(Complete()) ==> Complete())
      ensures newQueue == [] && readyQueue == IntrusiveList.Reverse(old(newQueue)) + old(readyQueue)
    {
      hide Valid, IntrusiveList.Reverse, Without;
      ghost var walk, rest, k := newQueue, readyQueue, 0;
      IntrusiveList.NothingReversed(walk);
      while newQueue != []
        invariant Valid() && (old(Complete()) ==> Complete()) && k <= |walk| && newQueue == walk[k..]
        invariant readyQueue == IntrusiveList.Reverse(walk[..k]) + rest
        decreases |walk| - k
      {
        IntrusiveList.MoveStep(walk, rest, k);
        FirstGoes(newQueue);
        NewToReady(newQueue[0]);
        k := k + 1;
      }
      assert walk[..k] == walk;
    }

    lemma FirstGoes(q: seq<nat>)
      requires q != []
      ensures q[0] in q && Without(q, q[0]) == q[1..]
    {
    }

    /** sched_run_all: NEW is emptied into READY, its head first, so that the last loaded runs last. */
    method SchedRunAll() returns (ok: bool)
      requires Valid()
      modifies this
      ensures Valid() && (old(Complete()) ==> Complete()) && ok && newQueue == []
      ensures freeList == old(freeList) && exitQueue == old(exitQueue)
      ensures var t := Turn(IntrusiveList.Reverse(old(newQueue)) + old(readyQueue), old(curenv));
        State() == if old(started) then t else Decide(t)
    {
      hide Valid, Decide;
      ok := true;
      AllNewToReady();
      if !started {
        ok := FosScheduler();
      }
    }

    /** An environment that leaves the ready queue for EXIT. */
    method ReadyToExit(e: nat)
      requires e in readyQueue && Valid()
      modifies `readyQueue, `exitQueue, `status, `place
      ensures Valid() && (old(Complete()) ==> Complete())
      ensures readyQueue == Without(old(readyQueue), e) && exitQueue == [e] + old(exitQueue)
    {
      ToExit(e);
      hide Queues, Holds, Labelled;
      readyQueue := Without(readyQueue, e);
      SchedInsertExit(e);
      place := place[e := InExit];
    }

    lemma ExitPlaces(e: nat)
      requires Valid() && (e in readyQueue || curenv == To(e))
      ensures e < |place| == |status| && place[e] == if curenv == To(e) then Current else InReady
      ensures e in readyQueue ==> curenv != To(e)
    {
      hide NoDuplicates;
    }

    /**
     * sched_exit_env. A new environment is taken off NEW, but its loop runs on to the end of the queue and so loses
     * it; a ready one goes to EXIT; so does the current one, and the next one runs.
     */
    method SchedExitEnv(envId: nat) returns (ok: bool)
      requires curenv != Null && Valid()
      modifies this
      ensures Valid() && ok && freeList == old(freeList)
      ensures old(Complete()) ==> (Complete() <==> !Names(envId, old(newQueue)))
      ensures newQueue == if Names(envId, old(newQueue)) then Without(old(newQueue), Index(envId)) else old(newQueue)
      ensures exitQueue == if Names(envId, old(readyQueue)) || Names(envId, [old(curenv).e]) then [Index(envId)] + old(exitQueue)
                           else old(exitQueue)
      ensures State() == if Names(envId, old(readyQueue)) then Turn(Without(old(readyQueue), Index(envId)), old(curenv))
                         else if Names(envId, [old(curenv).e]) then Decide(Turn(old(readyQueue), Null))
                         else old(State())
    {
      NewNamed();
      OnePlace(envId);
      hide Queues, Labelled, Decide, Named, Names, Index, NoDuplicates, Holds, Without, Matches, AllPlaced;
      ok := true;
      var found := false;
      var ptr_env := FindEnvInQueue(newQueue, envId);
      if ptr_env != Null {
        NewPlace(newQueue, place, ptr_env.e);
        PlacedAfter(place, ptr_env.e, Nowhere);
        SchedRemoveNew(ptr_env.e);
        found, ptr_env := true, Null;
      }
      if !found {
        ptr_env := FindEnvInQueue(readyQueue, envId);
        if ptr_env != Null {
          ReadyToExit(ptr_env.e);
          found := true;
        }
      }
      if !found && ids[curenv.e] == envId {
        CurrentToExit();
        ok := FosScheduler();
      }
    }

    /** The current environment is put into EXIT, and none is current until the scheduler has decided. */
    method CurrentToExit()
      requires curenv != Null && Valid()
      modifies `exitQueue, `status, `place, `curenv
      ensures Valid() && (old(Complete()) ==> Complete())
      ensures exitQueue == [old(curenv).e] + old(exitQueue) && curenv == Null
    {
      ToExit(curenv.e);
      hide Queues, Holds, Labelled;
      SchedInsertExit(curenv.e);
      place := place[curenv.e := InExit];
      curenv := Null;
    }

    /** The environment with the id is new, ready or current, and no two of these. */
    lemma OnePlace(envId: nat)
      requires Valid() && curenv != Null
      ensures Names(envId, newQueue) ==> Index(envId) in newQueue && !Names(envId, readyQueue) && !Names(envId, [curenv.e])
      ensures Names(envId, readyQueue) ==> Index(envId) in readyQueue && !Names(envId, [curenv.e])
      ensures curenv.e < |ids| && (Names(envId, [curenv.e]) <==> ids[curenv.e] == envId)
      ensures Names(envId, [curenv.e]) ==> Index(envId) == curenv.e
    {
      hide NoDuplicates;
      NewNamed();
      assert curenv == To(curenv.e);
    }

    /** What a move to EXIT makes of the queues. */
    lemma ToExit(e: nat)
      requires Valid() && (e in readyQueue || curenv == To(e))
      ensures e < |place| == |status| && place[e] == if curenv == To(e) then Current else InReady
      ensures e in readyQueue ==> curenv != To(e)
      ensures Queues(freeList, newQueue, if curenv == To(e) then readyQueue else Without(readyQueue, e), [e] + exitQueue,
                     if curenv == To(e) then Null else curenv, place[e := InExit])
      ensures Labelled(place[e := InExit], status[e := Exit], ids)
    {
      ExitPlaces(e);
      hide Queues, Holds, Labelled;
      QueuesMoved(freeList, newQueue, readyQueue, exitQueue, curenv, place, e, InExit);
      LabelledMoved(place, status, ids, e, InExit, Exit);
    }

    /** sched_exit_all_ready_envs */
    method SchedExitAllReadyEnvs()
      requires Valid()
      modifies `readyQueue, `exitQueue, `status, `place
      ensures Valid() && (old(Complete()) ==> Complete())
      ensures readyQueue == [] && exitQueue == IntrusiveList.Reverse(old(readyQueue)) + old(exitQueue)
    {
      hide Valid, IntrusiveList.Reverse, Without;
      ghost var walk, rest, k := readyQueue, exitQueue, 0;
      IntrusiveList.NothingReversed(walk);
      while readyQueue != []
        invariant Valid() && (old(Complete()) ==> Complete()) && k <= |walk| && readyQueue == walk[k..]
        invariant exitQueue == IntrusiveList.Reverse(walk[..k]) + rest
        decreases |walk| - k
      {
        IntrusiveList.MoveStep(walk, rest, k);
        FirstGoes(readyQueue);
        ReadyToExit(readyQueue[0]);
        k := k + 1;
      }
      assert walk[..k] == walk;
    }
  }

  lemma DistinctQueue(q: seq<nat>, place: seq<Place>, p: Place)
    requires Holds(q, place, p)
    ensures NoDuplicates(q)
  {
  }

  lemma ReadyPlaces(free: seq<nat>, new_: seq<nat>, ready: seq<nat>, exit: seq<nat>, cur: Pointer, place: seq<Place>,
                    status: seq<Status>, ids: seq<nat>)
    requires Queues(free, new_, ready, exit, cur, place) && Labelled(place, status, ids)
    ensures |status| == |place| == |ids| && (cur != Null ==> cur.e < |place| && place[cur.e] == Current)
    ensures forall e :: e in ready ==> e < |place| && place[e] == InReady
  {
    hide NoDuplicates;
    assert cur != Null ==> cur == To(cur.e);
  }

  lemma DecideCases(t: Turn, place: seq<Place>)
    requires (t.cur != Null ==> t.cur.e < |place|) && forall e :: e in t.ready ==> e < |place|
    ensures Decide(t).cur != Null ==> Decide(t).cur.e < |place|
    ensures |NextPlace(place, t)| == |place|
    ensures forall e :: 0 <= e < |place| && place[e] != Nowhere ==> NextPlace(place, t)[e] != Nowhere
  {
    hide Decide, Requeued;
  }

  lemma NotQueued(free: seq<nat>, new_: seq<nat>, ready: seq<nat>, exit: seq<nat>, cur: Pointer, place: seq<Place>)
    requires Queues(free, new_, ready, exit, cur, place)
    ensures cur != Null ==> cur.e !in ready
  {
    hide NoDuplicates;
    assert cur != Null ==> cur == To(cur.e);
  }

  /** A decision splits the queue that has the current environment at its head: its last element runs, the rest is ready. */
  lemma DecideSplits(t: Turn)
    ensures forall e :: e in Decide(t).ready ==> e in Requeued(t)
    ensures Decide(t).cur != Null ==> Decide(t).cur.e in Requeued(t)
    ensures t.cur != Null ==> t.cur.e in Requeued(t) && (t.cur == Decide(t).cur || t.cur.e in Decide(t).ready)
  {
    var q := Requeued(t);
    if q != [] {
      assert q[|q| - 1] in q;
      if t.cur != Null {
        assert q[0] == t.cur.e && q[0] in q;
        if |q| > 1 { assert q[..|q| - 1][0] == q[0]; }
      }
    }
  }

  /** The checker expects what round robin does: the last of the queue before it takes the current environment back. */
  lemma CheckerHolds(free: seq<nat>, new_: seq<nat>, ready: seq<nat>, exit: seq<nat>, t: Turn, place: seq<Place>, ids: seq<nat>)
    requires (t.cur != Null ==> t.cur.e < |place|) && forall e :: e in t.ready ==> e < |place|
    requires ready == Decide(t).ready && |ids| == |place|
    requires Queues(free, new_, ready, exit, Decide(t).cur, NextPlace(place, t))
    requires Named(Requeued(t), ids)
    ensures var ne := Decide(t).cur;
      && Named(ready, ids)
      && (ne != Null ==> ne.e < |ids| && ids[ne.e] == GENERATION + ne.e && ne.e !in ready)
      && (t.cur != Null ==> t.cur.e < |ids| && ids[t.cur.e] == GENERATION + t.cur.e)
      && (t.cur != Null && t.cur != ne ==> t.cur.e in ready)
  {
    NotQueued(free, new_, ready, exit, Decide(t).cur, NextPlace(place, t));
    DecideSplits(t);
    hide Queues, NextPlace, Decide, Requeued;
  }

  lemma InQueue(q: seq<nat>, place: seq<Place>, p: Place, i: nat)
    requires Holds(q, place, p) && i < |q|
    ensures q[i] < |place| && place[q[i]] == p
  {
    assert q[i] in q;
  }

  lemma InQueueOf(q: seq<nat>, place: seq<Place>, p: Place, e: nat)
    requires Holds(q, place, p) && e < |place|
    ensures e in q <==> place[e] == p
  {
  }

  lemma NamedAt(place: seq<Place>, status: seq<Status>, ids: seq<nat>, e: nat)
    requires Labelled(place, status, ids) && e < |place| && place[e] != InFree
    ensures |ids| == |place| == |status| && ids[e] == GENERATION + e
  {
  }

  lemma LabelledCreated(place: seq<Place>, status: seq<Status>, ids: seq<nat>, e: nat)
    requires Labelled(place, status, ids) && e < |place|
    ensures |ids| == |place| == |status|
    ensures Labelled(place[e := Nowhere], status[e := New], ids[e := GENERATION + e])
  {
  }

  /** lo, lo + 1, ..., hi - 1 */
  function Ascending(lo: nat, hi: nat): (s: seq<nat>)
    requires lo <= hi
    ensures |s| == hi - lo && forall i :: 0 <= i < |s| ==> s[i] == lo + i
    decreases hi - lo
  {
    if lo == hi then [] else [lo] + Ascending(lo + 1, hi)
  }

  lemma AllFree(n: nat)
    requires n <= GENERATION
    ensures Queues(Ascending(0, n), [], [], [], Null, seq(n, _ => InFree))
    ensures Labelled(seq(n, _ => InFree), seq(n, _ => Free), seq(n, _ => 0))
  {
    forall e: nat | e < n ensures e in Ascending(0, n) { assert Ascending(0, n)[e] == e; }
  }

  // ---- how long a ready environment waits ----

  /** What can happen to the queue: a decision, an arrival at the head, an exit of a ready or of the current environment. */
  datatype Event = Decision | Arrival(e: nat) | ReadyExit(e: nat) | CurrentExit

  function Apply(t: Turn, ev: Event): Turn {
    match ev
    case Decision => Decide(t)
    case Arrival(e) => Turn([e] + t.ready, t.cur)
    case ReadyExit(e) => Turn(Without(t.ready, e), t.cur)
    case CurrentExit => Turn(t.ready, Null)
  }

  function After(t: Turn, evs: seq<Event>): Turn
    decreases |evs|
  {
    if evs == [] then t else After(Apply(t, evs[0]), evs[1..])
  }

  function Decisions(evs: seq<Event>): nat {
    if evs == [] then 0 else (if evs[0] == Decision then 1 else 0) + Decisions(evs[1..])
  }

  /** How many environments are between e and the tail of the queue. */
  function Ahead(q: seq<nat>, e: nat): nat {
    if q == [] || q[|q| - 1] == e then 0 else 1 + Ahead(q[..|q| - 1], e)
  }

  lemma {:induction false} ArrivalsWaitBehind(q: seq<nat>, x: nat, e: nat)
    requires e in q
    ensures Ahead([x] + q, e) == Ahead(q, e)
  {
    if q[|q| - 1] != e {
      ArrivalsWaitBehind(q[..|q| - 1], x, e);
      assert ([x] + q)[..|q|] == [x] + q[..|q| - 1];
    }
  }

  lemma {:induction false} WithoutLast(s: seq<nat>, y: nat, x: nat)
    ensures Without(s + [y], x) == if x in s then Without(s, x) + [y] else if y == x then s else s + [y]
  {
    if s != [] && s[0] != x {
      WithoutLast(s[1..], y, x);
      assert (s + [y])[1..] == s[1..] + [y];
      assert x in s <==> x in s[1..];
      assert s == [s[0]] + s[1..];
    }
  }

  lemma {:induction false} ExitsShortenTheWait(q: seq<nat>, x: nat, e: nat)
    requires e in q && x != e
    ensures e in Without(q, x) && Ahead(Without(q, x), e) <= Ahead(q, e)
  {
    var init, last := q[..|q| - 1], q[|q| - 1];
    assert q == init + [last];
    WithoutLast(init, last, x);
    if last != e {
      ExitsShortenTheWait(init, x, e);
      if x in init {
        assert (Without(init, x) + [last])[..|Without(init, x)|] == Without(init, x);
      }
    }
  }

  lemma DecisionsShortenTheWait(t: Turn, e: nat)
    requires e in t.ready
    ensures Ahead(t.ready, e) == 0 ==> Decide(t).cur == To(e)
    ensures Ahead(t.ready, e) > 0 ==> e in Decide(t).ready && Ahead(Decide(t).ready, e) == Ahead(t.ready, e) - 1
  {
    var q, ready := Requeued(t), t.ready;
    var init := ready[..|ready| - 1];
    assert q[|q| - 1] == ready[|ready| - 1];
    if ready[|ready| - 1] != e {
      assert ready == init + [ready[|ready| - 1]] && e in init;
      if t.cur != Null {
        ArrivalsWaitBehind(init, t.cur.e, e);
        assert q[..|q| - 1] == [t.cur.e] + init;
      }
    }
  }

  /**
   * A ready environment with d others between it and the tail has run once d + 1 decisions have been made, whatever
   * arrivals and exits of others come between them.
   */
  lemma {:induction false} BoundedWaiting(t: Turn, e: nat, evs: seq<Event>)
    requires e in t.ready && ReadyExit(e) !in evs && Decisions(evs) > Ahead(t.ready, e)
    ensures exists k :: 0 <= k <= |evs| && Decisions(evs[..k]) <= Ahead(t.ready, e) + 1 && After(t, evs[..k]).cur == To(e)
    decreases |evs|
  {
    var ev, rest, t' := evs[0], evs[1..], Apply(t, evs[0]);
    if ev == Decision && Ahead(t.ready, e) == 0 {
      DecisionsShortenTheWait(t, e);
      FirstEvent(t, evs, 0);
    } else {
      match ev {
        case Decision => DecisionsShortenTheWait(t, e);
        case Arrival(x) => ArrivalsWaitBehind(t.ready, x, e);
        case ReadyExit(x) => ExitsShortenTheWait(t.ready, x, e);
        case CurrentExit =>
      }
      BoundedWaiting(t', e, rest);
      var k :| 0 <= k <= |rest| && Decisions(rest[..k]) <= Ahead(t'.ready, e) + 1 && After(t', rest[..k]).cur == To(e);
      FirstEvent(t, evs, k);
    }
  }

  lemma FirstEvent(t: Turn, evs: seq<Event>, k: nat)
    requires k < |evs|
    ensures After(t, evs[..k + 1]) == After(Apply(t, evs[0]), evs[1..][..k])
    ensures Decisions(evs[..k + 1]) == (if evs[0] == Decision then 1 else 0) + Decisions(evs[1..][..k])
  {
    assert evs[..k + 1][1..] == evs[1..][..k];
  }

  /** The bound is tight: without exits each decision moves the environment exactly one place towards the tail. */
  lemma {:induction false} BoundIsTight(t: Turn, e: nat, evs: seq<Event>)
    requires e in t.ready && Decisions(evs) <= Ahead(t.ready, e)
    requires forall i :: 0 <= i < |evs| ==> evs[i].Decision? || evs[i].Arrival?
    ensures var t' := After(t, evs); e in t'.ready && Ahead(t'.ready, e) == Ahead(t.ready, e) - Decisions(evs)
    decreases |evs|
  {
    if evs != [] {
      match evs[0] {
        case Decision => DecisionsShortenTheWait(t, e);
        case Arrival(x) => ArrivalsWaitBehind(t.ready, x, e);
      }
      BoundIsTight(Apply(t, evs[0]), e, evs[1..]);
    }
  }
}
