/**
 * The cooperative task scheduler of `src/internal/scheduler.ts`.
 *
 * Tasks are keyed resumable computations in a FIFO queue. The host's idle callback runs
 * them in time slices; `taskId` is the id of the registered callback, or -1.
 *
 * Modelling choices:
 * - an iterator is a step machine that answers "another round" `pending` more times;
 *   its next call then reports done with its `value`, or throws when `throws` is set
 *   (an exception from `next()`, or from `calc()` inside a one-shot iterator);
 * - the host deadline is a budget: the number of times the question "is there time left?"
 *   is answered yes before it is answered no (a deadline that has run out stays run out);
 * - every promise the scheduler creates is identified by a ticket, and settling it
 *   (with ABORTED at once, or with the final value in an animation frame) appends a
 *   `Settlement` to the log `settled`;
 * - the host hands out registration ids 1, 2, 3, ...; `cancelled` logs the ids that
 *   `clear` cancels.
 */
module Scheduler {

  /**
   * A resumable computation: `pending` more "another round" answers, then done with
   * `value`, or an exception when `throws` is set.
   */
  datatype Iter<V> = Iter(pending: nat, value: V, throws: bool)

  /** What one call of `next()` does: report another round or done, or throw. */
  datatype Step<V> = AnotherRound(rest: Iter<V>) | Done(value: V) | Threw

  function Next<V>(it: Iter<V>): Step<V>
  {
    if it.pending > 0 then AnotherRound(it.(pending := it.pending - 1))
    else if it.throws then Threw
    else Done(it.value)
  }

  /**
   * `oneShotIterator`: the iterator `push` wraps its computation in, done with `calc()` on
   * the first call of `next()`.
   */
  function OneShot<V>(compute: () -> V): (it: Iter<V>)
    ensures Next(it) == Done(compute())
  {
    Iter(0, compute(), false)
  }

  /** How a task's promise settles: the ABORTED sentinel, or the value of the computation. */
  datatype Outcome<V> = Aborted | Resolved(value: V)

  datatype Settlement<V> = Settlement(ticket: nat, outcome: Outcome<V>)

  datatype Task<V> = Task(id: string, it: Iter<V>, ticket: nat)

  /**
   * The handle `pushMulti` returns. Its `abort` is a closure over the task id; `then`
   * derives a new handle that carries the very same `abort`.
   */
  datatype Handle = Root(key: string, ticket: nat) | Derived(parent: Handle)

  /** The id whose queued task the handle's `abort` cancels. */
  function AbortKey(h: Handle): string
  {
    match h
    case Root(key, _) => key
    case Derived(parent) => AbortKey(parent)
  }

  /** `then` applied `n` times. */
  function ThenN(h: Handle, n: nat): Handle
  {
    if n == 0 then h else Derived(ThenN(h, n - 1))
  }

  /** Handles derived through any number of `then` calls abort by the root's id. */
  lemma {:induction false} ThenKeepsAbort(h: Handle, n: nat)
    ensures AbortKey(ThenN(h, n)) == AbortKey(h)
  {
    if n > 0 {
      ThenKeepsAbort(h, n - 1);
    }
  }

  // ---------------------------------------------------------------------------
  // Sequence helpers

  function Tickets<V>(ts: seq<Task<V>>): (r: seq<nat>)
    ensures |r| == |ts|
  {
    if ts == [] then [] else [ts[0].ticket] + Tickets(ts[1..])
  }

  function SettledTickets<V>(ss: seq<Settlement<V>>): (r: seq<nat>)
    ensures |r| == |ss|
  {
    if ss == [] then [] else [ss[0].ticket] + SettledTickets(ss[1..])
  }

  /** The settlements of tasks resolved with ABORTED, in queue order. */
  function AbortAll<V>(ts: seq<Task<V>>): (r: seq<Settlement<V>>)
    ensures |r| == |ts|
  {
    if ts == [] then [] else [Settlement(ts[0].ticket, Aborted)] + AbortAll(ts[1..])
  }

  /** The tickets 0 .. n-1: all promises created so far. */
  function Upto(n: nat): seq<nat>
  {
    if n == 0 then [] else Upto(n - 1) + [n - 1]
  }

  lemma {:induction false} TicketsAppend<V>(a: seq<Task<V>>, b: seq<Task<V>>)
    ensures Tickets(a + b) == Tickets(a) + Tickets(b)
  {
    if a == [] {
      assert a + b == b;
    } else {
      assert (a + b)[1..] == a[1..] + b;
      TicketsAppend(a[1..], b);
    }
  }

  lemma {:induction false} SettledTicketsAppend<V>(a: seq<Settlement<V>>, b: seq<Settlement<V>>)
    ensures SettledTickets(a + b) == SettledTickets(a) + SettledTickets(b)
  {
    if a == [] {
      assert a + b == b;
    } else {
      assert (a + b)[1..] == a[1..] + b;
      SettledTicketsAppend(a[1..], b);
    }
  }

  lemma {:induction false} AbortAllAppend<V>(a: seq<Task<V>>, b: seq<Task<V>>)
    ensures AbortAll(a + b) == AbortAll(a) + AbortAll(b)
  {
    if a == [] {
      assert a + b == b;
    } else {
      assert (a + b)[1..] == a[1..] + b;
      AbortAllAppend(a[1..], b);
    }
  }

  lemma {:induction false} AbortAllTickets<V>(ts: seq<Task<V>>)
    ensures SettledTickets(AbortAll(ts)) == Tickets(ts)
  {
    if ts != [] {
      AbortAllTickets(ts[1..]);
    }
  }

  ghost predicate IdsDistinct<V>(ts: seq<Task<V>>)
  {
    forall i, j :: 0 <= i < j < |ts| ==> ts[i].id != ts[j].id
  }

  /** `Array.prototype.findIndex` on the task ids. */
  function FindIndex<V>(ts: seq<Task<V>>, id: string): (i: int)
    ensures -1 <= i < |ts|
    ensures i == -1 <==> forall k :: 0 <= k < |ts| ==> ts[k].id != id
    ensures 0 <= i ==> ts[i].id == id && forall k :: 0 <= k < i ==> ts[k].id != id
  {
    if ts == [] then -1
    else if ts[0].id == id then 0
    else
      var j := FindIndex(ts[1..], id);
      if j < 0 then -1 else j + 1
  }

  /** The queue after the task with `id`, if any, is spliced out. */
  function Without<V>(ts: seq<Task<V>>, id: string): seq<Task<V>>
  {
    var i := FindIndex(ts, id);
    if i < 0 then ts else ts[..i] + ts[i + 1..]
  }

  /** The settlements an abort by `id` produces on queue `ts`: nothing, or one ABORTED. */
  function AbortedFor<V>(ts: seq<Task<V>>, id: string): seq<Settlement<V>>
  {
    var i := FindIndex(ts, id);
    if i < 0 then [] else [Settlement(ts[i].ticket, Aborted)]
  }

  /** `Array.prototype.filter`. */
  function Filter<V>(ts: seq<Task<V>>, f: Task<V> -> bool): seq<Task<V>>
  {
    if ts == [] then []
    else (if f(ts[0]) then [ts[0]] else []) + Filter(ts[1..], f)
  }

  /** `Array.prototype.filter` with the negated predicate. */
  function Reject<V>(ts: seq<Task<V>>, f: Task<V> -> bool): seq<Task<V>>
  {
    if ts == [] then []
    else (if f(ts[0]) then [] else [ts[0]]) + Reject(ts[1..], f)
  }

  // ---------------------------------------------------------------------------
  // The time slice, as a specification function

  /**
   * What a slice leaves: the queue, the settlements it made, and the ticket of the task
   * whose `next()` threw (at most one), whose promise is never settled.
   */
  datatype Slice<V> = Slice(queue: seq<Task<V>>, finished: seq<Settlement<V>>, lost: seq<nat>)

  /**
   * One invocation of `runTasks` with `budget` yes-answers of the deadline.
   * The outer loop asks once per task it takes; the first `next()` of a task is free and
   * every further one needs a yes. So the front task, needing `pending + 1` calls, finishes
   * when `pending < budget` and leaves `budget - 1 - pending` for the rest; otherwise it is
   * put back at the front after `budget` calls of `next()` (the free first call plus
   * `budget - 1` inner rounds) and the slice is over. A task that throws instead of
   * finishing has already been shifted off the queue: the exception ends the slice there,
   * and its ticket is lost.
   */
  function Run<V>(ts: seq<Task<V>>, budget: nat): Slice<V>
    decreases |ts|
  {
    if |ts| == 0 || budget == 0 then Slice(ts, [], [])
    else if ts[0].it.pending < budget then
      if ts[0].it.throws then Slice(ts[1..], [], [ts[0].ticket])
      else
        var rest := Run(ts[1..], budget - 1 - ts[0].it.pending);
        Slice(rest.queue, [Settlement(ts[0].ticket, Resolved(ts[0].it.value))] + rest.finished, rest.lost)
    else
      var t := ts[0].(it := ts[0].it.(pending := ts[0].it.pending - budget));
      Slice([t] + ts[1..], [], [])
  }

  /**
   * Finished tasks are a prefix of the queue, resolved in queue order with their values.
   * After them the queue is untouched, or its first task is put back with progress, or
   * that task threw: then it is gone from the queue and its ticket is the one lost.
   */
  lemma {:induction false} RunIsFifo<V>(ts: seq<Task<V>>, budget: nat)
    ensures var r := Run(ts, budget);
      var k := |r.finished|;
      && k <= |ts|
      && (forall i :: 0 <= i < k ==> r.finished[i] == Settlement(ts[i].ticket, Resolved(ts[i].it.value)))
      && (r.lost == [] ==>
            r.queue == ts[k..] || (k < |ts| && r.queue != [] && r.queue == [ts[k].(it := r.queue[0].it)] + ts[k + 1..]))
      && (r.lost != [] ==> k < |ts| && ts[k].it.throws && r.lost == [ts[k].ticket] && r.queue == ts[k + 1..])
  {
    if |ts| == 0 || budget == 0 {
    } else if ts[0].it.pending < budget && ts[0].it.throws {
    } else if ts[0].it.pending < budget {
      RunIsFifo(ts[1..], budget - 1 - ts[0].it.pending);
      var r := Run(ts, budget);
      var r' := Run(ts[1..], budget - 1 - ts[0].it.pending);
      assert r.finished[1..] == r'.finished;
      forall i | 0 <= i < |r.finished|
        ensures r.finished[i] == Settlement(ts[i].ticket, Resolved(ts[i].it.value))
      {
        if i > 0 {
          assert r.finished[i] == r'.finished[i - 1];
        }
      }
      assert ts[1..][|r'.finished|..] == ts[|r.finished|..];
      if |r'.finished| < |ts[1..]| {
        assert ts[1..][|r'.finished|] == ts[|r.finished|];
        assert ts[1..][|r'.finished| + 1..] == ts[|r.finished| + 1..];
      }
    }
  }

  /** Source line 80: an unfinished task goes back to the front, so nothing behind it runs. */
  lemma NoRoundRobin<V>(ts: seq<Task<V>>, budget: nat)
    requires |ts| > 0 && 0 < budget <= ts[0].it.pending
    ensures Run(ts, budget).finished == []
    ensures Run(ts, budget).queue[1..] == ts[1..]
    ensures Run(ts, budget).queue[0].id == ts[0].id
    ensures Run(ts, budget).queue[0].it.pending == ts[0].it.pending - budget
  {
  }

  /**
   * No task is duplicated by a slice: each is still queued, has finished, or is the one
   * whose `next()` threw.
   */
  lemma {:induction false} RunConserves<V>(ts: seq<Task<V>>, budget: nat)
    ensures var r := Run(ts, budget);
      multiset(Tickets(r.queue)) + multiset(SettledTickets(r.finished)) + multiset(r.lost) == multiset(Tickets(ts))
  {
    if |ts| == 0 || budget == 0 {
    } else if ts[0].it.pending < budget && ts[0].it.throws {
      assert Tickets(ts) == [ts[0].ticket] + Tickets(ts[1..]);
    } else if ts[0].it.pending < budget {
      var b := budget - 1 - ts[0].it.pending;
      RunConserves(ts[1..], b);
      var r' := Run(ts[1..], b);
      var f := [Settlement(ts[0].ticket, Resolved(ts[0].it.value))] + r'.finished;
      assert SettledTickets(f) == [ts[0].ticket] + SettledTickets(r'.finished);
      assert Tickets(ts) == [ts[0].ticket] + Tickets(ts[1..]);
    } else {
      var t := ts[0].(it := ts[0].it.(pending := ts[0].it.pending - budget));
      assert Tickets([t] + ts[1..]) == Tickets(ts);
    }
  }

  /** A slice keeps the queue's ids pairwise distinct. */
  lemma {:induction false} RunKeepsIdsDistinct<V>(ts: seq<Task<V>>, budget: nat)
    requires IdsDistinct(ts)
    ensures IdsDistinct(Run(ts, budget).queue)
  {
    if |ts| == 0 || budget == 0 {
    } else if ts[0].it.pending < budget && ts[0].it.throws {
      forall i, j | 0 <= i < j < |ts| - 1 ensures ts[1..][i].id != ts[1..][j].id {
        assert ts[1..][i] == ts[i + 1] && ts[1..][j] == ts[j + 1];
      }
    } else if ts[0].it.pending < budget {
      RunKeepsIdsDistinct(ts[1..], budget - 1 - ts[0].it.pending);
    } else {
      var t := ts[0].(it := ts[0].it.(pending := ts[0].it.pending - budget));
      var q := [t] + ts[1..];
      forall i, j | 0 <= i < j < |q| ensures q[i].id != q[j].id {
        assert q[i].id == ts[i].id && q[j].id == ts[j].id;
      }
    }
  }

  // ---------------------------------------------------------------------------
  // Several slices in a row

  /**
   * The slices the host runs one after another, with their budgets. A slice that throws
   * registers no new callback, so none follows it.
   */
  function RunSlices<V>(ts: seq<Task<V>>, budgets: seq<nat>): Slice<V>
    decreases |budgets|
  {
    if budgets == [] then Slice(ts, [], [])
    else
      var first := Run(ts, budgets[0]);
      if first.lost != [] then first
      else
        var rest := RunSlices(first.queue, budgets[1..]);
        Slice(rest.queue, first.finished + rest.finished, rest.lost)
  }

  /** Every task completes on its first `next()`, as the iterators of `push` do when `calc` returns. */
  ghost predicate AllOneShot<V>(ts: seq<Task<V>>)
  {
    forall i :: 0 <= i < |ts| ==> ts[i].it.pending == 0 && !ts[i].it.throws
  }

  function Results<V>(ts: seq<Task<V>>): seq<Settlement<V>>
  {
    seq(|ts|, i requires 0 <= i < |ts| => Settlement(ts[i].ticket, Resolved(ts[i].it.value)))
  }

  /**
   * One-shot tasks, each slice long enough for a single step: every task completes, one
   * per slice, in FIFO order.
   */
  lemma {:induction false} OneShotTasksCompleteInOrder<V>(ts: seq<Task<V>>, budgets: seq<nat>)
    requires AllOneShot(ts)
    requires |budgets| == |ts| && forall i :: 0 <= i < |budgets| ==> budgets[i] == 1
    ensures RunSlices(ts, budgets) == Slice([], Results(ts), [])
  {
    if ts != [] {
      assert Run(ts, 1) == Slice(ts[1..], [Settlement(ts[0].ticket, Resolved(ts[0].it.value))], []);
      OneShotTasksCompleteInOrder(ts[1..], budgets[1..]);
      assert Results(ts) == [Settlement(ts[0].ticket, Resolved(ts[0].it.value))] + Results(ts[1..]);
    }
  }

  // ---------------------------------------------------------------------------
  // Settling each promise once

  lemma {:induction false} UptoCounts(n: nat, k: nat)
    ensures multiset(Upto(n))[k] == if k < n then 1 else 0
  {
    if n > 0 {
      UptoCounts(n - 1, k);
      assert Upto(n) == Upto(n - 1) + [n - 1];
    }
  }

  /**
   * Under the ticket invariant every promise created so far is either pending in the queue
   * or settled, exactly once, and no queued task's promise has been settled.
   */
  lemma SettledAtMostOnce<V>(ts: seq<Task<V>>, settled: seq<Settlement<V>>, n: nat, k: nat)
    requires multiset(Tickets(ts)) + multiset(SettledTickets(settled)) == multiset(Upto(n))
    ensures multiset(SettledTickets(settled))[k] <= 1
    ensures k in Tickets(ts) ==> k !in SettledTickets(settled)
    ensures k < n <==> k in Tickets(ts) || k in SettledTickets(settled)
  {
    UptoCounts(n, k);
  }

  lemma SpliceConserves<V>(ts: seq<Task<V>>, i: nat)
    requires i < |ts|
    ensures multiset(Tickets(ts[..i] + ts[i + 1..])) + multiset{ts[i].ticket} == multiset(Tickets(ts))
  {
    var a, b := Tickets(ts[..i]), Tickets(ts[i + 1..]);
    TicketsAt(ts, i);
    TicketsAppend(ts[..i], ts[i + 1..]);
    assert multiset(a + [ts[i].ticket] + b) == multiset(a) + multiset{ts[i].ticket} + multiset(b);
  }

  /** The ticket list splits around any position. */
  lemma TicketsAt<V>(ts: seq<Task<V>>, i: nat)
    requires i < |ts|
    ensures Tickets(ts) == Tickets(ts[..i]) + [ts[i].ticket] + Tickets(ts[i + 1..])
  {
    var rest := ts[i..];
    assert ts == ts[..i] + rest;
    TicketsAppend(ts[..i], rest);
    assert rest[1..] == ts[i + 1..];
    assert Tickets(rest) == [ts[i].ticket] + Tickets(ts[i + 1..]);
  }

  lemma SpliceKeepsDistinct<V>(ts: seq<Task<V>>, i: nat)
    requires i < |ts| && IdsDistinct(ts)
    ensures IdsDistinct(ts[..i] + ts[i + 1..])
  {
    var r := ts[..i] + ts[i + 1..];
    forall a, b | 0 <= a < b < |r| ensures r[a].id != r[b].id {
      var a' := if a < i then a else a + 1;
      var b' := if b < i then b else b + 1;
      assert r[a] == ts[a'] && r[b] == ts[b'];
    }
  }

  /** With distinct ids, no task with `id` is left after splicing it out. */
  lemma WithoutRemovesId<V>(ts: seq<Task<V>>, id: string)
    requires IdsDistinct(ts)
    ensures forall k :: 0 <= k < |Without(ts, id)| ==> Without(ts, id)[k].id != id
  {
    var i := FindIndex(ts, id);
    if i >= 0 {
      var r := Without(ts, id);
      forall k | 0 <= k < |r| ensures r[k].id != id {
        var k' := if k < i then k else k + 1;
        assert r[k] == ts[k'] && k' != i;
      }
    }
  }

  /** Every promise created so far (tickets below `n`) is pending in `ts` or settled in `ss`. */
  ghost predicate Accounted<V>(ts: seq<Task<V>>, ss: seq<Settlement<V>>, n: nat)
  {
    multiset(Tickets(ts)) + multiset(SettledTickets(ss)) == multiset(Upto(n))
  }

  /** Settling the task at position `i` keeps every promise accounted for. */
  lemma AccountSplice<V>(ts: seq<Task<V>>, ss: seq<Settlement<V>>, n: nat, i: nat, o: Outcome<V>)
    requires i < |ts| && Accounted(ts, ss, n)
    ensures Accounted(ts[..i] + ts[i + 1..], ss + [Settlement(ts[i].ticket, o)], n)
  {
    SpliceConserves(ts, i);
    SettledTicketsAppend(ss, [Settlement(ts[i].ticket, o)]);
  }

  /** A new task holding the next ticket keeps every promise accounted for. */
  lemma AccountPush<V>(ts: seq<Task<V>>, ss: seq<Settlement<V>>, n: nat, t: Task<V>)
    requires Accounted(ts, ss, n) && t.ticket == n
    ensures Accounted(ts + [t], ss, n + 1)
  {
    TicketsAppend(ts, [t]);
    assert Tickets([t]) == [n];
  }

  /** Settling abortions of the `Filter` part, with the `Reject` part left queued. */
  lemma AccountAbortAll<V>(ts: seq<Task<V>>, ss: seq<Settlement<V>>, n: nat, f: Task<V> -> bool)
    requires Accounted(ts, ss, n)
    ensures Accounted(Reject(ts, f), ss + AbortAll(Filter(ts, f)), n)
  {
    FilterSplitsTickets(ts, f);
    AbortAllTickets(Filter(ts, f));
    SettledTicketsAppend(ss, AbortAll(Filter(ts, f)));
  }

  /** Settling abortions of the whole queue. */
  lemma AccountClear<V>(ts: seq<Task<V>>, ss: seq<Settlement<V>>, n: nat)
    requires Accounted(ts, ss, n)
    ensures Accounted([], ss + AbortAll(ts), n)
  {
    AbortAllTickets(ts);
    SettledTicketsAppend(ss, AbortAll(ts));
  }

  /** The freshly constructed scheduler: nothing created, nothing pending. */
  lemma AccountNew<V>()
    ensures Accounted<V>([], [], 0)
  {
  }

  /** `abort(id)` (see `TaskScheduler.Abort`) keeps every promise accounted for. */
  lemma AccountAbort<V>(ts: seq<Task<V>>, ss: seq<Settlement<V>>, n: nat, id: string)
    requires Accounted(ts, ss, n)
    ensures Accounted(Without(ts, id), ss + AbortedFor(ts, id), n)
  {
    var i := FindIndex(ts, id);
    if i >= 0 {
      AccountSplice(ts, ss, n, i, Aborted);
    } else {
      assert ss + AbortedFor(ts, id) == ss;
    }
  }

  /** `pushMulti(id, it)` (see `TaskScheduler.PushMulti`) keeps every promise accounted for. */
  lemma AccountPushMulti<V>(ts: seq<Task<V>>, ss: seq<Settlement<V>>, n: nat, id: string, it: Iter<V>)
    requires Accounted(ts, ss, n)
    ensures Accounted(Without(ts, id) + [Task(id, it, n)], ss + AbortedFor(ts, id), n + 1)
  {
    AccountAbort(ts, ss, n, id);
    AccountPush(Without(ts, id), ss + AbortedFor(ts, id), n, Task(id, it, n));
  }

  /**
   * A time slice (see `TaskScheduler.RunTasks`) keeps every promise accounted for, except
   * the one of a task whose `next()` threw: that promise is neither pending nor settled.
   */
  lemma {:induction false} AccountRun<V>(ts: seq<Task<V>>, ss: seq<Settlement<V>>, n: nat, budget: nat)
    requires Accounted(ts, ss, n)
    ensures var r := Run(ts, budget);
      multiset(Tickets(r.queue)) + multiset(SettledTickets(ss + r.finished)) + multiset(r.lost) == multiset(Upto(n))
    ensures var r := Run(ts, budget); r.lost == [] ==> Accounted(r.queue, ss + r.finished, n)
    ensures var r := Run(ts, budget);
      forall k :: k in r.lost ==> k !in Tickets(r.queue) && k !in SettledTickets(ss + r.finished)
  {
    var r := Run(ts, budget);
    RunConserves(ts, budget);
    SettledTicketsAppend(ss, r.finished);
    var q, f, l := multiset(Tickets(r.queue)), multiset(SettledTickets(ss + r.finished)), multiset(r.lost);
    assert q + f + l == multiset(Upto(n));
    forall k | k in r.lost ensures k !in Tickets(r.queue) && k !in SettledTickets(ss + r.finished) {
      UptoCounts(n, k);
      assert (q + f + l)[k] == q[k] + f[k] + l[k];
    }
  }

  /** Resolves each task of `ts` ABORTED, in order (the `forEach` of `abortAll` and `clear`). */
  method AbortEach<V>(ts: seq<Task<V>>) returns (log: seq<Settlement<V>>)
    ensures log == AbortAll(ts)
  {
    log := [];
    for i := 0 to |ts|
      invariant log == AbortAll(ts[..i])
    {
      log := log + [Settlement(ts[i].ticket, Aborted)];
      assert ts[..i + 1] == ts[..i] + [ts[i]];
      AbortAllAppend(ts[..i], [ts[i]]);
    }
    assert ts[..|ts|] == ts;
  }

  // ---------------------------------------------------------------------------
  // The scheduler

  class TaskScheduler<V> {
    var tasks: seq<Task<V>>
    var taskId: int
    var settled: seq<Settlement<V>>
    var nextTicket: nat
    var hostNext: nat
    var cancelled: seq<int>

    /**
     * Ids in the queue are distinct, and a non-empty queue always has `taskId` set: the
     * registered callback, or, after a slice that threw, the callback that ran, so that
     * nothing is registered any more. (That every promise is pending or settled exactly
     * once is proved about the specification functions the methods are tied to; see
     * `Account*` above.)
     */
    ghost predicate Valid()
      reads this
    {
      && IdsDistinct(tasks)
      && (|tasks| > 0 ==> taskId != -1)
      && 1 <= hostNext
      && (taskId == -1 || 1 <= taskId < hostNext)
    }

    constructor ()
      ensures Valid()
      ensures tasks == [] && taskId == -1 && settled == [] && nextTicket == 0 && cancelled == []
    {
      tasks := [];
      taskId := -1;
      settled := [];
      nextTicket := 0;
      hostNext := 1;
      cancelled := [];
    }

    /** Registers the callback only when there is work and none is registered. */
    method ReSchedule()
      modifies this
      ensures tasks == old(tasks) && settled == old(settled) && nextTicket == old(nextTicket)
      ensures cancelled == old(cancelled)
      ensures if |tasks| == 0 || old(taskId) > -1
        then taskId == old(taskId) && hostNext == old(hostNext)
        else taskId == old(hostNext) && hostNext == old(hostNext) + 1
    {
      if |tasks| == 0 || taskId > -1 {
        return;
      }
      taskId := hostNext;
      hostNext := hostNext + 1;
    }

    /**
     * `abort(id)`: false and no change when no queued task has the id; otherwise that task
     * is spliced out, resolved ABORTED, and the rest keep their order.
     */
    method Abort(id: string) returns (found: bool)
      requires Valid()
      modifies this
      ensures Valid()
      ensures found == (FindIndex(old(tasks), id) >= 0)
      ensures tasks == Without(old(tasks), id)
      ensures settled == old(settled) + AbortedFor(old(tasks), id)
      ensures forall k :: 0 <= k < |tasks| ==> tasks[k].id != id
      ensures taskId == old(taskId) && nextTicket == old(nextTicket) && hostNext == old(hostNext)
      ensures cancelled == old(cancelled)
    {
      var index := FindIndex(tasks, id);
      WithoutRemovesId(tasks, id);
      if index < 0 {
        return false;
      }
      var task := tasks[index];
      SpliceKeepsDistinct(tasks, index);
      tasks := tasks[..index] + tasks[index + 1..];
      settled := settled + [Settlement(task.ticket, Aborted)];
      return true;
    }

    /** The `abort` of a handle (root or derived through `then`): an abort by its id. */
    method AbortHandle(h: Handle)
      requires Valid()
      modifies this
      ensures Valid()
      ensures tasks == Without(old(tasks), AbortKey(h))
      ensures settled == old(settled) + AbortedFor(old(tasks), AbortKey(h))
      ensures taskId == old(taskId) && nextTicket == old(nextTicket) && hostNext == old(hostNext)
      ensures cancelled == old(cancelled)
    {
      var _ := Abort(AbortKey(h));
    }

    /**
     * `pushMulti(id, it)`: the task queued under `id`, if any, is resolved ABORTED and
     * removed; the new task goes to the back; a callback is registered if none is.
     */
    method PushMulti(id: string, it: Iter<V>) returns (h: Handle)
      requires Valid()
      modifies this
      ensures Valid()
      ensures tasks == Without(old(tasks), id) + [Task(id, it, old(nextTicket))]
      ensures settled == old(settled) + AbortedFor(old(tasks), id)
      ensures nextTicket == old(nextTicket) + 1
      ensures h == Root(id, old(nextTicket))
      ensures if old(taskId) > -1
        then taskId == old(taskId) && hostNext == old(hostNext)
        else taskId == old(hostNext) && hostNext == old(hostNext) + 1
      ensures cancelled == old(cancelled)
    {
      var _ := Abort(id);
      ghost var mid := tasks;
      tasks := tasks + [Task(id, it, nextTicket)];
      forall a, b | 0 <= a < b < |tasks| ensures tasks[a].id != tasks[b].id {
        if b == |tasks| - 1 {
          assert tasks[a] == mid[a];
        }
      }
      h := Root(id, nextTicket);
      nextTicket := nextTicket + 1;
      ReSchedule();
    }

    /** `push(id, compute)`: `pushMulti` with the one-shot iterator of `compute`. */
    method Push(id: string, compute: () -> V) returns (h: Handle)
      requires Valid()
      modifies this
      ensures Valid()
      ensures tasks == Without(old(tasks), id) + [Task(id, OneShot(compute), old(nextTicket))]
      ensures settled == old(settled) + AbortedFor(old(tasks), id)
      ensures nextTicket == old(nextTicket) + 1
      ensures h == Root(id, old(nextTicket))
      ensures if old(taskId) > -1
        then taskId == old(taskId) && hostNext == old(hostNext)
        else taskId == old(hostNext) && hostNext == old(hostNext) + 1
      ensures cancelled == old(cancelled)
    {
      h := PushMulti(id, OneShot(compute));
    }

    /**
     * `abortAll(filter)`: nothing happens when no task matches. Otherwise exactly the
     * matching tasks are removed, in order, and each is resolved ABORTED.
     */
    method AbortAllMatching(filter: Task<V> -> bool)
      requires Valid()
      modifies this
      ensures Valid()
      ensures Filter(old(tasks), filter) == [] ==> tasks == old(tasks) && settled == old(settled)
      ensures tasks == Reject(old(tasks), filter)
      ensures settled == old(settled) + AbortAll(Filter(old(tasks), filter))
      ensures taskId == old(taskId) && nextTicket == old(nextTicket) && hostNext == old(hostNext)
      ensures cancelled == old(cancelled)
    {
      var abort := Filter(tasks, filter);
      if |abort| == 0 {
        FilterNoneKeepsAll(tasks, filter);
        return;
      }
      RejectKeepsDistinct(tasks, filter);
      tasks := Reject(tasks, filter);
      var log := AbortEach(abort);
      settled := settled + log;
    }

    /**
     * `clear()`: with no registered callback it returns and leaves the queue as it is
     * (under `Valid` the queue is then already empty); otherwise it cancels the callback
     * and resolves every queued task ABORTED, in order, leaving the queue empty.
     */
    method Clear()
      requires Valid()
      modifies this
      ensures Valid()
      ensures old(taskId) == -1 ==>
        (tasks == old(tasks) && settled == old(settled) && cancelled == old(cancelled))
      ensures old(taskId) != -1 ==>
        (settled == old(settled) + AbortAll(old(tasks)) && cancelled == old(cancelled) + [old(taskId)])
      ensures tasks == [] && taskId == -1
      ensures nextTicket == old(nextTicket) && hostNext == old(hostNext)
    {
      if taskId == -1 {
        return;
      }
      cancelled := cancelled + [taskId];
      taskId := -1;
      var removed := tasks;
      tasks := [];
      var log := AbortEach(removed);
      settled := settled + log;
    }

    /**
     * `runTasks(deadline)`: takes tasks from the front while time remains, steps each until
     * it is done or time runs out, resolves finished ones with their value and puts an
     * unfinished one back at the front; then unregisters and re-registers only if work is left.
     * When a `next()` throws, the exception leaves `runTasks` at once: the task is already
     * off the queue, and `taskId` keeps the id of the callback that ran.
     */
    method RunTasks(budget: nat)
      requires Valid()
      modifies this
      ensures Valid()
      ensures tasks == Run(old(tasks), budget).queue
      ensures settled == old(settled) + Run(old(tasks), budget).finished
      ensures Run(old(tasks), budget).lost != [] ==> taskId == old(taskId) > -1 && hostNext == old(hostNext)
      ensures Run(old(tasks), budget).lost == [] ==>
        if |tasks| == 0 then taskId == -1 && hostNext == old(hostNext)
        else taskId == old(hostNext) && hostNext == old(hostNext) + 1
      ensures nextTicket == old(nextTicket) && cancelled == old(cancelled)
    {
      var left := budget;
      ghost var done: seq<Settlement<V>> := [];
      while |tasks| > 0 && left > 0
        invariant Run(old(tasks), budget) == Slice(Run(tasks, left).queue, done + Run(tasks, left).finished, Run(tasks, left).lost)
        invariant settled == old(settled) + done
        invariant IdsDistinct(tasks)
        invariant old(tasks) == [] ==> tasks == []
        invariant taskId == old(taskId) && hostNext == old(hostNext)
        invariant nextTicket == old(nextTicket) && cancelled == old(cancelled)
        decreases |tasks|, left
      {
        left := left - 1;
        ghost var before := tasks;
        ghost var left0 := left;
        var task := tasks[0];
        tasks := tasks[1..];

        var r := Next(task.it);
        while r.AnotherRound? && left > 0
          invariant left <= left0
          invariant r.AnotherRound? ==> task.it.pending - 1 - (left0 - left) >= 0 && r.rest == task.it.(pending := task.it.pending - 1 - (left0 - left))
          invariant r.Done? ==> left0 - left == task.it.pending && r.value == task.it.value && !task.it.throws
          invariant r.Threw? ==> left0 - left == task.it.pending && task.it.throws
        {
          left := left - 1;
          r := Next(r.rest);
        }
        if r.Threw? {
          forall a, b | 0 <= a < b < |tasks| ensures tasks[a].id != tasks[b].id {
            assert tasks[a] == before[a + 1] && tasks[b] == before[b + 1];
          }
          return;
        }
        if r.Done? {
          var s := Settlement(task.ticket, Resolved(r.value));
          settled := settled + [s];
          done := done + [s];
        } else {
          var t := task.(it := r.rest);
          tasks := [t] + tasks;
          forall a, b | 0 <= a < b < |tasks| ensures tasks[a].id != tasks[b].id {
            assert tasks[a].id == before[a].id && tasks[b].id == before[b].id;
          }
        }
      }
      taskId := -1;
      ReSchedule();
    }
  }

  /**
   * A task whose `next()` throws stalls the scheduler: its promise is never settled, and a
   * task pushed afterwards stays queued with no callback registered for it.
   */
  method ThrowStallsQueue() returns (lostPending: bool, lostSettled: bool, registered: bool, queued: nat)
    ensures !lostPending && !lostSettled && !registered && queued == 1
  {
    var sched := new TaskScheduler<int>();
    var first := sched.PushMulti("a", Iter(0, 0, true));
    sched.RunTasks(1);
    var hostBefore := sched.hostNext;
    var second := sched.PushMulti("b", Iter(0, 5, false));
    registered := sched.hostNext != hostBefore;
    lostPending := first.ticket in Tickets(sched.tasks);
    lostSettled := first.ticket in SettledTickets(sched.settled);
    queued := |sched.tasks|;
  }

  lemma {:induction false} FilterSplitsTickets<V>(ts: seq<Task<V>>, f: Task<V> -> bool)
    ensures multiset(Tickets(Filter(ts, f))) + multiset(Tickets(Reject(ts, f))) == multiset(Tickets(ts))
  {
    if ts != [] {
      FilterSplitsTickets(ts[1..], f);
      assert Tickets(ts) == [ts[0].ticket] + Tickets(ts[1..]);
      var a := Filter(ts[1..], f);
      var b := Reject(ts[1..], f);
      if f(ts[0]) {
        assert Filter(ts, f) == [ts[0]] + a && Reject(ts, f) == b;
        assert Tickets([ts[0]] + a) == [ts[0].ticket] + Tickets(a);
      } else {
        assert Filter(ts, f) == a && Reject(ts, f) == [ts[0]] + b;
        assert Tickets([ts[0]] + b) == [ts[0].ticket] + Tickets(b);
      }
    }
  }

  lemma {:induction false} RejectKeepsDistinct<V>(ts: seq<Task<V>>, f: Task<V> -> bool)
    requires IdsDistinct(ts)
    ensures IdsDistinct(Reject(ts, f))
  {
    if ts != [] {
      assert IdsDistinct(ts[1..]) by {
        forall i, j | 0 <= i < j < |ts[1..]| ensures ts[1..][i].id != ts[1..][j].id {
          assert ts[1..][i] == ts[i + 1] && ts[1..][j] == ts[j + 1];
        }
      }
      RejectKeepsDistinct(ts[1..], f);
      RejectWithin(ts[1..], f);
      var rest := Reject(ts[1..], f);
      forall k | 0 <= k < |rest| ensures rest[k].id != ts[0].id {
        var j :| 0 <= j < |ts[1..]| && ts[1..][j] == rest[k];
        assert ts[1..][j] == ts[j + 1];
      }
      var r := Reject(ts, f);
      if !f(ts[0]) {
        assert r == [ts[0]] + rest;
        forall a, b | 0 <= a < b < |r| ensures r[a].id != r[b].id {
          if a == 0 {
            assert r[b] == rest[b - 1];
          } else {
            assert r[a] == rest[a - 1] && r[b] == rest[b - 1];
          }
        }
      }
    }
  }

  /** Every task `Reject` keeps is a task of the input. */
  lemma {:induction false} RejectWithin<V>(ts: seq<Task<V>>, f: Task<V> -> bool)
    ensures forall k :: 0 <= k < |Reject(ts, f)| ==> exists j :: 0 <= j < |ts| && ts[j] == Reject(ts, f)[k]
  {
    if ts != [] {
      RejectWithin(ts[1..], f);
      var rest := Reject(ts[1..], f);
      var r := Reject(ts, f);
      assert r == (if f(ts[0]) then [] else [ts[0]]) + rest;
      forall k | 0 <= k < |r| ensures exists j :: 0 <= j < |ts| && ts[j] == r[k] {
        if f(ts[0]) {
          assert r == rest;
          var j :| 0 <= j < |ts[1..]| && ts[1..][j] == rest[k];
          assert ts[j + 1] == r[k];
        } else if k == 0 {
          assert ts[0] == r[0];
        } else {
          assert r[k] == rest[k - 1];
          var j :| 0 <= j < |ts[1..]| && ts[1..][j] == rest[k - 1];
          assert ts[j + 1] == r[k];
        }
      }
    } else {
      assert Reject(ts, f) == [];
    }
  }

  lemma {:induction false} FilterNoneKeepsAll<V>(ts: seq<Task<V>>, f: Task<V> -> bool)
    requires Filter(ts, f) == []
    ensures Reject(ts, f) == ts
  {
    if ts != [] {
      assert !f(ts[0]);
      FilterNoneKeepsAll(ts[1..], f);
    }
  }
}
