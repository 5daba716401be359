/** Asking many hosts at once: one thread a host, not more than maxConnections of them at a time,
    and a loop that starts, collects and gives up on them. Time is counted in milliseconds. */
module HostPolling {
  import opened Collections

  /** A thread that asks one host: answer is what it finds out should it ever end. */
  class HostThread<O> {
    const hostId: Id
    const answer: O
    var started: Option<int>
    var ended: bool

    constructor (hostId: Id, answer: O)
      ensures this.hostId == hostId && this.answer == answer && started == None && !ended
    {
      this.hostId, this.answer := hostId, answer;
      this.started, this.ended := None, false;
    }
  }

  /** A host, the outcome of looking up its address, and what asking it would yield. */
  datatype Host<O> = Host(id: Id, address: Result<Id, string>, answer: O)

  /** The threads among pending that have been started. */
  ghost function Started<O(!new)>(pending: set<HostThread<O>>): set<HostThread<O>>
    reads pending
  {
    set t | t in pending && t.started.Some?
  }

  function HostIds<O(!new)>(threads: set<HostThread<O>>): set<Id> {
    set t | t in threads :: t.hostId
  }

  function FirstIds<O>(hosts: seq<Host<O>>, i: nat): set<Id>
    requires i <= |hosts|
  {
    set k | 0 <= k < i :: hosts[k].id
  }

  ghost predicate DistinctHosts<O>(hosts: seq<Host<O>>) {
    forall i, j :: 0 <= i < j < |hosts| ==> hosts[i].id != hosts[j].id
  }

  /** What one host may end up with. */
  ghost predicate Justified<O, R>(t: HostThread<O>, value: R, report: O -> R, timedOut: R, limit: int, now: int)
    reads t
  {
    && t.started.Some?
    && ((t.ended && value == report(t.answer)) || (value == timedOut && now - t.started.value >= limit))
  }

  class HostControl<O(!new), R> {
    const maxConnections: nat
    const report: O -> R       // the entry for a thread that has ended
    const failed: string -> R  // the entry for a host without address
    const timedOut: R          // the entry for a thread that took too long
    var now: int
    ghost var begun: int       // when the current call began

    constructor (maxConnections: int, report: O -> R, failed: string -> R, timedOut: R, now: int)
      ensures Valid() && this.report == report && this.failed == failed && this.timedOut == timedOut
      ensures this.maxConnections == if maxConnections >= 1 then maxConnections else 1
      ensures this.now == now
    {
      this.maxConnections := if maxConnections >= 1 then maxConnections else 1;
      this.report, this.failed, this.timedOut, this.now := report, failed, timedOut, now;
      this.begun := now;
    }

    /** The books of the loop: which threads of all are pending, how many run, and what has been
        entered for the others. */
    ghost predicate Books(all: set<HostThread<O>>, limit: int, initial: map<Id, R>, pending: set<HostThread<O>>,
                          runningThreads: int, result: map<Id, R>)
      reads this, all
    {
      && pending <= all && begun <= now
      && runningThreads == |Started(pending)| <= maxConnections
      && (forall t :: t in all ==>
            (t.ended ==> t.started.Some?) && (t.started.Some? ==> begun <= t.started.value <= now))
      && Entered(all - pending, limit, initial, result)
    }

    /** There is one entry more for each thread that is through, and it is justified. */
    ghost predicate Entered(through: set<HostThread<O>>, limit: int, initial: map<Id, R>, result: map<Id, R>)
      reads this, through
    {
      && result.Keys == initial.Keys + HostIds(through)
      && (forall h :: h in initial ==> h in result && result[h] == initial[h])
      && (forall t :: t in through ==> t.hostId in result && EntryJustified(t, result[t.hostId], limit))
    }

    /** The thread was started in this call, and the entry is what it found, or it had its full time. */
    ghost predicate EntryJustified(t: HostThread<O>, value: R, limit: int)
      reads this, t
    {
      Justified(t, value, report, timedOut, limit, now) && begun <= t.started.value
    }

    predicate Valid() {
      maxConnections >= 1
    }

    /** No two hosts share an id, and none of them has an entry yet. */
    ghost predicate Identified(all: set<HostThread<O>>, initial: map<Id, R>) {
      && (forall t, u :: t in all && u in all && t.hostId == u.hostId ==> t == u)
      && forall t :: t in all ==> t.hostId !in initial
    }

    /** Whatever may happen between two steps of the loop: time goes by, and any running threads end.
        At every such point the count of running threads is right and within bounds. */
    method Elapse(least: nat, all: set<HostThread<O>>, ghost limit: int, ghost initial: map<Id, R>,
                  ghost pending: set<HostThread<O>>, ghost runningThreads: int, ghost result: map<Id, R>)
      requires Books(all, limit, initial, pending, runningThreads, result)
      modifies `now, set t | t in all :: t`ended
      ensures now >= old(now) + least
      ensures forall t :: t in all ==> (old(t.ended) ==> t.ended)
      ensures Books(all, limit, initial, pending, runningThreads, result)
    {
      var more: nat :| more >= 0;
      now := now + least + more;
      assert Started(pending) == old(Started(pending));
      var rest := all;
      while rest != {}
        invariant rest <= all && now == old(now) + least + more
        invariant forall t :: t in all ==> (old(t.ended) ==> t.ended)
        invariant Started(pending) == old(Started(pending))
        invariant Books(all, limit, initial, pending, runningThreads, result)
      {
        var t :| t in rest;
        rest := rest - {t};
        if t.started.Some? && !t.ended {
          t.ended := *;
        }
      }
    }

    lemma OneEntry(t: HostThread<O>, value: R, through: set<HostThread<O>>, limit: int, initial: map<Id, R>,
                   result: map<Id, R>)
      requires Entered(through, limit, initial, result) && t.hostId !in result
      requires EntryJustified(t, value, limit)
      ensures Entered(through + {t}, limit, initial, result[t.hostId := value])
    {
      hide EntryJustified;
      assert HostIds(through + {t}) == HostIds(through) + {t.hostId};
    }

    /** A pending thread gets an entry. */
    lemma Leaves(t: HostThread<O>, value: R, all: set<HostThread<O>>, limit: int, initial: map<Id, R>,
                 pending: set<HostThread<O>>, runningThreads: int, result: map<Id, R>)
      requires Books(all, limit, initial, pending, runningThreads, result) && Identified(all, initial)
      requires t in pending && EntryJustified(t, value, limit)
      ensures t.hostId !in result
      ensures Books(all, limit, initial, pending - {t}, runningThreads - 1, result[t.hostId := value])
    {
      assert Started(pending - {t}) == Started(pending) - {t} && t in Started(pending);
      assert all - (pending - {t}) == all - pending + {t};
      assert t.hostId !in result by {
        assert t.hostId !in HostIds(all - pending);
        assert result.Keys == initial.Keys + HostIds(all - pending);
      }
      hide Entered;
      OneEntry(t, value, all - pending, limit, initial, result);
    }

    /** A pending thread is started. */
    method Start(t: HostThread<O>, ghost all: set<HostThread<O>>, ghost limit: int, ghost initial: map<Id, R>,
                 ghost pending: set<HostThread<O>>, ghost runningThreads: int, ghost result: map<Id, R>)
      requires Books(all, limit, initial, pending, runningThreads, result)
      requires t in pending && t.started.None? && runningThreads < maxConnections
      modifies t`started
      ensures t.started == Some(now)
      ensures Books(all, limit, initial, pending, runningThreads + 1, result)
    {
      t.started := Some(now);
      assert Started(pending) == old(Started(pending)) + {t};
    }

    /** One look at one pending thread: it is collected, started, given up or left as it is. */
    method PollThread(t: HostThread<O>, all: set<HostThread<O>>, limit: int, ghost initial: map<Id, R>,
                      ghost pending: set<HostThread<O>>, runningThreads: int, result: map<Id, R>)
      returns (keep: bool, runningThreads': int, result': map<Id, R>)
      requires Books(all, limit, initial, pending, runningThreads, result) && Identified(all, initial)
      requires t in pending
      modifies `now, t`started, set u | u in all :: u`ended
      ensures now >= old(now)
      ensures Books(all, limit, initial, if keep then pending else pending - {t}, runningThreads', result')
      ensures old(t.started).Some? ==> t.started == old(t.started) && (keep ==> old(now) < t.started.value + limit)
      ensures old(t.started).None? ==> keep && (t.started.None? ==> runningThreads' == runningThreads >= maxConnections)
      ensures keep ==> runningThreads' == runningThreads + if old(t.started).None? && t.started.Some? then 1 else 0
    {
      assert t in all;
      hide Books, Identified;
      runningThreads', result' := runningThreads, result;
      Elapse(0, all, limit, initial, pending, runningThreads, result);
      if t.ended {
        Leaves(t, report(t.answer), all, limit, initial, pending, runningThreads, result);
        result' := result'[t.hostId := report(t.answer)];
        runningThreads' := runningThreads' - 1;
        return false, runningThreads', result';
      }
      Elapse(0, all, limit, initial, pending, runningThreads, result);
      if t.started.None? {
        if runningThreads' < maxConnections {
          Start(t, all, limit, initial, pending, runningThreads, result);
          runningThreads' := runningThreads' + 1;
        }
      } else {
        Elapse(0, all, limit, initial, pending, runningThreads, result);
        var timeRunning := now - t.started.value;
        if timeRunning >= limit {
          Leaves(t, timedOut, all, limit, initial, pending, runningThreads, result);
          result' := result'[t.hostId := timedOut];
          runningThreads' := runningThreads' - 1;
          return false, runningThreads', result';
        }
      }
      keep := true;
    }

    /** One pass over the pending threads. Either some are through, or more of them run than before,
        or one of them was still within its time when the pass began. */
    method PollAll(threads: seq<HostThread<O>>, all: set<HostThread<O>>, limit: int, ghost initial: map<Id, R>,
                   runningThreads: int, result: map<Id, R>)
      returns (newThreads: seq<HostThread<O>>, runningThreads': int, result': map<Id, R>)
      requires Valid() && Identified(all, initial) && threads != [] && Distinct(threads)
      requires Books(all, limit, initial, Elements(threads), runningThreads, result)
      modifies `now, all
      ensures now >= old(now)
      ensures Distinct(newThreads) && Books(all, limit, initial, Elements(newThreads), runningThreads', result')
      ensures
        || |newThreads| < |threads|
        || (newThreads == threads && runningThreads' > runningThreads)
        || (newThreads == threads && runningThreads' == runningThreads
            && (forall t :: t in threads ==> t.started == old(t.started))
            && (exists t :: t in threads && t.started.Some? && old(now) < t.started.value + limit))
    {
      hide Books, Identified, Partway, Started, Distinct, Elements;
      newThreads, runningThreads', result' := [], runningThreads, result;
      ghost var pending := Elements(threads);
      PartwayStart(threads);
      ghost var u := SomeStarted(threads, all, limit, initial, runningThreads, result);
      for i := 0 to |threads|
        invariant Books(all, limit, initial, pending, runningThreads', result') && now >= old(now)
        invariant Partway(threads, i, newThreads, pending) && pending <= all
        invariant |newThreads| <= i && (|newThreads| == i ==> runningThreads' >= runningThreads)
        invariant |newThreads| == i && runningThreads' == runningThreads ==>
                    && (forall t :: t in threads ==> t.started == old(t.started))
                    && (forall j :: 0 <= j < i ==>
                          if threads[j].started.Some? then old(now) < threads[j].started.value + limit
                                                   else runningThreads >= maxConnections)
      {
        var t := threads[i];
        PartwayStep(threads, i, newThreads, pending);
        var keep;
        keep, runningThreads', result' := PollThread(t, all, limit, initial, pending, runningThreads', result');
        if keep {
          newThreads := newThreads + [t];
        } else {
          pending := pending - {t};
        }
      }
      PartwayEnd(threads, newThreads, pending);
      if newThreads == threads && runningThreads' == runningThreads {
        ghost var j :| 0 <= j < |threads| && threads[j] == u;
        assert u.started.Some? && old(now) < u.started.value + limit;
      }
    }

    /** The loop: as long as threads are pending, it looks at all of them and sleeps for 100 ms. It
        ends whatever the threads do, and then each of them has its one entry. */
    method Poll(hostThreads: seq<HostThread<O>>, timeout: int, initial: map<Id, R>) returns (result: map<Id, R>)
      requires Valid() && Distinct(hostThreads) && Identified(Elements(hostThreads), initial)
      requires forall t :: t in hostThreads ==> t.started.None? && !t.ended
      modifies `now, `begun, Elements(hostThreads)
      ensures begun == old(now)
      ensures Entered(Elements(hostThreads), 1000 * (timeout + 5), initial, result)
    {
      begun := now;
      var all := Elements(hostThreads);
      var threads := hostThreads;
      var limit := 1000 * (timeout + 5);
      var runningThreads := 0;
      result := initial;
      ghost var deadline := now;
      NothingStarted(all, limit, initial);
      hide Books, Identified, Distinct;
      while threads != []
        invariant begun == old(now)
        invariant Distinct(threads) && Books(all, limit, initial, Elements(threads), runningThreads, result)
        invariant forall t :: t in threads && t.started.Some? ==> t.started.value + limit <= deadline
        decreases |threads|, |threads| - runningThreads, if deadline > now then deadline - now else 0
      {
        ghost var before, ran := threads, runningThreads;
        BooksBound(threads, all, limit, initial, runningThreads, result);
        threads, runningThreads, result := PollAll(threads, all, limit, initial, runningThreads, result);
        BooksBound(threads, all, limit, initial, runningThreads, result);
        if |threads| < |before| || runningThreads > ran {
          deadline := now + limit;
        }
        Elapse(100, all, limit, initial, Elements(threads), runningThreads, result);
      }
      EverythingEntered(all, limit, initial, runningThreads, result);
    }

    lemma BooksBound(threads: seq<HostThread<O>>, all: set<HostThread<O>>, limit: int, initial: map<Id, R>,
                     runningThreads: int, result: map<Id, R>)
      requires Distinct(threads) && Books(all, limit, initial, Elements(threads), runningThreads, result)
      ensures 0 <= runningThreads <= |threads|
      ensures forall t :: t in threads ==> t in all
      ensures forall t :: t in threads && t.started.Some? ==> t.started.value <= now
    {
      SubsetSize(Started(Elements(threads)), Elements(threads));
      DistinctCount(threads);
      assert forall t :: t in threads ==> t in Elements(threads) && t in all;
    }

    lemma EverythingEntered(all: set<HostThread<O>>, limit: int, initial: map<Id, R>, runningThreads: int,
                            result: map<Id, R>)
      requires Books(all, limit, initial, Elements<HostThread<O>>([]), runningThreads, result)
      ensures Entered(all, limit, initial, result)
    {
      assert all - Elements<HostThread<O>>([]) == all;
    }

    lemma NothingStarted(all: set<HostThread<O>>, limit: int, initial: map<Id, R>)
      requires begun <= now && forall t :: t in all ==> t.started.None? && !t.ended
      ensures Books(all, limit, initial, all, 0, initial)
    {
      assert Started(all) == {};
    }

    /** What a host may end up with: the entry for a missing address, what its own thread has found, or,
        if this thread has had its full time, the entry for taking too long. */
    ghost predicate Answers(host: Host<O>, value: R, threads: map<Id, HostThread<O>>, limit: int)
      reads this, threads.Values
    {
      match host.address
      case Err(message) => value == failed(message)
      case Ok(_) =>
        host.id in threads && threads[host.id].answer == host.answer && EntryJustified(threads[host.id], value, limit)
    }

    /** Asks all hosts, each by a new thread of its own. */
    method CallHosts(hosts: seq<Host<O>>, timeout: int) returns (result: map<Id, R>, ghost made: map<Id, HostThread<O>>)
      requires Valid() && DistinctHosts(hosts)
      modifies `now, `begun
      ensures begun == old(now)
      ensures result.Keys == FirstIds(hosts, |hosts|)
      ensures forall h :: h in hosts ==> Answers(h, result[h.id], made, 1000 * (timeout + 5))
      ensures forall h :: h in made ==> fresh(made[h])
    {
      var threads: seq<HostThread<O>> := [];
      var initial: map<Id, R> := map[];
      made := map[];
      for i := 0 to |hosts|
        invariant now == old(now)
        invariant forall t :: t in threads ==> fresh(t) && t.started.None? && !t.ended
        invariant HostsPrepared(hosts, i, threads, initial, made)
      {
        match hosts[i].address
        case Err(message) =>
          PreparedError(hosts, i, threads, initial, made);
          initial := initial[hosts[i].id := failed(message)];
        case Ok(_) =>
          var thread := new HostThread(hosts[i].id, hosts[i].answer);
          PreparedThread(hosts, i, threads, initial, made, thread);
          threads := threads + [thread];
          made := made[hosts[i].id := thread];
      }
      PreparedIdentified(hosts, threads, initial, made);
      result := Poll(threads, timeout, initial);
      HostsAnswered(hosts, threads, timeout, initial, made, result);
    }

    /** The first i hosts have each been given a thread or an entry. */
    ghost predicate HostsPrepared(hosts: seq<Host<O>>, i: nat, threads: seq<HostThread<O>>, initial: map<Id, R>,
                             made: map<Id, HostThread<O>>) {
      && i <= |hosts| && Distinct(threads)
      && made.Keys + initial.Keys == FirstIds(hosts, i) && made.Keys !! initial.Keys
      && (forall t :: t in threads ==> t.hostId in made && made[t.hostId] == t)
      && HostIds(Elements(threads)) == made.Keys
      && (forall k :: 0 <= k < i ==> PreparedFor(hosts[k], initial, made))
    }

    ghost predicate PreparedFor(host: Host<O>, initial: map<Id, R>, made: map<Id, HostThread<O>>) {
      match host.address
      case Err(message) => host.id in initial && initial[host.id] == failed(message)
      case Ok(_) => host.id in made && made[host.id].hostId == host.id && made[host.id].answer == host.answer
    }

    lemma NextHost(hosts: seq<Host<O>>, i: nat)
      requires i < |hosts| && DistinctHosts(hosts)
      ensures FirstIds(hosts, i + 1) == FirstIds(hosts, i) + {hosts[i].id} && hosts[i].id !in FirstIds(hosts, i)
      ensures forall k :: 0 <= k < i ==> hosts[k].id != hosts[i].id
    {
    }

    lemma OneHostId(threads: set<HostThread<O>>, t: HostThread<O>)
      ensures HostIds(threads + {t}) == HostIds(threads) + {t.hostId}
    {
    }

    lemma PreparedError(hosts: seq<Host<O>>, i: nat, threads: seq<HostThread<O>>, initial: map<Id, R>,
                        made: map<Id, HostThread<O>>)
      requires HostsPrepared(hosts, i, threads, initial, made) && i < |hosts| && hosts[i].address.Err?
      requires DistinctHosts(hosts)
      ensures HostsPrepared(hosts, i + 1, threads, initial[hosts[i].id := failed(hosts[i].address.error)], made)
    {
      hide DistinctHosts, Distinct, FirstIds, HostIds, Elements;
      NextHost(hosts, i);
      var initial' := initial[hosts[i].id := failed(hosts[i].address.error)];
      forall k | 0 <= k < i ensures PreparedFor(hosts[k], initial', made) {
        assert PreparedFor(hosts[k], initial, made) && hosts[k].id != hosts[i].id;
      }
    }

    lemma PreparedThread(hosts: seq<Host<O>>, i: nat, threads: seq<HostThread<O>>, initial: map<Id, R>,
                         made: map<Id, HostThread<O>>, thread: HostThread<O>)
      requires HostsPrepared(hosts, i, threads, initial, made) && i < |hosts| && hosts[i].address.Ok?
      requires DistinctHosts(hosts) && thread.hostId == hosts[i].id && thread.answer == hosts[i].answer
      ensures HostsPrepared(hosts, i + 1, threads + [thread], initial, made[hosts[i].id := thread])
    {
      hide DistinctHosts, Distinct, FirstIds, HostIds, Elements;
      NextHost(hosts, i);
      assert thread.hostId !in made && thread !in threads;
      ExtendElements(threads, thread);
      OneHostId(Elements(threads), thread);
      var made' := made[hosts[i].id := thread];
      forall k | 0 <= k < i ensures PreparedFor(hosts[k], initial, made') {
        assert PreparedFor(hosts[k], initial, made) && hosts[k].id != hosts[i].id;
      }
      forall t | t in threads + [thread] ensures t.hostId in made' && made'[t.hostId] == t {
        assert t in threads || t == thread;
      }
    }

    lemma PreparedIdentified(hosts: seq<Host<O>>, threads: seq<HostThread<O>>, initial: map<Id, R>,
                             made: map<Id, HostThread<O>>)
      requires HostsPrepared(hosts, |hosts|, threads, initial, made)
      ensures Identified(Elements(threads), initial)
    {
    }

    lemma HostsAnswered(hosts: seq<Host<O>>, threads: seq<HostThread<O>>, timeout: int, initial: map<Id, R>,
                   made: map<Id, HostThread<O>>, result: map<Id, R>)
      requires HostsPrepared(hosts, |hosts|, threads, initial, made)
      requires Entered(Elements(threads), 1000 * (timeout + 5), initial, result)
      ensures result.Keys == FirstIds(hosts, |hosts|)
      ensures forall h :: h in hosts ==> Answers(h, result[h.id], made, 1000 * (timeout + 5))
    {
      forall h | h in hosts ensures h.id in result && Answers(h, result[h.id], made, 1000 * (timeout + 5)) {
        var k :| 0 <= k < |hosts| && hosts[k] == h;
        assert PreparedFor(hosts[k], initial, made);
        if h.address.Ok? {
          assert h.id in HostIds(Elements(threads));
          assert made[h.id] in Elements(threads);
        }
      }
    }

    /** When some threads run, one of them is among the pending ones; else the first will do. */
    lemma SomeStarted(threads: seq<HostThread<O>>, all: set<HostThread<O>>, limit: int, initial: map<Id, R>,
                      runningThreads: int, result: map<Id, R>) returns (u: HostThread<O>)
      requires threads != [] && Books(all, limit, initial, Elements(threads), runningThreads, result)
      ensures Elements(threads) <= all
      ensures u in threads && (u.started.Some? || (u == threads[0] && runningThreads < 1))
    {
      u := threads[0];
      if runningThreads >= 1 {
        u :| u in Started(Elements(threads));
      }
    }
  }

  lemma TakeOne<T>(s: seq<T>, i: nat)
    requires i < |s| && Distinct(s)
    ensures Elements(s[i..]) == {s[i]} + Elements(s[i + 1..]) && s[i] !in Elements(s[i + 1..])
  {
    assert s[i..] == [s[i]] + s[i + 1..];
  }

  lemma ExtendElements<T>(s: seq<T>, x: T)
    requires Distinct(s) && x !in s
    ensures Elements(s + [x]) == Elements(s) + {x} && Distinct(s + [x])
  {
  }

  /** Of s, the first i elements have been looked at: kept are those to keep, and pending are these
      and all behind i. */
  ghost predicate Partway<T>(s: seq<T>, i: nat, kept: seq<T>, pending: set<T>) {
    && i <= |s| && |kept| <= i
    && pending == Elements(kept) + Elements(s[i..])
    && Distinct(kept) && Elements(kept) !! Elements(s[i..])
    && (|kept| == i ==> kept == s[..i])
  }

  lemma PartwayStart<T>(s: seq<T>)
    requires Distinct(s)
    ensures Partway(s, 0, [], Elements(s))
  {
    assert s[0..] == s;
  }

  lemma PartwayStep<T>(s: seq<T>, i: nat, kept: seq<T>, pending: set<T>)
    requires i < |s| && Distinct(s) && Partway(s, i, kept, pending)
    ensures s[i] in s && s[i] in pending
    ensures Partway(s, i + 1, kept + [s[i]], pending) && Partway(s, i + 1, kept, pending - {s[i]})
  {
    TakeOne(s, i);
    assert Elements(kept + [s[i]]) == Elements(kept) + {s[i]};
  }

  lemma PartwayEnd<T>(s: seq<T>, kept: seq<T>, pending: set<T>)
    requires Partway(s, |s|, kept, pending)
    ensures pending == Elements(kept) && Distinct(kept) && (|kept| == |s| ==> kept == s)
  {
    assert s[..|s|] == s;
  }

  // ----- the two callers -----

  datatype PollError = NoMatchingHosts

  /** How the call of a thread ended: with a JSON value (None is null) or with an exception. */
  datatype Outcome = Returned(value: Option<Id>) | Raised(message: string)

  datatype Reply = Reply(result: Option<Id>, error: Option<string>)

  /** The entry for a thread that has ended. An empty message counts as no error. */
  function ReplyFor(outcome: Outcome): Reply {
    match outcome
    case Returned(value) => Reply(value, None)
    case Raised(message) => if message != "" then Reply(None, Some(message)) else Reply(None, None)
  }

  /** The entry for a thread that took too long. */
  function TimedOut(): Reply {
    Reply(None, Some("timed out"))
  }

  /** The control object is set up for remote calls. */
  ghost predicate CallsHosts(control: HostControl<Outcome, Reply>) {
    && control.Valid() && control.timedOut == TimedOut()
    && (forall outcome :: control.report(outcome) == ReplyFor(outcome))
    && (forall message :: control.failed(message) == Reply(None, Some(message)))
  }

  /** What a host may end up with after a call that lasted for the given time. */
  ghost predicate EntryFor(host: Host<Outcome>, entry: Reply, timeout: int, lasted: int) {
    match host.address
    case Err(message) => entry == Reply(None, Some(message))
    case Ok(_) => entry == ReplyFor(host.answer) || (entry == TimedOut() && lasted >= 1000 * (timeout + 5))
  }

  /** An entry without error comes from a host that has been asked, and that has answered or has failed
      with an empty message; with such a message, a failure is entered just like the answer null. */
  lemma FailureTakenForAnswer(host: Host<Outcome>, entry: Reply, timeout: int, lasted: int)
    requires EntryFor(host, entry, timeout, lasted)
    ensures entry.error.None? <==>
              && host.address.Ok? && entry == ReplyFor(host.answer)
              && (host.answer.Raised? ==> host.answer.message == "")
    ensures entry.error.None? && host.answer.Raised? ==> entry == ReplyFor(Returned(None))
  {
    match host.address
    case Err(_) =>
    case Ok(_) =>
      match host.answer
      case Returned(_) =>
      case Raised(_) =>
  }

  /** Calls a method of opsiclientd on the hosts found for the ids, which may be none. */
  method OpsiclientdRpc(control: HostControl<Outcome, Reply>, hostIds: seq<Id>, hosts: seq<Host<Outcome>>, timeout: int)
    returns (r: Result<map<Id, Reply>, PollError>)
    requires CallsHosts(control) && DistinctHosts(hosts)
    modifies control
    ensures r.Err? <==> hostIds == []
    ensures r.Ok? ==> r.value.Keys == FirstIds(hosts, |hosts|)
    ensures r.Ok? ==> forall h :: h in hosts ==> EntryFor(h, r.value[h.id], timeout, control.now - old(control.now))
    ensures r.Ok? ==> forall h :: h in hosts && r.value[h.id].error.None? ==>
              && h.address.Ok? && (h.answer.Returned? ==> r.value[h.id].result == h.answer.value)
              && (h.answer.Raised? ==> r.value[h.id].result.None? && h.answer.message == "")
    ensures r.Ok? ==> forall h :: h in hosts && r.value[h.id].error.Some? ==>
              && r.value[h.id].result.None?
              && (|| (h.address.Err? && r.value[h.id].error.value == h.address.error)
                  || (h.address.Ok? && h.answer.Raised? && h.answer.message != ""
                      && r.value[h.id].error.value == h.answer.message)
                  || (h.address.Ok? && r.value[h.id].error.value == "timed out"
                      && control.now - old(control.now) >= 1000 * (timeout + 5)))
  {
    if hostIds == [] {
      return Err(NoMatchingHosts);
    }
    var result, threads := control.CallHosts(hosts, timeout);
    forall h | h in hosts ensures EntryFor(h, result[h.id], timeout, control.now - old(control.now)) {
      assert control.Answers(h, result[h.id], threads, 1000 * (timeout + 5));
    }
    r := Ok(result);
  }

  ghost predicate ChecksHosts(control: HostControl<bool, bool>) {
    && control.Valid() && !control.timedOut
    && (forall found :: control.report(found) == found)
    && (forall message :: !control.failed(message))
  }

  /** Finds out which hosts can be reached: one is said to be if it was found so; and if not, it has no
      address, was found not to be, or the call lasted for the whole time it may take. */
  method Reachable(control: HostControl<bool, bool>, hostIds: seq<Id>, hosts: seq<Host<bool>>, timeout: int)
    returns (r: Result<map<Id, bool>, PollError>)
    requires ChecksHosts(control) && DistinctHosts(hosts)
    modifies control
    ensures r.Err? <==> hostIds == []
    ensures r.Ok? ==> r.value.Keys == FirstIds(hosts, |hosts|)
    ensures r.Ok? ==> forall h :: h in hosts && r.value[h.id] ==> h.address.Ok? && h.answer
    ensures r.Ok? ==> forall h :: h in hosts && !r.value[h.id] ==>
              h.address.Err? || !h.answer || control.now - old(control.now) >= 1000 * (timeout + 5)
  {
    if hostIds == [] {
      return Err(NoMatchingHosts);
    }
    var result, threads := control.CallHosts(hosts, timeout);
    forall h | h in hosts
      ensures result[h.id] ==> h.address.Ok? && h.answer
      ensures !result[h.id] ==> h.address.Err? || !h.answer || control.now - old(control.now) >= 1000 * (timeout + 5)
    {
      assert control.Answers(h, result[h.id], threads, 1000 * (timeout + 5));
    }
    r := Ok(result);
  }
}
