/**
 * The log-tail stream (src/streams/logs.ts).
 *
 * `LogStream` keeps the set of sids it has seen and the polling timer. A poll
 * receives the page `listOnePageLogResources` settled with; records pushed to
 * the readable side are appended to `emitted` (their `JSON.stringify` form is
 * not modelled). The timer is its identity while active; `setInterval` hands
 * out successive identities.
 */
module Logs {
  import opened Wrappers
  import opened Subsequences

  type Sid = string

  /** A log entry as listed by the service; `message` stands for its other fields. */
  datatype LogRecord = LogRecord(sid: Sid, message: string)

  function SidsOf(records: seq<LogRecord>): set<Sid>
  {
    set r | r in records :: r.sid
  }

  /** `logs.filter(log => !this._viewedSids.has(log.sid))`: the filter sees the set as it was before the poll. */
  function NewRecords(page: seq<LogRecord>, seen: set<Sid>): (unseen: seq<LogRecord>)
    ensures |unseen| <= |page|
    ensures forall i :: 0 <= i < |unseen| ==> unseen[i].sid !in seen
  {
    if page == [] then []
    else (if page[0].sid in seen then [] else [page[0]]) + NewRecords(page[1..], seen)
  }

  /** A record occurs among the emitted ones as often as in the page, unless its sid was seen. */
  lemma {:induction false} NewRecordsCount(page: seq<LogRecord>, seen: set<Sid>, r: LogRecord)
    ensures multiset(NewRecords(page, seen))[r] == if r.sid in seen then 0 else multiset(page)[r]
  {
    if page != [] {
      NewRecordsCount(page[1..], seen, r);
      var head := if page[0].sid in seen then [] else [page[0]];
      assert NewRecords(page, seen) == head + NewRecords(page[1..], seen);
      assert multiset(NewRecords(page, seen)) == multiset(head) + multiset(NewRecords(page[1..], seen));
      assert page == [page[0]] + page[1..];
      assert multiset(page) == multiset([page[0]]) + multiset(page[1..]);
    }
  }

  /** The emitted records keep their page order. */
  lemma {:induction false} NewRecordsOrder(page: seq<LogRecord>, seen: set<Sid>)
    ensures SubsequenceOf(NewRecords(page, seen), page)
  {
    if page != [] {
      NewRecordsOrder(page[1..], seen);
      var rest := NewRecords(page[1..], seen);
      if page[0].sid in seen {
        assert NewRecords(page, seen) == rest;
        assert rest == [] || SubsequenceOf(rest, page[1..]);
      } else {
        var out := [page[0]] + rest;
        assert NewRecords(page, seen) == out;
        assert out[0] == page[0] && out[1..] == rest;
      }
    }
  }

  /**
   * The records a poll emits are exactly the page's records with an unseen
   * sid, each as many times as the page holds it, in page order.
   */
  lemma NewRecordsFacts(page: seq<LogRecord>, seen: set<Sid>)
    ensures forall r :: r in NewRecords(page, seen) <==> r in page && r.sid !in seen
    ensures forall r :: multiset(NewRecords(page, seen))[r] == if r.sid in seen then 0 else multiset(page)[r]
    ensures SubsequenceOf(NewRecords(page, seen), page)
  {
    forall r
      ensures multiset(NewRecords(page, seen))[r] == if r.sid in seen then 0 else multiset(page)[r]
      ensures r in NewRecords(page, seen) <==> r in page && r.sid !in seen
    {
      NewRecordsCount(page, seen, r);
      assert r in NewRecords(page, seen) <==> r in multiset(NewRecords(page, seen));
      assert r in page <==> r in multiset(page);
    }
    NewRecordsOrder(page, seen);
  }

  /** The sids of the page's records that the filter drops are already seen. */
  lemma NewRecordsSids(page: seq<LogRecord>, seen: set<Sid>)
    ensures seen + SidsOf(NewRecords(page, seen)) == seen + SidsOf(page)
    ensures SidsOf(NewRecords(page, seen)) !! seen
  {
    NewRecordsFacts(page, seen);
    forall s | s in SidsOf(page) && s !in seen
      ensures s in SidsOf(NewRecords(page, seen))
    {
      var r :| r in page && r.sid == s;
      assert r in NewRecords(page, seen);
    }
  }

  lemma NewRecordsCons(r: LogRecord, rest: seq<LogRecord>, seen: set<Sid>)
    ensures NewRecords([r] + rest, seen) == (if r.sid in seen then [] else [r]) + NewRecords(rest, seen)
  {
    assert ([r] + rest)[1..] == rest;
  }

  /**
   * The filter runs before any sid is added, so two records of one page that
   * share an unseen sid are both pushed, and a record repeated in the page
   * is pushed as often as it is repeated.
   */
  lemma RepeatedSidInOnePage(page: seq<LogRecord>, seen: set<Sid>, i: nat, j: nat)
    requires i < j < |page| && page[i].sid == page[j].sid && page[i].sid !in seen
    ensures page[i] in NewRecords(page, seen) && page[j] in NewRecords(page, seen)
    ensures page[i] == page[j] ==> multiset(NewRecords(page, seen))[page[i]] >= 2
  {
    NewRecordsFacts(page, seen);
    if page[i] == page[j] {
      assert page == page[..j] + page[j..];
      assert page[i] in page[..j] && page[j] in page[j..];
      assert multiset(page)[page[i]] == multiset(page[..j])[page[i]] + multiset(page[j..])[page[i]];
    }
  }

  /** The concatenation of the batches of successive polls. */
  function Flatten(batches: seq<seq<LogRecord>>): seq<LogRecord>
  {
    if batches == [] then [] else Flatten(batches[..|batches| - 1]) + batches[|batches| - 1]
  }

  lemma SidsOfConcat(xs: seq<LogRecord>, ys: seq<LogRecord>)
    ensures SidsOf(xs + ys) == SidsOf(xs) + SidsOf(ys)
  {
    assert forall r :: r in xs + ys <==> r in xs || r in ys;
  }

  /** No sid occurs in two different batches. */
  ghost predicate PairwiseDisjoint(batches: seq<seq<LogRecord>>)
  {
    forall i, j :: 0 <= i < j < |batches| ==> SidsOf(batches[i]) !! SidsOf(batches[j])
  }

  /** A batch of unseen sids keeps the batches pairwise disjoint when every earlier batch was seen. */
  lemma AppendUnseenBatch(batches: seq<seq<LogRecord>>, seen: set<Sid>, batch: seq<LogRecord>)
    requires PairwiseDisjoint(batches)
    requires forall i :: 0 <= i < |batches| ==> SidsOf(batches[i]) <= seen
    requires SidsOf(batch) !! seen
    ensures PairwiseDisjoint(batches + [batch])
  {
    var all := batches + [batch];
    forall i, j | 0 <= i < j < |all|
      ensures SidsOf(all[i]) !! SidsOf(all[j])
    {
      assert all[i] == batches[i];
      if j < |batches| {
        assert all[j] == batches[j];
      }
    }
  }

  class LogStream {
    const environmentSid: Sid
    const serviceSid: Sid
    /** Milliseconds between polls. */
    const pollingFrequency: nat
    /** `_viewedSids` */
    var seen: set<Sid>
    /** `_interval`: the active timer, if any. */
    var interval: Option<nat>
    /** Timers started so far; the next one gets this identity. */
    var timersStarted: nat
    /** `_buffer`: initialised and never used. */
    var buffer: seq<LogRecord>
    /** The records pushed to the readable side, in push order. */
    var emitted: seq<LogRecord>
    var destroyed: bool
    /** The error the stream was destroyed with, if any. */
    var failure: Option<string>
    /** What each successful poll pushed. */
    ghost var batches: seq<seq<LogRecord>>

    /**
     * Everything pushed is the concatenation of the polls' batches, every
     * pushed sid has been seen, and no two polls pushed the same sid.
     */
    ghost predicate Valid()
      reads this
    {
      emitted == Flatten(batches) &&
      SidsOf(emitted) <= seen &&
      (forall i :: 0 <= i < |batches| ==> SidsOf(batches[i]) <= seen) &&
      PairwiseDisjoint(batches) &&
      (interval.Some? ==> interval.value < timersStarted)
    }

    /** A new stream: nothing seen, no timer, nothing buffered or pushed. */
    constructor (environmentSid: Sid, serviceSid: Sid)
      ensures Valid()
      ensures this.environmentSid == environmentSid && this.serviceSid == serviceSid
      ensures pollingFrequency == 1000
      ensures seen == {} && interval == None && buffer == [] && emitted == []
      ensures !destroyed && failure == None && timersStarted == 0
    {
      this.environmentSid := environmentSid;
      this.serviceSid := serviceSid;
      pollingFrequency := 1000;
      seen := {};
      interval := None;
      timersStarted := 0;
      buffer := [];
      emitted := [];
      destroyed := false;
      failure := None;
      batches := [];
    }

    /** `_poll`: push the page's records whose sid was unseen before the poll, in page order, marking each seen. */
    method Poll(page: Result<seq<LogRecord>, string>)
      requires Valid()
      modifies this
      ensures Valid()
      ensures page.Ok? ==> emitted == old(emitted) + NewRecords(page.value, old(seen))
      ensures page.Ok? ==> SidsOf(NewRecords(page.value, old(seen))) !! SidsOf(old(emitted))
      ensures page.Ok? ==> seen == old(seen) + SidsOf(page.value)
      ensures page.Ok? ==> interval == old(interval) && destroyed == old(destroyed) && failure == old(failure)
      ensures page.Err? ==> emitted == old(emitted) && seen == old(seen)
      ensures page.Err? && !old(destroyed) ==> destroyed && failure == Some(page.error) && interval == None
      ensures page.Err? && old(destroyed) ==> destroyed && failure == old(failure) && interval == old(interval)
      ensures timersStarted == old(timersStarted) && buffer == old(buffer)
    {
      if page.Err? {
        Destroy(Some(page.error));
        return;
      }
      var logs := NewRecords(page.value, seen);
      NewRecordsSids(page.value, seen);
      AppendUnseenBatch(batches, seen, logs);
      PushAll(logs);
      SidsOfConcat(old(emitted), logs);
      ghost var before := batches;
      batches := batches + [logs];
      assert batches[..|batches| - 1] == before;
    }

    /** The `forEach` of `_poll`: mark each record's sid seen and push the record. */
    method PushAll(logs: seq<LogRecord>)
      modifies this
      ensures seen == old(seen) + SidsOf(logs)
      ensures emitted == old(emitted) + logs
      ensures interval == old(interval) && timersStarted == old(timersStarted)
      ensures destroyed == old(destroyed) && failure == old(failure)
      ensures buffer == old(buffer) && batches == old(batches)
    {
      for i := 0 to |logs|
        invariant seen == old(seen) + SidsOf(logs[..i])
        invariant emitted == old(emitted) + logs[..i]
        invariant interval == old(interval) && timersStarted == old(timersStarted)
        invariant destroyed == old(destroyed) && failure == old(failure)
        invariant buffer == old(buffer) && batches == old(batches)
      {
        assert logs[..i + 1] == logs[..i] + [logs[i]];
        SidsOfConcat(logs[..i], [logs[i]]);
        seen := seen + {logs[i].sid};
        emitted := emitted + [logs[i]];
      }
      assert logs[..|logs|] == logs;
    }

    /** `_read`: start the polling timer unless one is active. */
    method Read()
      requires Valid()
      modifies this
      ensures Valid()
      ensures interval.Some?
      ensures old(interval).Some? ==> interval == old(interval) && timersStarted == old(timersStarted)
      ensures old(interval).None? ==> interval == Some(old(timersStarted)) && timersStarted == old(timersStarted) + 1
      ensures seen == old(seen) && emitted == old(emitted) && buffer == old(buffer)
      ensures destroyed == old(destroyed) && failure == old(failure)
    {
      if interval.None? {
        interval := Some(timersStarted);
        timersStarted := timersStarted + 1;
      }
    }

    /** `_destroy`: clear the active timer, if any. */
    method DestroyHook()
      requires Valid()
      modifies this
      ensures Valid()
      ensures interval == None
      ensures seen == old(seen) && emitted == old(emitted) && buffer == old(buffer)
      ensures timersStarted == old(timersStarted) && destroyed == old(destroyed) && failure == old(failure)
    {
      if interval.Some? {
        interval := None;
      }
    }

    /**
     * `destroy(err)` of the readable side: the first call marks the stream
     * destroyed with the error and runs the `_destroy` hook; later calls do nothing.
     */
    method Destroy(err: Option<string>)
      requires Valid()
      modifies this
      ensures Valid()
      ensures destroyed
      ensures !old(destroyed) ==> failure == err && interval == None
      ensures old(destroyed) ==> failure == old(failure) && interval == old(interval)
      ensures seen == old(seen) && emitted == old(emitted) && buffer == old(buffer)
      ensures timersStarted == old(timersStarted)
    {
      if !destroyed {
        destroyed := true;
        failure := err;
        DestroyHook();
      }
    }
  }

  lemma FirstPageAllNew(a: LogRecord, b: LogRecord, c: LogRecord)
    requires a.sid != b.sid && a.sid != c.sid && b.sid != c.sid
    ensures NewRecords([a, b, c], {}) == [a, b, c]
  {
    NewRecordsCons(c, [], {});
    NewRecordsCons(b, [c], {});
    NewRecordsCons(a, [b, c], {});
    assert [a] + [b, c] == [a, b, c] && [b] + [c] == [b, c] && [c] + [] == [c];
  }

  lemma SecondPageOnlyLast(a: LogRecord, b: LogRecord, c: LogRecord, d: LogRecord, seen: set<Sid>)
    requires seen == {} + SidsOf([a, b, c])
    requires a.sid != d.sid && b.sid != d.sid && c.sid != d.sid
    ensures NewRecords([b, c, d], seen) == [d]
  {
    assert b in [a, b, c] && c in [a, b, c];
    assert d.sid !in seen;
    NewRecordsCons(d, [], seen);
    NewRecordsCons(c, [d], seen);
    NewRecordsCons(b, [c, d], seen);
    assert [b] + [c, d] == [b, c, d] && [c] + [d] == [c, d] && [d] + [] == [d];
  }

  /**
   * Two polls over overlapping pages `[a, b, c]` then `[b, c, d]` push
   * `a, b, c` and then only `d`.
   */
  method OverlappingPolls(a: LogRecord, b: LogRecord, c: LogRecord, d: LogRecord)
    returns (first: seq<LogRecord>, second: seq<LogRecord>)
    requires a.sid != b.sid && a.sid != c.sid && a.sid != d.sid
    requires b.sid != c.sid && b.sid != d.sid && c.sid != d.sid
    ensures first == [a, b, c]
    ensures second == [d]
  {
    var stream := new LogStream("ZE0", "ZS0");
    FirstPageAllNew(a, b, c);
    stream.Poll(Ok([a, b, c]));
    first := stream.emitted;
    SecondPageOnlyLast(a, b, c, d, stream.seen);
    stream.Poll(Ok([b, c, d]));
    second := stream.emitted[|first|..];
  }
}
