/** Table deletion and the loop that waits for its answers (v3ioutils/container.go). */
module DeleteWait {
  import opened Wrappers
  import opened Values
  import opened AsyncCursor

  // --- The wait loop -------------------------------------------------------------------------------

  /** What the loop's select sees: an answer, the number of requests, or a whole timeout without either. */
  datatype Event = Answer(failed: bool) | Count(n: int) | Timeout

  function Responses(events: seq<Event>): nat {
    if events == [] then 0 else
      Responses(events[..|events| - 1]) + (if events[|events| - 1].Answer? then 1 else 0)
  }

  function Timeouts(events: seq<Event>): nat {
    if events == [] then 0 else
      Timeouts(events[..|events| - 1]) + (if events[|events| - 1].Timeout? then 1 else 0)
  }

  function Counts(events: seq<Event>): nat {
    if events == [] then 0 else
      Counts(events[..|events| - 1]) + (if events[|events| - 1].Count? then 1 else 0)
  }

  /** The number of requests announced last, -1 before. */
  function Announced(events: seq<Event>): int {
    if events == [] then -1
    else if events[|events| - 1].Count? then events[|events| - 1].n
    else Announced(events[..|events| - 1])
  }

  /** Has there been an answer since the last timeout? */
  predicate Active(events: seq<Event>) {
    if events == [] || events[|events| - 1].Timeout? then false
    else events[|events| - 1].Answer? || Active(events[..|events| - 1])
  }

  /** Event `k` ends the loop: the last answer, a count that is already met, or a second idle period. */
  predicate StopsAt(events: seq<Event>, k: nat)
    requires k < |events|
  {
    var before := events[..k];
    match events[k]
    case Answer(_) => Announced(before) == Responses(before) + 1
    case Count(n) => n <= Responses(before)
    case Timeout => !Active(before)
  }

  ghost predicate NoStop(events: seq<Event>, n: nat)
    requires n <= |events|
  {
    forall k :: 0 <= k < n ==> !StopsAt(events, k)
  }

  /** The loop, run on what arrives: failed answers count like any other. */
  method RespWaitLoop(events: seq<Event>) returns (done: bool, consumed: nat)
    ensures consumed <= |events|
    ensures done ==> consumed > 0 && StopsAt(events, consumed - 1) && NoStop(events, consumed - 1)
    ensures !done ==> consumed == |events| && NoStop(events, consumed)
  {
    var responses, requests, active := 0, -1, false;
    consumed := 0;
    while consumed < |events|
      invariant consumed <= |events| && NoStop(events, consumed)
      invariant responses == Responses(events[..consumed])
      invariant requests == Announced(events[..consumed])
      invariant active == Active(events[..consumed])
    {
      var event := events[consumed];
      assert events[..consumed + 1][..consumed] == events[..consumed];
      consumed := consumed + 1;
      match event {
        case Answer(failed) =>
          responses := responses + 1;
          active := true;
          if requests == responses {
            return true, consumed;
          }
        case Count(n) =>
          requests := n;
          if requests <= responses {
            return true, consumed;
          }
        case Timeout =>
          if !active {
            return true, consumed;
          }
          active := false;
      }
    }
    return false, consumed;
  }

  lemma Prefix(events: seq<Event>, n: nat)
    requires n < |events|
    ensures events[..n + 1][..n] == events[..n] && events[..n + 1][n] == events[n]
  {
  }

  /** While the loop goes on, an announced number has not been reached: the equality test cannot be jumped over. */
  lemma {:induction false} StillShort(events: seq<Event>, n: nat)
    requires n <= |events| && NoStop(events, n) && Counts(events[..n]) <= 1
    ensures Counts(events[..n]) == 0 ==> Announced(events[..n]) == -1
    ensures Counts(events[..n]) == 1 ==> Responses(events[..n]) < Announced(events[..n])
  {
    if n > 0 {
      Prefix(events, n - 1);
      StillShort(events, n - 1);
      assert !StopsAt(events, n - 1);
    }
  }

  /** Timeouts that do not end the loop are at most as many as the answers. */
  lemma {:induction false} TimeoutsBounded(events: seq<Event>, n: nat)
    requires n <= |events| && NoStop(events, n)
    ensures Timeouts(events[..n]) + (if Active(events[..n]) then 1 else 0) <= Responses(events[..n])
  {
    if n > 0 {
      Prefix(events, n - 1);
      TimeoutsBounded(events, n - 1);
      assert !StopsAt(events, n - 1);
    }
  }

  /** Two timeouts without an answer in between: the loop is over by the second. */
  lemma {:induction false} SecondTimeoutStops(events: seq<Event>, j: nat, k: nat)
    requires j < k < |events| && events[j] == events[k] == Timeout
    requires forall i :: j < i < k ==> !events[i].Answer?
    ensures StopsAt(events, k)
  {
    NotActiveSince(events, j, k);
  }

  lemma {:induction false} NotActiveSince(events: seq<Event>, j: nat, k: nat)
    requires j < k <= |events| && events[j] == Timeout
    requires forall i :: j < i < k ==> !events[i].Answer?
    ensures !Active(events[..k])
    decreases k
  {
    Prefix(events, k - 1);
    if j < k - 1 {
      NotActiveSince(events, j, k - 1);
    }
  }

  /** Event `j` is an answer, and no timeout lies between it and event `k`. */
  predicate AnswerSince(events: seq<Event>, j: nat, k: nat)
    requires j < k <= |events|
  {
    events[j].Answer? && forall i :: j < i < k ==> events[i] != Timeout
  }

  lemma {:induction false} ActiveIff(events: seq<Event>, k: nat)
    requires k <= |events|
    ensures Active(events[..k]) <==> exists j: nat :: j < k && AnswerSince(events, j, k)
  {
    if k > 0 {
      var m: nat := k - 1;
      Prefix(events, m);
      ActiveIff(events, m);
      if j: nat :| j < m && AnswerSince(events, j, m) {
        assert events[m] != Timeout ==> AnswerSince(events, j, k);
      }
      if j: nat :| j < k && AnswerSince(events, j, k) {
        assert j < m ==> AnswerSince(events, j, m);
      }
      assert events[m].Answer? ==> AnswerSince(events, m, k);
    }
  }

  /** A timeout ends the loop exactly when no answer has come since the one before: the first after an answer does not. */
  lemma TimeoutStopsIff(events: seq<Event>, k: nat)
    requires k < |events| && events[k] == Timeout
    ensures StopsAt(events, k) <==> forall j: nat :: j < k ==> !AnswerSince(events, j, k)
  {
    ActiveIff(events, k);
  }

  lemma {:induction false} Partition(events: seq<Event>)
    ensures |events| == Responses(events) + Timeouts(events) + Counts(events)
  {
    if events != [] {
      Partition(events[..|events| - 1]);
    }
  }

  /** The loop ends: with `r` answers and one announcement, by event number 2r + 2 at the latest. */
  lemma LoopEnds(events: seq<Event>, r: nat)
    requires Responses(events) <= r && Counts(events) <= 1 && |events| >= 2 * r + 2
    ensures !NoStop(events, |events|)
  {
    if NoStop(events, |events|) {
      assert events[..|events|] == events;
      Partition(events);
      TimeoutsBounded(events, |events|);
    }
  }

  /** Once all requests are answered and announced, in whatever order, the loop is over. */
  lemma AllAnsweredStops(events: seq<Event>)
    requires Counts(events) == 1 && Announced(events) <= Responses(events)
    ensures !NoStop(events, |events|)
  {
    assert events[..|events|] == events;
    if NoStop(events, |events|) {
      StillShort(events, |events|);
    }
  }

  /** If not for a timeout, the loop ends exactly with the last answer to the n requests it was told of. */
  lemma DoneMeansAnswered(events: seq<Event>, k: nat, n: nat)
    requires k < |events| && StopsAt(events, k) && NoStop(events, k)
    requires Counts(events[..k + 1]) <= 1 && (Counts(events[..k + 1]) == 1 ==> Announced(events[..k + 1]) == n)
    requires Responses(events[..k + 1]) <= n
    ensures events[k].Timeout? || (Counts(events[..k + 1]) == 1 && Responses(events[..k + 1]) == n)
  {
    Prefix(events, k);
    StillShort(events, k);
  }

  // --- Deleting a table -----------------------------------------------------------------------------

  datatype Delete = DeleteItem(name: string) | DeleteTableObject

  /** The delete requests that the store has accepted. */
  class ObjectStore {
    var requests: seq<Delete>
    var refused: nat

    constructor ()
      ensures requests == [] && refused == 0
    {
      requests, refused := [], 0;
    }

    method DeleteObject(request: Delete) returns (ok: bool)
      modifies this
      ensures requests == if ok then old(requests) + [request] else old(requests)
      ensures refused == old(refused) + (if ok then 0 else 1)
    {
      ok := *;
      if ok {
        requests := requests + [request];
      } else {
        refused := refused + 1;
      }
    }
  }

  /** Panic stands for the failed type assertion on an item without a string `__name`. */
  datatype Outcome = Deleted | CursorFailed | DeleteFailed | IterationFailed | TableFailed | Panic

  const NAME_FIELD := "__name"

  predicate Named(item: Item) {
    NAME_FIELD in item && item[NAME_FIELD].Str?
  }

  predicate AllNamed(items: seq<Item>) {
    forall i :: 0 <= i < |items| ==> Named(items[i])
  }

  function Deletes(items: seq<Item>): seq<Delete>
    requires AllNamed(items)
  {
    seq(|items|, i requires 0 <= i < |items| && Named(items[i]) => DeleteItem(items[i][NAME_FIELD].s))
  }

  /** The requests made were one for each of these items, in this order. */
  ghost predicate Requested(store: ObjectStore, was: seq<Delete>, items: seq<Item>)
    reads store
  {
    AllNamed(items) && store.requests == was + Deletes(items)
  }

  lemma NothingRequested(store: ObjectStore)
    ensures Requested(store, store.requests, []) && AllNamed([])
  {
    assert store.requests + Deletes([]) == store.requests;
  }

  lemma RequestedOne(store: ObjectStore, was: seq<Delete>, before: seq<Delete>, items: seq<Item>, item: Item)
    requires AllNamed(items) && before == was + Deletes(items)
    requires Named(item) && store.requests == before + [DeleteItem(item[NAME_FIELD].s)]
    ensures Requested(store, was, items + [item])
  {
    assert Deletes(items + [item]) == Deletes(items) + [DeleteItem(item[NAME_FIELD].s)];
  }

  /** Some shard holds an item without a name. */
  ghost predicate SomeUnnamed(shards: seq<Shard>) {
    exists s, i :: 0 <= s < |shards| && 0 <= i < |Expected(shards[s])| &&
      !("__name" in Expected(shards[s])[i] && Expected(shards[s])[i]["__name"].Str?)
  }

  lemma UnnamedIn(shards: seq<Shard>, entry: (nat, Item))
    requires entry.0 < |shards| && !Named(entry.1)
    requires exists i :: 0 <= i < |Expected(shards[entry.0])| && Expected(shards[entry.0])[i] == entry.1
    ensures SomeUnnamed(shards)
  {
  }

  /** The loop of `DeleteTable` over the cursor. */
  method DeleteItems(cursor: AsyncItemsCursor, store: ObjectStore) returns (outcome: Outcome, ghost items: seq<Item>)
    requires cursor.Valid() && cursor.delivered == [] && cursor.limit == 0 && cursor.currentError == None
    modifies cursor, cursor.container, store
    ensures Requested(store, old(store.requests), items)
    ensures outcome in {Deleted, DeleteFailed, IterationFailed, Panic}
    ensures outcome == Deleted ==> IsInterleaving(items, AllExpected(cursor.container.shards)) && !cursor.SomeShardFails()
    ensures outcome == IterationFailed ==> cursor.SomeShardFails()
    ensures store.refused == old(store.refused) + (if outcome == DeleteFailed then 1 else 0)
    ensures outcome == Panic ==> SomeUnnamed(cursor.container.shards)
  {
    hide SomeUnnamed;
    hide AsyncItemsCursor.Valid, IsInterleaving, AsyncItemsCursor.SomeShardFails, AsyncItemsCursor.Drained;
    hide Untag, SumLen, Deletes, AllExpected, Project;
    items := [];
    var shards := cursor.container.shards;
    var ok := cursor.Next();
    NothingRequested(store);
    while ok
      invariant cursor.currentError.Some? ==> !ok && cursor.SomeShardFails()
      invariant cursor.currentError.None? ==> cursor.Valid()
      invariant ok ==> cursor.currentError.None?
      invariant cursor.currentError.None? ==> Untag(cursor.delivered) == items + (if ok then [cursor.currentItem] else [])
      invariant cursor.currentError.None? && !ok ==> cursor.Drained()
      invariant Requested(store, old(store.requests), items) && store.refused == old(store.refused)
      invariant ok ==> cursor.delivered != [] && cursor.delivered[|cursor.delivered| - 1].1 == cursor.currentItem
      decreases SumLen(AllExpected(shards)) - |items|, ok
    {
      cursor.DeliveredSoFar();
      var item := cursor.currentItem;
      if !Named(item) {
        cursor.LastDelivered();
        UnnamedIn(shards, cursor.delivered[|cursor.delivered| - 1]);
        return Panic, items;
      }
      ghost var before := store.requests;
      var accepted := store.DeleteObject(DeleteItem(item[NAME_FIELD].s));
      if !accepted {
        return DeleteFailed, items;
      }
      RequestedOne(store, old(store.requests), before, items, item);
      items := items + [item];
      ghost var was := cursor.delivered;
      ok := cursor.Next();
      if ok {
        LogSnoc(was, (cursor.lane, cursor.currentItem));
      }
    }
    if cursor.currentError.Some? {
      return IterationFailed, items;
    }
    cursor.DeliveredSoFar();
    assert items + [] == items;
    outcome := Deleted;
  }

  /**
    * `DeleteTable`: the table object, if there is one, goes last, after a request for every item of
    * every shard, exactly once each. Answers that report a failure are logged and change nothing.
    */
  method DeleteTable(container: Container, store: ObjectStore, workers: nat, tableExists: bool)
    returns (outcome: Outcome, ghost items: seq<Item>)
    requires container.Outstanding() == multiset{} && |container.shards| == Lanes(workers, false, 0)
    modifies container, store
    ensures AllNamed(items)
    ensures store.requests == old(store.requests) + Deletes(items) +
              (if outcome == Deleted && tableExists then [DeleteTableObject] else [])
    ensures outcome == Deleted || outcome == TableFailed ==>
              && IsInterleaving(items, AllExpected(container.shards))
              && forall s :: 0 <= s < |container.shards| ==> !Fails(container.shards[s])
    ensures forall i :: 0 <= i < |items| ==>
              && |old(store.requests)| + i < |store.requests| && store.requests[|old(store.requests)| + i].DeleteItem?
              && "__name" in items[i] && items[i]["__name"] == Str(store.requests[|old(store.requests)| + i].name)
    // every other outcome has its reason
    ensures outcome == CursorFailed || outcome == IterationFailed ==>
              exists s :: 0 <= s < |container.shards| && Fails(container.shards[s])
    ensures outcome == DeleteFailed || outcome == TableFailed <==> store.refused > old(store.refused)
    ensures outcome == Panic ==> SomeUnnamed(container.shards)
  {
    hide IsInterleaving, AsyncItemsCursor.Valid, Expected, SomeUnnamed;
    var cursor := NewAsyncItemsCursor(container, workers, false, 0, 0);
    if cursor.Failure? {
      NothingRequested(store);
      ghost var s :| 0 <= s < |container.shards| && container.shards[s][0].Refused?;
      assert PagesUpTo(container.shards[s], 0) && Fails(container.shards[s]);
      return CursorFailed, [];
    }
    outcome, items := DeleteItems(cursor.value, store);
    if outcome != Deleted {
      return;
    }
    // here the count is announced and done awaited
    if tableExists {
      var ok := store.DeleteObject(DeleteTableObject);
      if !ok {
        outcome := TableFailed;
      }
    }
  }
}
