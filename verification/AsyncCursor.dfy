/** The sharded, asynchronous item cursor (v3ioutils/asynciter.go). */
module AsyncCursor {
  import opened Wrappers
  import opened Values

  type Item = Row

  const NOT_FOUND: int := 404

  // --- The store ------------------------------------------------------------------------------

  /** What the store does with one request of a shard. */
  datatype Reply =
    | Page(items: seq<Item>)
    | Error(status: Option<int>)   // the response carries an error, possibly with a status code
    | Refused                      // the request cannot be submitted at all

  /** A shard is the sequence of replies to its successive page requests; the last page says so. */
  type Shard = s: seq<Reply> | |s| > 0 witness [Page([])]

  datatype GetItemsInput = GetItemsInput(segment: nat, marker: nat)

  datatype Response = Response(context: GetItemsInput, reply: Reply, last: bool, nextMarker: nat)

  datatype Failure = RequestRefused | ResponseError(status: Option<int>)

  predicate Is404(r: Reply) {
    r.Error? && r.status == Some(NOT_FOUND)
  }

  predicate Bad(r: Reply) {
    r.Refused? || (r.Error? && !Is404(r))
  }

  /** How many replies of a shard are ever asked for: a 404 or a failure ends it early. */
  function LiveLen(shard: Shard): (n: nat)
    ensures 1 <= n <= |shard|
  {
    if shard[0].Page? && |shard| > 1 then 1 + LiveLen(shard[1..]) else 1
  }

  /** The answer to the request for page `m` ends its shard unless it is a page with more to come. */
  lemma {:induction false} ReplyEndsShard(shard: Shard, m: nat)
    requires m < LiveLen(shard)
    ensures m + 1 < LiveLen(shard) <==> HasMore(shard, m)
  {
    if m > 0 {
      ReplyEndsShard(shard[1..], m - 1);
    }
  }

  predicate HasMore(shard: Shard, m: nat)
    requires m < |shard|
  {
    shard[m].Page? && m < |shard| - 1
  }

  predicate EndsBad(shard: Shard) {
    Bad(shard[LiveLen(shard) - 1])
  }

  /** Up to reply `k` the shard answers with pages. */
  predicate PagesUpTo(shard: Shard, k: nat)
    requires k <= |shard|
  {
    forall j :: 0 <= j < k ==> shard[j].Page?
  }

  /** After pages with more to come, a request is refused or answered with an error other than 404. */
  ghost predicate Fails(shard: Shard) {
    exists k: nat :: k < |shard| && PagesUpTo(shard, k) &&
      (shard[k].Refused? || (shard[k].Error? && shard[k].status != Some(404)))
  }

  /** What the cursor reports for a shard that fails. */
  ghost predicate FailsAs(shard: Shard, failure: Failure) {
    exists k: nat :: k < |shard| && PagesUpTo(shard, k) &&
      match shard[k]
      case Page(_) => false
      case Refused => failure == RequestRefused
      case Error(status) => status != Some(404) && failure == ResponseError(status)
  }

  lemma OneWayToFail(shard: Shard, k: nat, failure: Failure)
    requires k < |shard| && PagesUpTo(shard, k)
    requires (shard[k].Refused? && failure == RequestRefused) ||
             (shard[k].Error? && shard[k].status != Some(404) && failure == ResponseError(shard[k].status))
    ensures FailsAs(shard, failure)
  {
  }

  lemma {:induction false} LiveLenStops(shard: Shard)
    ensures PagesUpTo(shard, LiveLen(shard) - 1)
    ensures shard[LiveLen(shard) - 1].Page? ==> LiveLen(shard) == |shard|
  {
    if shard[0].Page? && |shard| > 1 {
      LiveLenStops(shard[1..]);
      forall j | 0 <= j < LiveLen(shard) - 1 ensures shard[j].Page? {
        assert j > 0 ==> shard[j] == shard[1..][j - 1];
      }
    }
  }

  lemma FailsIff(shard: Shard)
    ensures EndsBad(shard) <==> Fails(shard)
  {
    LiveLenStops(shard);
    hide LiveLen;
  }

  /** A shard that ends with a 404 never fails, and has the items of the pages before. */
  lemma QuietEnd(shard: Shard, k: nat)
    requires k < |shard| && PagesUpTo(shard, k) && shard[k] == Error(Some(404))
    ensures !Fails(shard) && Expected(shard) == Flat(shard[..k])
  {
    LiveLenStops(shard);
    hide LiveLen;
    assert LiveLen(shard) == k + 1;
    assert shard[..k + 1][..k] == shard[..k];
  }

  /** A shard of pages only never fails, and has the items of all of them. */
  lemma PagesOnly(shard: Shard)
    requires PagesUpTo(shard, |shard|)
    ensures !Fails(shard) && Expected(shard) == Flat(shard)
  {
    LiveLenStops(shard);
    assert shard[..|shard|] == shard;
  }

  /** The items of a run of replies, in page order. */
  function Flat(replies: seq<Reply>): seq<Item> {
    if replies == [] then [] else
      Flat(replies[..|replies| - 1]) + (if replies[|replies| - 1].Page? then replies[|replies| - 1].items else [])
  }

  /** Everything a reader of this shard alone would see. */
  function Expected(shard: Shard): seq<Item> {
    Flat(shard[..LiveLen(shard)])
  }

  function AllExpected(shards: seq<Shard>): seq<seq<Item>> {
    seq(|shards|, s requires 0 <= s < |shards| => Expected(shards[s]))
  }

  // --- Requests that are still owed an answer ---------------------------------------------------

  type Positions = seq<nat>

  predicate InRange(shards: seq<Shard>, pos: Positions) {
    |pos| == |shards| && forall s :: 0 <= s < |pos| ==> pos[s] <= LiveLen(shards[s])
  }

  /** The next page of `r`'s shard is exactly what `r` asks for. */
  predicate IsNext(shards: seq<Shard>, pos: Positions, r: GetItemsInput)
    requires InRange(shards, pos)
  {
    r.segment < |pos| && r.marker == pos[r.segment] < LiveLen(shards[r.segment])
  }

  /** One request per unfinished shard, for the page that comes next, and no other. */
  ghost predicate OnePerUnfinished(shards: seq<Shard>, pos: Positions, outstanding: multiset<GetItemsInput>)
    requires InRange(shards, pos)
  {
    forall r :: outstanding[r] == if IsNext(shards, pos, r) then 1 else 0
  }

  ghost function Finished(shards: seq<Shard>, pos: Positions, n: nat): (c: nat)
    requires InRange(shards, pos) && n <= |pos|
    ensures c <= n
  {
    if n == 0 then 0 else
      Finished(shards, pos, n - 1) + (if pos[n - 1] == LiveLen(shards[n - 1]) then 1 else 0)
  }

  /** The replies still to come from the first `n` shards. */
  ghost function Budget(shards: seq<Shard>, pos: Positions, n: nat): (b: nat)
    requires n <= |pos| && n <= |shards|
  {
    if n == 0 then 0 else
      Budget(shards, pos, n - 1) + (if pos[n - 1] < LiveLen(shards[n - 1]) then LiveLen(shards[n - 1]) - pos[n - 1] else 0)
  }

  /** Outstanding requests number exactly the shards that are not finished. */
  lemma {:induction false} OutstandingCount(
      shards: seq<Shard>, pos: Positions, outstanding: multiset<GetItemsInput>, n: nat)
    requires InRange(shards, pos) && n <= |pos|
    requires forall r :: outstanding[r] == if IsNext(shards, pos, r) && r.segment < n then 1 else 0
    ensures |outstanding| == n - Finished(shards, pos, n)
  {
    if n == 0 {
      assert outstanding == multiset{};
    } else {
      var r := GetItemsInput(n - 1, pos[n - 1]);
      OutstandingCount(shards, pos, outstanding - multiset{r}, n - 1);
      if pos[n - 1] < LiveLen(shards[n - 1]) {
        assert outstanding[r] == 1;
        assert |outstanding| == |outstanding - multiset{r}| + 1;
      } else {
        assert outstanding[r] == 0;
        assert outstanding - multiset{r} == outstanding;
      }
    }
  }

  function Bump(pos: Positions, s: nat): Positions
    requires s < |pos|
  {
    pos[s := pos[s] + 1]
  }

  /** One answer of shard `s` uses up one unit of the budget and may finish that shard. */
  lemma {:induction false} AdvanceCounts(shards: seq<Shard>, pos: Positions, s: nat, n: nat)
    requires InRange(shards, pos) && n <= |pos| && s < |pos| && pos[s] < LiveLen(shards[s])
    ensures InRange(shards, Bump(pos, s))
    ensures Budget(shards, Bump(pos, s), n) == Budget(shards, pos, n) - (if s < n then 1 else 0)
    ensures Finished(shards, Bump(pos, s), n)
            == Finished(shards, pos, n) + (if s < n && pos[s] + 1 == LiveLen(shards[s]) then 1 else 0)
  {
    if n > 0 {
      AdvanceCounts(shards, pos, s, n - 1);
    }
  }

  lemma {:induction false} AllFinished(shards: seq<Shard>, pos: Positions, n: nat)
    requires InRange(shards, pos) && n <= |pos|
    ensures Finished(shards, pos, n) == n <==> forall s :: 0 <= s < n ==> pos[s] == LiveLen(shards[s])
  {
    if n > 0 {
      AllFinished(shards, pos, n - 1);
    }
  }

  lemma {:induction false} NothingFinished(shards: seq<Shard>, pos: Positions, n: nat)
    requires InRange(shards, pos) && n <= |pos|
    requires forall s :: 0 <= s < |pos| ==> pos[s] == 0
    ensures Finished(shards, pos, n) == 0
  {
    if n > 0 {
      NothingFinished(shards, pos, n - 1);
    }
  }

  // --- Delivered items --------------------------------------------------------------------------

  /** A delivered item with the shard it came from. */
  type Log = seq<(nat, Item)>

  function Untag(log: Log): (items: seq<Item>)
    ensures |items| == |log| && forall i :: 0 <= i < |log| ==> items[i] == log[i].1
  {
    if log == [] then [] else Untag(log[..|log| - 1]) + [log[|log| - 1].1]
  }

  function Project(log: Log, s: nat): seq<Item> {
    if log == [] then [] else
      Project(log[..|log| - 1], s) + (if log[|log| - 1].0 == s then [log[|log| - 1].1] else [])
  }

  /** `parts` without the last item of part `p`. */
  function DropLast(parts: seq<seq<Item>>, p: nat): seq<seq<Item>>
    requires p < |parts| && parts[p] != []
  {
    parts[p := parts[p][..|parts[p]| - 1]]
  }

  /** `items` takes every element of every part exactly once, and each part in its own order. */
  ghost predicate IsInterleaving(items: seq<Item>, parts: seq<seq<Item>>)
    decreases |items|
  {
    if items == [] then
      forall p :: 0 <= p < |parts| ==> parts[p] == []
    else
      exists p :: 0 <= p < |parts| && parts[p] != [] && parts[p][|parts[p]| - 1] == items[|items| - 1]
                  && IsInterleaving(items[..|items| - 1], DropLast(parts, p))
  }

  function SumLen(parts: seq<seq<Item>>): nat {
    if parts == [] then 0 else SumLen(parts[..|parts| - 1]) + |parts[|parts| - 1]|
  }

  ghost function Union(parts: seq<seq<Item>>): multiset<Item> {
    if parts == [] then multiset{} else Union(parts[..|parts| - 1]) + multiset(parts[|parts| - 1])
  }

  function Projections(log: Log, n: nat): seq<seq<Item>> {
    seq(n, s requires 0 <= s < n => Project(log, s))
  }

  lemma {:induction false} LogInterleaves(log: Log, n: nat)
    requires forall i :: 0 <= i < |log| ==> log[i].0 < n
    ensures IsInterleaving(Untag(log), Projections(log, n))
  {
    if log != [] {
      var init, p := log[..|log| - 1], log[|log| - 1].0;
      LogInterleaves(init, n);
      var parts := Projections(log, n);
      assert parts[p] == Project(init, p) + [log[|log| - 1].1];
      assert forall q :: 0 <= q < n && q != p ==> parts[q] == Project(init, q);
      assert parts[p][..|parts[p]| - 1] == Project(init, p);
      assert DropLast(parts, p) == Projections(init, n);
      assert Untag(log)[..|log| - 1] == Untag(init);
    }
  }

  lemma {:induction false} ShrinkPart(parts: seq<seq<Item>>, p: nat)
    requires p < |parts| && parts[p] != []
    ensures var x := parts[p][|parts[p]| - 1];
            var parts' := DropLast(parts, p);
            Union(parts) == Union(parts') + multiset{x} && SumLen(parts) == SumLen(parts') + 1
  {
    if p == |parts| - 1 {
      ShrinkLast(parts);
    } else {
      ShrinkPart(parts[..|parts| - 1], p);
      hide Union, SumLen;
      ShrinkEarlier(parts, p);
    }
  }

  lemma ShrinkLast(parts: seq<seq<Item>>)
    requires parts != [] && parts[|parts| - 1] != []
    ensures var k := |parts| - 1;
            var x := parts[k][|parts[k]| - 1];
            var parts' := DropLast(parts, k);
            Union(parts) == Union(parts') + multiset{x} && SumLen(parts) == SumLen(parts') + 1
  {
    hide Union, SumLen;
    var k := |parts| - 1;
    var front, last := parts[..k], parts[k];
    var parts' := DropLast(parts, k);
    assert parts'[..k] == front && parts'[k] == last[..|last| - 1];
    UnionSnoc(parts);
    UnionSnoc(parts');
    hide DropLast;
    OneItemLess(last);
    LessInSecond(Union(front), multiset(last[..|last| - 1]), last[|last| - 1]);
    assert Union(parts) == Union(front) + multiset(last);
    assert Union(parts') == Union(front) + multiset(last[..|last| - 1]);
  }

  lemma ShrinkEarlier(parts: seq<seq<Item>>, p: nat)
    requires p < |parts| - 1 && parts[p] != []
    requires var front := parts[..|parts| - 1];
             Union(front) == Union(DropLast(front, p)) + multiset{parts[p][|parts[p]| - 1]}
             && SumLen(front) == SumLen(DropLast(front, p)) + 1
    ensures var parts' := DropLast(parts, p);
            Union(parts) == Union(parts') + multiset{parts[p][|parts[p]| - 1]} && SumLen(parts) == SumLen(parts') + 1
  {
    hide Union, SumLen;
    var k := |parts| - 1;
    var front, last, x := parts[..k], parts[k], parts[p][|parts[p]| - 1];
    var parts' := DropLast(parts, p);
    assert parts'[..k] == DropLast(front, p) && parts'[k] == last;
    UnionSnoc(parts);
    UnionSnoc(parts');
    hide DropLast;
    LessInFirst(Union(DropLast(front, p)), multiset(last), x);
  }

  lemma UnionSnoc(parts: seq<seq<Item>>)
    requires parts != []
    ensures var k := |parts| - 1;
      Union(parts) == Union(parts[..k]) + multiset(parts[k]) && SumLen(parts) == SumLen(parts[..k]) + |parts[k]|
  {
  }

  lemma OneItemLess(part: seq<Item>)
    requires part != []
    ensures multiset(part) == multiset(part[..|part| - 1]) + multiset{part[|part| - 1]}
  {
    assert part == part[..|part| - 1] + [part[|part| - 1]];
  }

  lemma LessInSecond(a: multiset<Item>, b: multiset<Item>, x: Item)
    ensures a + (b + multiset{x}) == a + b + multiset{x}
  {
  }

  lemma LessInFirst(a: multiset<Item>, b: multiset<Item>, x: Item)
    ensures a + multiset{x} + b == a + b + multiset{x}
  {
  }

  lemma {:induction false} EmptyParts(parts: seq<seq<Item>>)
    requires forall p :: 0 <= p < |parts| ==> parts[p] == []
    ensures Union(parts) == multiset{} && SumLen(parts) == 0
  {
    if parts != [] {
      EmptyParts(parts[..|parts| - 1]);
    }
  }

  /** Conservation: an interleaving holds exactly the items of its parts, with multiplicity. */
  lemma {:induction false} InterleavingConserves(items: seq<Item>, parts: seq<seq<Item>>)
    requires IsInterleaving(items, parts)
    ensures multiset(items) == Union(parts) && |items| == SumLen(parts)
    decreases |items|
  {
    hide Union, SumLen;
    if items == [] {
      EmptyParts(parts);
    } else {
      var init, x := items[..|items| - 1], items[|items| - 1];
      var p :| 0 <= p < |parts| && parts[p] != [] && parts[p][|parts[p]| - 1] == x
               && IsInterleaving(init, DropLast(parts, p));
      InterleavingConserves(init, DropLast(parts, p));
      ShrinkPart(parts, p);
      assert items == init + [x];
    }
  }

  lemma {:induction false} SumLenMonotone(a: seq<seq<Item>>, b: seq<seq<Item>>)
    requires |a| == |b| && forall p :: 0 <= p < |a| ==> a[p] <= b[p]
    ensures SumLen(a) <= SumLen(b)
    ensures (exists p :: 0 <= p < |a| && |a[p]| < |b[p]|) ==> SumLen(a) < SumLen(b)
  {
    if a != [] {
      var k := |a| - 1;
      SumLenMonotone(a[..k], b[..k]);
      if p :| 0 <= p < |a| && |a[p]| < |b[p]| {
        if p < k {
          assert |a[..k][p]| < |b[..k][p]|;
        }
      }
    }
  }

  lemma LogSnoc(log: Log, entry: (nat, Item))
    ensures Untag(log + [entry]) == Untag(log) + [entry.1]
    ensures forall p :: Project(log + [entry], p) == Project(log, p) + (if entry.0 == p then [entry.1] else [])
  {
    assert (log + [entry])[..|log|] == log;
  }

  /** The log is as long as its projections together. */
  lemma LogLength(log: Log, n: nat)
    requires forall i :: 0 <= i < |log| ==> log[i].0 < n
    ensures |log| == SumLen(Projections(log, n))
  {
    hide *;
    LogInterleaves(log, n);
    InterleavingConserves(Untag(log), Projections(log, n));
  }

  ghost predicate ProjectsInto(log: Log, parts: seq<seq<Item>>) {
    && (forall i :: 0 <= i < |log| ==> log[i].0 < |parts|)
    && (forall p :: 0 <= p < |parts| ==> Project(log, p) <= parts[p])
  }

  lemma LogFits(log: Log, parts: seq<seq<Item>>)
    requires ProjectsInto(log, parts)
    ensures |log| <= SumLen(parts)
    ensures |log| < SumLen(parts) || Projections(log, |parts|) == parts
  {
    hide SumLen, Project;
    LogLength(log, |parts|);
    SumLenMonotone(Projections(log, |parts|), parts);
    if |log| == SumLen(parts) {
      forall p | 0 <= p < |parts| ensures Project(log, p) == parts[p] {
        assert !(|Projections(log, |parts|)[p]| < |parts[p]|);
      }
    }
  }

  /** A log whose projections are prefixes of the parts extends to an interleaving of the parts. */
  lemma {:induction false} Complete(log: Log, parts: seq<seq<Item>>) returns (full: seq<Item>)
    requires ProjectsInto(log, parts)
    ensures IsInterleaving(full, parts) && Untag(log) <= full
    decreases SumLen(parts) - |log|
  {
    hide SumLen, Project, IsInterleaving, Untag;
    LogFits(log, parts);
    if Projections(log, |parts|) == parts {
      LogInterleaves(log, |parts|);
      full := Untag(log);
    } else {
      var p :| 0 <= p < |parts| && Project(log, p) != parts[p];
      var next := (p, parts[p][|Project(log, p)|]);
      LogSnoc(log, next);
      LogFits(log + [next], parts);
      full := Complete(log + [next], parts);
    }
  }

  lemma FlatSnoc(replies: seq<Reply>, n: nat)
    requires n < |replies|
    ensures Flat(replies[..n + 1]) == Flat(replies[..n]) + (if replies[n].Page? then replies[n].items else [])
  {
    assert replies[..n + 1][..n] == replies[..n];
  }

  lemma {:induction false} FlatPrefix(replies: seq<Reply>, m: nat, n: nat)
    requires m <= n <= |replies|
    ensures Flat(replies[..m]) <= Flat(replies[..n])
    decreases n - m
  {
    if m < n {
      FlatPrefix(replies, m, n - 1);
      FlatSnoc(replies, n - 1);
    }
  }

  // --- The invariant of a run that has met no error ----------------------------------------------

  /** Requests: each unfinished shard is owed exactly one answer, for its next page. */
  ghost predicate Protocol(shards: seq<Shard>, pos: Positions, outstanding: multiset<GetItemsInput>, lastShards: nat)
    requires InRange(shards, pos)
  {
    && OnePerUnfinished(shards, pos, outstanding)
    && lastShards == Finished(shards, pos, |shards|)
    && (forall s :: 0 <= s < |shards| && pos[s] == LiveLen(shards[s]) ==> !EndsBad(shards[s]))
    && (forall s :: 0 <= s < |shards| && pos[s] < LiveLen(shards[s]) ==> !shards[s][pos[s]].Refused?)
  }

  /** Items: what was delivered from a shard, and what is still to be, is what its replies held. */
  ghost predicate Delivery(shards: seq<Shard>, pos: Positions, delivered: Log, rest: seq<Item>, lane: nat)
    requires InRange(shards, pos)
  {
    && (rest != [] ==> lane < |shards|)
    && (forall i :: 0 <= i < |delivered| ==> delivered[i].0 < |shards|)
    && (forall s :: 0 <= s < |shards| ==>
          Project(delivered, s) + (if s == lane then rest else []) == Flat(shards[s][..pos[s]]))
  }

  ghost predicate Inv(
      shards: seq<Shard>, pos: Positions, outstanding: multiset<GetItemsInput>, lastShards: nat,
      delivered: Log, rest: seq<Item>, lane: nat)
  {
    && InRange(shards, pos)
    && Protocol(shards, pos, outstanding, lastShards)
    && Delivery(shards, pos, delivered, rest, lane)
  }

  /** A cursor with unfinished shards that receives from the channel is owed a response. */
  lemma ReceiveIsOwed(shards: seq<Shard>, pos: Positions, outstanding: multiset<GetItemsInput>, lastShards: nat)
    requires InRange(shards, pos) && Protocol(shards, pos, outstanding, lastShards)
    ensures |outstanding| == |shards| - lastShards
    ensures Askable(shards, outstanding)
  {
    OutstandingCount(shards, pos, outstanding, |shards|);
  }

  /** All of these requests are for pages that exist and can be asked for. */
  ghost predicate Askable(shards: seq<Shard>, outstanding: multiset<GetItemsInput>) {
    forall r :: r in outstanding ==>
      r.segment < |shards| && r.marker < |shards[r.segment]| && !shards[r.segment][r.marker].Refused?
  }

  lemma WhenFinished(shards: seq<Shard>, pos: Positions, outstanding: multiset<GetItemsInput>, lastShards: nat)
    requires InRange(shards, pos) && Protocol(shards, pos, outstanding, lastShards)
    ensures lastShards <= |shards|
    ensures lastShards == |shards| <==> forall s :: 0 <= s < |shards| ==> pos[s] == LiveLen(shards[s])
  {
    AllFinished(shards, pos, |shards|);
  }

  /** The answer to an outstanding request, and the next request of its shard, keep the protocol. */
  lemma AnswerKeepsProtocol(shards: seq<Shard>, pos: Positions, outstanding: multiset<GetItemsInput>, lastShards: nat, s: nat)
    requires InRange(shards, pos) && Protocol(shards, pos, outstanding, lastShards)
    requires s < |shards| && pos[s] < LiveLen(shards[s]) && !Bad(shards[s][pos[s]])
    ensures InRange(shards, Bump(pos, s))
    ensures Budget(shards, Bump(pos, s), |shards|) < Budget(shards, pos, |shards|)
    ensures var left := outstanding - multiset{GetItemsInput(s, pos[s])};
            if !HasMore(shards[s], pos[s]) then
              Protocol(shards, Bump(pos, s), left, lastShards + 1)
            else if shards[s][pos[s] + 1].Refused? then
              EndsBad(shards[s])
            else
              Protocol(shards, Bump(pos, s), left + multiset{GetItemsInput(s, pos[s] + 1)}, lastShards)
  {
    AdvanceCounts(shards, pos, s, |shards|);
    ReplyEndsShard(shards[s], pos[s]);
    if HasMore(shards[s], pos[s]) {
      ReplyEndsShard(shards[s], pos[s] + 1);
    }
  }

  lemma AnswerKeepsDelivery(shards: seq<Shard>, pos: Positions, delivered: Log, lane: nat, s: nat)
    requires InRange(shards, pos) && Delivery(shards, pos, delivered, [], lane)
    requires s < |shards| && pos[s] < LiveLen(shards[s]) && InRange(shards, Bump(pos, s))
    ensures Delivery(shards, Bump(pos, s), delivered, ItemsOf(shards[s][pos[s]]), s)
  {
    FlatSnoc(shards[s], pos[s]);
  }

  function ItemsOf(reply: Reply): seq<Item> {
    if reply.Page? then reply.items else []
  }

  /** What holds after the answer to `r`: `left` is outstanding, and the page after `r`'s not yet asked for. */
  ghost predicate Answered(
      shards: seq<Shard>, pos: Positions, left: multiset<GetItemsInput>, lastShards: nat,
      delivered: Log, r: GetItemsInput, budget: nat)
  {
    && |pos| == |shards| && r.segment < |shards| && r.marker < |shards[r.segment]|
    && var shard, reply, next := shards[r.segment], shards[r.segment][r.marker], r.(marker := r.marker + 1);
    && !reply.Refused? && PagesUpTo(shard, r.marker)
    && (Bad(reply) ==> EndsBad(shard))
    && (!Bad(reply) ==> Budget(shards, pos, |shards|) < budget)
    && (!Bad(reply) && !HasMore(shard, r.marker) ==>
          Inv(shards, pos, left, lastShards + 1, delivered, ItemsOf(reply), r.segment))
    && (HasMore(shard, r.marker) ==>
          if shard[next.marker].Refused? then
            EndsBad(shard)
          else
            Inv(shards, pos, left + multiset{next}, lastShards, delivered, ItemsOf(reply), r.segment))
  }

  lemma AnswerStep(
      shards: seq<Shard>, pos: Positions, outstanding: multiset<GetItemsInput>, lastShards: nat,
      delivered: Log, lane: nat, r: GetItemsInput, left: multiset<GetItemsInput>)
    requires Inv(shards, pos, outstanding, lastShards, delivered, [], lane)
    requires r in outstanding && left == outstanding - multiset{r}
    ensures r.segment < |shards| == |pos|
    ensures Answered(shards, Bump(pos, r.segment), left, lastShards, delivered, r, Budget(shards, pos, |shards|))
  {
    var s := r.segment;
    assert IsNext(shards, pos, r);
    ReplyEndsShard(shards[s], pos[s]);
    LiveLenStops(shards[s]);
    if !Bad(shards[s][pos[s]]) {
      AnswerKeepsProtocol(shards, pos, outstanding, lastShards, s);
      AnswerKeepsDelivery(shards, pos, delivered, lane, s);
    }
  }

  lemma DeliveryTake(shards: seq<Shard>, pos: Positions, delivered: Log, rest: seq<Item>, lane: nat)
    requires InRange(shards, pos) && Delivery(shards, pos, delivered, rest, lane) && rest != []
    ensures Delivery(shards, pos, delivered + [(lane, rest[0])], rest[1..], lane)
  {
    assert (delivered + [(lane, rest[0])])[..|delivered|] == delivered;
    assert rest == [rest[0]] + rest[1..];
  }

  /** Nothing beyond what the shards hold is ever delivered. */
  lemma DeliveredFits(shards: seq<Shard>, pos: Positions, delivered: Log, rest: seq<Item>, lane: nat)
    requires InRange(shards, pos) && Delivery(shards, pos, delivered, rest, lane)
    ensures ProjectsInto(delivered, AllExpected(shards))
    ensures |delivered| <= SumLen(AllExpected(shards))
    ensures rest != [] ==> |delivered| < SumLen(AllExpected(shards))
  {
    hide SumLen, Project, Flat, LiveLen;
    var all := AllExpected(shards);
    forall s | 0 <= s < |shards| ensures Project(delivered, s) <= all[s] {
      FlatPrefix(shards[s], pos[s], LiveLen(shards[s]));
    }
    LogFits(delivered, all);
    if rest != [] {
      FlatPrefix(shards[lane], pos[lane], LiveLen(shards[lane]));
      assert |Project(delivered, lane)| < |all[lane]|;
      assert Projections(delivered, |all|)[lane] != all[lane];
    }
  }

  /** A cursor that has finished all its shards and holds nothing back delivered an interleaving of them. */
  lemma DrainedIsComplete(
      shards: seq<Shard>, pos: Positions, outstanding: multiset<GetItemsInput>, lastShards: nat, delivered: Log, lane: nat)
    requires InRange(shards, pos) && Protocol(shards, pos, outstanding, lastShards)
    requires Delivery(shards, pos, delivered, [], lane)
    requires forall s :: 0 <= s < |shards| ==> pos[s] == LiveLen(shards[s])
    ensures IsInterleaving(Untag(delivered), AllExpected(shards))
    ensures |delivered| == SumLen(AllExpected(shards))
    ensures forall s :: 0 <= s < |shards| ==> !EndsBad(shards[s])
  {
    hide SumLen, Project, Flat, LiveLen, IsInterleaving, EndsBad, OnePerUnfinished, Finished;
    var parts, all := Projections(delivered, |shards|), AllExpected(shards);
    forall s | 0 <= s < |shards| ensures parts[s] == all[s] {
      assert Project(delivered, s) + [] == Flat(shards[s][..pos[s]]);
    }
    assert parts == all;
    LogInterleaves(delivered, |shards|);
    LogLength(delivered, |shards|);
  }

  // --- The connection ---------------------------------------------------------------------------

  /** The store together with the requests in flight and the response channel. */
  class Container {
    const shards: seq<Shard>
    var inFlight: seq<GetItemsInput>
    var answered: seq<GetItemsInput>   // the channel: each entry stands for the response to it

    constructor (shards: seq<Shard>)
      ensures this.shards == shards && Outstanding() == multiset{}
    {
      this.shards := shards;
      inFlight, answered := [], [];
    }

    ghost function Outstanding(): multiset<GetItemsInput>
      reads this
    {
      multiset(inFlight) + multiset(answered)
    }

    predicate Exists(input: GetItemsInput) {
      input.segment < |shards| && input.marker < |shards[input.segment]|
    }

    function Answer(input: GetItemsInput): Response
      requires Exists(input)
    {
      var shard := shards[input.segment];
      Response(input, shard[input.marker], input.marker == |shard| - 1, input.marker + 1)
    }

    /** Submits a page request; its response will arrive on the channel at some later time. */
    method GetItems(input: GetItemsInput) returns (ok: bool)
      requires Exists(input)
      modifies this
      ensures ok == !shards[input.segment][input.marker].Refused?
      ensures Outstanding() == if ok then old(Outstanding()) + multiset{input} else old(Outstanding())
    {
      ok := !shards[input.segment][input.marker].Refused?;
      if ok {
        inFlight := inFlight + [input];
      }
    }

    /** Any request in flight may be the next to be answered. */
    method Arrive()
      requires inFlight != []
      modifies this
      ensures Outstanding() == old(Outstanding()) && |inFlight| == |old(inFlight)| - 1
      ensures answered != []
    {
      var i: nat :| i < |inFlight|;
      ghost var was := inFlight;
      answered := answered + [inFlight[i]];
      inFlight := inFlight[..i] + inFlight[i + 1..];
      assert was == was[..i] + [was[i]] + was[i + 1..];
    }

    /** Receives from the channel. With nothing outstanding this would block for ever. */
    method Receive() returns (resp: Response)
      requires |Outstanding()| > 0 && Askable(shards, Outstanding())
      modifies this
      ensures resp.context in old(Outstanding()) && Exists(resp.context) && resp == Answer(resp.context)
      ensures Outstanding() == old(Outstanding()) - multiset{resp.context}
    {
      var more: bool := *;
      while inFlight != [] && (answered == [] || more)
        invariant Outstanding() == old(Outstanding())
        decreases |inFlight|
      {
        Arrive();
        more := *;
      }
      ghost var was := answered;
      assert answered[0] in Outstanding();
      resp := Answer(answered[0]);
      answered := answered[1..];
      assert was == [was[0]] + was[1..];
    }
  }

  // --- The cursor -------------------------------------------------------------------------------

  class AsyncItemsCursor {
    const container: Container
    const workers: nat
    const limit: int
    var currentItem: Item
    var currentError: Option<Failure>
    var items: seq<Item>
    var itemIndex: nat
    var lastShards: nat
    var cnt: nat

    ghost var pos: Positions    // replies received from each shard
    ghost var lane: nat         // the shard that `items` came from
    ghost var delivered: Log

    ghost predicate Valid()
      reads this, container
    {
      && workers == |container.shards|
      && |pos| == workers
      && itemIndex <= |items|
      && Inv(container.shards, pos, container.Outstanding(), lastShards, delivered, items[itemIndex..], lane)
      && cnt == |delivered|
      && (limit > 0 ==> cnt <= limit + 1)
    }

    /** Every shard is finished and every item that was received has been delivered. */
    ghost predicate Drained()
      requires Valid()
      reads this, container
    {
      && itemIndex == |items|
      && forall s :: 0 <= s < workers ==> pos[s] == LiveLen(container.shards[s])
    }

    ghost predicate LimitReached()
      reads this
    {
      limit > 0 && cnt == limit + 1 && itemIndex < |items|
    }

    ghost predicate SomeShardFails()
      reads this, container
    {
      exists s :: 0 <= s < |container.shards| && Fails(container.shards[s])
    }

    /** Some shard fails with this error. */
    ghost predicate SomeShardFailsAs(failure: Failure) {
      exists s :: 0 <= s < |container.shards| && FailsAs(container.shards[s], failure)
    }

    lemma FailsAsIsFailing(failure: Failure)
      requires SomeShardFailsAs(failure)
      ensures SomeShardFails()
    {
      var s :| 0 <= s < |container.shards| && FailsAs(container.shards[s], failure);
      assert Fails(container.shards[s]);
    }

    constructor Empty(container: Container, workers: nat, limit: int)
      ensures this.container == container && this.workers == workers && this.limit == limit
      ensures currentError == None && items == [] && itemIndex == 0 && lastShards == 0 && cnt == 0
      ensures delivered == [] && pos == seq(workers, _ => 0)
    {
      this.container, this.workers, this.limit := container, workers, limit;
      currentItem, currentError := map[], None;
      items, itemIndex, lastShards, cnt := [], 0, 0, 0;
      pos, lane, delivered := seq(workers, _ => 0), 0, [];
    }

    /** Waits for a response; the channel is always owed one here. */
    method AwaitResponse() returns (resp: Response)
      requires Valid() && itemIndex == |items| && lastShards < workers
      modifies container, `pos, `lane
      ensures resp.context.segment < |container.shards| && container.Exists(resp.context)
      ensures resp == container.Answer(resp.context) && lane == resp.context.segment
      ensures Answered(container.shards, pos, container.Outstanding(), lastShards, delivered, resp.context,
                       old(Budget(container.shards, pos, workers)))
    {
      ReceiveIsOwed(container.shards, pos, container.Outstanding(), lastShards);
      assert items[itemIndex..] == [];
      hide Inv, Answered, Askable, Budget, InRange, LiveLen, Container.Outstanding, Protocol, Delivery;
      ghost var outstanding := container.Outstanding();
      resp := container.Receive();
      AnswerStep(container.shards, pos, outstanding, lastShards, delivered, lane, resp.context, container.Outstanding());
      pos, lane := Bump(pos, resp.context.segment), resp.context.segment;
    }

    /** The part of `NextItem` between waiting for a response and recursing. */
    method ReceiveResponse() returns (r: Result<(), Failure>)
      requires Valid() && itemIndex == |items| && lastShards < workers
      modifies container, `items, `itemIndex, `lastShards, `pos, `lane
      ensures r.Failure? ==> SomeShardFailsAs(r.error)
      ensures r.Success? ==> Valid() && Budget(container.shards, pos, workers) < old(Budget(container.shards, pos, workers))
    {
      hide Inv, Askable, Budget, EndsBad, FailsAs, InRange, LiveLen, Container.Outstanding, Drained, Protocol, Delivery;
      assert items[itemIndex..] == [];
      var resp := AwaitResponse();
      ghost var shard, k := container.shards[resp.context.segment], resp.context.marker;

      if Is404(resp.reply) {
        lastShards := lastShards + 1;
        return Success(());
      }
      if resp.reply.Error? {
        OneWayToFail(shard, k, ResponseError(resp.reply.status));
        return Failure(ResponseError(resp.reply.status));
      }

      items := resp.reply.items;
      itemIndex := 0;
      assert items[itemIndex..] == items;

      if !resp.last {
        var input := resp.context.(marker := resp.nextMarker);
        var ok := container.GetItems(input);
        if !ok {
          OneWayToFail(shard, k + 1, RequestRefused);
          return Failure(RequestRefused);
        }
      } else {
        lastShards := lastShards + 1;
      }
      return Success(());
    }

    /** `NextItem`: its recursion is bounded by the replies still to come. */
    method NextItem() returns (r: Result<Option<Item>, Failure>)
      requires Valid()
      modifies this, container
      ensures r.Failure? ==> SomeShardFailsAs(r.error)
      ensures r.Success? ==> Valid() && currentError == None
      ensures r.Success? && r.value.Some? ==>
                currentItem == r.value.value && delivered == old(delivered) + [(lane, currentItem)]
      ensures r.Success? && r.value.None? ==> delivered == old(delivered) && (Drained() || LimitReached())
      decreases Budget(container.shards, pos, workers)
    {
      hide Protocol, Delivery, LiveLen, Budget;
      if itemIndex < |items| {
        if limit > 0 && cnt > limit {
          currentError := None;
          return Success(None);
        }
        DeliveryTake(container.shards, pos, delivered, items[itemIndex..], lane);
        currentItem := items[itemIndex];
        currentError := None;
        delivered := delivered + [(lane, currentItem)];
        itemIndex := itemIndex + 1;
        cnt := cnt + 1;
        return Success(Some(currentItem));
      }

      WhenFinished(container.shards, pos, container.Outstanding(), lastShards);
      if lastShards == workers {
        currentError := None;
        return Success(None);
      }

      var received := ReceiveResponse();
      if received.Failure? {
        return Failure(received.error);
      }
      r := NextItem();
    }

    /** What a cursor has delivered never exceeds what its shards hold, and once drained is all of it. */
    lemma DeliveredSoFar()
      requires Valid()
      ensures |delivered| <= SumLen(AllExpected(container.shards))
      ensures Drained() ==>
                && IsInterleaving(Untag(delivered), AllExpected(container.shards))
                && |delivered| == SumLen(AllExpected(container.shards)) && !SomeShardFails()
    {
      hide Protocol, Delivery, LiveLen, Expected, Flat, Project, IsInterleaving, SumLen, EndsBad, Fails;
      DeliveredFits(container.shards, pos, delivered, items[itemIndex..], lane);
      if Drained() {
        assert items[itemIndex..] == [];
        DrainedIsComplete(container.shards, pos, container.Outstanding(), lastShards, delivered, lane);
        forall s | 0 <= s < |container.shards| ensures !Fails(container.shards[s]) {
          FailsIff(container.shards[s]);
        }
      }
    }

    /** The item delivered last is one that its shard holds. */
    lemma LastDelivered()
      requires Valid() && delivered != []
      ensures var (s, item) := delivered[|delivered| - 1];
        s < |container.shards| && exists i :: 0 <= i < |Expected(container.shards[s])| && Expected(container.shards[s])[i] == item
    {
      hide Protocol, Delivery, LiveLen, Expected, Flat, SumLen, Fails;
      DeliveredFits(container.shards, pos, delivered, items[itemIndex..], lane);
      var (s, item) := delivered[|delivered| - 1];
      var all, part := AllExpected(container.shards), Project(delivered, s);
      assert part[|part| - 1] == item && part <= all[s];
      assert all[s][|part| - 1] == item;
    }

    /** `Next`. */
    method Next() returns (ok: bool)
      requires Valid()
      modifies this, container
      ensures currentError.Some? ==> !ok && SomeShardFailsAs(currentError.value) && SomeShardFails()
      ensures currentError.None? ==> Valid()
      ensures ok ==> delivered == old(delivered) + [(lane, currentItem)]
      ensures !ok && currentError.None? ==> delivered == old(delivered) && (Drained() || LimitReached())
    {
      var r := NextItem();
      if r.Failure? {
        FailsAsIsFailing(r.error);
        currentError := Some(r.error);
        return false;
      }
      if r.value.None? {
        currentError := None;
        return false;
      }
      return true;
    }

    /** `All`: it ends, fails exactly when a shard does (no limit), and otherwise loses and repeats nothing. */
    method All() returns (r: Result<seq<Item>, Failure>)
      requires Valid() && delivered == []
      modifies this, container
      ensures r.Failure? ==> SomeShardFailsAs(r.error)
      ensures limit <= 0 ==> (r.Failure? <==> exists s :: 0 <= s < |container.shards| && Fails(container.shards[s]))
      ensures r.Success? && limit <= 0 ==> IsInterleaving(r.value, AllExpected(container.shards))
      ensures r.Success? && limit > 0 ==>
                && |r.value| == Min(SumLen(AllExpected(container.shards)), limit + 1)
                && exists full :: IsInterleaving(full, AllExpected(container.shards)) && r.value <= full
    {
      hide Protocol, Delivery, LiveLen, Expected, Flat, Project, IsInterleaving, SumLen, EndsBad, Fails;
      var all := [];
      var ok := Next();
      while ok
        invariant currentError.Some? ==> !ok && SomeShardFailsAs(currentError.value) && SomeShardFails()
        invariant currentError.None? ==> Valid()
        invariant ok ==> currentError.None?
        invariant currentError.None? ==>
                    && |delivered| == |all| + (if ok then 1 else 0)
                    && Untag(delivered) == all + (if ok then [currentItem] else [])
                    && (ok || Drained() || LimitReached())
        decreases SumLen(AllExpected(container.shards)) - |all|, ok
      {
        all := all + [currentItem];
        DeliveredFits(container.shards, pos, delivered, items[itemIndex..], lane);
        ghost var was := delivered;
        ok := Next();
        if ok {
          LogSnoc(was, (lane, currentItem));
          DeliveredFits(container.shards, pos, delivered, items[itemIndex..], lane);
        }
      }
      if currentError.Some? {
        return Failure(currentError.value);
      }
      DeliveredSoFar();
      DeliveredFits(container.shards, pos, delivered, items[itemIndex..], lane);
      assert all + [] == all;
      ghost var full := Complete(delivered, AllExpected(container.shards));
      return Success(all);
    }
  }

  /** How many shards (segments or sharding keys) a cursor reads. */
  function Lanes(workers: nat, oneShardingKey: bool, shardingKeys: nat): nat {
    if shardingKeys > 0 then shardingKeys else if workers == 0 || oneShardingKey then 1 else workers
  }

  /** `NewAsyncItemsCursor`: the container's shards are what each of the lanes selects. */
  method NewAsyncItemsCursor(container: Container, workers: nat, oneShardingKey: bool, shardingKeys: nat, limit: int)
    returns (r: Result<AsyncItemsCursor, Failure>)
    requires container.Outstanding() == multiset{}
    requires |container.shards| == Lanes(workers, oneShardingKey, shardingKeys)
    modifies container
    ensures r.Failure? <==> exists s :: 0 <= s < |container.shards| && container.shards[s][0].Refused?
    ensures r.Success? ==>
              && fresh(r.value) && r.value.container == container && r.value.limit == limit
              && r.value.Valid() && r.value.delivered == [] && r.value.currentError == None
    ensures r.Success? ==>
              r.value.workers == if shardingKeys > 0 then shardingKeys else if workers == 0 || oneShardingKey then 1 else workers
  {
    var lanes := Lanes(workers, oneShardingKey, shardingKeys);
    var cursor := new AsyncItemsCursor.Empty(container, lanes, limit);
    for i := 0 to lanes
      invariant cursor.pos == seq(lanes, _ => 0) && cursor.delivered == [] && cursor.cnt == 0
      invariant cursor.items == [] && cursor.itemIndex == 0 && cursor.lastShards == 0 && cursor.currentError == None
      invariant forall s :: 0 <= s < i ==> !container.shards[s][0].Refused?
      invariant forall q :: container.Outstanding()[q] == if q.segment < i && q.marker == 0 then 1 else 0
    {
      var ok := container.GetItems(GetItemsInput(i, 0));
      if !ok {
        return Failure(RequestRefused);
      }
    }
    NothingFinished(container.shards, cursor.pos, lanes);
    return Success(cursor);
  }
}
