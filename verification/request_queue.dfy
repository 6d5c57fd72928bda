/** `RequestQueue`: a window over the outcomes of the most recent find
    requests (at most one day of them, one per minute), with a running count
    of the requests that found nothing. The queue wraps the latest server and
    never changes it. */
module Requests {
  import opened Index
  import opened LatestServer

  /** `min_in_day_`: the capacity of the window. */
  const MIN_IN_DAY: nat := 1440

  /** The number of outcomes that were empty results. */
  function CountEmpty(outcomes: seq<bool>): (r: nat)
    ensures r <= |outcomes|
    ensures r == 0 <==> forall i :: 0 <= i < |outcomes| ==> !outcomes[i]
  {
    if outcomes == [] then 0 else (if outcomes[0] then 1 else 0) + CountEmpty(outcomes[1..])
  }

  lemma {:induction false} CountEmptyAppend(a: seq<bool>, b: seq<bool>)
    ensures CountEmpty(a + b) == CountEmpty(a) + CountEmpty(b)
    decreases |a|
  {
    if a == [] {
      assert a + b == b;
    } else {
      assert (a + b)[0] == a[0] && (a + b)[1..] == a[1..] + b;
      CountEmptyAppend(a[1..], b);
    }
  }

  /** Evicting the oldest outcome (the last one) subtracts it from the count. */
  lemma CountEmptyLast(s: seq<bool>)
    requires s != []
    ensures CountEmpty(s) == CountEmpty(s[..|s| - 1]) + (if s[|s| - 1] then 1 else 0)
  {
    assert s == s[..|s| - 1] + [s[|s| - 1]];
    CountEmptyAppend(s[..|s| - 1], [s[|s| - 1]]);
  }

  /** `n` requests that all found nothing count `n`. */
  lemma {:induction false} CountEmptyAll(n: nat)
    ensures CountEmpty(seq(n, i => true)) == n
  {
    if n > 0 {
      assert seq(n, i => true)[1..] == seq(n - 1, i => true);
      CountEmptyAll(n - 1);
    }
  }

  /** The outcomes still in the window: the newest `MIN_IN_DAY` of a history
      kept newest first. */
  function Recent(history: seq<bool>): seq<bool>
  {
    if |history| <= MIN_IN_DAY then history else history[..MIN_IN_DAY]
  }

  class RequestQueue {
    const server: SearchServer
    /** `requests_`: the outcomes in the window, newest first; `true` for a
        request that found nothing. */
    var requests: seq<bool>
    var emptyCounter: int
    /** Every outcome recorded so far, newest first. */
    ghost var history: seq<bool>

    ghost predicate Valid()
      reads this
    {
      && requests == Recent(history)
      && emptyCounter == CountEmpty(requests)
    }

    constructor(server: SearchServer)
      ensures Valid()
      ensures this.server == server
      ensures history == [] && requests == [] && emptyCounter == 0
    {
      this.server := server;
      requests := [];
      emptyCounter := 0;
      history := [];
    }

    /** `ChangeStateDeque`: record one outcome at the front and evict the
        oldest once the window holds more than a day. */
    method ChangeStateDeque(matched: seq<Document>)
      requires Valid()
      modifies this
      ensures Valid()
      ensures history == [matched == []] + old(history)
      ensures |requests| <= MIN_IN_DAY
    {
      var isEmpty := matched == [];
      emptyCounter := emptyCounter + (if isEmpty then 1 else 0);
      requests := [isEmpty] + requests;
      history := [isEmpty] + history;
      assert emptyCounter == CountEmpty(requests);
      if |requests| >= MIN_IN_DAY + 1 {
        CountEmptyLast(requests);
        emptyCounter := emptyCounter - (if requests[|requests| - 1] then 1 else 0);
        requests := requests[..|requests| - 1];
        assert requests == history[..MIN_IN_DAY];
      }
    }

    /** `AddFindRequest(raw_query, status)`: the server's answer, recorded
        in the window when the server returns one. */
    method AddFindRequestByStatus(rawQuery: string, status: DocumentStatus, idf: Ranking.Idf)
      returns (r: Result<seq<Document>>)
      requires Valid()
      modifies this
      ensures Valid() && unchanged(server)
      ensures r == server.TopDocuments(rawQuery, StatusFilter(status), idf)
      ensures r.Failure? ==> history == old(history) && requests == old(requests) && emptyCounter == old(emptyCounter)
      ensures r.Success? ==> history == [r.value == []] + old(history)
    {
      r := server.FindTopDocumentsByStatus(rawQuery, status, idf);
      if r.Success? {
        ChangeStateDeque(r.value);
      }
    }

    /** `AddFindRequest(raw_query)`: as above, for actual documents. */
    method AddFindRequest(rawQuery: string, idf: Ranking.Idf) returns (r: Result<seq<Document>>)
      requires Valid()
      modifies this
      ensures Valid() && unchanged(server)
      ensures r == server.TopDocuments(rawQuery, StatusFilter(Actual), idf)
      ensures r.Failure? ==> history == old(history) && requests == old(requests) && emptyCounter == old(emptyCounter)
      ensures r.Success? ==> history == [r.value == []] + old(history)
    {
      r := server.FindActualDocuments(rawQuery, idf);
      if r.Success? {
        ChangeStateDeque(r.value);
      }
    }

    /** `GetNoResultRequests`: how many of the requests of the last day
        found nothing. */
    function GetNoResultRequests(): (r: int)
      requires Valid()
      reads this
      ensures r == CountEmpty(Recent(history))
      ensures 0 <= r <= MIN_IN_DAY
    {
      emptyCounter
    }
  }

  /** A day of requests that found nothing followed by three that found
      something: the three oldest empty outcomes have left the window. */
  lemma DayThenThree()
    ensures CountEmpty(Recent([false, false, false] + seq(MIN_IN_DAY, i => true))) == MIN_IN_DAY - 3
  {
    var history := [false, false, false] + seq(MIN_IN_DAY, i => true);
    assert Recent(history) == [false, false, false] + seq(MIN_IN_DAY - 3, i => true);
    CountEmptyAppend([false, false, false], seq(MIN_IN_DAY - 3, i => true));
    CountEmptyAll(MIN_IN_DAY - 3);
  }

  /** The same scenario run through a queue: 1440 empty results, then 3
      non-empty ones, leave 1437 requests without results in the window. */
  method DayOfRequests(server: SearchServer, found: Document) returns (count: int)
    ensures count == MIN_IN_DAY - 3
  {
    var queue := new RequestQueue(server);
    var i := 0;
    while i < MIN_IN_DAY
      invariant 0 <= i <= MIN_IN_DAY
      invariant queue.Valid() && queue.history == seq(i, j => true)
    {
      queue.ChangeStateDeque([]);
      i := i + 1;
    }
    i := 0;
    while i < 3
      invariant 0 <= i <= 3
      invariant queue.Valid() && queue.history == seq(i, j => false) + seq(MIN_IN_DAY, j => true)
    {
      queue.ChangeStateDeque([found]);
      i := i + 1;
    }
    assert seq(3, j => false) == [false, false, false];
    DayThenThree();
    count := queue.GetNoResultRequests();
  }
}
