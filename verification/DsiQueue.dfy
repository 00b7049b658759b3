/**
  The DSI request queue of one connection (dsi.c): 16-bit request ids that wrap,
  and replies matched to requests by id. A request's number counts the headers
  issued on the connection; its id is that number modulo 65536.
 */
module DsiQueue {
  const ID_COUNT: nat := 0x10000

  function Id(number: nat): (id: nat) {
    number % ID_COUNT
  }

  /** Requests in send order. */
  ghost predicate Increasing(q: seq<nat>) {
    forall i, j :: 0 <= i < j < |q| ==> q[i] < q[j]
  }

  ghost predicate Within(q: seq<nat>, lo: nat, hi: nat) {
    forall i :: 0 <= i < |q| ==> lo <= q[i] <= hi
  }

  ghost predicate DistinctIds(q: seq<nat>) {
    forall i, j :: 0 <= i < j < |q| ==> Id(q[i]) != Id(q[j])
  }

  /** dsi_find_request: the position of the first request with this id, or |q|. */
  function Find(q: seq<nat>, id: nat): (i: nat)
    ensures i <= |q|
    ensures i < |q| ==> Id(q[i]) == id
    ensures forall j :: 0 <= j < i ==> Id(q[j]) != id
  {
    if q == [] || Id(q[0]) == id then 0 else 1 + Find(q[1..], id)
  }

  lemma CloseIdsDiffer(a: nat, b: nat)
    requires a < b < a + ID_COUNT
    ensures Id(a) != Id(b)
  {
  }

  /**
    Ids of queued requests are pairwise distinct across wrap-around, whatever
    is queued, if and only if fewer than 65536 headers were issued since the oldest.
   */
  lemma WindowIff(lo: nat, hi: nat)
    requires lo <= hi
    ensures (forall q :: Increasing(q) && Within(q, lo, hi) ==> DistinctIds(q)) <==> hi - lo < ID_COUNT
  {
    if hi - lo < ID_COUNT {
      forall q | Increasing(q) && Within(q, lo, hi) ensures DistinctIds(q) {
        forall i, j | 0 <= i < j < |q| ensures Id(q[i]) != Id(q[j]) {
          CloseIdsDiffer(q[i], q[j]);
        }
      }
    } else {
      var q := [lo, lo + ID_COUNT];
      assert Increasing(q) && Within(q, lo, hi);
      assert Id(q[0]) == Id(q[1]);
    }
  }

  /**
    A reply to request `number`, issued fewer than 65536 headers ago, reaches
    that request if it is still queued and nobody otherwise.
   */
  lemma ReplyReachesItsRequest(q: seq<nat>, issued: nat, number: nat)
    requires Increasing(q) && Within(q, if q == [] then 0 else q[0], issued)
    requires q != [] ==> issued - q[0] < ID_COUNT
    requires number <= issued && issued - number < ID_COUNT
    ensures var i := Find(q, Id(number));
            if number in q then i < |q| && q[i] == number else i == |q|
  {
    forall j | 0 <= j < |q| && Id(q[j]) == Id(number) ensures q[j] == number {
      if q[j] < number {
        CloseIdsDiffer(q[j], number);
      } else if number < q[j] {
        CloseIdsDiffer(number, q[j]);
      }
    }
  }

  /** Outside the window a late reply is handed to a younger request with the same id. */
  lemma LateReplyGoesAstray(number: nat)
    ensures var q := [number + ID_COUNT];
            Find(q, Id(number)) == 0 && q[0] != number
  {
  }

  // ----- the connection object -----

  class Request {
    const requestid: nat
    const subcommand: nat
    ghost const number: nat
    var wait: int
    var doneWaiting: bool
    var returnCode: int

    constructor (requestid: nat, subcommand: nat, wait: int, ghost number: nat)
      ensures this.requestid == requestid && this.subcommand == subcommand && this.number == number
      ensures this.wait == wait && !doneWaiting && returnCode == 0
    {
      this.requestid := requestid;
      this.subcommand := subcommand;
      this.number := number;
      this.wait := wait;
      doneWaiting := false;
      returnCode := 0;
    }
  }

  ghost function NumbersOf(rs: seq<Request>): (q: seq<nat>) {
    seq(|rs|, i requires 0 <= i < |rs| => rs[i].number)
  }

  /** Unlinking one request keeps the rest in send order, and the request was linked only once. */
  lemma Unlink(rs: seq<Request>, p: nat)
    requires p < |rs| && Increasing(NumbersOf(rs))
    ensures var left := rs[..p] + rs[p + 1..];
            && Increasing(NumbersOf(left))
            && rs[p] !in left
            && multiset(left) == multiset(rs) - multiset{rs[p]}
            && forall i :: 0 <= i < |left| ==> left[i] in rs
  {
    var left := rs[..p] + rs[p + 1..];
    assert rs == rs[..p] + [rs[p]] + rs[p + 1..];
    forall i | 0 <= i < |left| ensures left[i] != rs[p] {
      assert NumbersOf(rs)[p] != NumbersOf(rs)[if i < p then i else i + 1];
    }
    forall i, j | 0 <= i < j < |left| ensures NumbersOf(left)[i] < NumbersOf(left)[j] {
      assert NumbersOf(rs)[if i < p then i else i + 1] < NumbersOf(rs)[if j < p then j else j + 1];
    }
  }

  class Connection {
    var lastrequestid: nat
    var commandRequests: seq<Request>
    var requestsPending: int
    ghost var issued: nat

    ghost function Numbers(): (q: seq<nat>)
      reads this
    {
      NumbersOf(commandRequests)
    }

    /** The queue is in send order, every id is its number modulo 65536, and the counter is the queue's length. */
    ghost predicate Valid()
      reads this
    {
      && lastrequestid == Id(issued)
      && requestsPending == |commandRequests|
      && Increasing(Numbers())
      && forall r :: r in commandRequests ==> r.number <= issued && r.requestid == Id(r.number)
    }

    constructor ()
      ensures Valid() && issued == 0 && commandRequests == []
    {
      lastrequestid := 0;
      commandRequests := [];
      requestsPending := 0;
      issued := 0;
    }

    /** dsi_setup_header: the next id. */
    method SetupHeader() returns (requestid: nat)
      requires Valid()
      modifies this
      ensures Valid() && issued == old(issued) + 1 && requestid == Id(issued)
      ensures commandRequests == old(commandRequests)
    {
      if lastrequestid == 65535 {
        lastrequestid := 0;
      } else {
        lastrequestid := lastrequestid + 1;
      }
      issued := issued + 1;
      requestid := lastrequestid;
    }

    /** The header set-up and the queueing part of dsi_send. */
    method Send(subcommand: nat, wait: int) returns (request: Request)
      requires Valid()
      modifies this
      ensures Valid() && fresh(request) && issued == old(issued) + 1
      ensures request.number == issued && request.requestid == Id(issued) && request.subcommand == subcommand
      ensures request.wait == wait && !request.doneWaiting && request.returnCode == 0
      ensures commandRequests == old(commandRequests) + [request]
    {
      var id := SetupHeader();
      request := new Request(lastrequestid, subcommand, wait, issued);
      commandRequests := commandRequests + [request];
      requestsPending := requestsPending + 1;
      assert Numbers() == old(Numbers()) + [issued];
      assert forall i :: 0 <= i < |old(Numbers())| ==> old(commandRequests[i]) in old(commandRequests);
    }

    /**
      dsi_remove_from_request_queue: unlinks by identity, and counts only what it unlinks. A server
      that is no longer in the list of servers is left alone.
     */
    method RemoveFromRequestQueue(toremove: Request, stillValid: bool) returns (rc: int)
      requires Valid()
      modifies this
      ensures Valid() && issued == old(issued)
      ensures rc == if stillValid && toremove in old(commandRequests) then 0 else -1
      ensures if stillValid then
                toremove !in commandRequests
                && multiset(commandRequests) == multiset(old(commandRequests)) - multiset{toremove}
              else commandRequests == old(commandRequests)
    {
      if !stillValid {
        return -1;
      }
      var p := 0;
      while p < |commandRequests|
        invariant p <= |commandRequests| && commandRequests == old(commandRequests)
        invariant requestsPending == old(requestsPending) && lastrequestid == old(lastrequestid) && issued == old(issued)
        invariant toremove !in commandRequests[..p]
      {
        if commandRequests[p] == toremove {
          Unlink(commandRequests, p);
          commandRequests := commandRequests[..p] + commandRequests[p + 1..];
          requestsPending := requestsPending - 1;
          return 0;
        }
        p := p + 1;
      }
      return -1;
    }

    /** Header n and the oldest queued request were both issued fewer than 65536 headers ago. */
    ghost predicate InWindow(n: nat)
      reads this
    {
      && n <= issued && issued - n < ID_COUNT
      && (commandRequests != [] ==> issued - commandRequests[0].number < ID_COUNT)
    }

    lemma WindowedReply(requestid: nat)
      requires Valid()
      ensures forall n: nat :: InWindow(n) && requestid == Id(n) ==>
                var i := Find(Numbers(), requestid);
                if n in Numbers() then i < |commandRequests| && commandRequests[i].number == n else i == |commandRequests|
    {
      var q := Numbers();
      assert forall i :: 0 <= i < |q| ==> commandRequests[i] in commandRequests && q[i] == commandRequests[i].number;
      forall n: nat | InWindow(n) && requestid == Id(n)
        ensures var i := Find(q, requestid);
                if n in q then i < |q| && q[i] == n else i == |q|
      {
        ReplyReachesItsRequest(q, issued, n);
      }
    }

    /** dsi_find_request. */
    method FindRequest(requestid: nat) returns (request: Request?)
      requires Valid()
      ensures var i := Find(Numbers(), requestid);
              if i < |commandRequests| then request == commandRequests[i] else request == null
      ensures forall n: nat :: InWindow(n) && requestid == Id(n) ==>
                if n in Numbers() then request != null && request.number == n else request == null
    {
      var p := 0;
      while p < |commandRequests|
        invariant p <= |commandRequests|
        invariant forall j :: 0 <= j < p ==> Id(Numbers()[j]) != requestid
      {
        if commandRequests[p].requestid == requestid {
          assert Id(Numbers()[p]) == requestid;
          WindowedReply(requestid);
          return commandRequests[p];
        }
        p := p + 1;
      }
      WindowedReply(requestid);
      return null;
    }
  }
}
