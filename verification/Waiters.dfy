/** Coroutines that wait for the next message of a user in a group. */
module Waiters {
  import opened Wrappers

  /** Identity of a promise; queues hold weak references to promises. */
  type Waiter = nat
  type Queues = map<int, map<int, seq<Waiter>>>

  /** No queue is empty, and no group is. */
  ghost predicate NoneEmpty(m: Queues) {
    forall g | g in m :: m[g] != map[] && forall u | u in m[g] :: m[g][u] != []
  }

  /** Who waits for the user in the group, oldest first. */
  function Queue(m: Queues, g: int, u: int): seq<Waiter> {
    if g in m && u in m[g] then m[g][u] else []
  }

  /** The queue of one user replaced. */
  function Put(m: Queues, g: int, u: int, q: seq<Waiter>): Queues {
    m[g := (if g in m then m[g] else map[])[u := q]]
  }

  lemma PutQueue(m: Queues, g: int, u: int, q: seq<Waiter>)
    ensures Queue(Put(m, g, u, q), g, u) == q
    ensures forall h, v | h != g || v != u :: Queue(Put(m, g, u, q), h, v) == Queue(m, h, v)
    ensures forall r :: Put(Put(m, g, u, q), g, u, r) == Put(m, g, u, r)
    ensures g in m && u in m[g] ==> Put(m, g, u, m[g][u]) == m
  {
    forall r
      ensures Put(Put(m, g, u, q), g, u, r) == Put(m, g, u, r)
    {
      var users := if g in m then m[g] else map[];
      assert users[u := q][u := r] == users[u := r];
    }
    if g in m && u in m[g] {
      assert m[g][u := m[g][u]] == m[g];
    }
  }

  /** A user whose queue is empty is taken out, and then a group without
      users. */
  function Erased(m: Queues, g: int, u: int): Queues
    requires g in m && u in m[g]
  {
    if m[g][u] != [] then m
    else if m[g] - {u} == map[] then m - {g}
    else m[g := m[g] - {u}]
  }

  lemma ErasedQueues(m: Queues, g: int, u: int)
    requires g in m && u in m[g]
    requires forall h | h in m :: m[h] != map[] && forall v | v in m[h] :: m[h][v] != [] || (h == g && v == u)
    ensures NoneEmpty(Erased(m, g, u))
    ensures forall h, v :: Queue(Erased(m, g, u), h, v) == Queue(m, h, v)
  {
    if m[g][u] == [] && m[g] - {u} == map[] {
      forall v | v in m[g]
        ensures v == u
      {
        assert v !in m[g] - {u};
      }
    }
  }

  /** The queue from the first waiter on that is alive. */
  function Alive(q: seq<Waiter>, live: set<Waiter>): (r: seq<Waiter>)
    ensures r != [] ==> r[0] in live
  {
    if q == [] || q[0] in live then q else Alive(q[1..], live)
  }

  /** Only waiters that are gone are dropped, and only from the front. */
  lemma {:induction false} AliveDropsExpired(q: seq<Waiter>, live: set<Waiter>)
    ensures var k := |q| - |Alive(q, live)|;
      && 0 <= k <= |q| && Alive(q, live) == q[k..] && forall i | 0 <= i < k :: q[i] !in live
  {
    if q != [] && q[0] !in live {
      AliveDropsExpired(q[1..], live);
      var k := |q[1..]| - |Alive(q[1..], live)|;
      assert q[1..][k..] == q[k + 1..];
      assert forall i | 1 <= i < k + 1 :: q[i] == q[1..][i - 1];
    }
  }

  /** The next alive waiter gets the message, and the rest wait on. */
  function AfterFeed(q: seq<Waiter>, live: set<Waiter>): seq<Waiter> {
    var r := Alive(q, live);
    if r == [] then [] else r[1..]
  }

  /** What a message does to a queue: the first `k` are gone and are dropped,
      the one behind them is alive and gets the message, and the others wait
      on; `given` is what was handed out. */
  ghost predicate FedAt(k: nat, q: seq<Waiter>, live: set<Waiter>, message: string, rest: seq<Waiter>,
                        given: seq<(Waiter, string)>) {
    && k <= |q| && (forall i | 0 <= i < k :: q[i] !in live)
    && if k == |q| then rest == [] && given == []
       else q[k] in live && rest == q[k + 1..] && given == [(q[k], message)]
  }

  ghost predicate Fed(q: seq<Waiter>, live: set<Waiter>, message: string, rest: seq<Waiter>,
                      given: seq<(Waiter, string)>) {
    exists k: nat :: FedAt(k, q, live, message, rest, given)
  }

  function GivenTo(q: seq<Waiter>, live: set<Waiter>, message: string): seq<(Waiter, string)> {
    var r := Alive(q, live); if r == [] then [] else [(r[0], message)]
  }

  lemma FeedIs(q: seq<Waiter>, live: set<Waiter>, message: string)
    ensures Fed(q, live, message, AfterFeed(q, live), GivenTo(q, live, message))
  {
    AliveDropsExpired(q, live);
    var k := |q| - |Alive(q, live)|;
    assert k < |q| ==> q[k..][1..] == q[k + 1..];
    assert FedAt(k, q, live, message, AfterFeed(q, live), GivenTo(q, live, message));
  }

  /** The waiters that are alive, in order. */
  function LiveOnes(q: seq<Waiter>, live: set<Waiter>): seq<Waiter> {
    if q == [] then [] else (if q[0] in live then [q[0]] else []) + LiveOnes(q[1..], live)
  }

  lemma {:induction false} FirstLive(q: seq<Waiter>, live: set<Waiter>, k: nat)
    requires k <= |q| && forall i | 0 <= i < k :: q[i] !in live
    ensures LiveOnes(q, live) == LiveOnes(q[k..], live)
  {
    if k > 0 {
      FirstLive(q[1..], live, k - 1);
      assert q[1..][k - 1..] == q[k..];
    } else {
      assert q[0..] == q;
    }
  }

  lemma FedTakesFirst(q: seq<Waiter>, live: set<Waiter>, message: string, rest: seq<Waiter>,
                      given: seq<(Waiter, string)>)
    requires Fed(q, live, message, rest, given)
    ensures var w := LiveOnes(q, live);
      && LiveOnes(rest, live) == (if w == [] then [] else w[1..])
      && given == if w == [] then [] else [(w[0], message)]
  {
    var k: nat :| FedAt(k, q, live, message, rest, given);
    FirstLive(q, live, k);
    if k < |q| {
      assert q[k..][0] == q[k] && q[k..][1..] == q[k + 1..];
    }
  }

  /** Messages one after the other, while the same waiters are alive: each of
      them gets one, in the order they began to wait, as long as there are
      messages; further messages go to nobody. */
  lemma {:induction false} EachGetsOne(qs: seq<seq<Waiter>>, live: set<Waiter>, messages: seq<string>,
                                       given: seq<seq<(Waiter, string)>>, i: nat)
    requires |qs| == |messages| + 1 && |given| == |messages|
    requires forall n | 0 <= n < |messages| :: Fed(qs[n], live, messages[n], qs[n + 1], given[n])
    requires i < |messages|
    ensures var w := LiveOnes(qs[0], live);
      given[i] == if i < |w| then [(w[i], messages[i])] else []
    decreases i
  {
    hide Fed, LiveOnes;
    FedTakesFirst(qs[0], live, messages[0], qs[1], given[0]);
    if i > 0 {
      forall n | 0 <= n < |messages| - 1
        ensures Fed(qs[1..][n], live, messages[1..][n], qs[1..][n + 1], given[1..][n])
      {
        assert Fed(qs[n + 1], live, messages[n + 1], qs[n + 2], given[n + 1]);
      }
      EachGetsOne(qs[1..], live, messages[1..], given[1..], i - 1);
    }
  }

  class ApiBot {
    var someoneGroupMessage: Queues
    /** The messages handed out, newest last. */
    var delivered: seq<(Waiter, string)>

    ghost predicate Valid()
      reads this
    {
      NoneEmpty(someoneGroupMessage)
    }

    constructor ()
      ensures Valid() && someoneGroupMessage == map[] && delivered == []
    {
      someoneGroupMessage, delivered := map[], [];
    }

    /** `WaitForNextMessage`, up to its wait; private messages wait under
        group 0. */
    method WaitForNextMessage(group: Option<int>, u: int, p: Waiter)
      requires Valid()
      modifies this`someoneGroupMessage
      ensures Valid()
      ensures var g := if group.Some? then group.value else 0;
        forall h, v :: Queue(someoneGroupMessage, h, v)
          == old(Queue(someoneGroupMessage, h, v)) + if h == g && v == u then [p] else []
    {
      var g := if group.Some? then group.value else 0;
      var users := if g in someoneGroupMessage then someoneGroupMessage[g] else map[];
      var queue := if u in users then users[u] else [];
      PutQueue(someoneGroupMessage, g, u, queue + [p]);
      someoneGroupMessage := someoneGroupMessage[g := users[u := queue + [p]]];
    }

    /** A message is asked for exactly if somebody is in the queue. */
    method IsNeedMessage(g: int, u: int) returns (need: bool)
      requires Valid()
      ensures need <==> Queue(someoneGroupMessage, g, u) != []
    {
      need := g in someoneGroupMessage && u in someoneGroupMessage[g];
    }

    /** The draining loop: pops until a promise that is alive has the message. */
    method Drain(g: int, u: int, message: string, live: set<Waiter>)
      requires Valid() && g in someoneGroupMessage && u in someoneGroupMessage[g]
      modifies this
      ensures someoneGroupMessage
        == Put(old(someoneGroupMessage), g, u, AfterFeed(old(someoneGroupMessage[g][u]), live))
      ensures delivered == old(delivered) + GivenTo(old(someoneGroupMessage[g][u]), live, message)
    {
      hide Put;
      ghost var m, before := someoneGroupMessage, someoneGroupMessage[g][u];
      PutQueue(m, g, u, before);
      while someoneGroupMessage[g][u] != []
        invariant g in someoneGroupMessage && u in someoneGroupMessage[g]
        invariant someoneGroupMessage == Put(old(someoneGroupMessage), g, u, someoneGroupMessage[g][u])
        invariant Alive(someoneGroupMessage[g][u], live) == Alive(before, live) && delivered == old(delivered)
        decreases |someoneGroupMessage[g][u]|
      {
        var p := someoneGroupMessage[g][u][0];
        ghost var q := someoneGroupMessage[g][u];
        PutQueue(m, g, u, q);
        PutIs(someoneGroupMessage, g, u, q[1..]);
        someoneGroupMessage := someoneGroupMessage[g := someoneGroupMessage[g][u := someoneGroupMessage[g][u][1..]]];
        if p in live {
          delivered := delivered + [(p, message)];
          break;
        }
      }
    }

    /** `FeedMessage`. `live` are the promises somebody still waits on. It is
        called for a user somebody waits for. */
    method FeedMessage(g: int, u: int, message: string, live: set<Waiter>)
      requires Valid() && Queue(someoneGroupMessage, g, u) != []
      modifies this
      ensures Valid()
      ensures old(delivered) <= delivered
      ensures Fed(old(Queue(someoneGroupMessage, g, u)), live, message,
                  Queue(someoneGroupMessage, g, u), delivered[|old(delivered)|..])
      ensures forall h, v | h != g || v != u ::
        Queue(someoneGroupMessage, h, v) == old(Queue(someoneGroupMessage, h, v))
    {
      ghost var m := someoneGroupMessage;
      Drain(g, u, message, live);
      FeedIs(m[g][u], live, message);
      assert delivered[|old(delivered)|..] == GivenTo(m[g][u], live, message);
      PutQueue(m, g, u, AfterFeed(m[g][u], live));
      ErasedQueues(someoneGroupMessage, g, u);
      if someoneGroupMessage[g][u] == [] {
        someoneGroupMessage := someoneGroupMessage[g := someoneGroupMessage[g] - {u}];
      }
      if someoneGroupMessage[g] == map[] {
        someoneGroupMessage := someoneGroupMessage - {g};
      }
    }
  }

  lemma PutIs(m: Queues, g: int, u: int, q: seq<Waiter>)
    requires g in m
    ensures Put(m, g, u, q) == m[g := m[g][u := q]]
  {
  }
}
