/** One search over a whole network: how many rounds it runs and how many deliveries it can cause. */
module SearchCost {
  import opened Bytes
  import opened SearchFlood

  datatype Node = Node(me: string, peers: seq<string>, received: seq<Request>)

  /** The network as far as one search goes. `budget` is the next round's; `issued` is the budget handed
      out so far by the searcher, `delivered` the number of requests that have reached a node. */
  datatype Net = Net(
    nodes: map<string, Node>,
    inFlight: seq<Flight>,
    searcher: string,
    keywords: seq<string>,
    budget: nat,
    finished: bool,
    rounds: nat,
    issued: nat,
    delivered: nat)

  /** Tick: the searcher's timer fires with so many files matched. Forget: a node clears its list of
      searches received. Rewire: a node's peers become any others. */
  datatype Event =
    | Tick(matches: nat)
    | Deliver(index: nat)
    | Lose(index: nat)
    | Forget(at: string)
    | Rewire(at: string, peers: seq<string>)

  function RemoveAt(s: seq<Flight>, i: nat): seq<Flight>
    requires i < |s|
  {
    s[..i] + s[i + 1..]
  }

  /** A node that panics is gone. */
  function Receive(s: Net, f: Flight): Net {
    if f.to !in s.nodes then s
    else
      var n := s.nodes[f.to];
      if f.request.origin == n.me || IsDuplicate(n.received, f.request) then s
      else
        var t := s.(nodes := s.nodes[f.to := n.(received := n.received + [f.request])]);
        if f.request.budget <= 1 then t
        else match Forwarded(f.to, n.peers, f.request, f.from)
          case None => s.(nodes := s.nodes - {f.to})
          case Some(fs) => t.(inFlight := t.inFlight + fs)
  }

  function StartRound(s: Net, matches: nat): Net {
    if s.finished || s.searcher !in s.nodes then s
    else if !(s.budget <= MAX_BUDGET && matches < 2) then s.(finished := true)
    else
      var n := s.nodes[s.searcher];
      match Split(s.budget, |n.peers|)
      case None => s.(nodes := s.nodes - {s.searcher}, finished := true)
      case Some(shares) =>
        s.(inFlight := s.inFlight + Addressed(s.searcher, n.peers, shares, Request(n.me, s.budget, s.keywords)),
           budget := 2 * s.budget, rounds := s.rounds + 1, issued := s.issued + s.budget)
  }

  function Step(s: Net, e: Event): Net {
    match e
    case Tick(matches) => StartRound(s, matches)
    case Deliver(i) =>
      if i >= |s.inFlight| then s
      else Receive(s.(inFlight := RemoveAt(s.inFlight, i), delivered := s.delivered + 1), s.inFlight[i])
    case Lose(i) => if i >= |s.inFlight| then s else s.(inFlight := RemoveAt(s.inFlight, i))
    case Forget(at) => if at !in s.nodes then s else s.(nodes := s.nodes[at := s.nodes[at].(received := [])])
    case Rewire(at, peers) => if at !in s.nodes then s else s.(nodes := s.nodes[at := s.nodes[at].(peers := peers)])
  }

  function Run(s: Net, events: seq<Event>): Net {
    if events == [] then s else Step(Run(s, events[..|events| - 1]), events[|events| - 1])
  }

  function Budgets(fs: seq<Flight>): (r: seq<nat>)
    ensures |r| == |fs|
  {
    seq(|fs|, i requires 0 <= i < |fs| => fs[i].request.budget)
  }

  /** The budget in flight. */
  function InFlight(fs: seq<Flight>): nat {
    Total(Budgets(fs))
  }

  lemma InFlightConcat(fs: seq<Flight>, gs: seq<Flight>)
    ensures InFlight(fs + gs) == InFlight(fs) + InFlight(gs)
  {
    assert Budgets(fs + gs) == Budgets(fs) + Budgets(gs);
    TotalConcat(Budgets(fs), Budgets(gs));
  }

  lemma InFlightRemove(fs: seq<Flight>, i: nat)
    requires i < |fs|
    ensures InFlight(fs) == InFlight(RemoveAt(fs, i)) + fs[i].request.budget
  {
    assert fs == fs[..i] + ([fs[i]] + fs[i + 1..]);
    InFlightConcat(fs[..i], [fs[i]] + fs[i + 1..]);
    InFlightConcat([fs[i]], fs[i + 1..]);
    InFlightConcat(fs[..i], fs[i + 1..]);
    TotalConstant(Budgets([fs[i]]), fs[i].request.budget);
  }

  ghost predicate AllPositive(fs: seq<Flight>) {
    forall i :: 0 <= i < |fs| ==> fs[i].request.budget >= 1
  }

  /** What is passed on carries exactly one unit of budget less than what arrived. */
  lemma ForwardedBudget(at: string, peers: seq<string>, r: Request, from: string)
    requires r.budget >= 1 && Forwarded(at, peers, r, from).Some?
    ensures InFlight(Forwarded(at, peers, r, from).value) == r.budget - 1
    ensures AllPositive(Forwarded(at, peers, r, from).value)
  {
    var others := Others(peers, from);
    var shares := Split(r.budget - 1, |others|).value;
    SplitIsExactAndFair(r.budget - 1, |others|);
    assert Budgets(Addressed(at, others, shares, r)) == shares;
  }

  lemma RoundBudget(at: string, peers: seq<string>, r: Request)
    requires Split(r.budget, |peers|).Some?
    ensures var fs := Addressed(at, peers, Split(r.budget, |peers|).value, r);
            InFlight(fs) == r.budget && AllPositive(fs)
  {
    var shares := Split(r.budget, |peers|).value;
    SplitIsExactAndFair(r.budget, |peers|);
    assert Budgets(Addressed(at, peers, shares, r)) == shares;
  }

  /** After `before`, copies of r have been sent from an address, to the first of the listed ones. */
  ghost predicate SentAfter(before: seq<Flight>, after: seq<Flight>, at: string, to: seq<string>, r: Request) {
    exists fs: seq<Flight> :: after == before + fs && CarrySearch(fs, at, to, r.origin, r.keywords)
  }

  /** The other half of the accounts: a first copy loses no budget. The node remembers the search, takes one unit for
      itself and sends all the rest on, to its other peers. */
  lemma FirstCopyConserves(s: Net, i: nat)
    requires i < |s.inFlight| && s.inFlight[i].to in s.nodes
    requires var f := s.inFlight[i]; var n := s.nodes[f.to];
             && f.request.origin != n.me && !IsDuplicate(n.received, f.request) && 1 <= f.request.budget <= SIGN_LIMIT
             && (f.request.budget > 1 ==> Others(n.peers, f.from) != [])
    ensures var f := s.inFlight[i]; var n := s.nodes[f.to]; var t := Step(s, Deliver(i));
            && t.delivered + InFlight(t.inFlight) == s.delivered + InFlight(s.inFlight)
            && t.nodes == s.nodes[f.to := n.(received := n.received + [f.request])]
            && SentAfter(RemoveAt(s.inFlight, i), t.inFlight, f.to, Others(n.peers, f.from), f.request)
  {
    var f, rest := s.inFlight[i], RemoveAt(s.inFlight, i);
    var n := s.nodes[f.to];
    InFlightRemove(s.inFlight, i);
    if f.request.budget > 1 {
      var fs := Forwarded(f.to, n.peers, f.request, f.from).value;
      ForwardedBudget(f.to, n.peers, f.request, f.from);
      ForwardedCarries(f.to, n.peers, f.request, f.from);
      InFlightConcat(rest, fs);
    } else {
      assert rest + [] == rest;
    }
  }

  /** And a round hands out the whole budget, to the searcher's peers. */
  lemma RoundIssuesBudget(s: Net, matches: nat)
    requires !s.finished && s.searcher in s.nodes && 1 <= s.budget <= MAX_BUDGET && matches < 2
    requires s.nodes[s.searcher].peers != []
    ensures var n := s.nodes[s.searcher]; var t := Step(s, Tick(matches));
            && t.nodes == s.nodes && InFlight(t.inFlight) == InFlight(s.inFlight) + s.budget
            && SentAfter(s.inFlight, t.inFlight, s.searcher, n.peers, Request(n.me, s.budget, s.keywords))
  {
    var n := s.nodes[s.searcher];
    var r := Request(n.me, s.budget, s.keywords);
    RoundBudget(s.searcher, n.peers, r);
    InFlightConcat(s.inFlight, Addressed(s.searcher, n.peers, Split(s.budget, |n.peers|).value, r));
  }

  /** What the searcher has handed out covers all deliveries and all budget in flight, and the rounds so
      far had budgets first, 2*first, 4*first, ... */
  ghost predicate Invariant(s: Net, first: nat) {
    && AllPositive(s.inFlight)
    && s.delivered + InFlight(s.inFlight) <= s.issued
    && s.budget == first * Pow2(s.rounds)
    && s.issued == s.budget - first
    && (s.rounds > 0 ==> s.budget <= 2 * MAX_BUDGET)
  }

  lemma ReceiveKeepsInvariant(s: Net, f: Flight, first: nat)
    requires AllPositive(s.inFlight) && f.request.budget >= 1
    requires s.delivered + InFlight(s.inFlight) + (f.request.budget - 1) <= s.issued
    ensures var t := Receive(s, f);
            && AllPositive(t.inFlight) && t.delivered + InFlight(t.inFlight) <= t.issued
            && t.delivered == s.delivered && t.issued == s.issued && t.budget == s.budget && t.rounds == s.rounds
  {
    if f.to in s.nodes && f.request.budget > 1 {
      var fs := Forwarded(f.to, s.nodes[f.to].peers, f.request, f.from);
      if fs.Some? {
        ForwardedBudget(f.to, s.nodes[f.to].peers, f.request, f.from);
        InFlightConcat(s.inFlight, fs.value);
      }
    }
  }

  lemma Doubled(first: nat, p: nat)
    ensures 2 * (first * p) == first * (2 * p)
  {
  }

  lemma RoundKeepsInvariant(s: Net, matches: nat, first: nat)
    requires Invariant(s, first)
    ensures Invariant(StartRound(s, matches), first)
  {
    if !s.finished && s.searcher in s.nodes && s.budget <= MAX_BUDGET && matches < 2 {
      var n := s.nodes[s.searcher];
      if Split(s.budget, |n.peers|).Some? {
        var r := Request(n.me, s.budget, s.keywords);
        RoundBudget(s.searcher, n.peers, r);
        InFlightConcat(s.inFlight, Addressed(s.searcher, n.peers, Split(s.budget, |n.peers|).value, r));
        Doubled(first, Pow2(s.rounds));
      }
    }
  }

  lemma DeliverKeepsInvariant(s: Net, i: nat, first: nat)
    requires Invariant(s, first)
    ensures Invariant(Step(s, Deliver(i)), first)
  {
    if i < |s.inFlight| {
      InFlightRemove(s.inFlight, i);
      ReceiveKeepsInvariant(s.(inFlight := RemoveAt(s.inFlight, i), delivered := s.delivered + 1), s.inFlight[i], first);
    }
  }

  lemma StepKeepsInvariant(s: Net, e: Event, first: nat)
    requires Invariant(s, first)
    ensures Invariant(Step(s, e), first)
  {
    match e
    case Tick(matches) =>
      RoundKeepsInvariant(s, matches, first);
    case Deliver(i) =>
      DeliverKeepsInvariant(s, i, first);
    case Lose(i) =>
      if i < |s.inFlight| {
        InFlightRemove(s.inFlight, i);
      }
    case Forget(_) =>
    case Rewire(_, _) =>
  }

  /** A node that has handled a search neither stores nor passes on another copy of it until it forgets. */
  lemma SecondCopyIsDropped(s: Net, f: Flight, g: Flight)
    requires f.to == g.to && f.to in s.nodes && f.to in Receive(s, f).nodes
    requires SameSearch(f.request, g.request)
    ensures Receive(Receive(s, f), g) == Receive(s, f)
  {
    var n, n' := s.nodes[f.to], Receive(s, f).nodes[f.to];
    if f.request.origin != n.me && !IsDuplicate(n.received, f.request) {
      assert n'.received[|n.received|] == f.request;
    } else if IsDuplicate(n.received, f.request) {
      var k :| 0 <= k < |n.received| && SameSearch(n.received[k], f.request);
      assert SameSearch(n.received[k], g.request);
    }
  }

  ghost predicate Init(s: Net, first: nat) {
    s.inFlight == [] && s.budget == first && !s.finished && s.rounds == s.issued == s.delivered == 0
  }

  lemma {:induction false} ReachableInvariant(s: Net, events: seq<Event>, first: nat)
    requires Init(s, first)
    ensures Invariant(Run(s, events), first)
  {
    if events != [] {
      ReachableInvariant(s, events[..|events| - 1], first);
      StepKeepsInvariant(Run(s, events[..|events| - 1]), events[|events| - 1], first);
    }
  }

  lemma RoundsBound(first: nat, rounds: nat)
    requires first >= 1 && first * Pow2(rounds) <= 64
    ensures rounds <= 6
  {
    if rounds > 6 {
      Pow2Monotone(6, rounds);
      assert Pow2(6) == 64;
      MulMonotone(1, first, Pow2(rounds));
      assert false;
    }
  }

  /** The cost of a search started with a budget of 1 to 32, over any topology, however it is rewired,
      however often nodes forget what they have seen, whatever is lost: at most 6 rounds, and at most
      64 - first request deliveries in the whole network. */
  lemma SearchCostBound(s: Net, events: seq<Event>, first: nat)
    requires Init(s, first) && 1 <= first <= MAX_BUDGET
    ensures Run(s, events).rounds <= 6
    ensures Run(s, events).delivered <= 64 - first
    ensures Run(s, events).delivered + InFlight(Run(s, events).inFlight) <= Run(s, events).issued <= 64 - first
  {
    ReachableInvariant(s, events, first);
    var t := Run(s, events);
    if t.rounds > 0 {
      RoundsBound(first, t.rounds);
    }
  }

  /** How often the searcher's timer fires. */
  function Ticks(events: seq<Event>): nat {
    if events == [] then 0 else Ticks(events[..|events| - 1]) + if events[|events| - 1].Tick? then 1 else 0
  }

  /** As long as the search goes on, every tick has been a round. */
  lemma {:induction false} EveryTickIsARound(s: Net, events: seq<Event>, first: nat)
    requires Init(s, first)
    ensures var t := Run(s, events);
            !t.finished && t.searcher in t.nodes ==> t.rounds == Ticks(events)
  {
    if events != [] {
      EveryTickIsARound(s, events[..|events| - 1], first);
    }
  }

  /** Nothing is ever in flight in a search for nothing, so no node comes to harm. */
  lemma {:induction false} ZeroSearchIsIdle(s: Net, events: seq<Event>)
    requires Init(s, 0) && forall k :: 0 <= k < |events| && events[k].Tick? ==> events[k].matches < 2
    ensures var t := Run(s, events);
            !t.finished && t.inFlight == [] && t.budget == 0 && t.searcher == s.searcher && t.nodes.Keys == s.nodes.Keys
  {
    if events != [] {
      ZeroSearchIsIdle(s, events[..|events| - 1]);
    }
  }

  lemma BudgetedSearchEnds(s: Net, events: seq<Event>, first: nat)
    requires Init(s, first) && first >= 1 && Ticks(events) >= 7
    ensures Run(s, events).finished || Run(s, events).searcher !in Run(s, events).nodes
  {
    var t := Run(s, events);
    EveryTickIsARound(s, events, first);
    ReachableInvariant(s, events, first);
    if !t.finished && t.searcher in t.nodes {
      RoundsBound(first, t.rounds);
      assert false;
    }
  }

  /** A search ends, or its node is gone, by the seventh tick exactly when it did not start with budget 0, whatever
      is delivered, lost, forgotten and rewired in between. A search with budget 0 that matches fewer than two files
      goes on for ever: the doubled budget never exceeds the limit. */
  lemma SearchEndsIffBudgeted(s: Net, events: seq<Event>, first: nat)
    requires Init(s, first) && s.searcher in s.nodes && Ticks(events) >= 7
    requires forall k :: 0 <= k < |events| && events[k].Tick? ==> events[k].matches < 2
    ensures Run(s, events).finished || Run(s, events).searcher !in Run(s, events).nodes <==> first >= 1
  {
    if first == 0 {
      ZeroSearchIsIdle(s, events);
    } else {
      BudgetedSearchEnds(s, events, first);
    }
  }
}
