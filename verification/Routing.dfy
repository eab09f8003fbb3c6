/** Next-hop routing in a network of gossiping nodes: loop freedom and reachability in every run. */
module Routing {
  import opened Bytes
  import opened Gossip

  /** A rumor on the network, from one address to another. */
  datatype Hop = Hop(from: string, to: string, rumor: Rumor)

  /** `adopted` records, for the proofs only, at which step a node last changed its route to an origin. */
  datatype Net = Net(
    nodes: map<string, State>,       // by address
    messages: set<Hop>,              // everything ever sent; may arrive never, late or repeatedly
    adopted: map<(string, string), nat>,
    steps: nat)

  datatype Event =
    | AnnounceRoute(at: string, to: string)
    | ClientSends(at: string, text: string, to: string)
    | Deliver(hop: Hop, next: string)
    | AnswerStatus(at: string, origin: string, id: int, to: string)
    | Retransmit(hop: Hop, to: string)

  function RouteRumor(n: State): Rumor {
    Rumor(n.me, -1, "", None)
  }

  /** Whether a received rumor is passed on: routing messages always, others when new. */
  predicate PassesOn(n: State, r: Rumor) {
    r.text == "" || Key(r) !in n.msgsSeen
  }

  function Step(s: Net, e: Event): Net {
    match e
    case AnnounceRoute(at, to) =>
      if at !in s.nodes then s
      else s.(messages := s.messages + {Hop(at, to, RouteRumor(s.nodes[at]))}, steps := s.steps + 1)
    case ClientSends(at, text, to) =>
      if at !in s.nodes then s
      else
        var n := s.nodes[at];
        s.(nodes := s.nodes[at := OnClientRumor(n, text)],
           messages := s.messages + {Hop(at, to, ClientRumor(n, text))},
           steps := s.steps + 1)
    case Deliver(hop, next) =>
      if hop !in s.messages || hop.to !in s.nodes then s
      else
        var n := s.nodes[hop.to];
        var r := OverwriteLast(hop.rumor, hop.from);
        var n' := OnRumor(n, hop.rumor, hop.from);
        s.(nodes := s.nodes[hop.to := n'],
           messages := if PassesOn(n, hop.rumor) then s.messages + {Hop(hop.to, next, r)} else s.messages,
           adopted := if n'.lastSeqnSeen != n.lastSeqnSeen then s.adopted[(hop.to, r.origin) := s.steps + 1] else s.adopted,
           steps := s.steps + 1)
    case AnswerStatus(at, origin, id, to) =>
      if at !in s.nodes then s
      else s.(messages := s.messages + {Hop(at, to, GetMsg(s.nodes[at].msgsSeen, origin, id))}, steps := s.steps + 1)
    case Retransmit(hop, to) =>
      if hop !in s.messages then s
      else s.(messages := s.messages + {Hop(hop.from, to, hop.rumor)}, steps := s.steps + 1)
  }

  function Run(s: Net, events: seq<Event>): Net {
    if events == [] then s else Step(Run(s, events[..|events| - 1]), events[|events| - 1])
  }

  ghost predicate Init(s: Net) {
    && (forall a :: a in s.nodes ==> s.nodes[a].lastSeqnSeen == map[] && s.nodes[a].nextHops == map[] && s.nodes[a].msgsSeen == map[])
    && s.messages == {}
  }

  // -------------------------------------------------------------------- invariant

  /** The node is the origin itself, or has heard sequence number `id` or a later one from it. */
  predicate HasHeard(n: State, origin: string, id: int) {
    n.me == origin || (origin in n.lastSeqnSeen && n.lastSeqnSeen[origin] >= id)
  }

  /** Whoever sends a rumor is its origin or has heard it. The zero rumor of an unstored key has no origin. */
  ghost predicate HopSound(s: Net, hop: Hop) {
    hop.from in s.nodes && (hop.rumor.origin != "" ==> HasHeard(s.nodes[hop.from], hop.rumor.origin, hop.rumor.id))
  }

  ghost predicate StoreSound(n: State) {
    forall k :: k in n.msgsSeen && k.origin != "" ==> HasHeard(n, k.origin, k.id)
  }

  /** f is strictly closer to o than n: a later sequence number, or the same one adopted earlier. */
  ghost predicate Closer(s: Net, o: string, f: string, n: string)
    requires f in s.nodes && n in s.nodes && o in s.nodes[n].lastSeqnSeen && (n, o) in s.adopted
  {
    && o in s.nodes[f].lastSeqnSeen && (f, o) in s.adopted
    && (s.nodes[f].lastSeqnSeen[o] > s.nodes[n].lastSeqnSeen[o]
        || (s.nodes[f].lastSeqnSeen[o] == s.nodes[n].lastSeqnSeen[o] && s.adopted[(f, o)] < s.adopted[(n, o)]))
  }

  /** The next hop for o is o itself or strictly closer to it. */
  ghost predicate EntrySound(s: Net, n: string, o: string)
    requires n in s.nodes
  {
    o in s.nodes[n].nextHops ==>
      && s.nodes[n].me != o
      && o in s.nodes[n].lastSeqnSeen && (n, o) in s.adopted && s.adopted[(n, o)] <= s.steps
      && var f := s.nodes[n].nextHops[o];
         f in s.nodes && (s.nodes[f].me == o || Closer(s, o, f, n))
  }

  ghost predicate NodeSound(s: Net, n: string)
    requires n in s.nodes
  {
    && StoreSound(s.nodes[n])
    && s.nodes[n].lastSeqnSeen.Keys == s.nodes[n].nextHops.Keys
    && (forall o :: o in s.nodes[n].nextHops && o != "" ==> EntrySound(s, n, o))
  }

  ghost predicate Invariant(s: Net) {
    && (forall n :: n in s.nodes ==> NodeSound(s, n))
    && (forall hop :: hop in s.messages ==> HopSound(s, hop))
  }

  // ------------------------------------------------------------ the steps keep it

  /** Receiving changes nothing but, possibly, the route to the rumor's origin, and then only to a
      strictly later sequence number: by the time the table is consulted the last address has been
      overwritten, so no rumor counts as a direct route any more. */
  lemma OnRumorRoutes(n: State, r: Rumor, from: string)
    ensures var t := OnRumor(n, r, from);
            && t.me == n.me
            && ((t.lastSeqnSeen == n.lastSeqnSeen && t.nextHops == n.nextHops)
                || (&& r.origin != n.me
                    && (r.origin in n.lastSeqnSeen ==> r.id > n.lastSeqnSeen[r.origin])
                    && t.lastSeqnSeen == n.lastSeqnSeen[r.origin := r.id] && t.nextHops == n.nextHops[r.origin := from]))
            && (PassesOn(n, r) ==> HasHeard(t, r.origin, r.id))
    ensures StoreSound(n) ==> StoreSound(OnRumor(n, r, from))
  {
    var t := OnRumor(n, r, from);
    if StoreSound(n) {
      forall k | k in t.msgsSeen && k.origin != ""
        ensures HasHeard(t, k.origin, k.id)
      {
        assert k in n.msgsSeen ==> HasHeard(n, k.origin, k.id);
      }
    }
  }

  /** s' differs from s only by a longer history of sent messages and by node `at`, whose routes are unchanged. */
  lemma QuietStep(s: Net, s': Net, at: string)
    requires Invariant(s) && s.nodes.Keys == s'.nodes.Keys && at in s.nodes
    requires forall n :: n in s.nodes && n != at ==> s'.nodes[n] == s.nodes[n]
    requires s'.nodes[at].me == s.nodes[at].me && s'.nodes[at].lastSeqnSeen == s.nodes[at].lastSeqnSeen
             && s'.nodes[at].nextHops == s.nodes[at].nextHops && StoreSound(s'.nodes[at])
    requires s'.adopted == s.adopted && s'.steps >= s.steps
    requires forall hop :: hop in s'.messages && hop !in s.messages ==> HopSound(s', hop)
    ensures Invariant(s')
  {
    forall n | n in s'.nodes
      ensures NodeSound(s', n)
    {
      assert NodeSound(s, n);
      forall o | o in s'.nodes[n].nextHops && o != ""
        ensures EntrySound(s', n, o)
      {
        assert EntrySound(s, n, o);
      }
    }
    forall hop | hop in s'.messages
      ensures HopSound(s', hop)
    {
      assert hop in s.messages ==> HopSound(s, hop);
    }
  }

  /** Node `at` adopts a later sequence number of o, heard from f. */
  lemma AdoptingStep(s: Net, s': Net, at: string, o: string, f: string, id: int)
    requires Invariant(s) && at in s.nodes && at in s'.nodes
    requires s'.nodes == s.nodes[at := s'.nodes[at]]
    requires var n, n' := s.nodes[at], s'.nodes[at];
             && n'.me == n.me && n.me != o
             && (o in n.lastSeqnSeen ==> id > n.lastSeqnSeen[o])
             && n'.lastSeqnSeen == n.lastSeqnSeen[o := id] && n'.nextHops == n.nextHops[o := f] && StoreSound(n')
    requires f in s.nodes && (o != "" ==> HasHeard(s.nodes[f], o, id))
    requires s'.adopted == s.adopted[(at, o) := s.steps + 1] && s'.steps == s.steps + 1
    requires forall hop :: hop in s'.messages && hop !in s.messages ==> HopSound(s', hop)
    ensures Invariant(s')
  {
    forall n | n in s'.nodes
      ensures NodeSound(s', n)
    {
      assert NodeSound(s, n);
      forall x | x in s'.nodes[n].nextHops && x != ""
        ensures EntrySound(s', n, x)
      {
        AdoptedEntry(s, s', at, o, f, id, n, x);
      }
    }
    forall hop | hop in s'.messages
      ensures HopSound(s', hop)
    {
      assert hop in s.messages ==> HopSound(s, hop);
    }
  }

  lemma AdoptedEntry(s: Net, s': Net, at: string, o: string, f: string, id: int, n: string, x: string)
    requires Invariant(s) && at in s.nodes && at in s'.nodes && n in s.nodes
    requires s'.nodes == s.nodes[at := s'.nodes[at]]
    requires var m, m' := s.nodes[at], s'.nodes[at];
             && m'.me == m.me && m.me != o
             && (o in m.lastSeqnSeen ==> id > m.lastSeqnSeen[o])
             && m'.lastSeqnSeen == m.lastSeqnSeen[o := id] && m'.nextHops == m.nextHops[o := f]
    requires f in s.nodes && (o != "" ==> HasHeard(s.nodes[f], o, id))
    requires s'.adopted == s.adopted[(at, o) := s.steps + 1] && s'.steps == s.steps + 1
    requires x in s'.nodes[n].nextHops && x != ""
    ensures EntrySound(s', n, x)
  {
    assert NodeSound(s, n) && NodeSound(s, at);
    if n == at && x == o {
      assert f != at;
      assert NodeSound(s, f);
      if s.nodes[f].me != o {
        assert EntrySound(s, f, o);
      }
    } else {
      assert EntrySound(s, n, x);
      var g := s.nodes[n].nextHops[x];
      assert s'.nodes[n].nextHops[x] == g;
    }
  }

  lemma StepKeepsInvariant(s: Net, e: Event)
    requires Invariant(s)
    ensures Invariant(Step(s, e))
  {
    var s' := Step(s, e);
    match e
    case AnnounceRoute(at, to) =>
      if at in s.nodes {
        assert NodeSound(s, at);
        QuietStep(s, s', at);
      }
    case ClientSends(at, text, to) =>
      if at in s.nodes {
        assert NodeSound(s, at);
        assert StoreSound(s'.nodes[at]) by {
          assert forall k :: k in s'.nodes[at].msgsSeen && k in s.nodes[at].msgsSeen && k.origin != "" ==> HasHeard(s.nodes[at], k.origin, k.id);
        }
        QuietStep(s, s', at);
      }
    case AnswerStatus(at, origin, id, to) =>
      if at in s.nodes {
        assert NodeSound(s, at);
        QuietStep(s, s', at);
      }
    case Retransmit(hop, to) =>
      if hop in s.messages {
        assert HopSound(s, hop) && NodeSound(s, hop.from);
        QuietStep(s, s', hop.from);
      }
    case Deliver(hop, next) =>
      if hop in s.messages && hop.to in s.nodes {
        DeliverKeepsInvariant(s, hop, next);
      }
  }

  lemma DeliverKeepsInvariant(s: Net, hop: Hop, next: string)
    requires Invariant(s) && hop in s.messages && hop.to in s.nodes
    ensures Invariant(Step(s, Deliver(hop, next)))
  {
    var s' := Step(s, Deliver(hop, next));
    var at, r := hop.to, hop.rumor;
    assert HopSound(s, hop) && NodeSound(s, at);
    OnRumorRoutes(s.nodes[at], r, hop.from);
    assert s'.nodes == s.nodes[at := s'.nodes[at]];
    if s'.nodes[at].lastSeqnSeen == s.nodes[at].lastSeqnSeen {
      QuietStep(s, s', at);
    } else {
      AdoptingStep(s, s', at, r.origin, hop.from, r.id);
    }
  }

  lemma {:induction false} ReachableInvariant(s: Net, events: seq<Event>)
    requires Init(s)
    ensures Invariant(Run(s, events))
  {
    if events != [] {
      ReachableInvariant(s, events[..|events| - 1]);
      StepKeepsInvariant(Run(s, events[..|events| - 1]), events[|events| - 1]);
    }
  }

  // ------------------------------------------------------------------ the theorems

  /** p starts anywhere and follows the next hops for o, stopping no later than at o. */
  ghost predicate Follows(s: Net, o: string, p: seq<string>) {
    && p != [] && (forall i :: 0 <= i < |p| ==> p[i] in s.nodes)
    && (forall i :: 0 <= i < |p| - 1 ==>
         s.nodes[p[i]].me != o && o in s.nodes[p[i]].nextHops && p[i + 1] == s.nodes[p[i]].nextHops[o])
  }

  lemma {:induction false} CloserAlong(s: Net, o: string, p: seq<string>, i: nat, j: nat)
    requires Invariant(s) && o != "" && Follows(s, o, p) && i < j < |p|
    ensures EntrySound(s, p[i], o)
    ensures s.nodes[p[j]].me == o || Closer(s, o, p[j], p[i])
    decreases j
  {
    assert NodeSound(s, p[i]) && NodeSound(s, p[j - 1]);
    assert EntrySound(s, p[i], o) && EntrySound(s, p[j - 1], o);
    if i < j - 1 {
      CloserAlong(s, o, p, i, j - 1);
    }
  }

  /** Loop freedom: in every reachable state, following the next hops for any real node name never
      visits a node twice. */
  lemma RoutesNeverLoop(s0: Net, events: seq<Event>, o: string, p: seq<string>)
    requires Init(s0) && o != "" && Follows(Run(s0, events), o, p)
    ensures forall i, j :: 0 <= i < j < |p| ==> p[i] != p[j]
  {
    var s := Run(s0, events);
    ReachableInvariant(s0, events);
    forall i, j | 0 <= i < j < |p|
      ensures p[i] != p[j]
    {
      CloserAlong(s, o, p, i, j);
    }
  }

  /** Continues a route from n, given nodes already passed, all farther from o than n. */
  lemma {:induction false} RouteFrom(s: Net, o: string, n: string, passed: set<string>) returns (p: seq<string>)
    requires Invariant(s) && o != "" && n in s.nodes && o in s.nodes[n].nextHops
    requires passed <= s.nodes.Keys
    requires forall v :: v in passed ==> o in s.nodes[v].lastSeqnSeen && (v, o) in s.adopted && Closer(s, o, n, v)
    ensures Follows(s, o, p) && p[0] == n && s.nodes[p[|p| - 1]].me == o
    decreases s.nodes.Keys - passed
  {
    assert NodeSound(s, n) && EntrySound(s, n, o);
    var f := s.nodes[n].nextHops[o];
    if s.nodes[f].me == o {
      p := [n, f];
    } else {
      assert n !in passed;
      assert NodeSound(s, f);
      var rest := RouteFrom(s, o, f, passed + {n});
      p := [n] + rest;
    }
  }

  /** Reachability: in every reachable state, from any node with an entry for a real name o, the next
      hops lead to a node named o. */
  lemma RoutesReachTheirDestination(s0: Net, events: seq<Event>, o: string, n: string) returns (p: seq<string>)
    requires Init(s0) && o != ""
    requires var s := Run(s0, events); n in s.nodes && o in s.nodes[n].nextHops
    ensures var s := Run(s0, events);
            && Follows(s, o, p) && p[0] == n && s.nodes[p[|p| - 1]].me == o
            && |p| <= |s.nodes|
  {
    var s := Run(s0, events);
    ReachableInvariant(s0, events);
    p := RouteFrom(s, o, n, {});
    RoutesNeverLoop(s0, events, o, p);
    DistinctFits(p, s.nodes.Keys);
  }

  lemma {:induction false} DistinctFits(p: seq<string>, nodes: set<string>)
    requires forall i :: 0 <= i < |p| ==> p[i] in nodes
    requires forall i, j :: 0 <= i < j < |p| ==> p[i] != p[j]
    ensures |p| <= |nodes|
  {
    if p != [] {
      var front, x := p[..|p| - 1], p[|p| - 1];
      DistinctFits(front, nodes - {x});
    }
  }

  // ------------------------------------------------------------- how routes come about

  /** A message of o with this number is news to the node, and would move its route to o. */
  predicate NewTo(n: State, o: string, id: int) {
    n.me != o && RumorKey(o, id) !in n.msgsSeen && (o in n.lastSeqnSeen ==> id > n.lastSeqnSeen[o])
  }

  /** The path can carry the next message of its first node: to nodes that are all different and do not know it. */
  ghost predicate Carries(s: Net, p: seq<string>) {
    && |p| >= 2 && (forall i :: 0 <= i < |p| ==> p[i] in s.nodes)
    && (forall i, j :: 0 <= i < j < |p| ==> p[i] != p[j])
    && (forall i :: 1 <= i < |p| ==> NewTo(s.nodes[p[i]], s.nodes[p[0]].me, s.nodes[p[0]].clientNextID))
  }

  /** The node has stored the message and routes its origin to f. */
  ghost predicate RoutesBack(t: Net, n: string, o: string, id: int, text: string, f: string) {
    && n in t.nodes && o in t.nodes[n].nextHops && t.nodes[n].nextHops[o] == f
    && RumorKey(o, id) in t.nodes[n].msgsSeen && t.nodes[n].msgsSeen[RumorKey(o, id)] == text
  }

  /** From s, the first node's message has come as far as p[k], which has passed it on. */
  ghost predicate Carried(s: Net, t: Net, p: seq<string>, text: string, k: nat)
    requires Carries(s, p) && k < |p|
  {
    var o, id := s.nodes[p[0]].me, s.nodes[p[0]].clientNextID;
    && (forall i :: 1 <= i <= k ==> RoutesBack(t, p[i], o, id, text, p[i - 1]))
    && (forall i :: k < i < |p| ==> p[i] in t.nodes && t.nodes[p[i]] == s.nodes[p[i]])
    && (k + 1 < |p| ==> Hop(p[k], p[k + 1], Rumor(o, id, text, if k == 0 then None else Some(p[k - 1]))) in t.messages)
  }

  /** A new message lays routes: if it is handed on along a path of nodes to which it is news, each of them ends up
      with the message and with a route to its origin that leads back along the path. */
  lemma {:induction false} MessageLaysRoute(s: Net, p: seq<string>, text: string, k: nat) returns (events: seq<Event>)
    requires Carries(s, p) && text != "" && k < |p|
    ensures Carried(s, Run(s, events), p, text, k)
  {
    if k == 0 {
      var e := ClientSends(p[0], text, p[1]);
      events := [e];
      assert Run(s, events[..0]) == s;
      assert ClientRumor(s.nodes[p[0]], text) == Rumor(s.nodes[p[0]].me, s.nodes[p[0]].clientNextID, text, None);
    } else {
      var before := MessageLaysRoute(s, p, text, k - 1);
      var t := Run(s, before);
      var hop := Hop(p[k - 1], p[k], Rumor(s.nodes[p[0]].me, s.nodes[p[0]].clientNextID, text,
                                           if k == 1 then None else Some(p[k - 2])));
      var e := Deliver(hop, if k + 1 < |p| then p[k + 1] else p[k]);
      events := before + [e];
      assert events[..|events| - 1] == before;
      CarriedOn(s, t, p, text, k, hop, Step(t, e));
    }
  }

  lemma CarriedOn(s: Net, t: Net, p: seq<string>, text: string, k: nat, hop: Hop, t': Net)
    requires Carries(s, p) && text != "" && 1 <= k < |p| && Carried(s, t, p, text, k - 1)
    requires hop == Hop(p[k - 1], p[k], Rumor(s.nodes[p[0]].me, s.nodes[p[0]].clientNextID, text,
                                              if k == 1 then None else Some(p[k - 2])))
    requires t' == Step(t, Deliver(hop, if k + 1 < |p| then p[k + 1] else p[k]))
    ensures Carried(s, t', p, text, k)
  {
    var o, id := s.nodes[p[0]].me, s.nodes[p[0]].clientNextID;
    assert hop in t.messages && t.nodes[p[k]] == s.nodes[p[k]];
    RumorIsTaken(t.nodes[p[k]], hop.rumor, p[k - 1]);
    assert t'.nodes == t.nodes[p[k] := OnRumor(t.nodes[p[k]], hop.rumor, p[k - 1])];
    forall i | 1 <= i <= k
      ensures RoutesBack(t', p[i], o, id, text, p[i - 1])
    {
      assert i < k ==> RoutesBack(t, p[i], o, id, text, p[i - 1]);
    }
  }

  /** So along the whole path: following next hops from its last node leads back over it to the origin. */
  lemma RouteLeadsBack(s: Net, p: seq<string>, text: string) returns (events: seq<Event>)
    requires Carries(s, p) && text != ""
    ensures var t := Run(s, events); var o := s.nodes[p[0]].me;
            forall i :: 1 <= i < |p| ==> RoutesBack(t, p[i], o, s.nodes[p[0]].clientNextID, text, p[i - 1])
  {
    events := MessageLaysRoute(s, p, text, |p| - 1);
  }
}
