/** A gossiping node's rumor state: vector clock, message store and routing table. */
module Gossip {
  import opened Bytes

  /** lastAddress stands for LastIP and LastPort, which are always set together. */
  datatype Rumor = Rumor(origin: string, id: int, text: string, lastAddress: Option<string>)

  datatype RumorKey = RumorKey(origin: string, id: int)

  datatype PeerStatus = PeerStatus(identifier: string, nextID: int)

  type VectorClock = seq<PeerStatus>

  datatype State = State(
    me: string,
    want: VectorClock,
    msgsSeen: map<RumorKey, string>,
    clientNextID: int,
    lastSeqnSeen: map<string, int>,
    nextHops: map<string, string>)

  datatype Comparison = Comparison(someNotSeen: bool, toSend: Option<Rumor>)

  // ------------------------------------------------------------- specification

  function Key(r: Rumor): RumorKey {
    RumorKey(r.origin, r.id)
  }

  /** The first position of origin in the clock, -1 if it is not listed. */
  function FindPeerStatus(want: VectorClock, origin: string): (i: int)
    ensures -1 <= i < |want|
    ensures i >= 0 ==> want[i].identifier == origin
    ensures i == -1 ==> forall j :: 0 <= j < |want| ==> want[j].identifier != origin
    ensures forall j :: 0 <= j < i ==> want[j].identifier != origin
  {
    if want == [] then -1
    else if want[0].identifier == origin then 0
    else
      var i := FindPeerStatus(want[1..], origin);
      if i == -1 then -1 else i + 1
  }

  function UpdatedClock(want: VectorClock, r: Rumor): VectorClock {
    var i := FindPeerStatus(want, r.origin);
    if i == -1 then want + [PeerStatus(r.origin, if r.id == 1 then 2 else 1)]
    else if r.id == want[i].nextID then want[i := want[i].(nextID := want[i].nextID + 1)]
    else want
  }

  predicate IsDirectRoute(r: Rumor) {
    r.text == "" && r.lastAddress.None?
  }

  predicate UpdatesRoute(s: State, r: Rumor) {
    && r.origin != s.me
    && (r.origin in s.lastSeqnSeen ==>
         r.id > s.lastSeqnSeen[r.origin] || (r.id == s.lastSeqnSeen[r.origin] && IsDirectRoute(r)))
  }

  function RoutingUpdated(s: State, r: Rumor, from: string): State {
    if UpdatesRoute(s, r) then
      s.(lastSeqnSeen := s.lastSeqnSeen[r.origin := r.id], nextHops := s.nextHops[r.origin := from])
    else s
  }

  /** A stored message, or Go's zero rumor if it is not stored. */
  function GetMsg(msgsSeen: map<RumorKey, string>, origin: string, id: int): Rumor {
    if RumorKey(origin, id) in msgsSeen then Rumor(origin, id, msgsSeen[RumorKey(origin, id)], None)
    else Rumor("", 0, "", None)
  }

  function OverwriteLast(r: Rumor, from: string): Rumor {
    r.(lastAddress := Some(from))
  }

  /** An empty text marks a routing message; other rumors count once. */
  function OnRumor(s: State, rumor: Rumor, from: string): State {
    var r := OverwriteLast(rumor, from);
    if r.text == "" then RoutingUpdated(s, r, from)
    else if Key(r) in s.msgsSeen then s
    else
      var t := RoutingUpdated(s, r, from);
      t.(want := UpdatedClock(t.want, r), msgsSeen := t.msgsSeen[Key(r) := r.text])
  }

  function ClientRumor(s: State, text: string): Rumor {
    Rumor(s.me, s.clientNextID, text, None)
  }

  function OnClientRumor(s: State, text: string): State {
    var r := ClientRumor(s, text);
    s.(clientNextID := s.clientNextID + 1,
       want := UpdatedClock(s.want, r),
       msgsSeen := if Key(r) in s.msgsSeen then s.msgsSeen else s.msgsSeen[Key(r) := text])
  }

  /** The last hop of a rumor becomes a peer unless it is one, or this node. */
  function PeersWith(peers: seq<string>, address: string, last: Option<string>): seq<string> {
    if last.Some? && last.value !in peers && last.value != address then peers + [last.value] else peers
  }

  /** The peers gained are exactly the last hop, if it is another address than this node's; none is lost. */
  ghost predicate LearnsPeer(before: seq<string>, after: seq<string>, address: string, last: Option<string>) {
    && before <= after
    && (forall x :: x in after <==> x in before || (last == Some(x) && x != address))
    && (forall i, j :: |before| <= i < |after| && 0 <= j < i ==> after[i] != after[j])
  }

  /** So a node never comes to list itself, and nobody twice. */
  lemma LastHopIsLearnt(peers: seq<string>, address: string, last: Option<string>)
    ensures LearnsPeer(peers, PeersWith(peers, address, last), address, last)
  {
  }

  /** When a rumor changes a route, spelled out: never that to the node itself; else if its origin is new, its number
      later, or its number the same and it is a routing message straight from its origin. */
  lemma RouteChangesIff(s: State, r: Rumor, from: string)
    ensures var t := RoutingUpdated(s, r, from);
            var changes := r.origin != s.me && (r.origin in s.lastSeqnSeen ==>
              r.id > s.lastSeqnSeen[r.origin]
              || (r.id == s.lastSeqnSeen[r.origin] && r.text == "" && r.lastAddress == None));
            && (!changes ==> t == s)
            && (changes ==> r.origin in t.nextHops && t.nextHops[r.origin] == from && r.origin in t.lastSeqnSeen
                            && t.lastSeqnSeen[r.origin] == r.id)
            && (forall o :: o != r.origin ==> (o in t.nextHops <==> o in s.nextHops))
            && (forall o :: o != r.origin && o in t.nextHops ==> t.nextHops[o] == s.nextHops[o])
  {
  }

  /** What a rumor from `from` does to the state before, spelled out: one with a text that is already stored does
      nothing; any other sets the route to its origin, if that is not the node itself and the number is later than
      the last one seen from it (the last hop is already overwritten, so it never counts as straight from its
      origin); one with a text is stored as well. */
  ghost predicate RumorTaken(before: State, after: State, rumor: Rumor, from: string) {
    var known := rumor.text != "" && Key(rumor) in before.msgsSeen;
    var later := rumor.origin in before.lastSeqnSeen ==> rumor.id > before.lastSeqnSeen[rumor.origin];
    && (known ==> after == before)
    && after.me == before.me && after.clientNextID == before.clientNextID
    && after.msgsSeen == (if known || rumor.text == "" then before.msgsSeen
                          else before.msgsSeen[RumorKey(rumor.origin, rumor.id) := rumor.text])
    && (rumor.text == "" ==> after.want == before.want)
    && (if !known && rumor.origin != before.me && later then
          && after.nextHops == before.nextHops[rumor.origin := from]
          && after.lastSeqnSeen == before.lastSeqnSeen[rumor.origin := rumor.id]
        else
          after.nextHops == before.nextHops && after.lastSeqnSeen == before.lastSeqnSeen)
  }

  lemma RumorIsTaken(s: State, rumor: Rumor, from: string)
    ensures RumorTaken(s, OnRumor(s, rumor, from), rumor, from)
  {
    RouteChangesIff(s, OverwriteLast(rumor, from), from);
  }

  predicate Lists(want: VectorClock, origin: string) {
    FindPeerStatus(want, origin) != -1
  }

  /** The id the clock's owner wants next from this origin; nothing heard counts as wanting 1. */
  function NextOf(want: VectorClock, origin: string): int {
    var i := FindPeerStatus(want, origin);
    if i == -1 then 1 else want[i].nextID
  }

  /** The owner of `theirs` lacks something this entry's owner has, or has never heard of the origin. */
  predicate Behind(theirs: VectorClock, s: PeerStatus) {
    !Lists(theirs, s.identifier) || s.nextID > NextOf(theirs, s.identifier)
  }

  /** The first entry the other is behind on, or the length. */
  function FirstBehind(mine: VectorClock, theirs: VectorClock): (k: nat)
    ensures k <= |mine|
    ensures forall j :: 0 <= j < k ==> !Behind(theirs, mine[j])
    ensures k < |mine| ==> Behind(theirs, mine[k])
  {
    if mine == [] || Behind(theirs, mine[0]) then 0 else 1 + FirstBehind(mine[1..], theirs)
  }

  /** Among the first k entries, one on which the other is ahead. */
  ghost predicate AheadWithin(mine: VectorClock, theirs: VectorClock, k: nat)
    requires k <= |mine|
  {
    exists j :: 0 <= j < k && mine[j].nextID < NextOf(theirs, mine[j].identifier)
  }

  /** Among the first k entries of the other clock, an origin never heard of here. */
  ghost predicate UnknownWithin(mine: VectorClock, theirs: VectorClock, k: nat)
    requires k <= |theirs|
  {
    exists j :: 0 <= j < k && !Lists(mine, theirs[j].identifier)
  }

  /** Something the other has is missing here, judged on the entries before the first one it is behind
      on and on origins never heard of here. */
  ghost predicate MissesSome(mine: VectorClock, theirs: VectorClock) {
    AheadWithin(mine, theirs, FirstBehind(mine, theirs)) || UnknownWithin(mine, theirs, |theirs|)
  }

  ghost function Compare(s: State, theirs: VectorClock): Comparison {
    var k := FirstBehind(s.want, theirs);
    Comparison(
      MissesSome(s.want, theirs),
      if k == |s.want| then None
      else Some(GetMsg(s.msgsSeen, s.want[k].identifier, NextOf(theirs, s.want[k].identifier))))
  }

  /** The other lists the origin of entry j of `mine` and wants nothing of it that `mine` covers. */
  ghost predicate NothingFor(mine: VectorClock, theirs: VectorClock, j: nat)
    requires j < |mine|
  {
    Lists(theirs, mine[j].identifier) && mine[j].nextID <= NextOf(theirs, mine[j].identifier)
  }

  ghost predicate OtherAhead(mine: VectorClock, theirs: VectorClock, j: nat)
    requires j < |mine|
  {
    Lists(theirs, mine[j].identifier) && mine[j].nextID < NextOf(theirs, mine[j].identifier)
  }

  ghost predicate NothingBefore(mine: VectorClock, theirs: VectorClock, i: nat)
    requires i <= |mine|
  {
    forall j :: 0 <= j < i ==> NothingFor(mine, theirs, j)
  }

  ghost predicate OtherListsMore(mine: VectorClock, theirs: VectorClock) {
    exists j :: 0 <= j < |theirs| && !Lists(mine, theirs[j].identifier)
  }

  ghost predicate OtherAheadFirst(mine: VectorClock, theirs: VectorClock) {
    exists i :: 0 <= i < |mine| && OtherAhead(mine, theirs, i) && NothingBefore(mine, theirs, i)
  }

  /** Something is missing here iff the other lists an origin not listed here, or is ahead on an own entry before
      which there is nothing to send. */
  ghost predicate MissingDecided(someNotSeen: bool, mine: VectorClock, theirs: VectorClock) {
    someNotSeen <==> OtherListsMore(mine, theirs) || OtherAheadFirst(mine, theirs)
  }

  /** A message is sent iff there is an own entry with something to send, and it is the one the other wants next of
      the first such entry. */
  ghost predicate SentDecided(toSend: Option<Rumor>, s: State, theirs: VectorClock) {
    && (toSend.None? <==> NothingBefore(s.want, theirs, |s.want|))
    && (forall i :: 0 <= i < |s.want| && NothingBefore(s.want, theirs, i) && !NothingFor(s.want, theirs, i) ==>
         toSend == Some(GetMsg(s.msgsSeen, s.want[i].identifier, NextOf(theirs, s.want[i].identifier))))
  }

  lemma NothingForIs(mine: VectorClock, theirs: VectorClock, j: nat)
    requires j < |mine|
    ensures NothingFor(mine, theirs, j) <==> !Behind(theirs, mine[j])
  {
  }

  lemma FirstBehindSplits(mine: VectorClock, theirs: VectorClock, i: nat)
    requires i <= |mine|
    ensures NothingBefore(mine, theirs, i) <==> i <= FirstBehind(mine, theirs)
  {
    var k := FirstBehind(mine, theirs);
    forall j | 0 <= j < k
      ensures NothingFor(mine, theirs, j)
    {
      NothingForIs(mine, theirs, j);
    }
    if k < |mine| {
      NothingForIs(mine, theirs, k);
    }
  }

  lemma AheadWithinMeans(mine: VectorClock, theirs: VectorClock)
    requires AheadWithin(mine, theirs, FirstBehind(mine, theirs))
    ensures OtherAheadFirst(mine, theirs)
  {
    var k := FirstBehind(mine, theirs);
    var i :| 0 <= i < k && mine[i].nextID < NextOf(theirs, mine[i].identifier);
    NothingForIs(mine, theirs, i);
    FirstBehindSplits(mine, theirs, i);
    assert OtherAhead(mine, theirs, i);
  }

  lemma AheadFirstMeans(mine: VectorClock, theirs: VectorClock)
    requires OtherAheadFirst(mine, theirs)
    ensures AheadWithin(mine, theirs, FirstBehind(mine, theirs))
  {
    var i :| 0 <= i < |mine| && OtherAhead(mine, theirs, i) && NothingBefore(mine, theirs, i);
    assert NothingBefore(mine, theirs, i + 1);
    FirstBehindSplits(mine, theirs, i + 1);
    assert mine[i].nextID < NextOf(theirs, mine[i].identifier);
  }

  lemma CompareDecidesMissing(mine: VectorClock, theirs: VectorClock)
    ensures MissingDecided(MissesSome(mine, theirs), mine, theirs)
  {
    if AheadWithin(mine, theirs, FirstBehind(mine, theirs)) {
      AheadWithinMeans(mine, theirs);
    }
    if OtherAheadFirst(mine, theirs) {
      AheadFirstMeans(mine, theirs);
    }
  }

  lemma CompareDecidesSent(s: State, theirs: VectorClock)
    ensures SentDecided(Compare(s, theirs).toSend, s, theirs)
  {
    var k := FirstBehind(s.want, theirs);
    FirstBehindSplits(s.want, theirs, |s.want|);
    forall i | 0 <= i < |s.want| && NothingBefore(s.want, theirs, i) && !NothingFor(s.want, theirs, i)
      ensures i == k
    {
      FirstBehindSplits(s.want, theirs, i);
      NothingForIs(s.want, theirs, i);
    }
  }

  // --------------------------------------------------------------------- class

  method FindStatus(want: VectorClock, origin: string) returns (i: int)
    ensures i == FindPeerStatus(want, origin)
  {
    var k := 0;
    while k < |want|
      invariant 0 <= k <= |want|
      invariant forall j :: 0 <= j < k ==> want[j].identifier != origin
    {
      if want[k].identifier == origin {
        return k;
      }
      k := k + 1;
    }
    return -1;
  }

  class GossipState {
    const me: string
    var want: VectorClock
    var msgsSeen: map<RumorKey, string>
    var clientNextID: int
    var lastSeqnSeen: map<string, int>
    var nextHops: map<string, string>
    const address: string
    /** Not part of the view: the addresses of known peers, and the rumors sent to a peer whose status is awaited. */
    var peers: seq<string>
    var pendingAcks: map<string, Rumor>

    ghost function View(): State
      reads this
    {
      State(me, want, msgsSeen, clientNextID, lastSeqnSeen, nextHops)
    }

    constructor (identifier: string, address: string, peers: seq<string>)
      ensures View() == State(identifier, [], map[], 1, map[], map[]) && pendingAcks == map[]
      ensures this.address == address && this.peers == peers
    {
      this.address, this.peers := address, peers;
      me, want, msgsSeen, clientNextID, lastSeqnSeen, nextHops := identifier, [], map[], 1, map[], map[];
      pendingAcks := map[];
    }

    method UpdateVectorClock(r: Rumor)
      modifies this`want
      ensures want == UpdatedClock(old(want), r)
    {
      var index := FindStatus(want, r.origin);
      if index == -1 {
        if r.id == 1 {
          want := want + [PeerStatus(r.origin, 2)];
        } else {
          want := want + [PeerStatus(r.origin, 1)];
        }
      } else {
        var status := want[index];
        if r.id == status.nextID {
          want := want[index := status.(nextID := status.nextID + 1)];
        }
      }
    }

    method AddMsgSeen(r: Rumor)
      modifies this`msgsSeen
      ensures msgsSeen == if Key(r) in old(msgsSeen) then old(msgsSeen) else old(msgsSeen)[Key(r) := r.text]
    {
      if Key(r) in msgsSeen {
        return;
      }
      msgsSeen := msgsSeen[Key(r) := r.text];
    }

    method UpdateRoutingTable(r: Rumor, from: string) returns (updated: bool)
      modifies this`lastSeqnSeen, this`nextHops
      ensures View() == RoutingUpdated(old(View()), r, from)
      ensures updated <==> UpdatesRoute(old(View()), r)
    {
      if r.origin == me {
        return false;
      }
      if r.origin !in lastSeqnSeen {
        lastSeqnSeen := lastSeqnSeen[r.origin := r.id];
        nextHops := nextHops[r.origin := from];
        return true;
      } else {
        var lastSeqN := lastSeqnSeen[r.origin];
        if r.id > lastSeqN || (r.id == lastSeqN && IsDirectRoute(r)) {
          lastSeqnSeen := lastSeqnSeen[r.origin := r.id];
          nextHops := nextHops[r.origin := from];
          return true;
        } else {
          return false;
        }
      }
    }

    method WaitForAck(r: Rumor, peer: string)
      modifies this`pendingAcks
      ensures pendingAcks == old(pendingAcks)[peer := r]
    {
      pendingAcks := pendingAcks[peer := r];
    }

    method AddPeerFromLast(r: Rumor)
      modifies this`peers
      ensures peers == PeersWith(old(peers), address, r.lastAddress)
    {
      if r.lastAddress.Some? {
        var a := r.lastAddress.value;
        if a !in peers && a != address {
          peers := peers + [a];
        }
      }
    }

    /** next: the peer picked at random; forward: the rumor passed on to it, if any; sendStatus: whether the sender
        gets this node's status. Only rumors with a text are waited on. */
    method ReceiveRumorFromPeer(rumor: Rumor, from: string, noForward: bool, next: string)
      returns (forward: Option<Rumor>, sendStatus: bool)
      modifies this
      ensures View() == OnRumor(old(View()), rumor, from)
      ensures RumorTaken(old(View()), View(), rumor, from)
      ensures forward == if rumor.text == "" || (Key(rumor) !in old(msgsSeen) && !noForward)
                         then Some(OverwriteLast(rumor, from)) else None
      // what is passed on is the rumor itself, with its sender as the last hop
      ensures forward.Some? ==> forward.value == Rumor(rumor.origin, rumor.id, rumor.text, Some(from))
      ensures pendingAcks == if rumor.text != "" && forward.Some? then old(pendingAcks)[next := forward.value]
                             else old(pendingAcks)
      ensures sendStatus <==> rumor.text != "" && forward.Some?
      ensures peers == PeersWith(old(peers), address, rumor.lastAddress)
      ensures LearnsPeer(old(peers), peers, address, rumor.lastAddress)
    {
      LastHopIsLearnt(peers, address, rumor.lastAddress);
      RumorIsTaken(View(), rumor, from);
      AddPeerFromLast(rumor);
      var r := OverwriteLast(rumor, from);
      if r.text == "" {
        var _ := UpdateRoutingTable(r, from);
        return Some(r), false;
      } else if Key(r) !in msgsSeen {
        var _ := UpdateRoutingTable(r, from);
        UpdateVectorClock(r);
        AddMsgSeen(r);
        if !noForward {
          WaitForAck(r, next);
          return Some(r), true;
        }
      }
      return None, false;
    }

    method ReceiveRumorFromClient(text: string, noForward: bool, next: string) returns (rumor: Rumor)
      modifies this`clientNextID, this`want, this`msgsSeen, this`pendingAcks
      ensures View() == OnClientRumor(old(View()), text)
      ensures rumor == ClientRumor(old(View()), text)
      ensures pendingAcks == if noForward then old(pendingAcks) else old(pendingAcks)[next := rumor]
    {
      rumor := Rumor(me, clientNextID, text, None);
      clientNextID := clientNextID + 1;
      UpdateVectorClock(rumor);
      AddMsgSeen(rumor);
      if !noForward {
        WaitForAck(rumor, next);
      }
    }

    method FetchMsg(origin: string, id: int) returns (r: Rumor)
      ensures r == GetMsg(msgsSeen, origin, id)
    {
      if RumorKey(origin, id) in msgsSeen {
        return Rumor(origin, id, msgsSeen[RumorKey(origin, id)], None);
      }
      return Rumor("", 0, "", None);
    }

    /** The loop over this node's own entries, left at the first one the other is behind on. */
    method CompareOwnEntries(vc: VectorClock) returns (someNotSeen: bool, notSeenByOther: Option<Rumor>)
      ensures var k := FirstBehind(want, vc);
              && (someNotSeen <==> AheadWithin(want, vc, k))
              && notSeenByOther == if k == |want| then None
                                   else Some(GetMsg(msgsSeen, want[k].identifier, NextOf(vc, want[k].identifier)))
    {
      someNotSeen := false;
      var i := 0;
      while i < |want|
        invariant 0 <= i <= |want|
        invariant forall j :: 0 <= j < i ==> !Behind(vc, want[j])
        invariant someNotSeen <==> AheadWithin(want, vc, i)
      {
        var s := want[i];
        var index := FindStatus(vc, s.identifier);
        if index == -1 {
          FirstBehindIs(want, vc, i);
          var r := FetchMsg(s.identifier, 1);
          return someNotSeen, Some(r);
        } else {
          var n := vc[index].nextID;
          if s.nextID < n {
            someNotSeen := true;
          } else if s.nextID > n {
            FirstBehindIs(want, vc, i);
            var r := FetchMsg(s.identifier, n);
            return someNotSeen, Some(r);
          }
        }
        i := i + 1;
      }
      FirstBehindIs(want, vc, i);
      return someNotSeen, None;
    }

    method CompareVectorClockWithOther(vc: VectorClock) returns (c: Comparison)
      ensures c == Compare(View(), vc)
      ensures MissingDecided(c.someNotSeen, want, vc) && SentDecided(c.toSend, View(), vc)
    {
      var someNotSeen, notSeenByOther := CompareOwnEntries(vc);
      ghost var ahead := someNotSeen;
      var k := 0;
      while k < |vc|
        invariant 0 <= k <= |vc|
        invariant someNotSeen <==> ahead || UnknownWithin(want, vc, k)
      {
        var index := FindStatus(want, vc[k].identifier);
        if index == -1 {
          someNotSeen := true;
        }
        k := k + 1;
      }
      c := Comparison(someNotSeen, notSeenByOther);
      ghost var s := View();
      CompareDecidesMissing(s.want, vc);
      CompareDecidesSent(s, vc);
    }

    /** What a peer's status is answered with: this node's own status, the rumor the peer wants next, or, in
        sync and with luck, one more round of mongering with the rumor the status acknowledges. */
    method ReceiveStatus(theirs: VectorClock, from: string, noForward: bool, coin: bool, next: string)
      returns (sendStatus: bool, reply: Option<Rumor>, monger: Option<Rumor>)
      modifies this`pendingAcks
      ensures var rest := old(pendingAcks) - {from};
              pendingAcks == if monger.Some? then rest[next := monger.value] else rest
      ensures var c := Compare(old(View()), theirs);
              && (sendStatus <==> c.someNotSeen && !noForward)
              && reply == (if noForward then None else c.toSend)
              && monger == if c == Comparison(false, None) && !noForward && coin && from in old(pendingAcks)
                           then Some(old(pendingAcks)[from]) else None
      // an origin never heard of here is asked for, whatever else is sent
      ensures OtherListsMore(want, theirs) && !noForward ==> sendStatus
    {
      var rumor: Option<Rumor> := None;
      if from in pendingAcks {
        rumor := Some(pendingAcks[from]);
        pendingAcks := pendingAcks - {from};
      }
      var c := CompareVectorClockWithOther(theirs);
      sendStatus, reply, monger := false, None, None;
      if c.someNotSeen && !noForward {
        sendStatus := true;
      }
      if c.toSend.Some? && !noForward {
        reply := c.toSend;
      }
      if !c.someNotSeen && c.toSend.None? && !noForward && coin {
        if rumor.Some? {
          WaitForAck(rumor.value, next);
        }
        monger := rumor;
      }
    }
  }

  lemma FirstBehindIs(mine: VectorClock, theirs: VectorClock, i: nat)
    requires i <= |mine| && forall j :: 0 <= j < i ==> !Behind(theirs, mine[j])
    requires i < |mine| ==> Behind(theirs, mine[i])
    ensures FirstBehind(mine, theirs) == i
  {
  }
}
