/** Soundness of the vector clock in every run, and what comparing two clocks decides. */
module VectorClocks {
  import opened Bytes
  import opened Gossip

  ghost predicate UniqueOrigins(want: VectorClock) {
    forall i, j :: 0 <= i < j < |want| ==> want[i].identifier != want[j].identifier
  }

  /** Messages 1..n-1 of this origin are stored. */
  ghost predicate StoredBelow(seen: map<RumorKey, string>, origin: string, n: int) {
    forall k :: 1 <= k < n ==> RumorKey(origin, k) in seen
  }

  /** NextID n of an origin promises that its messages 1..n-1 are stored. */
  ghost predicate ClockSound(want: VectorClock, seen: map<RumorKey, string>) {
    && UniqueOrigins(want)
    && (forall i :: 0 <= i < |want| ==> want[i].nextID >= 1 && StoredBelow(seen, want[i].identifier, want[i].nextID))
  }

  lemma FindInUnique(want: VectorClock, i: nat)
    requires UniqueOrigins(want) && i < |want|
    ensures FindPeerStatus(want, want[i].identifier) == i
  {
  }

  lemma UpdatedClockEntries(want: VectorClock, r: Rumor)
    requires UniqueOrigins(want)
    ensures UniqueOrigins(UpdatedClock(want, r))
    ensures NextOf(UpdatedClock(want, r), r.origin) ==
            if r.id == NextOf(want, r.origin) then r.id + 1 else NextOf(want, r.origin)
    ensures Lists(UpdatedClock(want, r), r.origin)
    ensures forall o :: o != r.origin ==>
      Lists(UpdatedClock(want, r), o) == Lists(want, o) && NextOf(UpdatedClock(want, r), o) == NextOf(want, o)
  {
    var w := UpdatedClock(want, r);
    var i := FindPeerStatus(want, r.origin);
    assert i == -1 ==> w[|want|].identifier == r.origin;
    assert i != -1 ==> w[i].identifier == r.origin;
    FindInUnique(w, if i == -1 then |want| else i);
    forall o | o != r.origin
      ensures Lists(w, o) == Lists(want, o) && NextOf(w, o) == NextOf(want, o)
    {
      var j := FindPeerStatus(want, o);
      if j != -1 {
        assert w[j] == want[j];
        FindInUnique(w, j);
      }
    }
  }

  lemma UpdateKeepsSound(want: VectorClock, seen: map<RumorKey, string>, r: Rumor, seen': map<RumorKey, string>)
    requires ClockSound(want, seen)
    requires seen'.Keys == seen.Keys + {Key(r)}
    ensures ClockSound(UpdatedClock(want, r), seen')
  {
    UpdatedClockEntries(want, r);
    assert forall i :: 0 <= i < |want| ==> StoredBelow(seen', want[i].identifier, want[i].nextID);
  }

  /** What reaches a node's rumor handlers. */
  datatype Input = FromPeer(rumor: Rumor, from: string) | FromClient(text: string)

  function Process(s: State, i: Input): State {
    match i
    case FromPeer(r, from) => OnRumor(s, r, from)
    case FromClient(text) => OnClientRumor(s, text)
  }

  function ProcessAll(s: State, inputs: seq<Input>): State {
    if inputs == [] then s else Process(ProcessAll(s, inputs[..|inputs| - 1]), inputs[|inputs| - 1])
  }

  function Fresh(me: string): State {
    State(me, [], map[], 1, map[], map[])
  }

  /** In every run and any delivery order the clock stays sound, with one entry per origin. */
  lemma {:induction false} ClockAlwaysSound(me: string, inputs: seq<Input>)
    ensures ClockSound(ProcessAll(Fresh(me), inputs).want, ProcessAll(Fresh(me), inputs).msgsSeen)
  {
    if inputs != [] {
      var s := ProcessAll(Fresh(me), inputs[..|inputs| - 1]);
      ClockAlwaysSound(me, inputs[..|inputs| - 1]);
      match inputs[|inputs| - 1]
      case FromPeer(rumor, from) =>
        var r := OverwriteLast(rumor, from);
        if r.text != "" && Key(r) !in s.msgsSeen {
          UpdateKeepsSound(s.want, s.msgsSeen, r, s.msgsSeen[Key(r) := r.text]);
        }
      case FromClient(text) =>
        UpdateKeepsSound(s.want, s.msgsSeen, ClientRumor(s, text), OnClientRumor(s, text).msgsSeen);
    }
  }

  /** The texts a client gave, in order. */
  function ClientTexts(inputs: seq<Input>): seq<string> {
    if inputs == [] then []
    else
      var rest := ClientTexts(inputs[..|inputs| - 1]);
      match inputs[|inputs| - 1]
      case FromPeer(_, _) => rest
      case FromClient(text) => rest + [text]
  }

  /** Exactly these texts are stored under the node's own name, numbered from 1. */
  ghost predicate Numbered(s: State, texts: seq<string>) {
    && s.clientNextID == |texts| + 1 && NextOf(s.want, s.me) == s.clientNextID
    && (forall k :: RumorKey(s.me, k) in s.msgsSeen <==> 1 <= k <= |texts|)
    && (forall k :: 1 <= k <= |texts| ==> s.msgsSeen[RumorKey(s.me, k)] == texts[k - 1])
  }

  lemma NumberedStep(s: State, texts: seq<string>, i: Input)
    requires UniqueOrigins(s.want) && Numbered(s, texts)
    requires i.FromPeer? ==> i.rumor.origin != s.me
    ensures Process(s, i).me == s.me
    ensures Numbered(Process(s, i), if i.FromClient? then texts + [i.text] else texts)
  {
    match i
    case FromPeer(rumor, from) =>
      UpdatedClockEntries(s.want, OverwriteLast(rumor, from));
    case FromClient(text) =>
      UpdatedClockEntries(s.want, ClientRumor(s, text));
  }

  /** A node numbers its clients' messages 1, 2, 3, ... and stores each text under its number, as long as
      nobody else sends under its name. */
  lemma {:induction false} ClientMessagesAreNumbered(me: string, inputs: seq<Input>)
    requires forall i :: 0 <= i < |inputs| && inputs[i].FromPeer? ==> inputs[i].rumor.origin != me
    ensures var s := ProcessAll(Fresh(me), inputs); var texts := ClientTexts(inputs);
            s.me == me && Numbered(s, texts)
  {
    if inputs != [] {
      var s := ProcessAll(Fresh(me), inputs[..|inputs| - 1]);
      ClientMessagesAreNumbered(me, inputs[..|inputs| - 1]);
      ClockAlwaysSound(me, inputs[..|inputs| - 1]);
      NumberedStep(s, ClientTexts(inputs[..|inputs| - 1]), inputs[|inputs| - 1]);
    }
  }

  // ------------------------------------------------------------------- comparison

  /** The clocks are equal as maps from origins to next ids. */
  ghost predicate SameClock(a: VectorClock, b: VectorClock) {
    forall o: string :: Lists(a, o) == Lists(b, o) && NextOf(a, o) == NextOf(b, o)
  }

  /** Two nodes are reported in sync exactly when their clocks are equal as maps. */
  lemma InSyncIffSameClock(s: State, theirs: VectorClock)
    requires UniqueOrigins(s.want)
    ensures Compare(s, theirs) == Comparison(false, None) <==> SameClock(s.want, theirs)
  {
    var mine := s.want;
    if Compare(s, theirs) == Comparison(false, None) {
      assert FirstBehind(mine, theirs) == |mine|;
      forall o: string
        ensures Lists(mine, o) == Lists(theirs, o) && NextOf(mine, o) == NextOf(theirs, o)
      {
        var i, j := FindPeerStatus(mine, o), FindPeerStatus(theirs, o);
        assert i != -1 ==> !Behind(theirs, mine[i]) && !(mine[i].nextID < NextOf(theirs, mine[i].identifier));
        assert j != -1 ==> Lists(mine, theirs[j].identifier);
      }
    }
    if SameClock(mine, theirs) {
      forall j | 0 <= j < |mine|
        ensures !Behind(theirs, mine[j]) && mine[j].nextID == NextOf(theirs, mine[j].identifier)
      {
        FindInUnique(mine, j);
        assert Lists(mine, mine[j].identifier);
      }
      FirstBehindIs(mine, theirs, |mine|);
    }
  }

  /** With nothing to send, the report that something is missing here is exact. */
  lemma MissingIsExactWhenNothingToSend(s: State, theirs: VectorClock)
    requires UniqueOrigins(s.want) && Compare(s, theirs).toSend.None?
    ensures Compare(s, theirs).someNotSeen <==>
            exists o: string :: (Lists(theirs, o) && !Lists(s.want, o)) || NextOf(s.want, o) < NextOf(theirs, o)
  {
    var mine := s.want;
    assert FirstBehind(mine, theirs) == |mine|;
    if Compare(s, theirs).someNotSeen {
      if AheadWithin(mine, theirs, |mine|) {
        var j :| 0 <= j < |mine| && mine[j].nextID < NextOf(theirs, mine[j].identifier);
        FindInUnique(mine, j);
        assert NextOf(mine, mine[j].identifier) < NextOf(theirs, mine[j].identifier);
      } else {
        var j :| 0 <= j < |theirs| && !Lists(mine, theirs[j].identifier);
        assert Lists(theirs, theirs[j].identifier);
      }
    }
    if o: string :| (Lists(theirs, o) && !Lists(mine, o)) || NextOf(mine, o) < NextOf(theirs, o) {
      var i, j := FindPeerStatus(mine, o), FindPeerStatus(theirs, o);
      if i == -1 {
        assert theirs[j].identifier == o;
        assert UnknownWithin(mine, theirs, |theirs|);
      } else {
        assert mine[i].nextID < NextOf(theirs, mine[i].identifier);
      }
    }
  }

  /** Whatever is sent: an origin only the other lists is always reported missing; an own entry on which the other is
      ahead is, if nothing up to it is to be sent; and nothing is reported missing unless the other is ahead on, or
      alone in listing, some origin. */
  lemma MissingReported(s: State, theirs: VectorClock)
    ensures (exists o: string :: Lists(theirs, o) && !Lists(s.want, o)) ==> Compare(s, theirs).someNotSeen
    ensures forall i :: 0 <= i < |s.want| && OtherAhead(s.want, theirs, i) && NothingBefore(s.want, theirs, i) ==>
              Compare(s, theirs).someNotSeen
    ensures Compare(s, theirs).someNotSeen ==>
              || (exists o: string :: Lists(theirs, o) && !Lists(s.want, o))
              || (exists i :: 0 <= i < |s.want| && OtherAhead(s.want, theirs, i))
  {
    CompareDecidesMissing(s.want, theirs);
    if o: string :| Lists(theirs, o) && !Lists(s.want, o) {
      var j := FindPeerStatus(theirs, o);
      assert !Lists(s.want, theirs[j].identifier);
    }
    if OtherListsMore(s.want, theirs) {
      var j :| 0 <= j < |theirs| && !Lists(s.want, theirs[j].identifier);
      assert Lists(theirs, theirs[j].identifier);
    }
  }

  ghost predicate Positive(want: VectorClock) {
    forall i :: 0 <= i < |want| ==> want[i].nextID >= 1
  }

  /** A message chosen for the other node, from an origin with NextID at least 2, is stored here and is
      the very one the other wants next. From an origin with NextID 1 the zero rumor may be sent. */
  lemma ChosenIsStoredAndWanted(s: State, theirs: VectorClock)
    requires ClockSound(s.want, s.msgsSeen) && Positive(theirs)
    requires Compare(s, theirs).toSend.Some?
    ensures var e := s.want[FirstBehind(s.want, theirs)];
            var r := Compare(s, theirs).toSend.value;
            var key := RumorKey(e.identifier, NextOf(theirs, e.identifier));
            && Behind(theirs, e)
            && (e.nextID >= 2 ==> key in s.msgsSeen && r == Rumor(key.origin, key.id, s.msgsSeen[key], None))
            && (key !in s.msgsSeen ==> e.nextID == 1 && r == Rumor("", 0, "", None))
  {
    var e := s.want[FirstBehind(s.want, theirs)];
    assert StoredBelow(s.msgsSeen, e.identifier, e.nextID);
  }

  // -------------------------------------------------------------------- exactness

  /** NextID is the least unseen id: stored ids of every origin are exactly 1..NextID-1. */
  ghost predicate Exact(want: VectorClock, seen: map<RumorKey, string>) {
    && UniqueOrigins(want)
    && (forall i :: 0 <= i < |want| ==> want[i].nextID >= 2)
    && (forall k :: k in seen <==> 1 <= k.id < NextOf(want, k.origin))
  }

  /** Accepting a new message keeps the clock exact exactly when it is the next one of its origin. */
  lemma ExactIffInOrder(want: VectorClock, seen: map<RumorKey, string>, r: Rumor, seen': map<RumorKey, string>)
    requires Exact(want, seen) && Key(r) !in seen && r.id >= 1
    requires seen'.Keys == seen.Keys + {Key(r)}
    ensures Exact(UpdatedClock(want, r), seen') <==> r.id == NextOf(want, r.origin)
  {
    UpdatedClockEntries(want, r);
    var w := UpdatedClock(want, r);
    if r.id == NextOf(want, r.origin) {
      forall i | 0 <= i < |w|
        ensures w[i].nextID >= 2
      {
        FindInUnique(w, i);
      }
      forall k
        ensures k in seen' <==> 1 <= k.id < NextOf(w, k.origin)
      {
        assert k in seen <==> 1 <= k.id < NextOf(want, k.origin);
      }
    } else {
      assert Key(r) in seen';
      assert Key(r) in seen <==> 1 <= r.id < NextOf(want, r.origin);
    }
  }

  lemma ProcessSnoc(s: State, inputs: seq<Input>, i: Input)
    ensures ProcessAll(s, inputs + [i]) == Process(ProcessAll(s, inputs), i)
  {
    assert (inputs + [i])[..|inputs|] == inputs;
  }

  /** Delivered in the order 1, 3, 2, an origin is left at NextID 3 although message 3 is stored. */
  lemma OutOfOrderIsNotExact(me: string, o: string, text: string, from: string)
    requires text != ""
    ensures var inputs := [FromPeer(Rumor(o, 1, text, None), from)] + [FromPeer(Rumor(o, 3, text, None), from)]
                          + [FromPeer(Rumor(o, 2, text, None), from)];
            var s := ProcessAll(Fresh(me), inputs);
            s.want == [PeerStatus(o, 3)] && RumorKey(o, 3) in s.msgsSeen
  {
    var i1, i3, i2 := FromPeer(Rumor(o, 1, text, None), from), FromPeer(Rumor(o, 3, text, None), from), FromPeer(Rumor(o, 2, text, None), from);
    ProcessSnoc(Fresh(me), [], i1);
    assert [] + [i1] == [i1];
    ProcessSnoc(Fresh(me), [i1], i3);
    ProcessSnoc(Fresh(me), [i1] + [i3], i2);
    NewRumor(Fresh(me), i1);
    NewRumor(Process(Fresh(me), i1), i3);
    NewRumor(Process(Process(Fresh(me), i1), i3), i2);
  }

  /** Clock and store after a new rumor with a text. */
  lemma NewRumor(s: State, i: Input)
    requires i.FromPeer? && i.rumor.text != "" && Key(i.rumor) !in s.msgsSeen
    ensures Process(s, i).want == UpdatedClock(s.want, OverwriteLast(i.rumor, i.from))
    ensures Process(s, i).msgsSeen == s.msgsSeen[Key(i.rumor) := i.rumor.text]
  {
  }
}
