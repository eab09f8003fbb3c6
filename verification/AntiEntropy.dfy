/** Status exchange between two nodes: repeated compare-and-send brings both to the join of their states. */
module AntiEntropy {
  import opened Bytes
  import opened Gossip
  import opened VectorClocks

  datatype Pair = Pair(a: State, b: State)

  /** Who has just received the other's status and reacts to it. */
  datatype Turn = AReacts | BReacts

  function Swap(p: Pair): Pair {
    Pair(p.b, p.a)
  }

  /** A compares its clock with B's and sends what B is missing next, if anything; B handles it. */
  ghost function AReaction(p: Pair): Pair {
    match Compare(p.a, p.b.want).toSend
    case None => p
    case Some(r) => p.(b := OnRumor(p.b, r, p.a.me))
  }

  ghost function React(p: Pair, t: Turn): Pair {
    if t.AReacts? then AReaction(p) else Swap(AReaction(Swap(p)))
  }

  ghost predicate Sends(p: Pair, t: Turn) {
    if t.AReacts? then Compare(p.a, p.b.want).toSend.Some? else Compare(p.b, p.a.want).toSend.Some?
  }

  ghost function ReactAll(p: Pair, ts: seq<Turn>): Pair
    decreases ts
  {
    if ts == [] then p else ReactAll(React(p, ts[0]), ts[1..])
  }

  /** The number of rumors transferred. */
  ghost function Transfers(p: Pair, ts: seq<Turn>): nat
    decreases ts
  {
    if ts == [] then 0 else (if Sends(p, ts[0]) then 1 else 0) + Transfers(React(p, ts[0]), ts[1..])
  }

  // ------------------------------------------------------------ sums over origins

  ghost function Sum(s: set<string>, f: string -> nat): nat
    decreases s
  {
    if s == {} then 0 else var x :| x in s; f(x) + Sum(s - {x}, f)
  }

  lemma {:induction false} SumPick(s: set<string>, f: string -> nat, x: string)
    requires x in s
    ensures Sum(s, f) == f(x) + Sum(s - {x}, f)
    decreases s
  {
    var y :| y in s && Sum(s, f) == f(y) + Sum(s - {y}, f);
    if y != x {
      SumPick(s - {y}, f, x);
      SumPick(s - {x}, f, y);
      assert s - {y} - {x} == s - {x} - {y};
    }
  }

  lemma {:induction false} SumCongruence(s: set<string>, f: string -> nat, g: string -> nat)
    requires forall x :: x in s ==> f(x) == g(x)
    ensures Sum(s, f) == Sum(s, g)
    decreases s
  {
    if s != {} {
      var x :| x in s;
      SumPick(s, f, x);
      SumPick(s, g, x);
      SumCongruence(s - {x}, f, g);
    }
  }

  lemma SumLess(s: set<string>, f: string -> nat, g: string -> nat, x: string)
    requires x in s && f(x) == g(x) + 1
    requires forall y :: y in s && y != x ==> f(y) == g(y)
    ensures Sum(s, f) == Sum(s, g) + 1
  {
    SumPick(s, f, x);
    SumPick(s, g, x);
    SumCongruence(s - {x}, f, g);
  }

  lemma {:induction false} SumZero(s: set<string>, f: string -> nat)
    ensures Sum(s, f) == 0 <==> forall x :: x in s ==> f(x) == 0
    decreases s
  {
    if s != {} {
      var x :| x in s;
      SumPick(s, f, x);
      SumZero(s - {x}, f);
    }
  }

  // ------------------------------------------------------------------- the measure

  /** How far apart the two clocks are on an origin. */
  ghost function Gap(p: Pair): string -> nat {
    (o: string) =>
      var m, n := NextOf(p.a.want, o), NextOf(p.b.want, o);
      if m <= n then n - m else m - n
  }

  ghost function Distance(p: Pair, origins: set<string>): nat {
    Sum(origins, Gap(p))
  }

  /** Exact clocks and agreeing stores, whatever the texts. */
  ghost predicate Comparable(p: Pair) {
    && Exact(p.a.want, p.a.msgsSeen) && Exact(p.b.want, p.b.msgsSeen)
    && (forall k :: k in p.a.msgsSeen && k in p.b.msgsSeen ==> p.a.msgsSeen[k] == p.b.msgsSeen[k])
  }

  /** A has message k with an empty text and B lacks it. */
  ghost predicate Untransferable(p: Pair, k: RumorKey) {
    k in p.a.msgsSeen && p.a.msgsSeen[k] == "" && k !in p.b.msgsSeen
  }

  ghost predicate OriginsWithin(want: VectorClock, origins: set<string>) {
    forall i :: 0 <= i < |want| ==> want[i].identifier in origins
  }

  /** Every message that only one of the nodes has carries a text, and `origins` covers both clocks. */
  ghost predicate Regular(p: Pair, origins: set<string>) {
    && Comparable(p)
    && (forall k :: !Untransferable(p, k) && !Untransferable(Swap(p), k))
    && OriginsWithin(p.a.want, origins) && OriginsWithin(p.b.want, origins)
  }

  lemma SwapRegular(p: Pair, origins: set<string>)
    requires Regular(p, origins)
    ensures Regular(Swap(p), origins)
    ensures Distance(Swap(p), origins) == Distance(p, origins)
  {
    SumCongruence(origins, Gap(p), Gap(Swap(p)));
  }

  /** A node with an exact clock stores the next message of an origin and stays exact. */
  lemma AcceptNext(s: State, rumor: Rumor, from: string)
    requires Exact(s.want, s.msgsSeen) && rumor.text != "" && rumor.id == NextOf(s.want, rumor.origin)
    ensures var t := OnRumor(s, rumor, from);
            && Key(rumor) !in s.msgsSeen
            && t.msgsSeen == s.msgsSeen[Key(rumor) := rumor.text]
            && Exact(t.want, t.msgsSeen) && Lists(t.want, rumor.origin) && NextOf(t.want, rumor.origin) == rumor.id + 1
            && forall o :: o != rumor.origin ==> NextOf(t.want, o) == NextOf(s.want, o) && Lists(t.want, o) == Lists(s.want, o)
  {
    var r := OverwriteLast(rumor, from);
    var seen' := s.msgsSeen[Key(r) := r.text];
    ClockTakesNext(s.want, s.msgsSeen, r, seen');
    var routed := RoutingUpdated(s, r, from);
    assert routed.want == s.want && routed.msgsSeen == s.msgsSeen;
    assert OnRumor(s, rumor, from) == routed.(want := UpdatedClock(s.want, r), msgsSeen := seen');
  }

  lemma ClockTakesNext(want: VectorClock, seen: map<RumorKey, string>, r: Rumor, seen': map<RumorKey, string>)
    requires Exact(want, seen) && r.id == NextOf(want, r.origin) && seen'.Keys == seen.Keys + {Key(r)}
    ensures Key(r) !in seen && Exact(UpdatedClock(want, r), seen')
    ensures Lists(UpdatedClock(want, r), r.origin) && NextOf(UpdatedClock(want, r), r.origin) == r.id + 1
    ensures forall o :: o != r.origin ==>
      NextOf(UpdatedClock(want, r), o) == NextOf(want, o) && Lists(UpdatedClock(want, r), o) == Lists(want, o)
  {
    assert r.id >= 1;
    assert Key(r) in seen <==> 1 <= r.id < NextOf(want, r.origin);
    UpdatedClockEntries(want, r);
    ExactIffInOrder(want, seen, r, seen');
  }

  /** What A sends is the next message that B wants from some origin. */
  lemma WhatASends(p: Pair, origins: set<string>) returns (o: string)
    requires Regular(p, origins) && Sends(p, AReacts)
    ensures o in origins && 1 <= NextOf(p.b.want, o) < NextOf(p.a.want, o)
    ensures var key := RumorKey(o, NextOf(p.b.want, o));
            && key in p.a.msgsSeen && key !in p.b.msgsSeen && p.a.msgsSeen[key] != ""
            && Compare(p.a, p.b.want).toSend == Some(Rumor(o, key.id, p.a.msgsSeen[key], None))
  {
    var k := FirstBehind(p.a.want, p.b.want);
    o := p.a.want[k].identifier;
    FindInUnique(p.a.want, k);
    var key := RumorKey(o, NextOf(p.b.want, o));
    assert key.id >= 1;
    assert key in p.a.msgsSeen <==> 1 <= key.id < NextOf(p.a.want, key.origin);
    assert key in p.b.msgsSeen <==> 1 <= key.id < NextOf(p.b.want, key.origin);
    assert !Untransferable(p, key);
  }

  /** B then stores exactly that message. */
  lemma AReactionEffect(p: Pair, origins: set<string>) returns (o: string)
    requires Regular(p, origins) && Sends(p, AReacts)
    ensures o in origins && NextOf(p.b.want, o) < NextOf(p.a.want, o)
    ensures var key := RumorKey(o, NextOf(p.b.want, o)); var q := AReaction(p);
            && key in p.a.msgsSeen && key !in p.b.msgsSeen
            && q.a == p.a && q.b.msgsSeen == p.b.msgsSeen[key := p.a.msgsSeen[key]]
            && Exact(q.b.want, q.b.msgsSeen) && NextOf(q.b.want, o) == key.id + 1
            && (forall o' :: o' != o ==> NextOf(q.b.want, o') == NextOf(p.b.want, o') && Lists(q.b.want, o') == Lists(p.b.want, o'))
  {
    o := WhatASends(p, origins);
    AcceptNext(p.b, Compare(p.a, p.b.want).toSend.value, p.a.me);
  }

  lemma OriginsStayWithin(want: VectorClock, w: VectorClock, o: string, origins: set<string>)
    requires OriginsWithin(want, origins) && o in origins && UniqueOrigins(w)
    requires forall o' :: o' != o ==> Lists(w, o') == Lists(want, o')
    ensures OriginsWithin(w, origins)
  {
    forall i | 0 <= i < |w|
      ensures w[i].identifier in origins
    {
      FindInUnique(w, i);
      assert Lists(w, w[i].identifier);
      assert w[i].identifier != o ==> Lists(want, w[i].identifier);
    }
  }

  /** B takes over one of A's messages: the stores still agree and nothing becomes untransferable. */
  lemma StoreGrows(p: Pair, q: Pair, key: RumorKey)
    requires key in p.a.msgsSeen && q.a == p.a && q.b.msgsSeen == p.b.msgsSeen[key := p.a.msgsSeen[key]]
    requires forall k :: k in p.a.msgsSeen && k in p.b.msgsSeen ==> p.a.msgsSeen[k] == p.b.msgsSeen[k]
    requires forall k :: !Untransferable(p, k) && !Untransferable(Swap(p), k)
    ensures forall k :: k in q.a.msgsSeen && k in q.b.msgsSeen ==> q.a.msgsSeen[k] == q.b.msgsSeen[k]
    ensures forall k :: !Untransferable(q, k) && !Untransferable(Swap(q), k)
  {
    forall k
      ensures !Untransferable(q, k) && !Untransferable(Swap(q), k)
    {
      assert !Untransferable(p, k) && !Untransferable(Swap(p), k);
    }
  }

  lemma TransferKeepsRegular(p: Pair, q: Pair, o: string, origins: set<string>)
    requires Regular(p, origins) && o in origins
    requires var key := RumorKey(o, NextOf(p.b.want, o));
             key in p.a.msgsSeen && q.a == p.a && q.b.msgsSeen == p.b.msgsSeen[key := p.a.msgsSeen[key]]
    requires Exact(q.b.want, q.b.msgsSeen)
    requires forall o' :: o' != o ==> Lists(q.b.want, o') == Lists(p.b.want, o')
    ensures Regular(q, origins)
  {
    OriginsStayWithin(p.b.want, q.b.want, o, origins);
    StoreGrows(p, q, RumorKey(o, NextOf(p.b.want, o)));
  }

  /** One transfer, one step closer. */
  lemma TransferShortensDistance(p: Pair, q: Pair, o: string, origins: set<string>)
    requires o in origins && q.a == p.a
    requires NextOf(p.b.want, o) < NextOf(p.a.want, o) && NextOf(q.b.want, o) == NextOf(p.b.want, o) + 1
    requires forall o' :: o' != o ==> NextOf(q.b.want, o') == NextOf(p.b.want, o')
    ensures Distance(p, origins) == Distance(q, origins) + 1
  {
    assert forall x :: x != o ==> Gap(q)(x) == Gap(p)(x);
    SumLess(origins, Gap(p), Gap(q), o);
  }

  lemma AReactionKeepsRegular(p: Pair, origins: set<string>)
    requires Regular(p, origins)
    ensures Regular(AReaction(p), origins)
    ensures Distance(p, origins) == Distance(AReaction(p), origins) + (if Sends(p, AReacts) then 1 else 0)
  {
    if Sends(p, AReacts) {
      var o := AReactionEffect(p, origins);
      TransferKeepsRegular(p, AReaction(p), o, origins);
      TransferShortensDistance(p, AReaction(p), o, origins);
    }
  }

  lemma ReactKeepsRegular(p: Pair, t: Turn, origins: set<string>)
    requires Regular(p, origins)
    ensures Regular(React(p, t), origins)
    ensures Distance(p, origins) == Distance(React(p, t), origins) + (if Sends(p, t) then 1 else 0)
  {
    if t.AReacts? {
      AReactionKeepsRegular(p, origins);
    } else {
      SwapRegular(p, origins);
      AReactionKeepsRegular(Swap(p), origins);
      SwapRegular(AReaction(Swap(p)), origins);
    }
  }

  /** Every schedule of reactions transfers exactly as many rumors as the distance drops. */
  lemma {:induction false} TransfersAreDistance(p: Pair, ts: seq<Turn>, origins: set<string>)
    requires Regular(p, origins)
    ensures Regular(ReactAll(p, ts), origins)
    ensures Distance(p, origins) == Distance(ReactAll(p, ts), origins) + Transfers(p, ts)
    decreases ts
  {
    if ts != [] {
      ReactKeepsRegular(p, ts[0], origins);
      TransfersAreDistance(React(p, ts[0]), ts[1..], origins);
    }
  }

  // -------------------------------------------------------------- what is preserved

  ghost function Max(m: int, n: int): int {
    if m <= n then n else m
  }

  /** Joins of the two stores and clocks. */
  ghost predicate SameJoin(p: Pair, q: Pair) {
    && p.a.msgsSeen + p.b.msgsSeen == q.a.msgsSeen + q.b.msgsSeen
    && forall o: string :: Max(NextOf(p.a.want, o), NextOf(p.b.want, o)) == Max(NextOf(q.a.want, o), NextOf(q.b.want, o))
  }

  lemma AReactionKeepsJoin(p: Pair, origins: set<string>)
    requires Regular(p, origins)
    ensures SameJoin(p, AReaction(p))
  {
    if Sends(p, AReacts) {
      var o := AReactionEffect(p, origins);
      var q := AReaction(p);
      var key := RumorKey(o, NextOf(p.b.want, o));
      UnionAbsorbs(p.a.msgsSeen, p.b.msgsSeen, key);
      forall x: string
        ensures Max(NextOf(p.a.want, x), NextOf(p.b.want, x)) == Max(NextOf(q.a.want, x), NextOf(q.b.want, x))
      {
        assert x != o ==> NextOf(q.b.want, x) == NextOf(p.b.want, x);
      }
    }
  }

  lemma UnionAbsorbs(m: map<RumorKey, string>, n: map<RumorKey, string>, k: RumorKey)
    requires k in m && k !in n
    requires forall x :: x in m && x in n ==> m[x] == n[x]
    ensures m + n == m + n[k := m[k]]
  {
  }

  lemma UnionCommutes(p: Pair, origins: set<string>)
    requires Regular(p, origins)
    ensures p.a.msgsSeen + p.b.msgsSeen == p.b.msgsSeen + p.a.msgsSeen
  {
  }

  lemma ReactKeepsJoin(p: Pair, t: Turn, origins: set<string>)
    requires Regular(p, origins)
    ensures SameJoin(p, React(p, t))
  {
    if t.AReacts? {
      AReactionKeepsJoin(p, origins);
    } else {
      SwapRegular(p, origins);
      AReactionKeepsJoin(Swap(p), origins);
      UnionCommutes(p, origins);
      ReactKeepsRegular(p, t, origins);
      UnionCommutes(React(p, t), origins);
    }
  }

  lemma {:induction false} ReactAllKeepsJoin(p: Pair, ts: seq<Turn>, origins: set<string>)
    requires Regular(p, origins)
    ensures SameJoin(p, ReactAll(p, ts))
    decreases ts
  {
    if ts != [] {
      ReactKeepsJoin(p, ts[0], origins);
      ReactKeepsRegular(p, ts[0], origins);
      ReactAllKeepsJoin(React(p, ts[0]), ts[1..], origins);
    }
  }

  /** Neither node has anything left to send to the other. */
  ghost predicate Quiet(p: Pair) {
    !Sends(p, AReacts) && !Sends(p, BReacts)
  }

  /** Something left to send means some distance. */
  lemma SendingNeedsDistance(p: Pair, t: Turn, origins: set<string>)
    requires Regular(p, origins) && Sends(p, t)
    ensures Distance(p, origins) > 0
  {
    SumZero(origins, Gap(p));
    SwapRegular(p, origins);
    var o := WhatASends(if t.AReacts? then p else Swap(p), origins);
    assert Gap(p)(o) > 0;
  }

  lemma QuietClocks(p: Pair, origins: set<string>)
    requires Regular(p, origins) && Quiet(p)
    ensures SameClock(p.a.want, p.b.want)
  {
    forall o: string
      ensures NextOf(p.a.want, o) == NextOf(p.b.want, o) && Lists(p.a.want, o) == Lists(p.b.want, o)
    {
      EntriesNotBehind(p.a.want, p.b.want, o);
      EntriesNotBehind(p.b.want, p.a.want, o);
    }
  }

  lemma SameClockSameStore(p: Pair)
    requires Comparable(p) && SameClock(p.a.want, p.b.want)
    ensures p.a.msgsSeen == p.b.msgsSeen
  {
    forall k: RumorKey
      ensures k in p.a.msgsSeen <==> k in p.b.msgsSeen
    {
      assert NextOf(p.a.want, k.origin) == NextOf(p.b.want, k.origin);
    }
  }

  /** Nothing left to send means no distance, equal clocks, and equal stores. */
  lemma QuietIsInSync(p: Pair, origins: set<string>)
    requires Regular(p, origins)
    ensures Quiet(p) <==> Distance(p, origins) == 0
    ensures Quiet(p) ==> SameClock(p.a.want, p.b.want) && p.a.msgsSeen == p.b.msgsSeen
  {
    if Sends(p, AReacts) {
      SendingNeedsDistance(p, AReacts, origins);
    } else if Sends(p, BReacts) {
      SendingNeedsDistance(p, BReacts, origins);
    } else {
      QuietClocks(p, origins);
      SameClockSameStore(p);
      SumZero(origins, Gap(p));
    }
  }

  lemma EntriesNotBehind(mine: VectorClock, theirs: VectorClock, o: string)
    requires UniqueOrigins(mine) && FirstBehind(mine, theirs) == |mine|
    requires forall i :: 0 <= i < |mine| ==> mine[i].nextID >= 2
    requires forall i :: 0 <= i < |theirs| ==> theirs[i].nextID >= 2
    ensures NextOf(mine, o) <= NextOf(theirs, o)
    ensures Lists(mine, o) ==> Lists(theirs, o)
  {
    var i := FindPeerStatus(mine, o);
    if i != -1 {
      assert !Behind(theirs, mine[i]);
    }
  }

  /** Anti-entropy converges to the join. However the two nodes take turns, at most `Distance` rumors are
      transferred; once neither has anything to send, exactly that many have been (the sum over all origins
      of the NextID differences), both stores are the union of the initial stores, both clocks the
      pointwise maximum of the initial clocks, and each node reports the other in sync. */
  lemma ConvergesToJoin(p: Pair, ts: seq<Turn>, origins: set<string>)
    requires Regular(p, origins)
    ensures Transfers(p, ts) <= Distance(p, origins)
    ensures Quiet(ReactAll(p, ts)) <==> Transfers(p, ts) == Distance(p, origins)
    ensures var q := ReactAll(p, ts); Quiet(q) ==>
              && q.a.msgsSeen == q.b.msgsSeen == p.a.msgsSeen + p.b.msgsSeen
              && (forall o: string :: NextOf(q.a.want, o) == NextOf(q.b.want, o) == Max(NextOf(p.a.want, o), NextOf(p.b.want, o)))
              && Compare(q.a, q.b.want) == Compare(q.b, q.a.want) == Comparison(false, None)
  {
    var q := ReactAll(p, ts);
    TransfersAreDistance(p, ts, origins);
    ReactAllKeepsJoin(p, ts, origins);
    QuietIsInSync(q, origins);
    if Quiet(q) {
      QuietAgrees(q);
    }
  }

  lemma QuietAgrees(q: Pair)
    requires Comparable(q) && SameClock(q.a.want, q.b.want)
    ensures forall o: string :: NextOf(q.a.want, o) == NextOf(q.b.want, o) == Max(NextOf(q.a.want, o), NextOf(q.b.want, o))
    ensures Compare(q.a, q.b.want) == Compare(q.b, q.a.want) == Comparison(false, None)
  {
    InSyncIffSameClock(q.a, q.b.want);
    InSyncIffSameClock(q.b, q.a.want);
  }

  /** Some schedule reaches quiet. */
  lemma {:induction false} QuietReachable(p: Pair, origins: set<string>) returns (ts: seq<Turn>)
    requires Regular(p, origins)
    ensures Quiet(ReactAll(p, ts))
    decreases Distance(p, origins)
  {
    if Quiet(p) {
      ts := [];
    } else {
      var t := if Sends(p, AReacts) then AReacts else BReacts;
      ReactKeepsRegular(p, t, origins);
      var rest := QuietReachable(React(p, t), origins);
      ts := [t] + rest;
      assert ts[1..] == rest;
    }
  }

  /** n rounds in which both nodes react, A first. */
  function Alternate(n: nat): seq<Turn> {
    if n == 0 then [] else [AReacts] + ([BReacts] + Alternate(n - 1))
  }

  ghost function Round(p: Pair): Pair {
    React(React(p, AReacts), BReacts)
  }

  lemma RoundShortens(p: Pair, origins: set<string>)
    requires Regular(p, origins)
    ensures Regular(Round(p), origins)
    ensures Distance(Round(p), origins) <= Distance(p, origins)
    ensures Distance(p, origins) > 0 ==> Distance(Round(p), origins) < Distance(p, origins)
  {
    ReactKeepsRegular(p, AReacts, origins);
    ReactKeepsRegular(React(p, AReacts), BReacts, origins);
    QuietIsInSync(p, origins);
  }

  lemma RoundFirst(p: Pair, n: nat)
    requires n > 0
    ensures ReactAll(p, Alternate(n)) == ReactAll(Round(p), Alternate(n - 1))
  {
    var rest := [BReacts] + Alternate(n - 1);
    assert ([AReacts] + rest)[1..] == rest && rest[1..] == Alternate(n - 1);
  }

  ghost function Iterate(f: Pair -> Pair, p: Pair, n: nat): Pair
    decreases n
  {
    if n == 0 then p else Iterate(f, f(p), n - 1)
  }

  /** A step that keeps ok and lowers d as long as it is positive brings d to 0 within d steps. */
  lemma {:induction false} IterateCloses(f: Pair -> Pair, ok: Pair -> bool, d: Pair -> nat, p: Pair, n: nat)
    requires ok(p) && d(p) <= n
    requires forall q :: ok(q) ==> ok(f(q)) && (d(f(q)) < d(q) || d(f(q)) == d(q) == 0)
    ensures ok(Iterate(f, p, n)) && d(Iterate(f, p, n)) == 0
    decreases n
  {
    if n > 0 {
      IterateCloses(f, ok, d, f(p), n - 1);
    }
  }

  lemma {:induction false} AlternateIterates(f: Pair -> Pair, p: Pair, n: nat)
    requires forall q :: f(q) == Round(q)
    ensures ReactAll(p, Alternate(n)) == Iterate(f, p, n)
    decreases n
  {
    if n > 0 {
      RoundFirst(p, n);
      AlternateIterates(f, f(p), n - 1);
    }
  }

  lemma AlternatingCloses(p: Pair, n: nat, origins: set<string>) returns (q: Pair)
    requires Regular(p, origins) && n >= Distance(p, origins)
    ensures q == ReactAll(p, Alternate(n)) && Regular(q, origins) && Distance(q, origins) == 0
  {
    var f: Pair -> Pair := x => Round(x);
    var ok: Pair -> bool := x => Regular(x, origins);
    var d: Pair -> nat := x => Distance(x, origins);
    forall x | ok(x)
      ensures ok(f(x)) && (d(f(x)) < d(x) || d(f(x)) == d(x) == 0)
    {
      RoundShortens(x, origins);
    }
    IterateCloses(f, ok, d, p, n);
    AlternateIterates(f, p, n);
    q := Iterate(f, p, n);
  }

  /** Taking turns is enough: after as many rounds as the distance, neither node has anything left to send. */
  lemma AlternatingReachesQuiet(p: Pair, n: nat, origins: set<string>)
    requires Regular(p, origins) && n >= Distance(p, origins)
    ensures Quiet(ReactAll(p, Alternate(n)))
  {
    var q := AlternatingCloses(p, n, origins);
    QuietIsInSync(q, origins);
  }

  // ----------------------------------------------------- empty texts cannot be transferred

  /** A rumor with an empty text leaves clock and store alone. */
  lemma EmptyTextIsNotStored(s: State, r: Rumor, from: string)
    requires r.text == ""
    ensures OnRumor(s, r, from).want == s.want && OnRumor(s, r, from).msgsSeen == s.msgsSeen
  {
  }

  lemma StaysUntransferable(p: Pair, t: Turn, k: RumorKey)
    requires Untransferable(p, k)
    ensures Untransferable(React(p, t), k)
  {
    if t.AReacts? && Sends(p, t) {
      var r := Compare(p.a, p.b.want).toSend.value;
      if r.text == "" {
        EmptyTextIsNotStored(p.b, r, p.a.me);
      } else {
        assert Key(r) != k;
      }
    }
  }

  lemma {:induction false} NeverTransferred(p: Pair, ts: seq<Turn>, k: RumorKey)
    requires Untransferable(p, k)
    ensures Untransferable(ReactAll(p, ts), k)
    decreases ts
  {
    if ts != [] {
      StaysUntransferable(p, ts[0], k);
      NeverTransferred(React(p, ts[0]), ts[1..], k);
    }
  }

  ghost function OriginsOf(want: VectorClock): (r: set<string>)
    ensures OriginsWithin(want, r)
  {
    set i | 0 <= i < |want| :: want[i].identifier
  }

  /** The exact condition: the two stores can be brought together if and only if every message that only
      one of the nodes has carries a non-empty text (an empty one is taken for a routing message). */
  lemma ReconcilableIffNoEmptyText(p: Pair)
    requires Comparable(p)
    ensures (exists ts: seq<Turn> :: ReactAll(p, ts).a.msgsSeen == ReactAll(p, ts).b.msgsSeen) <==>
            forall k :: !Untransferable(p, k) && !Untransferable(Swap(p), k)
  {
    if k :| Untransferable(p, k) {
      forall ts: seq<Turn>
        ensures ReactAll(p, ts).a.msgsSeen != ReactAll(p, ts).b.msgsSeen
      {
        NeverTransferred(p, ts, k);
      }
    } else if k :| Untransferable(Swap(p), k) {
      forall ts: seq<Turn>
        ensures ReactAll(p, ts).a.msgsSeen != ReactAll(p, ts).b.msgsSeen
      {
        SwappedRun(p, ts);
        NeverTransferred(Swap(p), Swapped(ts), k);
      }
    } else {
      var origins := OriginsOf(p.a.want) + OriginsOf(p.b.want);
      assert Regular(p, origins);
      var ts := QuietReachable(p, origins);
      ConvergesToJoin(p, ts, origins);
    }
  }

  /** A failing input: a's client sends one message without a text; whatever the turns, b never stores it. */
  lemma EmptyTextStrands(a: string, b: string, ts: seq<Turn>)
    ensures var p := Pair(ProcessAll(Fresh(a), [FromClient("")]), ProcessAll(Fresh(b), []));
            && Comparable(p) && RumorKey(a, 1) in p.a.msgsSeen
            && RumorKey(a, 1) !in ReactAll(p, ts).b.msgsSeen
  {
    var none: seq<Input> := [];
    ProcessSnoc(Fresh(a), none, FromClient(""));
    assert none + [FromClient("")] == [FromClient("")];
    var p := Pair(ProcessAll(Fresh(a), [FromClient("")]), ProcessAll(Fresh(b), none));
    assert p.a.want == [PeerStatus(a, 2)];
    assert Untransferable(p, RumorKey(a, 1));
    NeverTransferred(p, ts, RumorKey(a, 1));
  }

  ghost function Swapped(ts: seq<Turn>): seq<Turn>
    decreases ts
  {
    if ts == [] then [] else [if ts[0].AReacts? then BReacts else AReacts] + Swapped(ts[1..])
  }

  lemma {:induction false} SwappedRun(p: Pair, ts: seq<Turn>)
    ensures ReactAll(Swap(p), Swapped(ts)) == Swap(ReactAll(p, ts))
    decreases ts
  {
    if ts != [] {
      SwappedRun(React(p, ts[0]), ts[1..]);
      assert Swapped(ts)[1..] == Swapped(ts[1..]);
    }
  }
}
