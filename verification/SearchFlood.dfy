/** The budgeted search: splitting a budget over peers, flooding a request, doubling rounds. */
module SearchFlood {
  import opened Bytes

  datatype Request = Request(origin: string, budget: nat, keywords: seq<string>)

  datatype Flight = Flight(from: string, to: string, request: Request)

  const MAX_BUDGET := 32

  /** Budgets are unsigned 64-bit numbers; from here on, converted to a signed one, they are negative. */
  const SIGN_LIMIT := 0x8000_0000_0000_0000

  // -------------------------------------------------------------- splitting a budget

  function Total(shares: seq<nat>): (t: nat)
  {
    if shares == [] then 0 else shares[0] + Total(shares[1..])
  }

  /** The shares of n peers. None is a panic: a slice of negative length, as a budget that looks negative is never
      above the number of peers, or the division by zero when there is budget but no peer. */
  function Split(budget: nat, n: nat): (r: Option<seq<nat>>)
    ensures r.None? <==> budget >= SIGN_LIMIT || (n == 0 && budget > 0)
    ensures r.Some? ==> |r.value| == if n >= budget then budget else n
  {
    if budget >= SIGN_LIMIT then None
    else if n >= budget then Some(seq(budget, i => 1))
    else if n == 0 then None
    else Some(seq(n, i => budget / n + if i < budget % n then 1 else 0))
  }

  lemma {:induction false} TotalConstant(shares: seq<nat>, c: nat)
    requires forall i :: 0 <= i < |shares| ==> shares[i] == c
    ensures Total(shares) == |shares| * c
  {
    if shares != [] {
      TotalConstant(shares[1..], c);
    }
  }

  lemma {:induction false} TotalConcat(s: seq<nat>, t: seq<nat>)
    ensures Total(s + t) == Total(s) + Total(t)
  {
    if s == [] {
      assert s + t == t;
    } else {
      TotalConcat(s[1..], t);
      assert (s + t)[1..] == s[1..] + t;
    }
  }

  lemma QuotientPositive(budget: nat, n: nat)
    requires 0 < n < budget
    ensures budget / n >= 1 && budget % n < n && n * (budget / n) + budget % n == budget
  {
  }

  lemma SharesAddUp(n: nat, base: nat, remaining: nat)
    requires remaining <= n
    ensures remaining * (base + 1) + (n - remaining) * base == n * base + remaining
  {
  }

  lemma TwoLevels(shares: seq<nat>, base: nat, remaining: nat)
    requires remaining <= |shares|
    requires forall i :: 0 <= i < |shares| ==> shares[i] == base + if i < remaining then 1 else 0
    ensures Total(shares) == |shares| * base + remaining
  {
    assert shares == shares[..remaining] + shares[remaining..];
    TotalConcat(shares[..remaining], shares[remaining..]);
    TotalConstant(shares[..remaining], base + 1);
    TotalConstant(shares[remaining..], base);
    SharesAddUp(|shares|, base, remaining);
  }

  /** The shares add up exactly to the budget, each is positive, no two differ by more than one, and the larger ones
      come first. */
  lemma SplitIsExactAndFair(budget: nat, n: nat)
    requires Split(budget, n).Some?
    ensures var shares := Split(budget, n).value;
            && Total(shares) == budget
            && (forall i :: 0 <= i < |shares| ==> shares[i] >= 1)
            && (forall i, j :: 0 <= i < |shares| && 0 <= j < |shares| ==> shares[i] <= shares[j] + 1)
            && (forall i, j :: 0 <= i < j < |shares| ==> shares[i] >= shares[j])
  {
    var shares := Split(budget, n).value;
    if n >= budget {
      TotalConstant(shares, 1);
    } else {
      QuotientPositive(budget, n);
      TwoLevels(shares, budget / n, budget % n);
    }
  }

  method SplitBudget(budget: nat, peers: seq<string>) returns (shares: Option<seq<nat>>)
    ensures shares == Split(budget, |peers|)
  {
    var res: seq<nat> := [];
    if budget >= SIGN_LIMIT {
      return None;
    }
    if |peers| >= budget {
      while |res| < budget
        invariant |res| <= budget && forall i :: 0 <= i < |res| ==> res[i] == 1
      {
        res := res + [1];
      }
      assert res == Split(budget, |peers|).value;
    } else {
      if |peers| == 0 {
        return None;
      }
      var baseBudget := budget / |peers|;
      QuotientPositive(budget, |peers|);
      while |res| < |peers|
        invariant |res| <= |peers| && forall i :: 0 <= i < |res| ==> res[i] == baseBudget
      {
        res := res + [baseBudget];
      }
      var remaining := budget - |peers| * baseBudget;
      var i := 0;
      while i < remaining
        invariant 0 <= i <= remaining == budget % |peers| && |res| == |peers|
        invariant forall k :: 0 <= k < |res| ==> res[k] == baseBudget + if k < i then 1 else 0
      {
        res := res[i := res[i] + 1];
        i := i + 1;
      }
      assert res == Split(budget, |peers|).value;
    }
    return Some(res);
  }

  // --------------------------------------------------------------- handling a request

  function Joined(keywords: seq<string>): string {
    if keywords == [] then "" else if |keywords| == 1 then keywords[0] else keywords[0] + "," + Joined(keywords[1..])
  }

  predicate SameSearch(a: Request, b: Request) {
    Joined(a.keywords) == Joined(b.keywords) && a.origin == b.origin
  }

  predicate IsDuplicate(received: seq<Request>, r: Request) {
    exists k :: 0 <= k < |received| && SameSearch(received[k], r)
  }

  function Others(peers: seq<string>, from: string): (r: seq<string>)
    ensures forall x :: x in r <==> x in peers && x != from
  {
    if peers == [] then []
    else
      var rest := Others(peers[..|peers| - 1], from);
      if peers[|peers| - 1] == from then rest else rest + [peers[|peers| - 1]]
  }

  function Addressed(at: string, peers: seq<string>, shares: seq<nat>, r: Request): (fs: seq<Flight>)
    requires |shares| <= |peers|
    ensures |fs| == |shares|
  {
    seq(|shares|, i requires 0 <= i < |shares| => Flight(at, peers[i], r.(budget := shares[i])))
  }

  /** The copies a node at address `at` passes on; None if it panics. */
  function Forwarded(at: string, peers: seq<string>, r: Request, from: string): Option<seq<Flight>>
    requires r.budget >= 1
  {
    var others := Others(peers, from);
    match Split(r.budget - 1, |others|)
    case None => None
    case Some(shares) => Some(Addressed(at, others, shares, r))
  }

  /** The other peers are all peers but the sender, as often as they are listed. */
  lemma {:induction false} OthersAreTheRest(peers: seq<string>, from: string)
    ensures multiset(Others(peers, from)) == multiset(peers)[from := 0]
  {
    if peers != [] {
      OthersAreTheRest(peers[..|peers| - 1], from);
      assert peers == peers[..|peers| - 1] + [peers[|peers| - 1]];
    }
  }

  /** These flights carry one search from one node, the k-th to the k-th of the listed addresses. */
  ghost predicate CarrySearch(fs: seq<Flight>, at: string, to: seq<string>, origin: string, keywords: seq<string>) {
    && |fs| <= |to|
    && forall k :: 0 <= k < |fs| ==>
         && fs[k].from == at && fs[k].to == to[k]
         && fs[k].request.origin == origin && fs[k].request.keywords == keywords
  }

  /** Where a forwarded search goes: to the first of the other peers, one copy each, unchanged but for the budget. */
  lemma ForwardedCarries(at: string, peers: seq<string>, r: Request, from: string)
    requires r.budget >= 1 && Forwarded(at, peers, r, from).Some?
    ensures var fs := Forwarded(at, peers, r, from).value; var others := Others(peers, from);
            && CarrySearch(fs, at, others, r.origin, r.keywords)
            && |fs| == (if |others| >= r.budget - 1 then r.budget - 1 else |others|)
            && multiset(others) == multiset(peers)[from := 0]
  {
    OthersAreTheRest(peers, from);
  }

  /** The same read off a list of sent messages that ends in the forwarded copies. */
  lemma SentCarries(before: seq<Flight>, at: string, peers: seq<string>, r: Request, from: string)
    requires r.budget >= 1 && Forwarded(at, peers, r, from).Some?
    ensures CarrySearch((before + Forwarded(at, peers, r, from).value)[|before|..], at, Others(peers, from), r.origin, r.keywords)
  {
    var fs := Forwarded(at, peers, r, from).value;
    ForwardedCarries(at, peers, r, from);
    assert (before + fs)[|before|..] == fs;
  }

  // ------------------------------------------------------------------------ duplicates

  predicate CommaFree(keywords: seq<string>) {
    forall k :: 0 <= k < |keywords| ==> ',' !in keywords[k]
  }

  /** Lists of keywords without commas are joined to different strings. */
  lemma {:induction false} JoinedInjective(a: seq<string>, b: seq<string>)
    requires a != [] && b != [] && CommaFree(a) && CommaFree(b) && Joined(a) == Joined(b)
    ensures a == b
  {
    var x, y := a[0], b[0];
    if |a| > 1 && |b| > 1 {
      HeadsAgree(x, Joined(a[1..]), y, Joined(b[1..]));
      JoinedInjective(a[1..], b[1..]);
      assert a == [x] + a[1..] && b == [y] + b[1..];
    } else if |a| > 1 || |b| > 1 {
      OneHasAComma(x, Joined(if |a| > 1 then a[1..] else []));
      OneHasAComma(y, Joined(if |b| > 1 then b[1..] else []));
    }
  }

  lemma OneHasAComma(x: string, s: string)
    ensures ',' in x + "," + s
  {
    assert (x + "," + s)[|x|] == ',';
  }

  lemma HeadsAgree(x: string, s: string, y: string, t: string)
    requires ',' !in x && ',' !in y && x + "," + s == y + "," + t
    ensures x == y && s == t
  {
    var l := x + "," + s;
    assert l[|x|] == ',' && l[|y|] == ',';
    assert |x| == |y|;
    assert x == l[..|x|] && y == l[..|y|];
    assert s == l[|x| + 1..] && t == l[|y| + 1..];
  }

  ghost predicate PlainKeywords(r: Request) {
    r.keywords != [] && CommaFree(r.keywords)
  }

  /** What counts as a duplicate, for searches of at least one keyword without commas: a stored one with the same
      origin and the same list of keywords, whatever the budgets. */
  lemma DuplicateIffSameKeywords(received: seq<Request>, r: Request)
    requires PlainKeywords(r) && forall k :: 0 <= k < |received| ==> PlainKeywords(received[k])
    ensures IsDuplicate(received, r) <==>
            exists k :: 0 <= k < |received| && received[k].origin == r.origin && received[k].keywords == r.keywords
  {
    if IsDuplicate(received, r) {
      var k :| 0 <= k < |received| && SameSearch(received[k], r);
      JoinedInjective(received[k].keywords, r.keywords);
    }
    if k :| 0 <= k < |received| && received[k].origin == r.origin && received[k].keywords == r.keywords {
      assert SameSearch(received[k], r);
    }
  }

  /** With a comma in a keyword, different searches are taken for one. */
  lemma CommaConfuses(origin: string, budget: nat)
    ensures IsDuplicate([Request(origin, budget, ["a,b"])], Request(origin, budget, ["a", "b"]))
  {
    assert ["a", "b"][1..] == ["b"];
    assert Joined(["a", "b"]) == "a" + "," + "b" == "a,b" == Joined(["a,b"]);
    assert SameSearch([Request(origin, budget, ["a,b"])][0], Request(origin, budget, ["a", "b"]));
  }

  class SearchNode {
    const address: string
    const me: string
    var gossipers: seq<string>
    var searchReceived: seq<Request>
    var sent: seq<Flight>

    constructor (address: string, me: string, gossipers: seq<string>)
      ensures this.address == address && this.me == me && this.gossipers == gossipers
      ensures searchReceived == [] && sent == []
    {
      this.address, this.me, this.gossipers := address, me, gossipers;
      searchReceived, sent := [], [];
    }

    method CheckDuplicate(r: Request) returns (dup: bool)
      ensures dup <==> IsDuplicate(searchReceived, r)
    {
      var k := 0;
      while k < |searchReceived|
        invariant 0 <= k <= |searchReceived|
        invariant forall j :: 0 <= j < k ==> !SameSearch(searchReceived[j], r)
      {
        if SameSearch(searchReceived[k], r) {
          return true;
        }
        k := k + 1;
      }
      return false;
    }

    /** The loop over the shares that ends both a round of the searcher and the passing on of a request. */
    method SendShares(peers: seq<string>, shares: seq<nat>, r: Request)
      requires |shares| <= |peers|
      modifies this`sent
      ensures sent == old(sent) + Addressed(address, peers, shares, r)
    {
      var i := 0;
      while i < |shares|
        invariant 0 <= i <= |shares|
        invariant sent == old(sent) + Addressed(address, peers, shares, r)[..i]
      {
        sent := sent + [Flight(address, peers[i], Request(r.origin, shares[i], r.keywords))];
        i := i + 1;
      }
    }

    method ForwardSearchRequest(r: Request, from: string) returns (panicked: bool)
      requires r.budget >= 1
      modifies this`sent
      ensures panicked <==> Forwarded(address, gossipers, r, from).None?
      ensures sent == old(sent) + if panicked then [] else Forwarded(address, gossipers, r, from).value
      ensures CarrySearch(sent[|old(sent)|..], address, Others(gossipers, from), r.origin, r.keywords)
    {
      var budget := r.budget - 1;
      var otherPeers: seq<string> := [];
      var k := 0;
      while k < |gossipers|
        invariant 0 <= k <= |gossipers|
        invariant otherPeers == Others(gossipers[..k], from)
      {
        assert gossipers[..k + 1][..k] == gossipers[..k];
        if gossipers[k] != from {
          otherPeers := otherPeers + [gossipers[k]];
        }
        k := k + 1;
      }
      assert gossipers[..k] == gossipers;
      var budgets := SplitBudget(budget, otherPeers);
      if budgets.None? {
        return true;
      }
      SendShares(otherPeers, budgets.value, r);
      SentCarries(old(sent), address, gossipers, r, from);
      return false;
    }

    /** The reply to the searcher is not modelled. */
    method HandleSearchRequest(r: Request, from: string) returns (panicked: bool)
      modifies this`searchReceived, this`sent
      ensures r.origin == me || IsDuplicate(old(searchReceived), r) ==>
                !panicked && searchReceived == old(searchReceived) && sent == old(sent)
      ensures r.origin != me && !IsDuplicate(old(searchReceived), r) ==>
                && searchReceived == old(searchReceived) + [r]
                && (panicked <==> r.budget > 1 && Forwarded(address, gossipers, r, from).None?)
                && sent == old(sent) + if panicked || r.budget <= 1 then [] else Forwarded(address, gossipers, r, from).value
    {
      if r.origin == me {
        return false;
      }
      var dup := CheckDuplicate(r);
      if dup {
        return false;
      }
      searchReceived := searchReceived + [r];
      panicked := false;
      if r.budget > 1 {
        panicked := ForwardSearchRequest(r, from);
      }
    }

    /** One tick of the search: a round of requests while the budget is at most MAX_BUDGET and fewer
        than two files have matched, otherwise the end. */
    method SearchTick(keywords: seq<string>, budget: nat, matches: nat)
      returns (next: nat, finished: bool, panicked: bool)
      modifies this`sent
      ensures finished <==> !(budget <= MAX_BUDGET && matches < 2)
      ensures panicked <==> !finished && Split(budget, |gossipers|).None?
      ensures next == if finished || panicked then budget else 2 * budget
      ensures sent == old(sent) + if finished || panicked then []
                                  else Addressed(address, gossipers, Split(budget, |gossipers|).value, Request(me, budget, keywords))
      ensures CarrySearch(sent[|old(sent)|..], address, gossipers, me, keywords)
    {
      if budget <= MAX_BUDGET && matches < 2 {
        var budgets := SplitBudget(budget, gossipers);
        if budgets.None? {
          return budget, false, true;
        }
        SendShares(gossipers, budgets.value, Request(me, budget, keywords));
        return budget * 2, false, false;
      } else {
        return budget, true, false;
      }
    }
  }
}
