/** Listing queues page by page, with the last returned name as the cursor. */
module QueueListing {
  import opened Wrappers
  import opened Texts

  // A queue is identified by its region, its account and its name.
  datatype QueueKey = QueueKey(region: string, account: string, name: string)

  datatype Query = Query(region: string, account: string, prefix: Option<string>)

  const DEFAULT_LIMIT := 1000

  predicate Matches(k: QueueKey, q: Query) {
    && k.region == q.region && k.account == q.account
    && (q.prefix.None? || q.prefix.value <= k.name)
  }

  predicate After(name: string, token: Option<string>) {
    token.None? || Less(token.value, name)
  }

  function Candidates(store: set<QueueKey>, q: Query, token: Option<string>): set<string> {
    set k | k in store && Matches(k, q) && After(k.name, token) :: k.name
  }

  // ----- ORDER BY name -----

  ghost predicate IsLeast(names: set<string>, a: string) {
    a in names && forall b :: b in names && b != a ==> Less(a, b)
  }

  lemma {:induction false} LeastExists(names: set<string>)
    requires names != {}
    ensures exists a :: IsLeast(names, a)
    decreases |names|
  {
    var x :| x in names;
    var rest := names - {x};
    assert names == {x} + rest;
    if rest == {} {
      assert IsLeast(names, x);
    } else {
      LeastExists(rest);
      var y :| IsLeast(rest, y);
      LessTotal(x, y);
      var z := if Less(x, y) then x else y;
      forall b | b in names && b != z ensures Less(z, b) {
        if z == x && b != y {
          assert b in rest;
          LessTransitive(x, y, b);
        }
      }
      assert IsLeast(names, z);
    }
  }

  ghost function Least(names: set<string>): (a: string)
    requires names != {}
    ensures IsLeast(names, a)
  {
    LeastExists(names);
    var a :| IsLeast(names, a);
    a
  }

  ghost function InOrder(names: set<string>): (s: seq<string>)
    ensures |s| == |names|
    decreases |names|
  {
    if names == {} then [] else var a := Least(names); [a] + InOrder(names - {a})
  }

  lemma {:induction false} InOrderMembers(names: set<string>, x: string)
    ensures x in InOrder(names) <==> x in names
    decreases |names|
  {
    if names != {} { InOrderMembers(names - {Least(names)}, x); }
  }

  lemma {:induction false} InOrderAscends(names: set<string>)
    ensures StrictlyAscending(InOrder(names))
    decreases |names|
  {
    if names != {} {
      var a := Least(names);
      var rest := InOrder(names - {a});
      InOrderAscends(names - {a});
      forall j | 0 <= j < |rest| ensures Less(a, rest[j]) {
        InOrderMembers(names - {a}, rest[j]);
      }
    }
  }

  // ----- one page -----

  // SELECT ... ORDER BY name LIMIT ?: a negative limit means no limit.
  ghost function ListQueues(store: set<QueueKey>, q: Query, limit: Option<int>, token: Option<string>): seq<string> {
    var sorted := InOrder(Candidates(store, q, token));
    var n := if limit.None? then DEFAULT_LIMIT else limit.value;
    if n < 0 || |sorted| <= n then sorted else sorted[..n]
  }

  datatype Page = Page(names: seq<string>, next: Option<string>)

  // The handler asks for one name more than the page holds, to see whether the page is the last.
  ghost function ListPage(store: set<QueueKey>, q: Query, max: nat, token: Option<string>): Page
    requires 1 <= max
  {
    var names := ListQueues(store, q, Some(max + 1), token);
    if |names| > max then Page(names[..max], Some(names[max - 1])) else Page(names, None)
  }

  lemma PageCandidates(store: set<QueueKey>, q: Query, max: nat, token: Option<string>)
    requires 1 <= max
    ensures var p := ListPage(store, q, max, token);
            && StrictlyAscending(p.names)
            && (forall x :: x in p.names ==> x in Candidates(store, q, token))
            && (p.next.Some? ==> p.names != [] && p.next.value == p.names[|p.names| - 1])
            && (forall x :: x in Candidates(store, q, token) && x !in p.names ==> p.next.Some? && Less(p.next.value, x))
  {
    var all := Candidates(store, q, token);
    var sorted := InOrder(all);
    var p := ListPage(store, q, max, token);
    InOrderAscends(all);
    assert p.names <= sorted;
    assert p.next.Some? ==> |sorted| > max && p.names == sorted[..max];
    forall x | x in p.names ensures x in all {
      InOrderMembers(all, x);
    }
    forall x | x in all && x !in p.names ensures p.next.Some? && Less(p.next.value, x) {
      InOrderMembers(all, x);
      var i :| 0 <= i < |sorted| && sorted[i] == x;
      assert i >= |p.names|;
    }
  }

  // The name of a queue of the region and the account, with the prefix, after the token.
  ghost predicate Wanted(store: set<QueueKey>, q: Query, token: Option<string>, x: string) {
    && QueueKey(q.region, q.account, x) in store
    && (q.prefix.Some? ==> |q.prefix.value| <= |x| && x[..|q.prefix.value|] == q.prefix.value)
    && (token.Some? ==> Precedes(token.value, x))
  }

  lemma CandidateIffWanted(store: set<QueueKey>, q: Query, token: Option<string>, x: string)
    ensures x in Candidates(store, q, token) <==> Wanted(store, q, token, x)
  {
    if token.Some? { LessIff(token.value, x); }
    if Wanted(store, q, token, x) {
      assert Matches(QueueKey(q.region, q.account, x), q);
    }
    if x in Candidates(store, q, token) {
      var k :| k in store && Matches(k, q) && After(k.name, token) && k.name == x;
      assert k == QueueKey(q.region, q.account, x);
    }
  }

  // The first wanted names in byte order, at most n of them unless n is negative, and all if they fit.
  ghost predicate IsFirstWanted(store: set<QueueKey>, q: Query, token: Option<string>, n: int, names: seq<string>) {
    && InByteOrder(names)
    && (forall x :: x in names ==> Wanted(store, q, token, x))
    && (0 <= n ==> |names| <= n)
    && ((exists x :: x !in names && Wanted(store, q, token, x)) ==> 0 <= n && |names| == n)
    && (forall i, x :: 0 <= i < |names| && x !in names && Wanted(store, q, token, x) ==> Precedes(names[i], x))
  }

  ghost function FirstOf(sorted: seq<string>, n: int): seq<string> {
    if n < 0 || |sorted| <= n then sorted else sorted[..n]
  }

  lemma SortedIffWanted(store: set<QueueKey>, q: Query, token: Option<string>)
    ensures var sorted := InOrder(Candidates(store, q, token));
            InByteOrder(sorted) && forall x :: x in sorted <==> Wanted(store, q, token, x)
  {
    var all := Candidates(store, q, token);
    InOrderAscends(all);
    AscendingIffByteOrder(InOrder(all));
    forall x ensures x in InOrder(all) <==> Wanted(store, q, token, x) {
      InOrderMembers(all, x);
      CandidateIffWanted(store, q, token, x);
    }
  }

  lemma FirstNames(store: set<QueueKey>, q: Query, token: Option<string>, n: int)
    ensures IsFirstWanted(store, q, token, n, FirstOf(InOrder(Candidates(store, q, token)), n))
  {
    var sorted := InOrder(Candidates(store, q, token));
    var names := FirstOf(sorted, n);
    SortedIffWanted(store, q, token);
    forall i, x | 0 <= i < |names| && x !in names && Wanted(store, q, token, x) ensures Precedes(names[i], x) {
      var j :| 0 <= j < |sorted| && sorted[j] == x;
      assert i < j;
    }
  }

  /** A listing holds the first wanted names in byte order; without a limit there are at most 1000. */
  lemma ListingContents(store: set<QueueKey>, q: Query, limit: Option<int>, token: Option<string>)
    ensures IsFirstWanted(store, q, token, if limit.Some? then limit.value else 1000,
                          ListQueues(store, q, limit, token))
  {
    FirstNames(store, q, token, if limit.Some? then limit.value else 1000);
  }

  /**
   A page holds the first `max` wanted names in byte order, or all; it hands out a cursor exactly when
   it leaves a wanted name out, and the cursor is then its last name.
   */
  lemma PageContents(store: set<QueueKey>, q: Query, max: nat, token: Option<string>)
    requires 1 <= max
    ensures var p := ListPage(store, q, max, token);
            && IsFirstWanted(store, q, token, max, p.names)
            && (p.next.Some? <==> exists x :: x !in p.names && Wanted(store, q, token, x))
            && (p.next.Some? ==> p.names != [] && p.next.value == p.names[|p.names| - 1])
  {
    FirstNames(store, q, token, max);
    PageOfSorted(store, q, max, token);
    LeftOutIff(store, q, token, max);
  }

  lemma PageOfSorted(store: set<QueueKey>, q: Query, max: nat, token: Option<string>)
    requires 1 <= max
    ensures var sorted := InOrder(Candidates(store, q, token));
            ListPage(store, q, max, token) ==
            Page(FirstOf(sorted, max), if |sorted| > max then Some(sorted[max - 1]) else None)
  {
    var sorted := InOrder(Candidates(store, q, token));
    if |sorted| > max { assert ListQueues(store, q, Some(max + 1), token)[..max] == sorted[..max]; }
  }

  lemma LeftOutIff(store: set<QueueKey>, q: Query, token: Option<string>, n: nat)
    ensures var sorted := InOrder(Candidates(store, q, token));
            |sorted| > n <==> exists x :: x !in FirstOf(sorted, n) && Wanted(store, q, token, x)
  {
    var sorted := InOrder(Candidates(store, q, token));
    SortedIffWanted(store, q, token);
    if |sorted| > n {
      NextIsLeftOut(sorted, n);
    }
  }

  lemma NextIsLeftOut(s: seq<string>, n: nat)
    requires InByteOrder(s) && n < |s|
    ensures s[n] !in s[..n] && s[n] in s
  {
    InByteOrderDistinct(s);
  }

  lemma InByteOrderDistinct(s: seq<string>)
    requires InByteOrder(s)
    ensures forall i, j :: 0 <= i < j < |s| ==> s[i] != s[j]
  {
    forall i, j | 0 <= i < j < |s| ensures s[i] != s[j] {
      LessIff(s[i], s[j]);
      LessIrreflexive(s[i]);
    }
  }

  // ----- a walk over a changing store -----

  ghost predicate IsWalk(stores: seq<set<QueueKey>>, pages: seq<Page>, q: Query, max: nat)
    requires 1 <= max
  {
    |pages| == |stores| && forall i :: 0 <= i < |pages| ==> IsPage(stores, pages, q, max, i)
  }

  ghost predicate IsPage(stores: seq<set<QueueKey>>, pages: seq<Page>, q: Query, max: nat, i: nat)
    requires 1 <= max && i < |pages| == |stores|
  {
    && (i > 0 ==> pages[i - 1].next.Some?)
    && pages[i] == ListPage(stores[i], q, max, TokenAt(pages, i))
  }

  function TokenAt(pages: seq<Page>, i: nat): Option<string>
    requires i <= |pages|
  {
    if i == 0 then None else pages[i - 1].next
  }

  lemma WalkPage(stores: seq<set<QueueKey>>, pages: seq<Page>, q: Query, max: nat, i: nat)
    requires 1 <= max && IsWalk(stores, pages, q, max) && i < |pages|
    ensures StrictlyAscending(pages[i].names)
    ensures forall x :: x in pages[i].names ==> After(x, TokenAt(pages, i))
    ensures pages[i].next.Some? ==>
              pages[i].names != [] && pages[i].next.value == pages[i].names[|pages[i].names| - 1]
    ensures i > 0 ==> pages[i - 1].next.Some?
  {
    assert IsPage(stores, pages, q, max, i);
    PageCandidates(stores[i], q, max, TokenAt(pages, i));
  }

  lemma PageUpToNext(stores: seq<set<QueueKey>>, pages: seq<Page>, q: Query, max: nat, i: nat, x: string)
    requires 1 <= max && IsWalk(stores, pages, q, max) && i < |pages|
    requires x in pages[i].names && pages[i].next.Some?
    ensures AtMost(x, pages[i].next.value)
  {
    WalkPage(stores, pages, q, max, i);
    var k :| 0 <= k < |pages[i].names| && pages[i].names[k] == x;
  }

  /** Later pages list only later names, whatever happens to the store between the calls. */
  lemma {:induction false} WalkAscends(
      stores: seq<set<QueueKey>>, pages: seq<Page>, q: Query, max: nat, i: nat, j: nat, x: string, y: string)
    requires 1 <= max && IsWalk(stores, pages, q, max) && i < j < |pages|
    requires x in pages[i].names && y in pages[j].names
    ensures Less(x, y) && Precedes(x, y)
    decreases j
  {
    LessIff(x, y);
    WalkPage(stores, pages, q, max, j);
    var token := pages[j - 1].next.value;
    assert Less(token, y);
    if i == j - 1 {
      PageUpToNext(stores, pages, q, max, i, x);
      if x != token { LessTransitive(x, token, y); }
    } else {
      WalkPage(stores, pages, q, max, j - 1);
      WalkAscends(stores, pages, q, max, i, j - 1, x, token);
      LessTransitive(x, token, y);
    }
  }

  lemma {:induction false} ListedOrAhead(
      stores: seq<set<QueueKey>>, pages: seq<Page>, q: Query, max: nat, n: nat, k: QueueKey)
    requires 1 <= max && IsWalk(stores, pages, q, max) && n <= |pages|
    requires Matches(k, q) && forall i :: 0 <= i < |stores| ==> k in stores[i]
    ensures (exists i :: 0 <= i < n && k.name in pages[i].names)
            || ((n > 0 ==> pages[n - 1].next.Some?) && After(k.name, TokenAt(pages, n)))
    decreases n
  {
    if n > 0 {
      ListedOrAhead(stores, pages, q, max, n - 1, k);
      if After(k.name, TokenAt(pages, n - 1)) && k.name !in pages[n - 1].names {
        assert k in stores[n - 1];
        assert IsPage(stores, pages, q, max, n - 1);
        assert k.name in Candidates(stores[n - 1], q, TokenAt(pages, n - 1));
        PageCandidates(stores[n - 1], q, max, TokenAt(pages, n - 1));
      }
    }
  }

  /** A finished walk lists every matching queue that exists throughout, on exactly one page. */
  lemma WalkListsStableQueues(stores: seq<set<QueueKey>>, pages: seq<Page>, q: Query, max: nat, k: QueueKey)
    requires 1 <= max && IsWalk(stores, pages, q, max) && pages != []
    requires pages[|pages| - 1].next.None?
    requires k.region == q.region && k.account == q.account && (q.prefix.None? || q.prefix.value <= k.name)
    requires forall i :: 0 <= i < |stores| ==> k in stores[i]
    ensures exists i :: 0 <= i < |pages| && k.name in pages[i].names
    ensures forall i, j :: 0 <= i < j < |pages| ==> !(k.name in pages[i].names && k.name in pages[j].names)
  {
    ListedOrAhead(stores, pages, q, max, |pages|, k);
    forall i, j | 0 <= i < j < |pages| ensures !(k.name in pages[i].names && k.name in pages[j].names) {
      ListedOnce(stores, pages, q, max, i, j, k.name);
    }
  }

  lemma ListedOnce(stores: seq<set<QueueKey>>, pages: seq<Page>, q: Query, max: nat, i: nat, j: nat, x: string)
    requires 1 <= max && IsWalk(stores, pages, q, max) && i < j < |pages|
    ensures !(x in pages[i].names && x in pages[j].names)
  {
    LessIrreflexive(x);
    if x in pages[i].names && x in pages[j].names {
      WalkAscends(stores, pages, q, max, i, j, x, x);
    }
  }

  // ----- a walk over an unchanged store -----

  lemma NextShrinks(store: set<QueueKey>, q: Query, max: nat, token: Option<string>)
    requires 1 <= max
    ensures var p := ListPage(store, q, max, token);
            p.next.Some? ==> Candidates(store, q, p.next) < Candidates(store, q, token)
  {
    var p := ListPage(store, q, max, token);
    PageCandidates(store, q, max, token);
    if p.next.Some? {
      var last := p.next.value;
      assert last in Candidates(store, q, token);
      LessIrreflexive(last);
      assert last !in Candidates(store, q, p.next);
      forall x | x in Candidates(store, q, p.next) ensures x in Candidates(store, q, token) {
        if token.Some? { LessTransitive(token.value, last, x); }
      }
    }
  }

  lemma SubsetCard(a: set<string>, b: set<string>)
    requires a < b
    ensures |a| < |b|
  {
    assert b == a + (b - a);
  }

  // Following the cursors to the end; on an unchanged store this stops.
  ghost function Walk(store: set<QueueKey>, q: Query, max: nat, token: Option<string>): seq<string>
    requires 1 <= max
    decreases |Candidates(store, q, token)|
  {
    var p := ListPage(store, q, max, token);
    if p.next.None? then p.names
    else
      NextShrinks(store, q, max, token);
      SubsetCard(Candidates(store, q, p.next), Candidates(store, q, token));
      p.names + Walk(store, q, max, p.next)
  }

  lemma {:induction false} WalkContents(store: set<QueueKey>, q: Query, max: nat, token: Option<string>)
    requires 1 <= max
    ensures StrictlyAscending(Walk(store, q, max, token))
    ensures forall x :: x in Walk(store, q, max, token) <==> x in Candidates(store, q, token)
    decreases |Candidates(store, q, token)|
  {
    var p := ListPage(store, q, max, token);
    PageCandidates(store, q, max, token);
    if p.next.Some? {
      NextShrinks(store, q, max, token);
      SubsetCard(Candidates(store, q, p.next), Candidates(store, q, token));
      WalkContents(store, q, max, p.next);
      var rest := Walk(store, q, max, p.next);
      PageThenRest(store, q, max, token, rest);
    }
  }

  lemma PageThenRest(store: set<QueueKey>, q: Query, max: nat, token: Option<string>, rest: seq<string>)
    requires 1 <= max && ListPage(store, q, max, token).next.Some? && StrictlyAscending(rest)
    requires forall x :: x in rest <==> x in Candidates(store, q, ListPage(store, q, max, token).next)
    ensures var names := ListPage(store, q, max, token).names;
            && StrictlyAscending(names + rest)
            && forall x :: x in names + rest <==> x in Candidates(store, q, token)
  {
    var p := ListPage(store, q, max, token);
    PageCandidates(store, q, max, token);
    CandidatesSplit(store, q, max, token);
    forall j | 0 <= j < |rest| ensures Less(p.next.value, rest[j]) {
      assert rest[j] in Candidates(store, q, p.next);
    }
    AscendingConcat(p.names, rest);
  }

  // The candidates are those on the page and those after its cursor.
  lemma CandidatesSplit(store: set<QueueKey>, q: Query, max: nat, token: Option<string>)
    requires 1 <= max && ListPage(store, q, max, token).next.Some?
    ensures var p := ListPage(store, q, max, token);
            forall x :: x in Candidates(store, q, token) <==> x in p.names || x in Candidates(store, q, p.next)
  {
    var p := ListPage(store, q, max, token);
    PageCandidates(store, q, max, token);
    NextShrinks(store, q, max, token);
    forall x | x in Candidates(store, q, token) && x !in p.names ensures x in Candidates(store, q, p.next) {
      var k :| k in store && Matches(k, q) && After(k.name, token) && k.name == x;
      assert After(k.name, p.next);
    }
  }

  /** The pages of a walk over an unchanged store add up to the whole listing in order. */
  lemma WalkIsWholeListing(store: set<QueueKey>, q: Query, max: nat, token: Option<string>)
    requires 1 <= max
    ensures Walk(store, q, max, token) == InOrder(Candidates(store, q, token))
    ensures IsFirstWanted(store, q, token, -1, Walk(store, q, max, token))
  {
    var all := Candidates(store, q, token);
    var walk, sorted := Walk(store, q, max, token), InOrder(all);
    WalkContents(store, q, max, token);
    InOrderAscends(all);
    forall i | 0 <= i < |walk| ensures walk[i] in sorted { assert walk[i] in walk; InOrderMembers(all, walk[i]); }
    forall i | 0 <= i < |sorted| ensures sorted[i] in walk { InOrderMembers(all, sorted[i]); }
    AscendingUnique(walk, sorted);
    FirstNames(store, q, token, -1);
  }
}
