/** The canonical query string: pairs are percent-encoded and sorted by their encoded forms. */
module CanonicalQuery {
  import opened Wrappers
  import opened Texts
  import opened Sorting
  import opened Splits
  import opened UriEncoding

  datatype Param = Param(key: Text, value: Text)

  // Everything up to the first '=' is the key; without one the value is empty.
  function ParsePair(pair: Text): (p: Param)
    ensures '=' !in p.key
    ensures if '=' in pair then pair == p.key + ['='] + p.value else p == Param(pair, [])
  {
    var i := Find(pair, '=');
    if i == |pair| then Param(pair, []) else Param(pair[..i], pair[i + 1..])
  }

  function QueryPairs(query: Option<Text>): seq<Param> {
    match query
    case None => []
    case Some(q) => Map(Split<Byte>(q, '&'), ParsePair)
  }

  predicate ParamAtMost(a: Param, b: Param) {
    var ka, kb := Encode(a.key, true), Encode(b.key, true);
    if ka == kb then AtMost(Encode(a.value, true), Encode(b.value, true)) else Less(ka, kb)
  }

  lemma ParamOrder()
    ensures TotalPreorder(ParamAtMost)
  {
    forall x: Param, y: Param ensures ParamAtMost(x, y) || ParamAtMost(y, x) {
      LessTotal(Encode(x.key, true), Encode(y.key, true));
      LessTotal(Encode(x.value, true), Encode(y.value, true));
    }
    forall x: Param, y: Param, z: Param | ParamAtMost(x, y) && ParamAtMost(y, z)
      ensures ParamAtMost(x, z)
    {
      ParamAtMostTransitive(x, y, z);
    }
  }

  lemma ParamAtMostTransitive(x: Param, y: Param, z: Param)
    requires ParamAtMost(x, y) && ParamAtMost(y, z)
    ensures ParamAtMost(x, z)
  {
    var kx, ky, kz := Encode(x.key, true), Encode(y.key, true), Encode(z.key, true);
    if kx == ky && ky == kz {
      AtMostTransitive(Encode(x.value, true), Encode(y.value, true), Encode(z.value, true));
    } else if kx != ky && ky != kz {
      LessTransitive(kx, ky, kz);
      LessIrreflexive(kx);
    }
  }

  /** Pairs that compare equal are equal, because the encoding is injective. */
  lemma ParamOrderSeparates(x: Param, y: Param)
    requires ParamAtMost(x, y) && ParamAtMost(y, x)
    ensures x == y
  {
    var kx, ky := Encode(x.key, true), Encode(y.key, true);
    AtMostAntisymmetric(kx, ky);
    AtMostAntisymmetric(Encode(x.value, true), Encode(y.value, true));
    EncodeInjective(x.key, y.key, true);
    EncodeInjective(x.value, y.value, true);
  }

  function Render(p: Param): Text {
    Encode(p.key, true) + ['='] + Encode(p.value, true)
  }

  function RenderAll(params: seq<Param>): Text {
    Join<Byte>(Map(params, Render), ['&'])
  }

  function QueryString(query: Option<Text>): Text {
    RenderAll(Sort(QueryPairs(query), ParamAtMost))
  }

  // By the encoded keys, and pairs with one key by the encoded values, in byte order.
  ghost predicate InQueryOrder(x: Param, y: Param) {
    || Precedes(Encode(x.key, true), Encode(y.key, true))
    || (x.key == y.key && (x.value == y.value || Precedes(Encode(x.value, true), Encode(y.value, true))))
  }

  lemma ParamOrderIs(x: Param, y: Param)
    ensures ParamAtMost(x, y) <==> InQueryOrder(x, y)
  {
    LessIff(Encode(x.key, true), Encode(y.key, true));
    LessIff(Encode(x.value, true), Encode(y.value, true));
    if Encode(x.key, true) == Encode(y.key, true) {
      EncodeInjective(x.key, y.key, true);
      LessIrreflexive(Encode(x.key, true));
      if Encode(x.value, true) == Encode(y.value, true) { EncodeInjective(x.value, y.value, true); }
    }
  }

  ghost predicate IsOrdered(params: seq<Param>) {
    forall i, j :: 0 <= i < j < |params| ==> InQueryOrder(params[i], params[j])
  }

  lemma SortedIsOrdered(params: seq<Param>)
    ensures Sorted(params, ParamAtMost) <==> IsOrdered(params)
  {
    forall i, j | 0 <= i < j < |params|
      ensures ParamAtMost(params[i], params[j]) <==> InQueryOrder(params[i], params[j])
    {
      ParamOrderIs(params[i], params[j]);
    }
  }

  method ExtractQueryParams(query: Option<Text>) returns (params: seq<Param>)
    ensures IsSortOf(params, QueryPairs(query), ParamAtMost)
    ensures multiset(params) == multiset(QueryPairs(query)) && IsOrdered(params)
  {
    params := QueryPairs(query);
    ParamOrder();
    SortSorts(params, ParamAtMost);
    params := Sort(params, ParamAtMost);
    SortedIsOrdered(params);
  }

  lemma SortedPairsDetermined(a: seq<Param>, s: seq<Param>, b: seq<Param>, t: seq<Param>)
    requires IsSortOf(a, s, ParamAtMost) && IsSortOf(b, t, ParamAtMost)
    requires multiset(s) == multiset(t)
    ensures a == b
  {
    forall x, y | x in s && y in s && ParamAtMost(x, y) && ParamAtMost(y, x) ensures x == y {
      ParamOrderSeparates(x, y);
    }
    SortDetermined(a, s, b, t, ParamAtMost);
  }

  /** The sort is unstable, yet every outcome it may produce gives the same string. */
  lemma AnySortGivesQueryString(query: Option<Text>, params: seq<Param>)
    requires IsSortOf(params, QueryPairs(query), ParamAtMost)
    ensures RenderAll(params) == QueryString(query)
  {
    ParamOrder();
    SortSorts(QueryPairs(query), ParamAtMost);
    SortedPairsDetermined(params, QueryPairs(query), Sort(QueryPairs(query), ParamAtMost), QueryPairs(query));
  }

  // ----- rendering is injective -----

  lemma EncodedFree(s: Text, encodeSlash: bool, b: Byte)
    requires !Unreserved(b) && b != '%' && b != '/'
    ensures b !in Encode(s, encodeSlash)
  {
  }

  lemma RenderFree(p: Param, b: Byte)
    requires !Unreserved(b) && b != '%' && b != '/' && b != '='
    ensures b !in Render(p)
  {
    EncodedFree(p.key, true, b);
    EncodedFree(p.value, true, b);
  }

  lemma RenderInjective(p: Param, q: Param)
    requires Render(p) == Render(q)
    ensures p == q
  {
    var kp, kq := Encode(p.key, true), Encode(q.key, true);
    var vp, vq := Encode(p.value, true), Encode(q.value, true);
    EncodedFree(p.key, true, '=');
    EncodedFree(q.key, true, '=');
    FindAt(kp, '=', vp);
    FindAt(kq, '=', vq);
    assert kp == Render(p)[..|kp|] && kq == Render(q)[..|kq|];
    assert vp == Render(p)[|kp| + 1..] && vq == Render(q)[|kq| + 1..];
    EncodeInjective(p.key, q.key, true);
    EncodeInjective(p.value, q.value, true);
  }

  lemma RenderAllFree(params: seq<Param>)
    ensures FreeOf(Map(params, Render), '&')
  {
    forall i | 0 <= i < |params| ensures '&' !in Map(params, Render)[i] {
      RenderFree(params[i], '&');
    }
  }

  lemma RenderAllEmpty(params: seq<Param>)
    ensures RenderAll(params) == [] <==> params == []
  {
  }

  lemma RenderAllInjective(a: seq<Param>, b: seq<Param>)
    requires RenderAll(a) == RenderAll(b)
    ensures a == b
  {
    RenderAllEmpty(a);
    RenderAllEmpty(b);
    if a != [] {
      RenderAllFree(a);
      RenderAllFree(b);
      JoinInjective<Byte>(Map(a, Render), Map(b, Render), '&');
      forall i | 0 <= i < |a| ensures a[i] == b[i] {
        assert Map(a, Render)[i] == Map(b, Render)[i];
        RenderInjective(a[i], b[i]);
      }
    }
  }

  /** Two queries have the same canonical string exactly when they hold the same multiset of pairs. */
  lemma QueryStringIff(q: Option<Text>, r: Option<Text>)
    ensures QueryString(q) == QueryString(r) <==> multiset(QueryPairs(q)) == multiset(QueryPairs(r))
  {
    ParamOrder();
    SortSorts(QueryPairs(q), ParamAtMost);
    SortSorts(QueryPairs(r), ParamAtMost);
    var a, b := Sort(QueryPairs(q), ParamAtMost), Sort(QueryPairs(r), ParamAtMost);
    if RenderAll(a) == RenderAll(b) {
      RenderAllInjective(a, b);
    }
    if multiset(QueryPairs(q)) == multiset(QueryPairs(r)) {
      SortedPairsDetermined(a, QueryPairs(q), b, QueryPairs(r));
    }
  }

  /** Reordering the '&'-separated pieces of a query does not change its canonical string. */
  lemma ReorderingIsInvisible(pieces: seq<Text>, reordered: seq<Text>)
    requires pieces != [] && FreeOf(pieces, '&') && multiset(pieces) == multiset(reordered)
    ensures QueryString(Some(Join<Byte>(pieces, ['&']))) == QueryString(Some(Join<Byte>(reordered, ['&'])))
  {
    assert |reordered| == |multiset(reordered)| == |multiset(pieces)| == |pieces|;
    forall i | 0 <= i < |reordered| ensures '&' !in reordered[i] {
      SameMembers(pieces, reordered, reordered[i]);
    }
    SplitJoin<Byte>(pieces, '&');
    SplitJoin<Byte>(reordered, '&');
    MapPermutes(pieces, reordered, ParsePair);
    QueryStringIff(Some(Join<Byte>(pieces, ['&'])), Some(Join<Byte>(reordered, ['&'])));
  }

  function EncodedPair(p: Param): Param {
    Param(Encode(p.key, true), Encode(p.value, true))
  }

  lemma ParseRendered(p: Param)
    ensures ParsePair(Render(p)) == EncodedPair(p)
  {
    var k, v := Encode(p.key, true), Encode(p.value, true);
    EncodedFree(p.key, true, '=');
    FindAt(k, '=', v);
    assert Render(p)[..|k|] == k && Render(p)[|k| + 1..] == v && Render(p)[|k|] == '=';
  }

  lemma ReadRendered(params: seq<Param>)
    requires params != []
    ensures QueryPairs(Some(RenderAll(params))) == Map(params, EncodedPair)
  {
    RenderAllFree(params);
    SplitJoin<Byte>(Map(params, Render), '&');
    forall i | 0 <= i < |params| ensures ParsePair(Render(params[i])) == EncodedPair(params[i]) {
      ParseRendered(params[i]);
    }
  }

  /**
   The canonical string, read as a query again, holds the pairs of the query, encoded and in order; for
   a request without a query it is empty.
   */
  lemma QueryStringReadsBack(query: Option<Text>) returns (params: seq<Param>)
    ensures multiset(params) == multiset(QueryPairs(query)) && IsOrdered(params)
    ensures query.None? ==> QueryString(query) == []
    ensures query.Some? ==> QueryPairs(Some(QueryString(query))) == Map(params, EncodedPair)
  {
    params := Sort(QueryPairs(query), ParamAtMost);
    ParamOrder();
    SortSorts(QueryPairs(query), ParamAtMost);
    SortedIsOrdered(params);
    if query.Some? {
      assert |params| == |multiset(params)| == |multiset(QueryPairs(query))| == |QueryPairs(query)|;
      ReadRendered(params);
    }
  }

  lemma QueryStringFree(query: Option<Text>, b: Byte)
    requires !Unreserved(b) && b != '%' && b != '/' && b != '=' && b != '&'
    ensures b !in QueryString(query)
  {
    var params := Sort(QueryPairs(query), ParamAtMost);
    forall i | 0 <= i < |params| ensures b !in Map(params, Render)[i] {
      RenderFree(params[i], b);
    }
    JoinFree<Byte>(Map(params, Render), ['&'], b);
  }
}
