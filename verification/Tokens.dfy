/** The pieces of a sequence between runs of separators, such as the words of a text. */
module Tokens {
  import opened Splits

  function TokenLength<T>(s: seq<T>, isSep: T -> bool): (n: nat)
    ensures n <= |s|
    ensures forall i :: 0 <= i < n ==> !isSep(s[i])
    ensures n < |s| ==> isSep(s[n])
  {
    if s == [] || isSep(s[0]) then 0 else 1 + TokenLength(s[1..], isSep)
  }

  function TokensOf<T>(s: seq<T>, isSep: T -> bool): seq<seq<T>>
    decreases |s|
  {
    if s == [] then []
    else if isSep(s[0]) then TokensOf(s[1..], isSep)
    else var n := TokenLength(s, isSep); [s[..n]] + TokensOf(s[n..], isSep)
  }

  ghost predicate IsToken<T>(w: seq<T>, isSep: T -> bool) {
    w != [] && forall i :: 0 <= i < |w| ==> !isSep(w[i])
  }

  ghost predicate AllTokens<T>(tokens: seq<seq<T>>, isSep: T -> bool) {
    forall i :: 0 <= i < |tokens| ==> IsToken(tokens[i], isSep)
  }

  // ----- tokens with gaps between and around them -----

  // A first gap, and after it each token with the gap that follows it.
  datatype Piece<T> = Piece(token: seq<T>, gap: seq<T>)

  ghost function Woven<T>(first: seq<T>, pieces: seq<Piece<T>>): seq<T>
    decreases |pieces|
  {
    if pieces == [] then first else first + pieces[0].token + Woven(pieces[0].gap, pieces[1..])
  }

  ghost predicate IsGap<T>(gap: seq<T>, isSep: T -> bool) {
    forall i :: 0 <= i < |gap| ==> isSep(gap[i])
  }

  // Gaps consist of separators, and only the outermost ones may be empty.
  ghost predicate Gapped<T>(first: seq<T>, pieces: seq<Piece<T>>, tokens: seq<seq<T>>, isSep: T -> bool) {
    && |pieces| == |tokens| && IsGap(first, isSep)
    && (forall i :: 0 <= i < |pieces| ==>
          pieces[i].token == tokens[i] && IsToken(tokens[i], isSep) && IsGap(pieces[i].gap, isSep))
    && (forall i :: 0 <= i < |pieces| - 1 ==> pieces[i].gap != [])
  }

  ghost predicate SeparatedBy<T(!new)>(s: seq<T>, tokens: seq<seq<T>>, isSep: T -> bool) {
    exists first, pieces :: Gapped(first, pieces, tokens, isSep) && s == Woven(first, pieces)
  }

  lemma {:induction false} TokensAfterGap<T>(gap: seq<T>, s: seq<T>, isSep: T -> bool)
    requires IsGap(gap, isSep)
    ensures TokensOf(gap + s, isSep) == TokensOf(s, isSep)
  {
    if gap == [] {
      assert gap + s == s;
    } else {
      assert (gap + s)[1..] == gap[1..] + s;
      TokensAfterGap(gap[1..], s, isSep);
    }
  }

  lemma {:induction false} LengthOfToken<T>(w: seq<T>, rest: seq<T>, isSep: T -> bool)
    requires (forall i :: 0 <= i < |w| ==> !isSep(w[i])) && (rest == [] || isSep(rest[0]))
    ensures TokenLength(w + rest, isSep) == |w|
  {
    if w == [] {
      assert w + rest == rest;
    } else {
      assert (w + rest)[1..] == w[1..] + rest;
      LengthOfToken(w[1..], rest, isSep);
    }
  }

  lemma TokenFirst<T>(w: seq<T>, rest: seq<T>, isSep: T -> bool)
    requires IsToken(w, isSep) && (rest == [] || isSep(rest[0]))
    ensures TokensOf(w + rest, isSep) == [w] + TokensOf(rest, isSep)
  {
    LengthOfToken(w, rest, isSep);
    assert (w + rest)[..|w|] == w && (w + rest)[|w|..] == rest && (w + rest)[0] == w[0];
  }

  lemma {:induction false} TokensOfWoven<T>(
      first: seq<T>, pieces: seq<Piece<T>>, tokens: seq<seq<T>>, isSep: T -> bool)
    requires Gapped(first, pieces, tokens, isSep)
    ensures TokensOf(Woven(first, pieces), isSep) == tokens
    decreases |pieces|
  {
    if pieces == [] {
      assert first + [] == first;
      TokensAfterGap(first, [], isSep);
    } else {
      var p := pieces[0];
      var rest := Woven(p.gap, pieces[1..]);
      assert first + p.token + rest == first + (p.token + rest);
      TokensAfterGap(first, p.token + rest, isSep);
      assert rest == [] || isSep(rest[0]) by { if |pieces| > 1 { assert p.gap != []; } }
      TokenFirst(p.token, rest, isSep);
      assert forall i :: 0 <= i < |pieces| - 1 ==> pieces[1..][i] == pieces[i + 1] && tokens[1..][i] == tokens[i + 1];
      assert Gapped(p.gap, pieces[1..], tokens[1..], isSep);
      TokensOfWoven(p.gap, pieces[1..], tokens[1..], isSep);
      assert tokens == [tokens[0]] + tokens[1..];
    }
  }

  lemma {:induction false} WovenOf<T>(s: seq<T>, isSep: T -> bool) returns (first: seq<T>, pieces: seq<Piece<T>>)
    ensures Gapped(first, pieces, TokensOf(s, isSep), isSep) && s == Woven(first, pieces)
    ensures s != [] && !isSep(s[0]) ==> first == []
    ensures s != [] && isSep(s[0]) ==> first != []
    decreases |s|
  {
    if s == [] {
      first, pieces := [], [];
    } else if isSep(s[0]) {
      var f, ps := WovenOf(s[1..], isSep);
      first, pieces := [s[0]] + f, ps;
      GapMore(s, f, ps);
    } else {
      var n := TokenLength(s, isSep);
      var gap, rest := WovenOf(s[n..], isSep);
      first, pieces := [], [Piece(s[..n], gap)] + rest;
      var tokens := TokensOf(s[n..], isSep);
      assert TokensOf(s, isSep) == [s[..n]] + tokens;
      ConsGapped(gap, rest, tokens, s[..n], isSep);
      assert pieces[1..] == rest && s == [] + s[..n] + s[n..];
    }
  }

  lemma GapMore<T>(s: seq<T>, first: seq<T>, pieces: seq<Piece<T>>)
    requires s != [] && s[1..] == Woven(first, pieces)
    ensures s == Woven([s[0]] + first, pieces)
  {
    assert s == [s[0]] + s[1..];
    if pieces != [] {
      var rest := Woven(pieces[0].gap, pieces[1..]);
      assert [s[0]] + (first + pieces[0].token + rest) == [s[0]] + first + pieces[0].token + rest;
    }
  }

  lemma ConsGapped<T>(gap: seq<T>, rest: seq<Piece<T>>, tokens: seq<seq<T>>, w: seq<T>, isSep: T -> bool)
    requires Gapped(gap, rest, tokens, isSep) && IsToken(w, isSep) && (rest == [] || gap != [])
    ensures Gapped([], [Piece(w, gap)] + rest, [w] + tokens, isSep)
  {
  }

  /** The tokens of a sequence are the only ones it consists of, with separators between and around them. */
  lemma TokensIff<T(!new)>(s: seq<T>, tokens: seq<seq<T>>, isSep: T -> bool)
    ensures TokensOf(s, isSep) == tokens <==> SeparatedBy(s, tokens, isSep)
  {
    var first, pieces := WovenOf(s, isSep);
    if f, ps :| Gapped(f, ps, tokens, isSep) && s == Woven(f, ps) {
      TokensOfWoven(f, ps, tokens, isSep);
    }
  }

  lemma TokensAreTokens<T>(s: seq<T>, isSep: T -> bool)
    ensures AllTokens(TokensOf(s, isSep), isSep)
  {
    var first, pieces := WovenOf(s, isSep);
  }

  lemma {:induction false} TokensOfJoin<T>(tokens: seq<seq<T>>, sep: T, isSep: T -> bool)
    requires AllTokens(tokens, isSep) && isSep(sep)
    ensures TokensOf(Join(tokens, [sep]), isSep) == tokens
  {
    if |tokens| == 1 {
      assert tokens[0] + [] == tokens[0];
      TokenFirst(tokens[0], [], isSep);
    } else if tokens != [] {
      var rest := Join(tokens[1..], [sep]);
      assert tokens[0] + [sep] + rest == tokens[0] + ([sep] + rest);
      TokenFirst(tokens[0], [sep] + rest, isSep);
      assert ([sep] + rest)[1..] == rest;
      TokensOfJoin(tokens[1..], sep, isSep);
    }
  }

  // Gaps and tokens depend on what the separators are, not on how that is said.
  lemma SameSeparators<T(!new)>(s: seq<T>, tokens: seq<seq<T>>, f: T -> bool, g: T -> bool)
    requires forall x :: f(x) <==> g(x)
    ensures SeparatedBy(s, tokens, f) ==> SeparatedBy(s, tokens, g)
  {
    if first, pieces :| Gapped(first, pieces, tokens, f) && s == Woven(first, pieces) {
      assert Gapped(first, pieces, tokens, g);
    }
  }
}
