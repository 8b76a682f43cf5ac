/** Trimming unwanted elements from both ends of a sequence. */
module Trims {
  function TrimStart<T>(s: seq<T>, drop: T -> bool): seq<T> {
    if s == [] || !drop(s[0]) then s else TrimStart(s[1..], drop)
  }

  function TrimEnd<T>(s: seq<T>, drop: T -> bool): seq<T> {
    if s == [] || !drop(s[|s| - 1]) then s else TrimEnd(s[..|s| - 1], drop)
  }

  function Trim<T>(s: seq<T>, drop: T -> bool): seq<T> {
    TrimEnd(TrimStart(s, drop), drop)
  }

  ghost predicate All<T>(s: seq<T>, drop: T -> bool) {
    forall i :: 0 <= i < |s| ==> drop(s[i])
  }

  ghost predicate Trimmed<T>(s: seq<T>, drop: T -> bool) {
    s != [] ==> !drop(s[0]) && !drop(s[|s| - 1])
  }

  lemma TrimPrepend<T>(x: T, s: seq<T>, drop: T -> bool)
    requires drop(x)
    ensures Trim([x] + s, drop) == Trim(s, drop)
  {
  }

  lemma {:induction false} TrimStartAppend<T>(s: seq<T>, x: T, drop: T -> bool)
    requires drop(x)
    ensures TrimStart(s + [x], drop) == if TrimStart(s, drop) == [] then [] else TrimStart(s, drop) + [x]
  {
    if s == [] {
      assert s + [x] == [x];
      assert [x][1..] == [];
    } else if drop(s[0]) {
      assert (s + [x])[1..] == s[1..] + [x];
      TrimStartAppend(s[1..], x, drop);
    }
  }

  lemma TrimAppend<T>(s: seq<T>, x: T, drop: T -> bool)
    requires drop(x)
    ensures Trim(s + [x], drop) == Trim(s, drop)
  {
    TrimStartAppend(s, x, drop);
    var t := TrimStart(s, drop);
    if t != [] {
      assert (t + [x])[..|t|] == t;
    }
  }

  /** Trimming removes exactly the padding around a text that has none of its own. */
  lemma {:induction false} TrimPadded<T>(before: seq<T>, core: seq<T>, after: seq<T>, drop: T -> bool)
    requires All(before, drop) && All(after, drop) && Trimmed(core, drop)
    ensures Trim(before + core + after, drop) == core
    decreases |before| + |after|
  {
    if before != [] {
      assert before + core + after == [before[0]] + (before[1..] + core + after);
      TrimPrepend(before[0], before[1..] + core + after, drop);
      TrimPadded(before[1..], core, after, drop);
    } else if after != [] {
      var n := |after| - 1;
      assert before + core + after == (before + core + after[..n]) + [after[n]];
      TrimAppend(before + core + after[..n], after[n], drop);
      TrimPadded(before, core, after[..n], drop);
    } else {
      assert before + core + after == core;
    }
  }

  lemma Cons<T>(s: seq<T>, a: seq<T>, b: seq<T>)
    requires s != [] && s[1..] == a + b
    ensures s == [s[0]] + a + b
  {
    assert s == [s[0]] + s[1..];
  }

  lemma {:induction false} TrimStartParts<T>(s: seq<T>, drop: T -> bool) returns (before: seq<T>)
    ensures s == before + TrimStart(s, drop) && All(before, drop)
    ensures TrimStart(s, drop) != [] ==> !drop(TrimStart(s, drop)[0])
  {
    if s == [] || !drop(s[0]) {
      before := [];
    } else {
      var b := TrimStartParts(s[1..], drop);
      before := [s[0]] + b;
      Cons(s, b, TrimStart(s[1..], drop));
    }
  }

  lemma {:induction false} TrimEndParts<T>(s: seq<T>, drop: T -> bool) returns (after: seq<T>)
    ensures s == TrimEnd(s, drop) + after && All(after, drop)
    ensures TrimEnd(s, drop) != [] ==> !drop(TrimEnd(s, drop)[|TrimEnd(s, drop)| - 1])
    ensures TrimEnd(s, drop) != [] ==> TrimEnd(s, drop)[0] == s[0]
  {
    if s == [] || !drop(s[|s| - 1]) {
      after := [];
    } else {
      var n := |s| - 1;
      var a := TrimEndParts(s[..n], drop);
      after := a + [s[n]];
      assert s == s[..n] + [s[n]];
    }
  }

  /** A text is its trimmed form between two paddings. */
  lemma TrimParts<T>(s: seq<T>, drop: T -> bool) returns (before: seq<T>, after: seq<T>)
    ensures s == before + Trim(s, drop) + after
    ensures All(before, drop) && All(after, drop) && Trimmed(Trim(s, drop), drop)
  {
    before := TrimStartParts(s, drop);
    after := TrimEndParts(TrimStart(s, drop), drop);
  }
}
