/** Splitting a sequence at a separator and joining the pieces again. */
module Splits {
  // str::split: the pieces between the separators, at least one.
  function Split<T(==)>(s: seq<T>, sep: T): (parts: seq<seq<T>>)
    ensures |parts| >= 1
  {
    if s == [] then [[]]
    else
      var rest := Split(s[1..], sep);
      if s[0] == sep then [[]] + rest
      else [[s[0]] + rest[0]] + rest[1..]
  }

  // [T]::join
  function Join<T>(parts: seq<seq<T>>, sep: seq<T>): seq<T> {
    if parts == [] then []
    else if |parts| == 1 then parts[0]
    else parts[0] + sep + Join(parts[1..], sep)
  }

  ghost predicate FreeOf<T>(parts: seq<seq<T>>, sep: T) {
    forall i :: 0 <= i < |parts| ==> sep !in parts[i]
  }

  lemma {:induction false} SplitFree<T>(s: seq<T>, sep: T)
    requires sep !in s
    ensures Split(s, sep) == [s]
  {
    if s != [] {
      SplitFree(s[1..], sep);
      assert s == [s[0]] + s[1..];
    }
  }

  lemma {:induction false} SplitHead<T>(head: seq<T>, sep: T, tail: seq<T>)
    requires sep !in head
    ensures Split(head + [sep] + tail, sep) == [head] + Split(tail, sep)
  {
    var s := head + [sep] + tail;
    if head == [] {
      assert s[1..] == tail;
    } else {
      assert s[1..] == head[1..] + [sep] + tail;
      SplitHead(head[1..], sep, tail);
      assert head == [head[0]] + head[1..];
    }
  }

  /** Splitting undoes joining, for pieces free of the separator. */
  lemma {:induction false} SplitJoin<T>(parts: seq<seq<T>>, sep: T)
    requires parts != [] && FreeOf(parts, sep)
    ensures Split(Join(parts, [sep]), sep) == parts
  {
    if |parts| == 1 {
      SplitFree(parts[0], sep);
    } else {
      SplitHead(parts[0], sep, Join(parts[1..], [sep]));
      SplitJoin(parts[1..], sep);
    }
  }

  lemma {:induction false} SplitPieces<T>(s: seq<T>, sep: T)
    ensures FreeOf(Split(s, sep), sep)
  {
    if s != [] { SplitPieces(s[1..], sep); }
  }

  lemma {:induction false} SplitSizes<T>(a: seq<T>, sep: T, b: seq<T>)
    ensures |Split(a + [sep] + b, sep)| == |Split(a, sep)| + |Split(b, sep)|
  {
    var s := a + [sep] + b;
    if a == [] {
      assert s[1..] == b;
    } else {
      assert s[1..] == a[1..] + [sep] + b;
      SplitSizes(a[1..], sep, b);
    }
  }

  lemma SplitAlone<T>(s: seq<T>, sep: T)
    ensures |Split(s, sep)| == 1 <==> sep !in s
  {
    JoinSplit(s, sep);
    SplitPieces(s, sep);
    if sep !in s { SplitFree(s, sep); }
  }

  /** Joining undoes splitting. */
  lemma {:induction false} JoinSplit<T>(s: seq<T>, sep: T)
    ensures Join(Split(s, sep), [sep]) == s
  {
    if s != [] {
      var rest := Split(s[1..], sep);
      JoinSplit(s[1..], sep);
      if s[0] == sep {
        assert ([[]] + rest)[1..] == rest;
      } else {
        var parts := [[s[0]] + rest[0]] + rest[1..];
        assert parts[1..] == rest[1..];
        if |rest| > 1 {
          assert Join(parts, [sep]) == [s[0]] + (rest[0] + [sep] + Join(rest[1..], [sep]));
        }
      }
      assert s == [s[0]] + s[1..];
    }
  }

  lemma {:induction false} JoinConcat<T>(a: seq<seq<T>>, b: seq<seq<T>>, sep: seq<T>)
    requires a != [] && b != []
    ensures Join(a + b, sep) == Join(a, sep) + sep + Join(b, sep)
  {
    if |a| == 1 {
      assert (a + b)[1..] == b;
    } else {
      assert (a + b)[1..] == a[1..] + b;
      JoinConcat(a[1..], b, sep);
    }
  }

  lemma {:induction false} JoinSnoc<T>(parts: seq<seq<T>>, sep: seq<T>, x: T)
    requires parts != []
    ensures var n := |parts| - 1; Join(parts[n := parts[n] + [x]], sep) == Join(parts, sep) + [x]
  {
    var n := |parts| - 1;
    var longer := parts[n := parts[n] + [x]];
    if 0 < n {
      var rest := parts[1..];
      assert longer[1..] == rest[n - 1 := rest[n - 1] + [x]];
      JoinSnoc(rest, sep, x);
      AppendInside(parts[0], sep, Join(rest, sep), x);
    } else {
      assert longer == [parts[0] + [x]];
    }
  }

  lemma AppendInside<T>(a: seq<T>, b: seq<T>, c: seq<T>, x: T)
    ensures a + b + (c + [x]) == a + b + c + [x]
  {
  }

  lemma SplitSnoc<T>(s: seq<T>, x: T, sep: T)
    requires x != sep
    ensures var parts := Split(s, sep); var n := |parts| - 1;
            Split(s + [x], sep) == parts[n := parts[n] + [x]]
  {
    var parts := Split(s, sep);
    var n := |parts| - 1;
    JoinSplit(s, sep);
    JoinSnoc(parts, [sep], x);
    SplitPieces(s, sep);
    SplitJoin(parts[n := parts[n] + [x]], sep);
  }

  /** Joining is injective on non-empty lists of pieces free of the separator. */
  lemma JoinInjective<T>(a: seq<seq<T>>, b: seq<seq<T>>, sep: T)
    requires a != [] && b != [] && FreeOf(a, sep) && FreeOf(b, sep)
    requires Join(a, [sep]) == Join(b, [sep])
    ensures a == b
  {
    SplitJoin(a, sep);
    SplitJoin(b, sep);
  }

  lemma {:induction false} JoinFree<T>(parts: seq<seq<T>>, sep: seq<T>, x: T)
    requires x !in sep && FreeOf(parts, x)
    ensures x !in Join(parts, sep)
  {
    if |parts| > 1 { JoinFree(parts[1..], sep, x); }
  }

  // str::find for one element: where it first occurs, or the length when it does not.
  function Find<T(==)>(s: seq<T>, x: T): (i: nat)
    ensures i <= |s| && x !in s[..i] && (i < |s| ==> s[i] == x)
  {
    if s == [] || s[0] == x then 0
    else
      var i := Find(s[1..], x);
      assert s[..i + 1] == [s[0]] + s[1..][..i];
      i + 1
  }

  lemma {:induction false} FindAt<T>(head: seq<T>, x: T, tail: seq<T>)
    requires x !in head
    ensures Find(head + [x] + tail, x) == |head|
  {
    if head != [] {
      assert (head + [x] + tail)[1..] == head[1..] + [x] + tail;
      FindAt(head[1..], x, tail);
    }
  }
}
