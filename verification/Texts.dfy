/** The byte-wise order of texts, and the smallest members of a finite set of texts. */
module Texts {
  // A text in its UTF-8 form, one char per byte.
  type Byte = c: char | c as int < 256 witness 'a'
  type Text = seq<Byte>

  // u8::to_ascii_lowercase
  function LowerByte(b: Byte): Byte {
    if 'A' <= b <= 'Z' then (b as int + 32) as char else b
  }

  // The same byte, or the two cases of one ASCII letter.
  ghost predicate SameLetter(a: Byte, b: Byte) {
    || a == b
    || ('A' <= a <= 'Z' && b as int == a as int + 32)
    || ('A' <= b <= 'Z' && a as int == b as int + 32)
  }

  ghost predicate SameIgnoringCase(s: Text, t: Text) {
    |s| == |t| && forall i :: 0 <= i < |s| ==> SameLetter(s[i], t[i])
  }

  predicate Less(a: string, b: string) {
    if b == [] then false
    else if a == [] then true
    else if a[0] != b[0] then a[0] < b[0]
    else Less(a[1..], b[1..])
  }

  predicate AtMost(a: string, b: string) {
    a == b || Less(a, b)
  }

  // Byte-wise order said outright: a proper prefix comes first, and otherwise the first difference decides.
  ghost predicate Precedes(a: string, b: string) {
    (a != b && a <= b) || exists k :: 0 <= k < |a| && DiffersUpAt(a, b, k)
  }

  ghost predicate DiffersUpAt(a: string, b: string, k: nat) {
    k < |a| && k < |b| && a[..k] == b[..k] && a[k] < b[k]
  }

  lemma DiffersLater(a: string, b: string, k: nat)
    requires a != [] && b != [] && a[0] == b[0]
    ensures DiffersUpAt(a[1..], b[1..], k) <==> DiffersUpAt(a, b, k + 1)
  {
    if k + 1 <= |a| && k + 1 <= |b| {
      assert a[..k + 1] == [a[0]] + a[1..][..k] && b[..k + 1] == [b[0]] + b[1..][..k];
    }
  }

  lemma PrecedesTails(a: string, b: string)
    requires a != [] && b != [] && a[0] == b[0]
    ensures Precedes(a[1..], b[1..]) <==> Precedes(a, b)
  {
    assert a == [a[0]] + a[1..] && b == [b[0]] + b[1..];
    assert a <= b <==> a[1..] <= b[1..];
    if k :| 0 <= k < |a[1..]| && DiffersUpAt(a[1..], b[1..], k) {
      DiffersLater(a, b, k);
    }
    if k :| 0 <= k < |a| && DiffersUpAt(a, b, k) {
      DiffersLater(a, b, k - 1);
    }
  }

  /** The comparison is the byte-wise order. */
  lemma {:induction false} LessIff(a: string, b: string)
    ensures Less(a, b) <==> Precedes(a, b)
  {
    if a != [] && b != [] {
      if a[0] == b[0] {
        LessIff(a[1..], b[1..]);
        PrecedesTails(a, b);
      } else if a[0] < b[0] {
        assert DiffersUpAt(a, b, 0);
      }
    }
  }

  // Strictly ascending in the byte-wise order.
  ghost predicate InByteOrder(s: seq<string>) {
    forall i, j :: 0 <= i < j < |s| ==> Precedes(s[i], s[j])
  }

  lemma AscendingIffByteOrder(s: seq<string>)
    ensures StrictlyAscending(s) <==> InByteOrder(s)
  {
    forall i, j | 0 <= i < j < |s| ensures Less(s[i], s[j]) <==> Precedes(s[i], s[j]) {
      LessIff(s[i], s[j]);
    }
  }

  lemma {:induction false} LessIrreflexive(a: string)
    ensures !Less(a, a)
  {
    if a != [] { LessIrreflexive(a[1..]); }
  }

  lemma {:induction false} LessTransitive(a: string, b: string, c: string)
    requires Less(a, b) && Less(b, c)
    ensures Less(a, c)
  {
    if a != [] && a[0] == b[0] && b[0] == c[0] { LessTransitive(a[1..], b[1..], c[1..]); }
  }

  lemma {:induction false} LessTotal(a: string, b: string)
    ensures a == b || Less(a, b) || Less(b, a)
  {
    if a != [] && b != [] && a[0] == b[0] {
      LessTotal(a[1..], b[1..]);
      assert a == [a[0]] + a[1..] && b == [b[0]] + b[1..];
    }
  }

  lemma AtMostAntisymmetric(a: string, b: string)
    requires AtMost(a, b) && AtMost(b, a)
    ensures a == b
  {
    if a != b {
      LessTransitive(a, b, a);
      LessIrreflexive(a);
    }
  }

  lemma AtMostTransitive(a: string, b: string, c: string)
    requires AtMost(a, b) && AtMost(b, c)
    ensures AtMost(a, c)
  {
    if a != b && b != c { LessTransitive(a, b, c); }
  }

  ghost predicate StrictlyAscending(s: seq<string>) {
    forall i, j :: 0 <= i < j < |s| ==> Less(s[i], s[j])
  }

  ghost predicate Within(a: seq<string>, b: seq<string>) {
    forall i :: 0 <= i < |a| ==> a[i] in b
  }

  lemma AscendingHeads(a: seq<string>, b: seq<string>)
    requires StrictlyAscending(a) && StrictlyAscending(b) && a != [] && b != []
    requires a[0] in b && b[0] in a
    ensures a[0] == b[0]
  {
    var i :| 0 <= i < |a| && a[i] == b[0];
    var j :| 0 <= j < |b| && b[j] == a[0];
    assert AtMost(a[0], b[0]) && AtMost(b[0], a[0]);
    AtMostAntisymmetric(a[0], b[0]);
  }

  lemma AscendingTails(a: seq<string>, b: seq<string>)
    requires StrictlyAscending(a) && StrictlyAscending(b) && a != [] && b != [] && a[0] == b[0]
    requires Within(a, b)
    ensures Within(a[1..], b[1..])
  {
    forall i | 0 <= i < |a| - 1 ensures a[1..][i] in b[1..] {
      assert a[i + 1] in b;
      var j :| 0 <= j < |b| && b[j] == a[i + 1];
      assert Less(a[0], a[i + 1]);
      LessIrreflexive(a[0]);
      assert b[1..][j - 1] == a[i + 1];
    }
  }

  /** A strictly ascending list is determined by its members. */
  lemma {:induction false} AscendingUnique(a: seq<string>, b: seq<string>)
    requires StrictlyAscending(a) && StrictlyAscending(b)
    requires Within(a, b) && Within(b, a)
    ensures a == b
    decreases |a|
  {
    assert (a == [] || a[0] in b) && (b == [] || b[0] in a);
    if a != [] && b != [] {
      AscendingHeads(a, b);
      AscendingTails(a, b);
      AscendingTails(b, a);
      AscendingUnique(a[1..], b[1..]);
      assert a == [a[0]] + a[1..] && b == [b[0]] + b[1..];
    }
  }

  lemma SameAscending(a: seq<Text>, b: seq<Text>)
    requires StrictlyAscending(a) && StrictlyAscending(b)
    requires forall x: Text :: x in a <==> x in b
    ensures a == b
  {
    assert Within(a, b) by { forall i | 0 <= i < |a| ensures a[i] in b { assert a[i] in a; } }
    assert Within(b, a) by { forall i | 0 <= i < |b| ensures b[i] in a { assert b[i] in b; } }
    AscendingUnique(a, b);
  }

  lemma AscendingConcat(a: seq<string>, b: seq<string>)
    requires StrictlyAscending(a) && StrictlyAscending(b) && a != []
    requires forall j :: 0 <= j < |b| ==> Less(a[|a| - 1], b[j])
    ensures StrictlyAscending(a + b)
  {
    forall i, j | 0 <= i < |a| && 0 <= j < |b| ensures Less(a[i], b[j]) {
      if i < |a| - 1 { LessTransitive(a[i], a[|a| - 1], b[j]); }
    }
  }
}
