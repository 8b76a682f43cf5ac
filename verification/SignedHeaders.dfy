/** The signed header names (lower case, sorted, without repeats) and their normalised values. */
module SignedHeaders {
  import opened Texts
  import opened Sorting
  import opened Splits
  import opened Tokens

  // ----- names -----

  predicate NameAtMost(a: Text, b: Text) {
    AtMost(a, b)
  }

  function Lower(s: Text): Text {
    Map(s, LowerByte)
  }

  // Vec::dedup: drops every element equal to the one before it.
  function Dedup(s: seq<Text>): seq<Text> {
    if |s| <= 1 then s
    else if s[0] == s[1] then Dedup(s[1..])
    else [s[0]] + Dedup(s[1..])
  }

  function CanonicalNames(names: seq<Text>): seq<Text> {
    Dedup(Sort(Map(names, Lower), NameAtMost))
  }

  lemma TextOrder()
    ensures TotalPreorder(NameAtMost)
  {
    forall x: Text, y: Text ensures NameAtMost(x, y) || NameAtMost(y, x) { LessTotal(x, y); }
    forall x: Text, y: Text, z: Text | NameAtMost(x, y) && NameAtMost(y, z) ensures NameAtMost(x, z) {
      AtMostTransitive(x, y, z);
    }
  }

  lemma {:induction false} DedupAscends(s: seq<Text>)
    requires Sorted(s, NameAtMost)
    ensures StrictlyAscending(Dedup(s))
    ensures forall x: Text :: x in Dedup(s) <==> x in s
  {
    if |s| > 1 {
      DedupAscends(s[1..]);
      var rest := Dedup(s[1..]);
      assert s == [s[0]] + s[1..];
      if s[0] != s[1] {
        forall j | 0 <= j < |rest| ensures Less(s[0], rest[j]) {
          assert rest[j] in s[1..];
          var k :| 0 <= k < |s| - 1 && s[1..][k] == rest[j];
          assert NameAtMost(s[0], s[1]) && NameAtMost(s[0], s[k + 1]) && (0 < k ==> NameAtMost(s[1], s[k + 1]));
          assert s[0] != s[k + 1] by { if s[0] == s[k + 1] { AtMostAntisymmetric(s[0], s[1]); } }
        }
      }
    }
  }

  /** The canonical names ascend strictly and are exactly the lower-cased names. */
  lemma CanonicalNamesAscend(names: seq<Text>)
    ensures StrictlyAscending(CanonicalNames(names))
    ensures forall x: Text :: x in CanonicalNames(names) <==> x in Map(names, Lower)
  {
    TextOrder();
    SortSorts<Text>(Map(names, Lower), NameAtMost);
    DedupAscends(Sort(Map(names, Lower), NameAtMost));
    forall x: Text ensures x in Sort<Text>(Map(names, Lower), NameAtMost) <==> x in Map(names, Lower) {
      SameMembers(Sort(Map(names, Lower), NameAtMost), Map(names, Lower), x);
    }
  }

  ghost predicate NoUpperCase(s: Text) {
    forall i :: 0 <= i < |s| ==> !('A' <= s[i] <= 'Z')
  }

  /** Lower-casing gives the one text without upper-case letters that is the same but for the case. */
  lemma LowerIff(s: Text, t: Text)
    ensures Lower(s) == t <==> SameIgnoringCase(s, t) && NoUpperCase(t)
  {
  }

  lemma LowerAlikeIff(s: Text, t: Text)
    ensures Lower(s) == Lower(t) <==> SameIgnoringCase(s, t)
  {
    if Lower(s) == Lower(t) {
      forall i | 0 <= i < |s| ensures SameLetter(s[i], t[i]) {
        assert Lower(s)[i] == Lower(t)[i];
      }
      assert |Lower(s)| == |s| && |Lower(t)| == |t|;
    }
  }

  // One of the names, but for the case.
  ghost predicate Names(names: seq<Text>, x: Text) {
    exists i :: 0 <= i < |names| && SameIgnoringCase(names[i], x)
  }

  lemma LoweredIff(names: seq<Text>, x: Text)
    ensures x in Map(names, Lower) <==> NoUpperCase(x) && Names(names, x)
  {
    var lowered := Map(names, Lower);
    if x in lowered {
      var i :| 0 <= i < |lowered| && lowered[i] == x;
      LowerIff(names[i], x);
    }
    if NoUpperCase(x) && Names(names, x) {
      var i :| 0 <= i < |names| && SameIgnoringCase(names[i], x);
      LowerIff(names[i], x);
      assert lowered[i] == x;
    }
  }

  // Each list names, but for the case, what the other names.
  ghost predicate SameNames(names: seq<Text>, others: seq<Text>) {
    && (forall i :: 0 <= i < |names| ==> Names(others, names[i]))
    && (forall i :: 0 <= i < |others| ==> Names(names, others[i]))
  }

  lemma NamedIffLowered(names: seq<Text>, x: Text)
    ensures Names(names, x) <==> Lower(x) in Map(names, Lower)
  {
    var lowered := Map(names, Lower);
    if Names(names, x) {
      var i :| 0 <= i < |names| && SameIgnoringCase(names[i], x);
      LowerAlikeIff(names[i], x);
      assert lowered[i] == Lower(x);
    }
    if Lower(x) in lowered {
      var i :| 0 <= i < |lowered| && lowered[i] == Lower(x);
      LowerAlikeIff(names[i], x);
    }
  }

  lemma SameNamesIff(names: seq<Text>, others: seq<Text>)
    ensures SameNames(names, others) <==>
            && (forall i :: 0 <= i < |names| ==> Lower(names[i]) in Map(others, Lower))
            && (forall i :: 0 <= i < |others| ==> Lower(others[i]) in Map(names, Lower))
  {
    forall i | 0 <= i < |names| ensures Names(others, names[i]) <==> Lower(names[i]) in Map(others, Lower) {
      NamedIffLowered(others, names[i]);
    }
    forall i | 0 <= i < |others| ensures Names(names, others[i]) <==> Lower(others[i]) in Map(names, Lower) {
      NamedIffLowered(names, others[i]);
    }
  }

  /** Two lists have the same canonical names exactly when they name the same headers but for the case. */
  lemma CanonicalNamesIff(names: seq<Text>, others: seq<Text>)
    ensures CanonicalNames(names) == CanonicalNames(others) <==> SameNames(names, others)
  {
    var a, b := CanonicalNames(names), CanonicalNames(others);
    CanonicalNamesAscend(names);
    CanonicalNamesAscend(others);
    SameNamesIff(names, others);
    if SameNames(names, others) {
      forall x: Text ensures x in a <==> x in b { LoweredWithin(names, others, x); LoweredWithin(others, names, x); }
      SameAscending(a, b);
    }
    if a == b {
      forall i | 0 <= i < |names| ensures Lower(names[i]) in Map(others, Lower) {
        assert Map(names, Lower)[i] == Lower(names[i]);
        assert Lower(names[i]) in a;
      }
      forall i | 0 <= i < |others| ensures Lower(others[i]) in Map(names, Lower) {
        assert Map(others, Lower)[i] == Lower(others[i]);
        assert Lower(others[i]) in b;
      }
    }
  }

  lemma LoweredWithin(names: seq<Text>, others: seq<Text>, x: Text)
    requires forall i :: 0 <= i < |names| ==> Lower(names[i]) in Map(others, Lower)
    ensures x in Map(names, Lower) ==> x in Map(others, Lower)
  {
    if x in Map(names, Lower) {
      var i :| 0 <= i < |names| && Map(names, Lower)[i] == x;
    }
  }

  method CanonicalizeSignedHeaders(names: seq<Text>) returns (canonical: seq<Text>)
    ensures canonical == CanonicalNames(names)
    ensures InByteOrder(canonical)
    ensures forall x: Text :: x in canonical <==> NoUpperCase(x) && Names(names, x)
  {
    canonical := Map(names, Lower);
    canonical := Sort(canonical, NameAtMost);
    canonical := Dedup(canonical);
    CanonicalNamesAscend(names);
    AscendingIffByteOrder(canonical);
    forall x: Text ensures x in Map(names, Lower) <==> NoUpperCase(x) && Names(names, x) { LoweredIff(names, x); }
  }

  // ----- values -----

  predicate IsSpace(b: Byte) {
    '\t' <= b <= '\r' || b == ' '
  }

  // str::split_whitespace
  function Words(s: Text): seq<Text> {
    TokensOf<Byte>(s, IsSpace)
  }

  function NormalizeValue(s: Text): Text {
    Join<Byte>(Words(s), [' '])
  }

  // Tab, line feed, vertical tab, form feed, carriage return and space.
  predicate White(b: Byte) {
    b as int == 9 || b as int == 10 || b as int == 11 || b as int == 12 || b as int == 13 || b as int == 32
  }

  /** The words of a value are the non-empty texts that it consists of, with white space between and around them. */
  lemma WordsIff(s: Text, words: seq<Text>)
    ensures Words(s) == words <==> SeparatedBy<Byte>(s, words, White)
  {
    TokensIff<Byte>(s, words, IsSpace);
    SameSeparators<Byte>(s, words, IsSpace, White);
    SameSeparators<Byte>(s, words, White, IsSpace);
  }

  /** A value normalises to its words with one space between them. */
  lemma NormalizeIs(s: Text, words: seq<Text>)
    requires SeparatedBy<Byte>(s, words, White)
    ensures NormalizeValue(s) == Join<Byte>(words, [' '])
  {
    WordsIff(s, words);
  }

  lemma WordsFree(s: Text, b: Byte)
    requires IsSpace(b)
    ensures FreeOf<Byte>(Words(s), b)
  {
    TokensAreTokens<Byte>(s, IsSpace);
    forall i | 0 <= i < |Words(s)| ensures b !in Words(s)[i] {
      assert IsToken<Byte>(Words(s)[i], IsSpace);
    }
  }

  lemma NormalizedFree(s: Text, b: Byte)
    requires IsSpace(b) && b != ' '
    ensures b !in NormalizeValue(s)
  {
    WordsFree(s, b);
    JoinFree<Byte>(Words(s), [' '], b);
  }

  /** Two values normalise to the same text exactly when they consist of the same words. */
  lemma NormalizeIff(s: Text, t: Text)
    ensures NormalizeValue(s) == NormalizeValue(t) <==> Words(s) == Words(t)
  {
    NormalizeKeepsWords(s);
    NormalizeKeepsWords(t);
  }

  /** Normalising keeps the words, so it is idempotent. */
  lemma NormalizeKeepsWords(s: Text)
    ensures Words(NormalizeValue(s)) == Words(s)
    ensures NormalizeValue(NormalizeValue(s)) == NormalizeValue(s)
  {
    TokensAreTokens<Byte>(s, IsSpace);
    TokensOfJoin<Byte>(Words(s), ' ', IsSpace);
  }
}
