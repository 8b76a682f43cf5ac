/**
 The bytes of which a message-attribute digest is the MD5: the attributes in order of their names,
 every field preceded by its length as four big-endian bytes.  Base64 decoding is a parameter.
 */
module AttributeDigest {
  import opened Wrappers
  import opened Texts
  import opened Sorting
  import opened Splits

  datatype AttributeValue = AttributeValue(dataType: Text, stringValue: Option<Text>, binaryValue: Option<Text>)

  type Attributes = map<Text, AttributeValue>

  datatype Attribute = Attribute(name: Text, value: AttributeValue)

  datatype DigestError = MissingBinaryValue(name: Text) | InvalidBase64(name: Text) | MissingStringValue(name: Text)

  // What the buffer says about one attribute.
  datatype Entry = Entry(name: Text, dataType: Text, kind: Byte, value: Text)

  const BINARY: Text := "Binary"
  const STRING_KIND: Byte := 1 as char
  const BINARY_KIND: Byte := 2 as char

  function Resolve(name: Text, v: AttributeValue, decode: Text -> Option<Text>): (r: Result<Entry, DigestError>)
    ensures r.Ok? ==> r.value.name == name && r.value.dataType == v.dataType
    ensures "Binary" <= v.dataType ==>
              if v.binaryValue.None? then r == Err(MissingBinaryValue(name))
              else if decode(v.binaryValue.value).None? then r == Err(InvalidBase64(name))
              else r.Ok? && r.value.kind as int == 2 && decode(v.binaryValue.value) == Some(r.value.value)
    ensures !("Binary" <= v.dataType) ==>
              if v.stringValue.None? then r == Err(MissingStringValue(name))
              else r.Ok? && r.value.kind as int == 1 && v.stringValue == Some(r.value.value)
  {
    if BINARY <= v.dataType then
      if v.binaryValue.None? then Err(MissingBinaryValue(name))
      else
        var decoded := decode(v.binaryValue.value);
        if decoded.None? then Err(InvalidBase64(name)) else Ok(Entry(name, v.dataType, BINARY_KIND, decoded.value))
    else if v.stringValue.None? then Err(MissingStringValue(name))
    else Ok(Entry(name, v.dataType, STRING_KIND, v.stringValue.value))
  }

  // ----- framing -----

  const TWO_32 := 0x1_0000_0000

  // (len as u32).to_be_bytes(): the length is truncated to 32 bits.
  function LengthBytes(len: nat): (b: Text)
    ensures |b| == 4
  {
    var n := len % TWO_32;
    [(n / 256 / 256 / 256) as char, (n / 256 / 256 % 256) as char, (n / 256 % 256) as char, (n % 256) as char]
  }

  function Framed(bytes: Text): Text {
    LengthBytes(|bytes|) + bytes
  }

  function EntryBytes(e: Entry): (b: Text)
    ensures e.kind in b
  {
    Framed(e.name) + Framed(e.dataType) + [e.kind] + Framed(e.value)
  }

  function BufferOf(entries: seq<Entry>): Text {
    if entries == [] then [] else EntryBytes(entries[0]) + BufferOf(entries[1..])
  }

  lemma {:induction false} BufferSnoc(entries: seq<Entry>, e: Entry)
    ensures BufferOf(entries + [e]) == BufferOf(entries) + EntryBytes(e)
  {
    if entries == [] {
      assert entries + [e] == [e];
      assert BufferOf([e][1..]) == [];
    } else {
      assert (entries + [e])[1..] == entries[1..] + [e];
      BufferSnoc(entries[1..], e);
    }
  }

  // ----- unframing -----

  function ReadLength(b: Text): nat
    requires |b| >= 4
  {
    ((b[0] as int * 256 + b[1] as int) * 256 + b[2] as int) * 256 + b[3] as int
  }

  datatype Read<T> = Read(value: T, rest: Text)

  function ReadField(b: Text): (r: Option<Read<Text>>)
    ensures r.Some? ==> |r.value.rest| < |b|
  {
    if |b| < 4 then None
    else
      var n := ReadLength(b);
      if |b| < 4 + n then None else Some(Read(b[4..4 + n], b[4 + n..]))
  }

  function ReadEntry(b: Text): (r: Option<Read<Entry>>)
    ensures r.Some? ==> |r.value.rest| < |b|
  {
    var name := ReadField(b);
    if name.None? then None else
    var dataType := ReadField(name.value.rest);
    if dataType.None? || dataType.value.rest == [] then None else
    var value := ReadField(dataType.value.rest[1..]);
    if value.None? then None
    else Some(Read(Entry(name.value.value, dataType.value.value, dataType.value.rest[0], value.value.value),
                   value.value.rest))
  }

  function ReadEntries(b: Text): Option<seq<Entry>>
    decreases |b|
  {
    if b == [] then Some([])
    else
      var first := ReadEntry(b);
      if first.None? then None
      else
        var rest := ReadEntries(first.value.rest);
        if rest.None? then None else Some([first.value.value] + rest.value)
  }

  // Whatever its length, a framed field is read up to its length modulo 2^32.
  lemma ReadFramed(bytes: Text, rest: Text)
    ensures var n := |bytes| % TWO_32; ReadField(Framed(bytes) + rest) == Some(Read(bytes[..n], bytes[n..] + rest))
  {
    var n := |bytes| % TWO_32;
    var b := Framed(bytes) + rest;
    ReadLengthBytes(|bytes|, bytes + rest);
    assert b == LengthBytes(|bytes|) + (bytes + rest);
    assert b[4..4 + n] == bytes[..n] && b[4 + n..] == bytes[n..] + rest;
  }

  lemma ReadLengthBytes(len: nat, rest: Text)
    ensures ReadLength(LengthBytes(len) + rest) == len % TWO_32
  {
    Horner(len % TWO_32);
  }

  lemma Horner(n: nat)
    ensures ((n / 256 / 256 / 256 * 256 + n / 256 / 256 % 256) * 256 + n / 256 % 256) * 256 + n % 256 == n
  {
  }

  lemma ReadShort(bytes: Text, rest: Text)
    requires |bytes| < TWO_32
    ensures ReadField(Framed(bytes) + rest) == Some(Read(bytes, rest))
  {
    ReadFramed(bytes, rest);
    assert bytes[..|bytes|] == bytes && bytes[|bytes|..] + rest == rest;
  }

  /**
   What is appended reads back as the bytes up to their length modulo 2^32, followed by the others:
   as all of them, with nothing left, exactly when there are fewer than 2^32.
   */
  method AppendLengthPrefixed(buffer: Text, bytes: Text) returns (extended: Text)
    ensures extended == buffer + Framed(bytes)
    ensures var n := |bytes| % TWO_32; ReadField(extended[|buffer|..]) == Some(Read(bytes[..n], bytes[n..]))
    ensures ReadField(extended[|buffer|..]) == Some(Read(bytes, [])) <==> |bytes| < TWO_32
  {
    extended := buffer + LengthBytes(|bytes|);
    extended := extended + bytes;
    assert extended[|buffer|..] == Framed(bytes) + [];
    ReadFramed(bytes, []);
    assert bytes[|bytes| % TWO_32..] + [] == bytes[|bytes| % TWO_32..];
  }

  ghost predicate Short(e: Entry) {
    |e.name| < TWO_32 && |e.dataType| < TWO_32 && |e.value| < TWO_32
  }

  ghost predicate ListShort(entries: seq<Entry>) {
    forall i :: 0 <= i < |entries| ==> Short(entries[i])
  }

  lemma Regroup(a: Text, b: Text, c: Text, d: Text, e: Text)
    ensures a + b + c + d + e == a + (b + (c + (d + e)))
    ensures a + b + c + d + e == a + (b + c + d + e)
  {
  }

  lemma ReadEntryBytes(e: Entry, rest: Text)
    requires Short(e)
    ensures ReadEntry(EntryBytes(e) + rest) == Some(Read(e, rest))
  {
    var afterValue := Framed(e.value) + rest;
    var afterType := [e.kind] + afterValue;
    var afterName := Framed(e.dataType) + afterType;
    Regroup(Framed(e.name), Framed(e.dataType), [e.kind], Framed(e.value), rest);
    assert EntryBytes(e) + rest == Framed(e.name) + afterName;
    ReadShort(e.name, afterName);
    ReadShort(e.dataType, afterType);
    assert afterType[1..] == afterValue;
    ReadShort(e.value, rest);
  }

  /** Reading a buffer gives back exactly the entries it was made of. */
  lemma {:induction false} ReadInvertsBuffer(entries: seq<Entry>)
    requires ListShort(entries)
    ensures ReadEntries(BufferOf(entries)) == Some(entries)
  {
    if entries != [] {
      assert Short(entries[0]);
      ReadInvertsBuffer(entries[1..]);
      ReadFirst(entries[0], BufferOf(entries[1..]));
      assert [entries[0]] + entries[1..] == entries;
    }
  }

  lemma ReadFirst(e: Entry, rest: Text)
    requires Short(e) && ReadEntries(rest).Some?
    ensures ReadEntries(EntryBytes(e) + rest) == Some([e] + ReadEntries(rest).value)
  {
    ReadEntryBytes(e, rest);
    assert e.kind in EntryBytes(e) + rest;
  }

  // Four bytes cannot announce a longer field.
  lemma FieldIsShort(b: Text)
    ensures ReadField(b).Some? ==> |ReadField(b).value.value| < TWO_32
  {
  }

  lemma EntryIsShort(b: Text)
    ensures ReadEntry(b).Some? ==> Short(ReadEntry(b).value.value)
  {
    var name := ReadField(b);
    FieldIsShort(b);
    if name.Some? {
      var dataType := ReadField(name.value.rest);
      FieldIsShort(name.value.rest);
      if dataType.Some? && dataType.value.rest != [] {
        FieldIsShort(dataType.value.rest[1..]);
      }
    }
  }

  lemma {:induction false} ReadsAreShort(b: Text)
    ensures ReadEntries(b).Some? ==> ListShort(ReadEntries(b).value)
    decreases |b|
  {
    if b != [] && ReadEntry(b).Some? {
      EntryIsShort(b);
      ReadsAreShort(ReadEntry(b).value.rest);
    }
  }

  /** A buffer reads back as the entries it was made of exactly when every field is shorter than 2^32 bytes. */
  lemma ReadInvertsBufferIff(entries: seq<Entry>)
    ensures ReadEntries(BufferOf(entries)) == Some(entries) <==> ListShort(entries)
  {
    ReadsAreShort(BufferOf(entries));
    if ListShort(entries) { ReadInvertsBuffer(entries); }
  }

  // ----- the buffer of an attribute map -----

  ghost predicate InOrder(m: Attributes, names: seq<Text>) {
    StrictlyAscending(names) && forall x: Text :: x in names <==> x in m
  }

  ghost predicate Known(m: Attributes, names: seq<Text>) {
    forall i :: 0 <= i < |names| ==> names[i] in m
  }

  // The first error in the order of the names, or all entries in that order.
  function Entries(m: Attributes, names: seq<Text>, decode: Text -> Option<Text>): (r: Result<seq<Entry>, DigestError>)
    requires Known(m, names)
    ensures r.Ok? ==> |r.value| == |names|
    ensures r.Ok? ==> forall i :: 0 <= i < |names| ==> Resolve(names[i], m[names[i]], decode) == Ok(r.value[i])
  {
    if names == [] then Ok([])
    else
      var n := |names| - 1;
      var before := Entries(m, names[..n], decode);
      if before.Err? then before
      else
        var last := Resolve(names[n], m[names[n]], decode);
        if last.Err? then Err(last.error) else Ok(before.value + [last.value])
  }

  function Buffer(m: Attributes, names: seq<Text>, decode: Text -> Option<Text>): Result<Text, DigestError>
    requires Known(m, names)
  {
    var entries := Entries(m, names, decode);
    if entries.Err? then Err(entries.error) else Ok(BufferOf(entries.value))
  }

  // The attributes of a map in some iteration order.
  ghost predicate IsListing(items: seq<Attribute>, m: Attributes) {
    && Distinct(items)
    && forall a :: a in items <==> a.name in m && m[a.name] == a.value
  }

  predicate ItemAtMost(a: Attribute, b: Attribute) {
    AtMost(a.name, b.name)
  }

  lemma ItemOrder()
    ensures TotalPreorder(ItemAtMost)
  {
    forall x: Attribute, y: Attribute ensures ItemAtMost(x, y) || ItemAtMost(y, x) { LessTotal(x.name, y.name); }
    forall x: Attribute, y: Attribute, z: Attribute | ItemAtMost(x, y) && ItemAtMost(y, z) ensures ItemAtMost(x, z) {
      AtMostTransitive(x.name, y.name, z.name);
    }
  }

  function NameOf(a: Attribute): Text {
    a.name
  }

  lemma SortedListing(items: seq<Attribute>, sorted: seq<Attribute>, m: Attributes)
    requires IsListing(items, m) && IsSortOf(sorted, items, ItemAtMost)
    ensures IsListing(sorted, m) && Sorted(sorted, ItemAtMost)
  {
    forall a ensures a in sorted <==> a in items { SameMembers(sorted, items, a); }
    DistinctPermutes(items, sorted);
  }

  lemma ListedItem(items: seq<Attribute>, m: Attributes, i: nat)
    requires IsListing(items, m) && i < |items|
    ensures items[i].name in m && m[items[i].name] == items[i].value
  {
  }

  lemma SortedNamesAscend(sorted: seq<Attribute>, m: Attributes, i: nat, j: nat)
    requires IsListing(sorted, m) && Sorted(sorted, ItemAtMost) && i < j < |sorted|
    ensures Less(sorted[i].name, sorted[j].name)
  {
  }

  lemma SortedNamesCover(sorted: seq<Attribute>, m: Attributes, x: Text)
    requires IsListing(sorted, m)
    ensures x in Map(sorted, NameOf) <==> x in m
  {
    var names := Map(sorted, NameOf);
    if x in m {
      assert Attribute(x, m[x]) in sorted;
      var i :| 0 <= i < |sorted| && sorted[i] == Attribute(x, m[x]);
      assert names[i] == x;
    }
    if x in names {
      var i :| 0 <= i < |names| && names[i] == x;
      ListedItem(sorted, m, i);
    }
  }

  lemma SortedListingInOrder(sorted: seq<Attribute>, m: Attributes)
    requires IsListing(sorted, m) && Sorted(sorted, ItemAtMost)
    ensures InOrder(m, Map(sorted, NameOf))
  {
    var names := Map(sorted, NameOf);
    forall i, j | 0 <= i < j < |names| ensures Less(names[i], names[j]) { SortedNamesAscend(sorted, m, i, j); }
    forall x: Text ensures x in names <==> x in m { SortedNamesCover(sorted, m, x); }
  }

  method AppendEntry(buffer: Text, e: Entry) returns (extended: Text)
    ensures extended == buffer + EntryBytes(e)
  {
    extended := AppendLengthPrefixed(buffer, e.name);
    extended := AppendLengthPrefixed(extended, e.dataType);
    extended := extended + [e.kind];
    extended := AppendLengthPrefixed(extended, e.value);
    Regroup(buffer, Framed(e.name), Framed(e.dataType), [e.kind], Framed(e.value));
  }

  lemma BufferStep(m: Attributes, names: seq<Text>, i: nat, decode: Text -> Option<Text>)
    requires Known(m, names) && i < |names|
    requires Buffer(m, names[..i], decode).Ok?
    ensures var entry := Resolve(names[i], m[names[i]], decode);
            && (entry.Err? ==> Buffer(m, names, decode) == Err(entry.error))
            && (entry.Ok? ==> Buffer(m, names[..i + 1], decode) ==
                              Ok(Buffer(m, names[..i], decode).value + EntryBytes(entry.value)))
  {
    var longer := names[..i + 1];
    assert longer[..i] == names[..i] && longer[i] == names[i];
    var entry := Resolve(names[i], m[names[i]], decode);
    if entry.Ok? {
      BufferSnoc(Entries(m, names[..i], decode).value, entry.value);
    } else {
      assert Entries(m, longer, decode) == Err(entry.error);
      PrefixErr(m, names, i + 1, decode);
    }
  }

  method AppendAll(sorted: seq<Attribute>, ghost m: Attributes, ghost names: seq<Text>, decode: Text -> Option<Text>)
      returns (r: Result<Text, DigestError>)
    requires Known(m, names) && |names| == |sorted|
    requires forall i :: 0 <= i < |sorted| ==> names[i] == sorted[i].name && m[names[i]] == sorted[i].value
    ensures r == Buffer(m, names, decode)
  {
    var buffer: Text := [];
    for i := 0 to |sorted|
      invariant Known(m, names[..i])
      invariant Buffer(m, names[..i], decode) == Ok(buffer)
    {
      BufferStep(m, names, i, decode);
      var entry := Resolve(sorted[i].name, sorted[i].value, decode);
      if entry.Err? {
        return Err(entry.error);
      }
      buffer := AppendEntry(buffer, entry.value);
    }
    assert names[..|names|] == names;
    r := Ok(buffer);
  }

  /** The buffer is computed from the map alone: whatever order the items arrive in. */
  method CalculateBuffer(items: seq<Attribute>, ghost m: Attributes, decode: Text -> Option<Text>)
      returns (r: Result<Text, DigestError>, names: seq<Text>)
    requires IsListing(items, m)
    ensures InByteOrder(names) && forall x: Text :: x in names <==> x in m
    ensures InOrder(m, names) && r == Buffer(m, names, decode)
  {
    ItemOrder();
    SortSorts(items, ItemAtMost);
    var sorted := Sort(items, ItemAtMost);
    SortedListing(items, sorted, m);
    SortedListingInOrder(sorted, m);
    names := Map(sorted, NameOf);
    AscendingIffByteOrder(names);
    forall i | 0 <= i < |sorted| ensures names[i] == sorted[i].name && names[i] in m && m[names[i]] == sorted[i].value {
      ListedItem(sorted, m, i);
    }
    r := AppendAll(sorted, m, names, decode);
  }

  lemma {:induction false} PrefixErr(m: Attributes, names: seq<Text>, n: nat, decode: Text -> Option<Text>)
    requires Known(m, names)
    requires n <= |names|
    ensures Entries(m, names[..n], decode).Err? ==> Entries(m, names, decode) == Entries(m, names[..n], decode)
    decreases |names|
  {
    if n < |names| {
      var k := |names| - 1;
      PrefixErr(m, names[..k], n, decode);
      assert names[..k][..n] == names[..n];
    } else {
      assert names[..n] == names;
    }
  }

  /** Every iteration order of a map gives the same buffer, or the same error. */
  lemma BufferDetermined(m: Attributes, names: seq<Text>, others: seq<Text>, decode: Text -> Option<Text>)
    requires InOrder(m, names) && InOrder(m, others)
    ensures names == others && Buffer(m, names, decode) == Buffer(m, others, decode)
  {
    SameAscending(names, others);
  }

  ghost predicate AllShort(m: Attributes, decode: Text -> Option<Text>) {
    forall x :: x in m ==> Resolve(x, m[x], decode).Ok? ==> Short(Resolve(x, m[x], decode).value)
  }

  // What the digest depends on: the entry of each name.
  ghost predicate SameEntries(m: Attributes, o: Attributes, decode: Text -> Option<Text>) {
    && (forall x: Text :: x in m <==> x in o)
    && (forall x: Text :: x in m ==> Resolve(x, m[x], decode) == Resolve(x, o[x], decode))
  }

  lemma {:induction false} EntriesDetermined(
      m: Attributes, o: Attributes, names: seq<Text>, decode: Text -> Option<Text>)
    requires forall i :: 0 <= i < |names| ==> names[i] in m && names[i] in o
    requires forall i :: 0 <= i < |names| ==>
               Resolve(names[i], m[names[i]], decode) == Resolve(names[i], o[names[i]], decode)
    ensures Entries(m, names, decode) == Entries(o, names, decode)
  {
    if names != [] {
      EntriesDetermined(m, o, names[..|names| - 1], decode);
    }
  }

  /** Two maps give the same buffer exactly when they hold the same entries. */
  lemma BufferIff(m: Attributes, names: seq<Text>, o: Attributes, others: seq<Text>, decode: Text -> Option<Text>)
    requires InOrder(m, names) && InOrder(o, others)
    requires AllShort(m, decode) && AllShort(o, decode)
    requires Buffer(m, names, decode).Ok? && Buffer(o, others, decode).Ok?
    ensures Buffer(m, names, decode) == Buffer(o, others, decode) <==> SameEntries(m, o, decode)
  {
    var a, b := Entries(m, names, decode).value, Entries(o, others, decode).value;
    if BufferOf(a) == BufferOf(b) {
      EntriesShort(m, names, decode);
      EntriesShort(o, others, decode);
      ReadInvertsBuffer(a);
      ReadInvertsBuffer(b);
      SameListsSameEntries(m, names, o, others, decode);
    }
    if SameEntries(m, o, decode) {
      SameAscending(names, others);
      EntriesDetermined(m, o, names, decode);
    }
  }

  lemma EntriesShort(m: Attributes, names: seq<Text>, decode: Text -> Option<Text>)
    requires InOrder(m, names) && AllShort(m, decode) && Entries(m, names, decode).Ok?
    ensures ListShort(Entries(m, names, decode).value)
  {
  }

  lemma SameListsSameEntries(
      m: Attributes, names: seq<Text>, o: Attributes, others: seq<Text>, decode: Text -> Option<Text>)
    requires InOrder(m, names) && InOrder(o, others)
    requires Entries(m, names, decode).Ok? && Entries(m, names, decode) == Entries(o, others, decode)
    ensures SameEntries(m, o, decode)
  {
    var a := Entries(m, names, decode).value;
    EntryNames(m, names, decode);
    EntryNames(o, others, decode);
    assert names == others;
    forall x: Text | x in m ensures Resolve(x, m[x], decode) == Resolve(x, o[x], decode) {
      var i :| 0 <= i < |names| && names[i] == x;
      assert Resolve(names[i], m[names[i]], decode) == Ok(a[i]);
    }
  }

  lemma EntryNames(m: Attributes, names: seq<Text>, decode: Text -> Option<Text>)
    requires InOrder(m, names) && Entries(m, names, decode).Ok?
    ensures forall i :: 0 <= i < |names| ==> Entries(m, names, decode).value[i].name == names[i]
  {
  }

  // ----- what happens without the bound -----

  const STRING: Text := "String"
  const NUMBER: Text := "Number"

  predicate NameByte(c: Byte) {
    'a' <= c <= 'z' || 'A' <= c <= 'Z' || '0' <= c <= '9' || c == '_' || c == '-' || c == '.'
  }

  predicate ReservedName(name: Text) {
    |name| >= 4 && LowerByte(name[0]) == 'a' && LowerByte(name[1]) == 'w' && LowerByte(name[2]) == 's' && name[3] == '.'
  }

  // What a request must satisfy before its attributes are digested.
  predicate ValidName(name: Text) {
    && 1 <= |name| <= 256
    && name[0] != '.' && name[|name| - 1] != '.'
    && (forall i :: 0 <= i < |name| - 1 ==> name[i] != '.' || name[i + 1] != '.')
    && !ReservedName(name)
    && (forall c :: c in name ==> NameByte(c))
  }

  predicate ValidValue(v: AttributeValue) {
    && 1 <= |v.dataType| <= 256
    && if BINARY <= v.dataType then v.binaryValue.Some?
       else (STRING <= v.dataType || NUMBER <= v.dataType) && v.stringValue.Some?
  }

  ghost predicate Valid(m: Attributes) {
    |m| <= 10 && forall name :: name in m ==> ValidName(name) && ValidValue(m[name])
  }

  /**
   A name is accepted exactly when it has at most 256 bytes, consists of non-empty pieces of letters,
   digits, '_' and '-' between periods, and does not start with "aws." in any case.
   */
  lemma ValidNameIff(name: Text)
    ensures ValidName(name) <==>
            && |name| <= 256
            && (forall i :: 0 <= i < |Split<Byte>(name, '.')| ==> IsPlainPiece(Split<Byte>(name, '.')[i]))
            && !(|name| >= 4 && SameIgnoringCase(name[..4], "aws."))
  {
    PiecesAreName(name);
    ReservedIff(name);
  }

  ghost predicate IsPlainPiece(piece: Text) {
    piece != [] && forall i :: 0 <= i < |piece| ==>
      'a' <= piece[i] <= 'z' || 'A' <= piece[i] <= 'Z' || '0' <= piece[i] <= '9' || piece[i] == '_' || piece[i] == '-'
  }

  lemma ReservedIff(name: Text)
    ensures ReservedName(name) <==> |name| >= 4 && SameIgnoringCase(name[..4], "aws.")
  {
    if |name| >= 4 {
      var t: Text := "aws.";
      assert SameIgnoringCase(name[..4], t) <==>
             SameLetter(name[0], t[0]) && SameLetter(name[1], t[1]) && SameLetter(name[2], t[2])
             && SameLetter(name[3], t[3]);
    }
  }

  // No period at the ends, none next to another, and only bytes of names.
  ghost predicate WellDotted(name: Text) {
    && name != [] && name[0] != '.' && name[|name| - 1] != '.'
    && (forall i :: 0 <= i < |name| - 1 ==> name[i] != '.' || name[i + 1] != '.')
    && (forall i :: 0 <= i < |name| ==> NameByte(name[i]))
  }

  lemma PiecesAreName(name: Text)
    ensures WellDotted(name) <==> AllPlain(Split<Byte>(name, '.'))
    ensures (forall c :: c in name ==> NameByte(c)) <==> (forall i :: 0 <= i < |name| ==> NameByte(name[i]))
  {
    PlainIffDotted(name);
  }

  ghost predicate AllPlain(pieces: seq<Text>) {
    forall i :: 0 <= i < |pieces| ==> IsPlainPiece(pieces[i])
  }

  lemma ConsPlain(piece: Text, pieces: seq<Text>)
    ensures AllPlain([piece] + pieces) <==> IsPlainPiece(piece) && AllPlain(pieces)
  {
    var all := [piece] + pieces;
    if AllPlain(all) {
      assert IsPlainPiece(all[0]);
      forall i | 0 <= i < |pieces| ensures IsPlainPiece(pieces[i]) { assert pieces[i] == all[i + 1]; }
    }
  }

  lemma {:induction false} PlainIffDotted(name: Text)
    ensures WellDotted(name) <==> AllPlain(Split<Byte>(name, '.'))
    decreases |name|
  {
    var n := Find<Byte>(name, '.');
    var head := name[..n];
    assert IsPlainPiece(head) <==> head != [] && forall i :: 0 <= i < n ==> NameByte(name[i]) by {
      assert forall i :: 0 <= i < n ==> head[i] == name[i] && head[i] != '.';
    }
    if n == |name| {
      assert head == name;
      SplitFree<Byte>(name, '.');
      ConsPlain(name, []);
      assert [name] + [] == [name];
      assert forall i :: 0 <= i < |name| ==> name[i] == head[i] && name[i] != '.';
    } else {
      var tail := name[n + 1..];
      assert name == head + ['.'] + tail;
      SplitHead<Byte>(head, '.', tail);
      ConsPlain(head, Split<Byte>(tail, '.'));
      PlainIffDotted(tail);
      DottedParts(name, n);
    }
  }

  lemma DottedParts(name: Text, n: nat)
    requires n < |name| && name[n] == '.' && '.' !in name[..n]
    ensures WellDotted(name) <==>
            0 < n && (forall i :: 0 <= i < n ==> NameByte(name[i])) && WellDotted(name[n + 1..])
  {
    var tail := name[n + 1..];
    assert forall i :: 0 <= i < n ==> name[i] != '.' by {
      forall i | 0 <= i < n ensures name[i] != '.' { assert name[..n][i] == name[i]; }
    }
    assert forall i :: 0 <= i < |tail| ==> tail[i] == name[n + 1 + i];
    if WellDotted(tail) {
      forall i | 0 <= i < |name| ensures i <= n || name[i] == tail[i - n - 1] {}
    }
    if WellDotted(name) {
      forall i | 0 <= i < |tail| - 1 ensures tail[i] != '.' || tail[i + 1] != '.' {
        assert name[n + 1 + i] != '.' || name[n + 1 + i + 1] != '.';
      }
    }
  }

  /** An accepted map is digested exactly when the binary values of its Binary attributes decode. */
  lemma ValidIsDigestedIff(m: Attributes, names: seq<Text>, decode: Text -> Option<Text>)
    requires Valid(m) && InOrder(m, names)
    ensures Buffer(m, names, decode).Ok? <==>
            forall x :: x in m && "Binary" <= m[x].dataType ==> decode(m[x].binaryValue.value).Some?
    ensures Buffer(m, names, decode).Err? ==> Buffer(m, names, decode).error.InvalidBase64?
  {
    forall i | 0 <= i < |names|
      ensures var r := Resolve(names[i], m[names[i]], decode);
              if "Binary" <= m[names[i]].dataType && decode(m[names[i]].binaryValue.value).None?
              then r == Err(InvalidBase64(names[i])) else r.Ok?
    {
      assert names[i] in m && ValidValue(m[names[i]]);
    }
    EntriesOkIff(m, names, decode);
  }

  lemma {:induction false} EntriesOkIff(m: Attributes, names: seq<Text>, decode: Text -> Option<Text>)
    requires Known(m, names)
    ensures Entries(m, names, decode).Ok? <==>
            forall i :: 0 <= i < |names| ==> Resolve(names[i], m[names[i]], decode).Ok?
    ensures Entries(m, names, decode).Err? ==>
              exists i :: 0 <= i < |names|
                          && Resolve(names[i], m[names[i]], decode) == Err(Entries(m, names, decode).error)
  {
    if names != [] {
      var n := |names| - 1;
      EntriesOkIff(m, names[..n], decode);
      assert forall i :: 0 <= i < n ==> names[..n][i] == names[i];
    }
  }

  // A value whose length is a multiple of 2^32 is announced as empty.
  lemma FramedWraps(bytes: Text)
    requires |bytes| % TWO_32 == 0
    ensures Framed(bytes) == Framed([]) + bytes
  {
    assert LengthBytes(|bytes|) == LengthBytes(0);
    assert Framed([]) == LengthBytes(0);
  }

  /**
   Whatever entries follow, an entry whose value consists of their bytes has the same buffer as the
   entry with the empty value and those entries behind it, if the length of those bytes is a multiple
   of 2^32.
   */
  lemma SwallowedEntries(name: Text, dataType: Text, kind: Byte, rest: seq<Entry>)
    requires |BufferOf(rest)| % TWO_32 == 0
    ensures BufferOf([Entry(name, dataType, kind, BufferOf(rest))]) ==
            BufferOf([Entry(name, dataType, kind, [])] + rest)
  {
    var whole, empty := Entry(name, dataType, kind, BufferOf(rest)), Entry(name, dataType, kind, []);
    BufferCons(whole, []);
    BufferCons(empty, rest);
    assert [whole] + [] == [whole];
    FramedWraps(BufferOf(rest));
    ValueLast(Framed(name), Framed(dataType), [kind], Framed([]), BufferOf(rest));
    assert EntryBytes(whole) + [] == EntryBytes(whole);
  }

  lemma BufferCons(e: Entry, rest: seq<Entry>)
    ensures BufferOf([e] + rest) == EntryBytes(e) + BufferOf(rest)
  {
    assert ([e] + rest)[1..] == rest;
  }

  lemma ValueLast(a: Text, b: Text, c: Text, d: Text, e: Text)
    ensures a + b + c + (d + e) == a + b + c + d + e
  {
  }

  const NAME_A: Text := "a"
  const NAME_B: Text := "b"

  // One attribute with a binary value.
  function BinaryOnly(value: Text): Attributes {
    map[NAME_A := AttributeValue(BINARY, None, Some(value))]
  }

  // The same attribute name, and a second attribute with a string value.
  function BinaryAndString(value: Text, text: Text): Attributes {
    map[NAME_A := AttributeValue(BINARY, None, Some(value)), NAME_B := AttributeValue(STRING, Some(text), None)]
  }

  lemma InstancesAreValid(x: Text, y: Text, w: Text)
    ensures Valid(BinaryOnly(x)) && Valid(BinaryAndString(y, w))
    ensures InOrder(BinaryOnly(x), [NAME_A]) && InOrder(BinaryAndString(y, w), [NAME_A, NAME_B])
  {
    StringIsNotBinary();
    assert ValidName(NAME_A) && ValidName(NAME_B);
    assert ValidValue(AttributeValue(BINARY, None, Some(x))) && ValidValue(AttributeValue(BINARY, None, Some(y)));
    assert ValidValue(AttributeValue(STRING, Some(w), None));
  }

  lemma OneEntry(m: Attributes, name: Text, e: Entry, decode: Text -> Option<Text>)
    requires name in m && Resolve(name, m[name], decode) == Ok(e)
    ensures Entries(m, [name], decode) == Ok([e])
  {
    assert [name][..0] == [];
    assert Entries(m, [], decode) == Ok([]);
    assert [] + [e] == [e];
  }

  lemma TwoEntries(m: Attributes, first: Text, d: Entry, second: Text, e: Entry, decode: Text -> Option<Text>)
    requires first in m && Resolve(first, m[first], decode) == Ok(d)
    requires second in m && Resolve(second, m[second], decode) == Ok(e)
    ensures Entries(m, [first, second], decode) == Ok([d] + [e])
  {
    assert [first, second][..1] == [first];
    OneEntry(m, first, d, decode);
  }

  lemma StringIsNotBinary()
    ensures !(BINARY <= STRING)
  {
    assert BINARY[0] != STRING[0];
  }

  lemma SecondEntrySize(w: Text)
    ensures |EntryBytes(Entry(NAME_B, STRING, STRING_KIND, w))| == |w| + 20
  {
  }

  lemma SecondEntryBuffer(w: Text)
    requires (|w| + 20) % TWO_32 == 0
    ensures var e := Entry(NAME_B, STRING, STRING_KIND, w);
            BufferOf([e]) == EntryBytes(e) && |BufferOf([e])| % TWO_32 == 0
  {
    var e := Entry(NAME_B, STRING, STRING_KIND, w);
    BufferCons(e, []);
    assert [e] + [] == [e] && EntryBytes(e) + [] == EntryBytes(e);
    SecondEntrySize(w);
  }

  /**
   Among requests that pass validation: whenever the bytes of a second attribute add up to a multiple of
   2^32, a request that hides them in the binary value of the first has the same buffer.
   */
  lemma LongValuesCollide(w: Text, x: Text, y: Text, decode: Text -> Option<Text>)
    requires (|w| + 20) % TWO_32 == 0
    requires decode(x) == Some(EntryBytes(Entry(NAME_B, STRING, STRING_KIND, w))) && decode(y) == Some([])
    ensures var m, o := BinaryOnly(x), BinaryAndString(y, w);
            && Valid(m) && Valid(o) && InOrder(m, [NAME_A]) && InOrder(o, [NAME_A, NAME_B])
            && Buffer(m, [NAME_A], decode).Ok?
            && Buffer(m, [NAME_A], decode) == Buffer(o, [NAME_A, NAME_B], decode)
            && !SameEntries(m, o, decode)
  {
    var m, o := BinaryOnly(x), BinaryAndString(y, w);
    var second := Entry(NAME_B, STRING, STRING_KIND, w);
    InstancesAreValid(x, y, w);
    StringIsNotBinary();
    OneEntry(m, NAME_A, Entry(NAME_A, BINARY, BINARY_KIND, EntryBytes(second)), decode);
    TwoEntries(o, NAME_A, Entry(NAME_A, BINARY, BINARY_KIND, []), NAME_B, second, decode);
    SecondEntryBuffer(w);
    SwallowedEntries(NAME_A, BINARY, BINARY_KIND, [second]);
    assert NAME_B in o && NAME_B !in m;
  }
}
