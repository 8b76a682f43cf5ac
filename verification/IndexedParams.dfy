/**
 Decoding maps that a client spreads over indexed parameters, such as "Tags.member.1.Key" and
 "Tags.member.1.Value".  Parameters and entries are both read from hash maps, in any order.
 */
module IndexedParams {
  import opened Wrappers
  import opened Splits

  // The prefix of the parameters and the two names an entry is made of.
  datatype Scheme = Scheme(prefix: string, keyName: string, valueName: string)

  const TAGS := Scheme("Tags.member.", "Key", "Value")
  const ATTRIBUTES := Scheme("Attributes.entry.", "key", "value")

  datatype Slot = Slot(key: Option<string>, value: Option<string>)

  datatype Item = Item(name: string, value: string)

  // ----- parameter names -----

  datatype Reference = Reference(index: string, suffix: string)

  function ParseName(name: string, scheme: Scheme): (r: Option<Reference>)
    ensures r.Some? ==> '.' !in r.value.index
  {
    if !(scheme.prefix <= name) then None
    else
      var rest := name[|scheme.prefix|..];
      var dot := Find(rest, '.');
      if dot == |rest| then None else Some(Reference(rest[..dot], rest[dot + 1..]))
  }

  function ParamName(scheme: Scheme, index: string, suffix: string): string {
    scheme.prefix + index + "." + suffix
  }

  lemma ParsePrintedName(scheme: Scheme, index: string, suffix: string)
    requires '.' !in index
    ensures ParseName(ParamName(scheme, index, suffix), scheme) == Some(Reference(index, suffix))
  {
    var name := ParamName(scheme, index, suffix);
    var rest := index + "." + suffix;
    assert name == scheme.prefix + rest;
    assert name[|scheme.prefix|..] == rest && scheme.prefix <= name;
    FindAt(index, '.', suffix);
    assert rest[..|index|] == index && rest[|index| + 1..] == suffix;
  }

  lemma ParsedNameIsPrinted(scheme: Scheme, name: string)
    requires ParseName(name, scheme).Some?
    ensures var r := ParseName(name, scheme).value; name == ParamName(scheme, r.index, r.suffix)
  {
  }

  // ----- the entries of a parameter map -----

  function Get(m: map<string, string>, name: string): Option<string> {
    if name in m then Some(m[name]) else None
  }

  ghost predicate Mentions(raw: map<string, string>, scheme: Scheme, index: string) {
    exists name :: name in raw && ParseName(name, scheme).Some? && ParseName(name, scheme).value.index == index
  }

  // Each mentioned index has the two values that the parameters give it.
  ghost predicate IsEntries(entries: map<string, Slot>, raw: map<string, string>, scheme: Scheme) {
    && (forall i :: i in entries <==> Mentions(raw, scheme, i))
    && (forall i :: i in entries ==>
          && '.' !in i
          && entries[i] == Slot(Get(raw, ParamName(scheme, i, scheme.keyName)),
                                Get(raw, ParamName(scheme, i, scheme.valueName))))
  }

  ghost predicate IsListing(items: seq<Item>, raw: map<string, string>) {
    && (forall i, j :: 0 <= i < j < |items| ==> items[i].name != items[j].name)
    && (forall i :: 0 <= i < |items| ==> items[i].name in raw && raw[items[i].name] == items[i].value)
    && (forall name :: name in raw ==> exists i :: 0 <= i < |items| && items[i].name == name)
  }

  function Update(slot: Slot, scheme: Scheme, suffix: string, value: string): Slot {
    if suffix == scheme.keyName then slot.(key := Some(value))
    else if suffix == scheme.valueName then slot.(value := Some(value))
    else slot
  }

  lemma MentionStep(seen: map<string, string>, scheme: Scheme, item: Item, r: Reference)
    requires item.name !in seen && ParseName(item.name, scheme) == Some(r)
    ensures forall i :: Mentions(seen[item.name := item.value], scheme, i) <==>
            Mentions(seen, scheme, i) || i == r.index
  {
  }

  lemma GetStep(seen: map<string, string>, scheme: Scheme, item: Item, r: Reference, i: string, suffix: string)
    requires ParseName(item.name, scheme) == Some(r) && '.' !in i
    ensures Get(seen[item.name := item.value], ParamName(scheme, i, suffix)) ==
            if i == r.index && suffix == r.suffix then Some(item.value) else Get(seen, ParamName(scheme, i, suffix))
  {
    ParsePrintedName(scheme, i, suffix);
    ParsedNameIsPrinted(scheme, item.name);
  }

  lemma UnmentionedIsEmpty(seen: map<string, string>, scheme: Scheme, i: string, suffix: string)
    requires !Mentions(seen, scheme, i) && '.' !in i
    ensures Get(seen, ParamName(scheme, i, suffix)) == None
  {
    ParsePrintedName(scheme, i, suffix);
  }

  lemma EntryStep(entries: map<string, Slot>, seen: map<string, string>, scheme: Scheme, item: Item, r: Reference)
    requires IsEntries(entries, seen, scheme) && scheme.keyName != scheme.valueName
    requires item.name !in seen && ParseName(item.name, scheme) == Some(r)
    ensures var slot := if r.index in entries then entries[r.index] else Slot(None, None);
            IsEntries(entries[r.index := Update(slot, scheme, r.suffix, item.value)],
                      seen[item.name := item.value], scheme)
  {
    var slot := if r.index in entries then entries[r.index] else Slot(None, None);
    var updated := entries[r.index := Update(slot, scheme, r.suffix, item.value)];
    var longer := seen[item.name := item.value];
    MentionStep(seen, scheme, item, r);
    forall i | i in updated
      ensures '.' !in i
      ensures updated[i] == Slot(Get(longer, ParamName(scheme, i, scheme.keyName)),
                                 Get(longer, ParamName(scheme, i, scheme.valueName)))
    {
      GetStep(seen, scheme, item, r, i, scheme.keyName);
      GetStep(seen, scheme, item, r, i, scheme.valueName);
      if i !in entries {
        UnmentionedIsEmpty(seen, scheme, i, scheme.keyName);
        UnmentionedIsEmpty(seen, scheme, i, scheme.valueName);
      }
    }
  }

  lemma SkipStep(entries: map<string, Slot>, seen: map<string, string>, scheme: Scheme, item: Item)
    requires IsEntries(entries, seen, scheme) && item.name !in seen && ParseName(item.name, scheme).None?
    ensures IsEntries(entries, seen[item.name := item.value], scheme)
  {
    var longer := seen[item.name := item.value];
    forall i ensures Mentions(longer, scheme, i) <==> Mentions(seen, scheme, i) {
      if Mentions(seen, scheme, i) {
        var name :| name in seen && ParseName(name, scheme).Some? && ParseName(name, scheme).value.index == i;
        assert name in longer;
      }
    }
    forall i | i in entries
      ensures Get(longer, ParamName(scheme, i, scheme.keyName)) == Get(seen, ParamName(scheme, i, scheme.keyName))
      ensures Get(longer, ParamName(scheme, i, scheme.valueName)) == Get(seen, ParamName(scheme, i, scheme.valueName))
    {
      ParsePrintedName(scheme, i, scheme.keyName);
      ParsePrintedName(scheme, i, scheme.valueName);
    }
  }

  ghost function MapOf(items: seq<Item>): (m: map<string, string>)
    ensures forall name :: name in m ==> exists i :: 0 <= i < |items| && items[i].name == name
  {
    if items == [] then map[]
    else var n := |items| - 1; MapOf(items[..n])[items[n].name := items[n].value]
  }

  /** The entries depend on the parameters alone, not on the order in which they are read. */
  method CollectEntries(items: seq<Item>, scheme: Scheme) returns (entries: map<string, Slot>)
    requires scheme.keyName != scheme.valueName
    requires forall i, j :: 0 <= i < j < |items| ==> items[i].name != items[j].name
    ensures IsEntries(entries, MapOf(items), scheme)
  {
    entries := map[];
    for n := 0 to |items|
      invariant IsEntries(entries, MapOf(items[..n]), scheme)
    {
      var item := items[n];
      assert items[..n + 1][..n] == items[..n];
      assert item.name !in MapOf(items[..n]);
      var r := ParseName(item.name, scheme);
      if r.Some? {
        EntryStep(entries, MapOf(items[..n]), scheme, item, r.value);
        var slot := if r.value.index in entries then entries[r.value.index] else Slot(None, None);
        entries := entries[r.value.index := Update(slot, scheme, r.value.suffix, item.value)];
      } else {
        SkipStep(entries, MapOf(items[..n]), scheme, item);
      }
    }
    assert items[..|items|] == items;
  }

  lemma {:induction false} MapOfListing(items: seq<Item>, raw: map<string, string>)
    requires IsListing(items, raw)
    ensures MapOf(items) == raw
  {
    MapOfItems(items, raw);
    forall name | name in raw ensures name in MapOf(items) {
      var i :| 0 <= i < |items| && items[i].name == name;
      MapOfHas(items, i);
    }
  }

  lemma {:induction false} MapOfItems(items: seq<Item>, raw: map<string, string>)
    requires forall i :: 0 <= i < |items| ==> items[i].name in raw && raw[items[i].name] == items[i].value
    ensures forall name :: name in MapOf(items) ==> name in raw && MapOf(items)[name] == raw[name]
  {
    if items != [] { MapOfItems(items[..|items| - 1], raw); }
  }

  lemma {:induction false} MapOfHas(items: seq<Item>, i: nat)
    requires i < |items|
    ensures items[i].name in MapOf(items)
    decreases |items|
  {
    if i < |items| - 1 { MapOfHas(items[..|items| - 1], i); }
  }

  // ----- collecting the complete entries -----

  predicate Complete(slot: Slot) {
    slot.key.Some? && slot.value.Some?
  }

  // Collected into a hash map: of several entries with one key the last one read is kept.
  function Collect(entries: map<string, Slot>, order: seq<string>): map<string, string>
    requires forall i :: 0 <= i < |order| ==> order[i] in entries
  {
    if order == [] then map[]
    else
      var n := |order| - 1;
      var before := Collect(entries, order[..n]);
      var slot := entries[order[n]];
      if Complete(slot) then before[slot.key.value := slot.value.value] else before
  }

  ghost predicate IsOrder(entries: map<string, Slot>, order: seq<string>) {
    && (forall i :: i in order <==> i in entries)
    && (forall i, j :: 0 <= i < j < |order| ==> order[i] != order[j])
  }

  // Complete entries with one key agree on its value.
  ghost predicate Consistent(entries: map<string, Slot>) {
    forall i, j :: (i in entries && j in entries && Complete(entries[i]) && Complete(entries[j])
                    && entries[i].key == entries[j].key) ==> entries[i].value == entries[j].value
  }

  ghost predicate Holds(entries: map<string, Slot>, order: seq<string>, key: string, value: string) {
    exists i :: i in order && i in entries && entries[i] == Slot(Some(key), Some(value))
  }

  lemma {:induction false} CollectHas(entries: map<string, Slot>, order: seq<string>, key: string)
    requires forall i :: 0 <= i < |order| ==> order[i] in entries
    ensures key in Collect(entries, order) <==> exists v :: Holds(entries, order, key, v)
    ensures key in Collect(entries, order) ==> Holds(entries, order, key, Collect(entries, order)[key])
  {
    if order != [] {
      var n := |order| - 1;
      CollectHas(entries, order[..n], key);
      assert order == order[..n] + [order[n]];
      forall v ensures Holds(entries, order, key, v) <==>
                       Holds(entries, order[..n], key, v) || entries[order[n]] == Slot(Some(key), Some(v))
      {
        if entries[order[n]] == Slot(Some(key), Some(v)) { assert order[n] in order; }
      }
    }
  }

  ghost predicate OrderIrrelevant(entries: map<string, Slot>) {
    forall a, b :: IsOrder(entries, a) && IsOrder(entries, b) ==> Collect(entries, a) == Collect(entries, b)
  }

  lemma ConsistentCollects(entries: map<string, Slot>, a: seq<string>, b: seq<string>)
    requires Consistent(entries) && IsOrder(entries, a) && IsOrder(entries, b)
    ensures Collect(entries, a) == Collect(entries, b)
  {
    var x, y := Collect(entries, a), Collect(entries, b);
    forall key ensures key in x <==> key in y {
      CollectHas(entries, a, key);
      CollectHas(entries, b, key);
      SameHolds(entries, a, b, key);
    }
    forall key | key in x ensures x[key] == y[key] {
      CollectHas(entries, a, key);
      CollectHas(entries, b, key);
      OneValue(entries, a, b, key, x[key], y[key]);
    }
  }

  lemma OneValue(entries: map<string, Slot>, a: seq<string>, b: seq<string>, key: string, v: string, w: string)
    requires Consistent(entries) && Holds(entries, a, key, v) && Holds(entries, b, key, w)
    ensures v == w
  {
    var i :| i in a && i in entries && entries[i] == Slot(Some(key), Some(v));
    var j :| j in b && j in entries && entries[j] == Slot(Some(key), Some(w));
  }

  lemma SameHolds(entries: map<string, Slot>, a: seq<string>, b: seq<string>, key: string)
    requires IsOrder(entries, a) && IsOrder(entries, b)
    ensures forall v :: Holds(entries, a, key, v) <==> Holds(entries, b, key, v)
  {
  }

  lemma {:induction false} OrderExists(keys: set<string>) returns (order: seq<string>)
    ensures forall i :: i in order <==> i in keys
    ensures forall i, j :: 0 <= i < j < |order| ==> order[i] != order[j]
    decreases |keys|
  {
    if keys == {} {
      order := [];
    } else {
      var k :| k in keys;
      var rest := OrderExists(keys - {k});
      order := rest + [k];
    }
  }

  // Some iteration order reads entry i last, and then its value is kept.
  lemma LastKept(entries: map<string, Slot>, i: string) returns (order: seq<string>)
    requires i in entries && Complete(entries[i])
    ensures IsOrder(entries, order)
    ensures var m := Collect(entries, order);
            entries[i].key.value in m && m[entries[i].key.value] == entries[i].value.value
  {
    var rest := OrderExists(entries.Keys - {i});
    order := rest + [i];
    assert order[..|rest|] == rest;
    assert IsOrder(entries, order);
  }

  /** The outcome does not depend on the iteration order exactly when the entries are consistent. */
  lemma OrderIrrelevantIff(entries: map<string, Slot>)
    ensures OrderIrrelevant(entries) <==> Consistent(entries)
  {
    if Consistent(entries) {
      forall a, b | IsOrder(entries, a) && IsOrder(entries, b) ensures Collect(entries, a) == Collect(entries, b) {
        ConsistentCollects(entries, a, b);
      }
    } else {
      var i, j :| i in entries && j in entries && Complete(entries[i]) && Complete(entries[j])
                  && entries[i].key == entries[j].key && entries[i].value != entries[j].value;
      var a := LastKept(entries, i);
      var b := LastKept(entries, j);
      assert Collect(entries, a) != Collect(entries, b);
    }
  }

  // Reading the entries in whatever order the hash map yields them.
  method CollectComplete(entries: map<string, Slot>) returns (decoded: map<string, string>)
    ensures exists order :: IsOrder(entries, order) && decoded == Collect(entries, order)
  {
    decoded := map[];
    ghost var order: seq<string> := [];
    var todo := entries.Keys;
    while todo != {}
      invariant todo <= entries.Keys
      invariant forall i :: i in order <==> i in entries && i !in todo
      invariant forall i, j :: 0 <= i < j < |order| ==> order[i] != order[j]
      invariant decoded == Collect(entries, order)
      decreases |todo|
    {
      var i :| i in todo;
      todo := todo - {i};
      assert (order + [i])[..|order|] == order;
      order := order + [i];
      var slot := entries[i];
      if Complete(slot) { decoded := decoded[slot.key.value := slot.value.value]; }
    }
    assert IsOrder(entries, order);
  }

  // ----- the whole decoder -----

  // What decoding may give, for some order of both hash maps.
  ghost predicate Decodes(raw: map<string, string>, scheme: Scheme, decoded: map<string, string>) {
    exists entries, order ::
      IsEntries(entries, raw, scheme) && IsOrder(entries, order) && decoded == Collect(entries, order)
  }

  /** The whole decoder, for parameters and entries read in any order. */
  method Decode(items: seq<Item>, scheme: Scheme, ghost raw: map<string, string>) returns (decoded: map<string, string>)
    requires scheme.keyName != scheme.valueName && IsListing(items, raw)
    ensures Decodes(raw, scheme, decoded)
  {
    var entries := CollectEntries(items, scheme);
    MapOfListing(items, raw);
    decoded := CollectComplete(entries);
  }

  lemma EntriesUnique(a: map<string, Slot>, b: map<string, Slot>, raw: map<string, string>, scheme: Scheme)
    requires IsEntries(a, raw, scheme) && IsEntries(b, raw, scheme)
    ensures a == b
  {
    assert forall i :: i in a <==> i in b;
  }

  // The parameters form a pair under the index.
  ghost predicate Paired(raw: map<string, string>, scheme: Scheme, i: string) {
    && '.' !in i
    && scheme.prefix + i + "." + scheme.keyName in raw
    && scheme.prefix + i + "." + scheme.valueName in raw
  }

  ghost function KeyAt(raw: map<string, string>, scheme: Scheme, i: string): string
    requires Paired(raw, scheme, i)
  {
    raw[ParamName(scheme, i, scheme.keyName)]
  }

  ghost function ValueAt(raw: map<string, string>, scheme: Scheme, i: string): string
    requires Paired(raw, scheme, i)
  {
    raw[ParamName(scheme, i, scheme.valueName)]
  }

  // Pairs with one key agree on its value, in the parameters as the client sent them.
  ghost predicate ConsistentParams(raw: map<string, string>, scheme: Scheme) {
    forall i, j :: Paired(raw, scheme, i) && Paired(raw, scheme, j) && KeyAt(raw, scheme, i) == KeyAt(raw, scheme, j)
                   ==> ValueAt(raw, scheme, i) == ValueAt(raw, scheme, j)
  }

  lemma PairedIffComplete(entries: map<string, Slot>, raw: map<string, string>, scheme: Scheme, i: string)
    requires IsEntries(entries, raw, scheme)
    ensures i in entries && Complete(entries[i]) <==> Paired(raw, scheme, i)
    ensures Paired(raw, scheme, i) ==> entries[i] == Slot(Some(KeyAt(raw, scheme, i)), Some(ValueAt(raw, scheme, i)))
  {
    if Paired(raw, scheme, i) {
      ParsePrintedName(scheme, i, scheme.keyName);
      assert Mentions(raw, scheme, i);
    }
  }

  lemma ConsistentIffParams(entries: map<string, Slot>, raw: map<string, string>, scheme: Scheme)
    requires IsEntries(entries, raw, scheme)
    ensures Consistent(entries) <==> ConsistentParams(raw, scheme)
  {
    forall i ensures i in entries && Complete(entries[i]) <==> Paired(raw, scheme, i) {
      PairedIffComplete(entries, raw, scheme, i);
    }
    forall i | Paired(raw, scheme, i)
      ensures entries[i] == Slot(Some(KeyAt(raw, scheme, i)), Some(ValueAt(raw, scheme, i)))
    {
      PairedIffComplete(entries, raw, scheme, i);
    }
  }

  lemma EntriesExist(raw: map<string, string>, scheme: Scheme) returns (entries: map<string, Slot>)
    ensures IsEntries(entries, raw, scheme)
  {
    var indices := set name | name in raw && ParseName(name, scheme).Some? :: ParseName(name, scheme).value.index;
    forall i ensures i in indices <==> Mentions(raw, scheme, i) {}
    entries := map i | i in indices ::
      Slot(Get(raw, ParamName(scheme, i, scheme.keyName)), Get(raw, ParamName(scheme, i, scheme.valueName)));
  }

  ghost predicate Determined(raw: map<string, string>, scheme: Scheme) {
    forall a, b :: Decodes(raw, scheme, a) && Decodes(raw, scheme, b) ==> a == b
  }

  lemma DeterminedIffOrderIrrelevant(entries: map<string, Slot>, raw: map<string, string>, scheme: Scheme)
    requires IsEntries(entries, raw, scheme)
    ensures Determined(raw, scheme) <==> OrderIrrelevant(entries)
  {
    if OrderIrrelevant(entries) {
      forall a, b | Decodes(raw, scheme, a) && Decodes(raw, scheme, b) ensures a == b {
        var x := OrderOf(entries, raw, scheme, a);
        var y := OrderOf(entries, raw, scheme, b);
      }
    }
    if Determined(raw, scheme) {
      forall a, b | IsOrder(entries, a) && IsOrder(entries, b) ensures Collect(entries, a) == Collect(entries, b) {
        assert Decodes(raw, scheme, Collect(entries, a)) && Decodes(raw, scheme, Collect(entries, b));
      }
    }
  }

  lemma OrderOf(entries: map<string, Slot>, raw: map<string, string>, scheme: Scheme, decoded: map<string, string>)
      returns (order: seq<string>)
    requires IsEntries(entries, raw, scheme) && Decodes(raw, scheme, decoded)
    ensures IsOrder(entries, order) && decoded == Collect(entries, order)
  {
    var others, o :| IsEntries(others, raw, scheme) && IsOrder(others, o) && decoded == Collect(others, o);
    EntriesUnique(entries, others, raw, scheme);
    order := o;
  }

  /** The request decides what is decoded, whatever the hash order, exactly when pairs with one key agree. */
  lemma DeterminedIff(raw: map<string, string>, scheme: Scheme)
    ensures Determined(raw, scheme) <==> ConsistentParams(raw, scheme)
  {
    var entries := EntriesExist(raw, scheme);
    DeterminedIffOrderIrrelevant(entries, raw, scheme);
    OrderIrrelevantIff(entries);
    ConsistentIffParams(entries, raw, scheme);
  }

  // ----- round trip -----

  // A parameter map that spells out a map under distinct indices, among unrelated parameters.
  ghost predicate Spells(raw: map<string, string>, scheme: Scheme, m: map<string, string>, index: map<string, string>) {
    && m.Keys == index.Keys
    && (forall k :: k in index ==> '.' !in index[k])
    && (forall k, l :: k in index && l in index && index[k] == index[l] ==> k == l)
    && (forall k :: k in m ==>
          && Get(raw, ParamName(scheme, index[k], scheme.keyName)) == Some(k)
          && Get(raw, ParamName(scheme, index[k], scheme.valueName)) == Some(m[k]))
    && (forall i :: Mentions(raw, scheme, i) ==> exists k :: k in index && index[k] == i)
  }

  // The entries are the pairs of the map, each under its index, and no others.
  ghost predicate HoldSpelling(entries: map<string, Slot>, m: map<string, string>, index: map<string, string>) {
    && m.Keys == index.Keys
    && (forall i :: i in entries ==> exists k :: k in m && index[k] == i && entries[i] == Slot(Some(k), Some(m[k])))
    && (forall k :: k in m ==> index[k] in entries && entries[index[k]] == Slot(Some(k), Some(m[k])))
  }

  lemma SpelledEntries(raw: map<string, string>, scheme: Scheme, m: map<string, string>, index: map<string, string>,
                       entries: map<string, Slot>)
    requires Spells(raw, scheme, m, index) && IsEntries(entries, raw, scheme)
    ensures HoldSpelling(entries, m, index)
  {
    forall k | k in m ensures index[k] in entries {
      ParsePrintedName(scheme, index[k], scheme.keyName);
      assert Mentions(raw, scheme, index[k]);
    }
    forall i | i in entries ensures exists k :: k in m && index[k] == i && entries[i] == Slot(Some(k), Some(m[k])) {
      var k :| k in index && index[k] == i;
    }
  }

  lemma SpelledKeys(
      m: map<string, string>, index: map<string, string>, entries: map<string, Slot>, order: seq<string>, k: string)
    requires IsOrder(entries, order) && HoldSpelling(entries, m, index)
    ensures k in Collect(entries, order) <==> k in m
    ensures k in m ==> Collect(entries, order)[k] == m[k]
  {
    CollectHas(entries, order, k);
    if k in m {
      assert index[k] in order;
      assert Holds(entries, order, k, m[k]);
    }
  }

  /** Decoding the parameters of a map gives that map back, in every iteration order of both hash maps. */
  lemma DecodeInvertsSpelling(
      raw: map<string, string>, scheme: Scheme, m: map<string, string>, index: map<string, string>,
      decoded: map<string, string>)
    requires Spells(raw, scheme, m, index) && Decodes(raw, scheme, decoded)
    ensures decoded == m
  {
    var entries, order :| IsEntries(entries, raw, scheme) && IsOrder(entries, order)
                          && decoded == Collect(entries, order);
    SpelledEntries(raw, scheme, m, index, entries);
    CollectSpelling(m, index, entries, order);
  }

  lemma CollectSpelling(
      m: map<string, string>, index: map<string, string>, entries: map<string, Slot>, order: seq<string>)
    requires IsOrder(entries, order) && HoldSpelling(entries, m, index)
    ensures Collect(entries, order) == m
  {
    forall k ensures k in Collect(entries, order) <==> k in m { SpelledKeys(m, index, entries, order, k); }
    forall k | k in m ensures Collect(entries, order)[k] == m[k] { SpelledKeys(m, index, entries, order, k); }
  }

  // ----- the two schemes of the code -----

  // The decoded map has exactly the keys of the pairs, each with the value of one of its pairs.
  ghost predicate HoldsPairs(decoded: map<string, string>, raw: map<string, string>, scheme: Scheme) {
    && (forall k :: k in decoded ==> exists i :: IsPair(raw, scheme, i, k, decoded[k]))
    && (forall i :: Paired(raw, scheme, i) ==> KeyAt(raw, scheme, i) in decoded)
  }

  // Entry i of the request is a pair of this key and this value.
  ghost predicate IsPair(raw: map<string, string>, scheme: Scheme, i: string, key: string, value: string) {
    Paired(raw, scheme, i) && KeyAt(raw, scheme, i) == key && ValueAt(raw, scheme, i) == value
  }

  lemma CollectedIsPaired(
      raw: map<string, string>, scheme: Scheme, entries: map<string, Slot>, order: seq<string>, k: string)
    requires IsEntries(entries, raw, scheme) && IsOrder(entries, order) && k in Collect(entries, order)
    ensures exists i :: IsPair(raw, scheme, i, k, Collect(entries, order)[k])
  {
    CollectHas(entries, order, k);
    var i :| i in order && i in entries && entries[i] == Slot(Some(k), Some(Collect(entries, order)[k]));
    PairedIffComplete(entries, raw, scheme, i);
    assert IsPair(raw, scheme, i, k, Collect(entries, order)[k]);
  }

  lemma PairedIsCollected(
      raw: map<string, string>, scheme: Scheme, entries: map<string, Slot>, order: seq<string>, i: string)
    requires IsEntries(entries, raw, scheme) && IsOrder(entries, order) && Paired(raw, scheme, i)
    ensures KeyAt(raw, scheme, i) in Collect(entries, order)
  {
    PairedIffComplete(entries, raw, scheme, i);
    assert Holds(entries, order, KeyAt(raw, scheme, i), ValueAt(raw, scheme, i));
    CollectHas(entries, order, KeyAt(raw, scheme, i));
  }

  lemma DecodedHoldsPairs(raw: map<string, string>, scheme: Scheme, decoded: map<string, string>)
    requires Decodes(raw, scheme, decoded)
    ensures HoldsPairs(decoded, raw, scheme)
  {
    var entries, order :| IsEntries(entries, raw, scheme) && IsOrder(entries, order)
                          && decoded == Collect(entries, order);
    forall k | k in decoded ensures exists i :: IsPair(raw, scheme, i, k, decoded[k]) {
      CollectedIsPaired(raw, scheme, entries, order, k);
    }
    forall i | Paired(raw, scheme, i) ensures KeyAt(raw, scheme, i) in decoded {
      PairedIsCollected(raw, scheme, entries, order, i);
    }
  }

  /** Tags: the map a client spelled out, and one outcome for every hash order iff its pairs agree. */
  method DecodeTags(items: seq<Item>, ghost raw: map<string, string>) returns (tags: map<string, string>)
    requires IsListing(items, raw)
    ensures var scheme := Scheme("Tags.member.", "Key", "Value");
            && HoldsPairs(tags, raw, scheme)
            && (forall m, index :: Spells(raw, scheme, m, index) ==> tags == m)
            && ((forall other :: Decodes(raw, scheme, other) ==> other == tags) <==> ConsistentParams(raw, scheme))
  {
    tags := Decode(items, TAGS, raw);
    DecodedHoldsPairs(raw, TAGS, tags);
    forall m, index | Spells(raw, TAGS, m, index) ensures tags == m {
      DecodeInvertsSpelling(raw, TAGS, m, index, tags);
    }
    DeterminedIff(raw, TAGS);
  }

  /** Attributes likewise. */
  method DecodeAttributes(items: seq<Item>, ghost raw: map<string, string>) returns (attributes: map<string, string>)
    requires IsListing(items, raw)
    ensures var scheme := Scheme("Attributes.entry.", "key", "value");
            && HoldsPairs(attributes, raw, scheme)
            && (forall m, index :: Spells(raw, scheme, m, index) ==> attributes == m)
            && ((forall other :: Decodes(raw, scheme, other) ==> other == attributes) <==>
                ConsistentParams(raw, scheme))
  {
    attributes := Decode(items, ATTRIBUTES, raw);
    DecodedHoldsPairs(raw, ATTRIBUTES, attributes);
    forall m, index | Spells(raw, ATTRIBUTES, m, index) ensures attributes == m {
      DecodeInvertsSpelling(raw, ATTRIBUTES, m, index, attributes);
    }
    DeterminedIff(raw, ATTRIBUTES);
  }
}
