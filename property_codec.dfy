/** The Contact property codec: how a flat attribute update becomes entries of
    a contact's `properties` list, how such entries are merged into the list a
    contact already has, and how entries are selected and read back. */
module PropertyCodec {
  import opened Json

  /** One entry of a contact's `properties` list: `{type, name, value, subtype?}`
      and whatever other keys the caller or the CRM put there. */
  type Property = map<string, Value>

  /** The options of an update, in the caller's hash order, keys after `to_s`.
      Two Ruby keys with the same `to_s` (`:phone` and `"phone"`) both appear. */
  type Options = seq<(string, Value)>

  /** Names stored as entries of type SYSTEM. */
  const SystemProperties: seq<string> :=
    ["first_name", "last_name", "company", "title", "email", "address", "phone"]

  /** Names stored at the top level of a contact instead of in `properties`. */
  const ContactFields: seq<string> :=
    ["id", "type", "tags", "lead_score", "star_value", "contact_company_id"]

  predicate IsSystemProperty(key: string) {
    key in SystemProperties
  }

  predicate IsContactField(key: string) {
    key in ContactFields
  }

  /** The three tiers of a contact are disjoint: no control field is a system
      property, and the `properties` list itself is not a control field. */
  lemma FieldTiersDisjoint(key: string)
    ensures !(IsContactField(key) && IsSystemProperty(key))
    ensures !IsContactField("properties")
  {
  }

  // ---------------------------------------------------------------------------
  // Encoding an update

  /** The entry built for one non-control option. */
  function ParseProperty(key: string, v: Value): (p: Property)
    ensures "type" in p && "name" in p && p["name"] == Str(key)
    ensures p["type"] == Str("SYSTEM") <==> IsSystemProperty(key)
    ensures p["type"] == Str("CUSTOM") <==> !IsSystemProperty(key)
    ensures !v.Hash? ==> p.Keys == {"type", "name", "value"} && p["value"] == v
    ensures v.Hash? ==> p.Keys == v.entries.Keys + {"type", "name"}
    ensures v.Hash? ==> forall f :: f in v.entries && f != "type" && f != "name" ==> p[f] == v.entries[f]
  {
    var t := Str(if IsSystemProperty(key) then "SYSTEM" else "CUSTOM");
    match v
    case Hash(h) => h["type" := t]["name" := Str(key)]
    case _ => map["type" := t, "name" := Str(key), "value" := v]
  }

  /** What an update sends: the control fields to set at the top level, and the
      property entries. */
  datatype Payload = Payload(control: map<string, Value>, properties: seq<Property>)

  /** The payload built from the first `|options|` options, one option at a time. */
  function Encode(options: Options): (r: Payload)
    ensures |r.properties| <= |options|
    ensures forall i :: 0 <= i < |r.properties| ==>
              "name" in r.properties[i] && r.properties[i]["name"].Str? &&
              !IsContactField(r.properties[i]["name"].s)
  {
    if options == [] then Payload(map[], [])
    else
      var prev := Encode(options[..|options| - 1]);
      var key := options[|options| - 1].0;
      var v := options[|options| - 1].1;
      if IsContactField(key) then prev.(control := prev.control[key := v])
      else prev.(properties := prev.properties + [ParseProperty(key, v)])
  }

  /** Builds the payload by walking the options in order. */
  method ParseContactFields(options: Options) returns (payload: Payload)
    ensures payload == Encode(options)
  {
    payload := Payload(map[], []);
    var i := 0;
    while i < |options|
      invariant 0 <= i <= |options|
      invariant payload == Encode(options[..i])
    {
      var key := options[i].0;
      var v := options[i].1;
      assert options[..i + 1][..i] == options[..i];
      if IsContactField(key) {
        payload := payload.(control := payload.control[key := v]);
      } else {
        payload := payload.(properties := payload.properties + [ParseProperty(key, v)]);
      }
      i := i + 1;
    }
    assert options[..i] == options;
  }

  /** Every control option reaches the top level under its own name with its
      value unchanged; on a repeated name the last occurrence wins. */
  lemma EncodeControl(options: Options, key: string)
    ensures key in Encode(options).control <==>
              IsContactField(key) && exists i :: 0 <= i < |options| && options[i].0 == key
    ensures key in Encode(options).control ==>
              exists i :: 0 <= i < |options| && options[i].0 == key &&
                          Encode(options).control[key] == options[i].1 &&
                          forall j :: i < j < |options| ==> options[j].0 != key
  {
    EncodeControlDomain(options, key);
    if key in Encode(options).control {
      EncodeControlValue(options, key);
    }
  }

  lemma {:induction false} EncodeControlDomain(options: Options, key: string)
    ensures key in Encode(options).control <==>
              IsContactField(key) && exists i :: 0 <= i < |options| && options[i].0 == key
  {
    if options != [] {
      var n := |options|;
      var init := options[..n - 1];
      EncodeControlDomain(init, key);
      if IsContactField(key) && (exists i :: 0 <= i < |options| && options[i].0 == key) {
        var i :| 0 <= i < n && options[i].0 == key;
        if i < n - 1 {
          assert init[i].0 == key;
        }
      }
      if exists i :: 0 <= i < |init| && init[i].0 == key {
        var i :| 0 <= i < |init| && init[i].0 == key;
        assert options[i].0 == key;
      }
    }
  }

  lemma {:induction false} EncodeControlValue(options: Options, key: string)
    requires key in Encode(options).control
    ensures exists i: nat :: LastWith(options, key, i, Encode(options).control[key])
  {
    var n := |options|;
    var init := options[..n - 1];
    var c, c0 := Encode(options).control, Encode(init).control;
    EncodeControlDomain(options, key);
    assert c == if IsContactField(options[n - 1].0) then c0[options[n - 1].0 := options[n - 1].1] else c0;
    if options[n - 1].0 == key {
      assert c[key] == options[n - 1].1;
      assert LastWith(options, key, n - 1, c[key]);
    } else {
      assert key in c0 && c[key] == c0[key];
      EncodeControlValue(init, key);
      var i: nat :| LastWith(init, key, i, c0[key]);
      assert options[i] == init[i];
      forall j | i < j < n ensures options[j].0 != key {
        if j < n - 1 {
          assert options[j] == init[j];
        }
      }
      assert LastWith(options, key, i, c[key]);
    }
  }

  /** Option `i` is the last with `key`, and carries `v`. */
  predicate LastWith(options: Options, key: string, i: nat, v: Value) {
    i < |options| && options[i].0 == key && v == options[i].1 &&
    forall j :: i < j < |options| ==> options[j].0 != key
  }

  /** The positions of the options that become property entries, in order. */
  ghost function PropertyPositions(options: Options): (ps: seq<nat>)
    ensures forall j :: 0 <= j < |ps| ==> ps[j] < |options| && !IsContactField(options[ps[j]].0)
    ensures forall j, j' :: 0 <= j < j' < |ps| ==> ps[j] < ps[j']
    ensures forall i :: 0 <= i < |options| && !IsContactField(options[i].0) ==> i in ps
  {
    if options == [] then []
    else
      var n := |options|;
      var prev := PropertyPositions(options[..n - 1]);
      if IsContactField(options[n - 1].0) then prev else prev + [n - 1]
  }

  /** Every non-control option yields exactly one entry, built by ParseProperty,
      and the entries follow the order of the options. */
  lemma {:induction false} EncodeEntries(options: Options)
    ensures |Encode(options).properties| == |PropertyPositions(options)|
    ensures forall j :: 0 <= j < |PropertyPositions(options)| ==>
              var i := PropertyPositions(options)[j];
              Encode(options).properties[j] == ParseProperty(options[i].0, options[i].1)
  {
    if options != [] {
      var n := |options|;
      var init := options[..n - 1];
      EncodeEntries(init);
      var ps, prev := PropertyPositions(options), PropertyPositions(init);
      var es, eprev := Encode(options).properties, Encode(init).properties;
      if IsContactField(options[n - 1].0) {
        assert ps == prev && es == eprev;
      } else {
        assert ps == prev + [n - 1];
        assert es == eprev + [ParseProperty(options[n - 1].0, options[n - 1].1)];
      }
      forall j | 0 <= j < |ps|
        ensures es[j] == ParseProperty(options[ps[j]].0, options[ps[j]].1)
      {
        if j < |prev| {
          assert ps[j] == prev[j] && es[j] == eprev[j];
          assert init[prev[j]] == options[prev[j]];
        }
      }
    }
  }

  /** Control fields never carry a name outside the fixed set. */
  lemma {:induction false} EncodeControlKeys(options: Options)
    ensures forall k :: k in Encode(options).control ==> IsContactField(k)
  {
    forall k | k in Encode(options).control ensures IsContactField(k) {
      EncodeControl(options, k);
    }
  }

  /** A system name and an unknown key: nothing goes to the top level, and
      the two become a SYSTEM and a CUSTOM entry, in the order of the options. */
  lemma CreatePayload()
    ensures Encode([("first_name", Str("Anita")), ("custom_field", Str("x"))]) ==
              Payload(map[], [map["type" := Str("SYSTEM"), "name" := Str("first_name"), "value" := Str("Anita")],
                              map["type" := Str("CUSTOM"), "name" := Str("custom_field"), "value" := Str("x")]])
  {
    var o1 := [("first_name", Str("Anita"))];
    assert [("first_name", Str("Anita")), ("custom_field", Str("x"))][..1] == o1 && o1[..0] == [];
    assert !IsContactField("first_name") && !IsContactField("custom_field");
    assert IsSystemProperty("first_name") && !IsSystemProperty("custom_field");
  }

  // ---------------------------------------------------------------------------
  // Merging entries into an existing list

  /** Entries are matched on their (name, subtype) pair; a missing subtype reads
      as nil, so it matches only a missing or nil subtype. */
  type Key = (Value, Value)

  function KeyOf(p: Property): Key {
    (Get(p, "name"), Get(p, "subtype"))
  }

  function KeysOf(s: seq<Property>): set<Key> {
    set i | 0 <= i < |s| :: KeyOf(s[i])
  }

  /** The entries of `s` whose key is not in `keys`, in their order. */
  function Drop(s: seq<Property>, keys: set<Key>): (r: seq<Property>)
    ensures |r| <= |s|
  {
    if s == [] then []
    else
      var rest := Drop(s[..|s| - 1], keys);
      if KeyOf(s[|s| - 1]) in keys then rest else rest + [s[|s| - 1]]
  }

  /** The value carried by the last entry of `s` with key `k`. */
  function LastValue(s: seq<Property>, k: Key): Value {
    if s == [] then Nil
    else if KeyOf(s[|s| - 1]) == k then Get(s[|s| - 1], "value")
    else LastValue(s[..|s| - 1], k)
  }

  /** The merged list, taking the existing entries front to back: each one takes
      the value of the last incoming entry with its key, and every incoming entry
      with that key leaves the working list. What is left is appended. */
  function Merged(existing: seq<Property>, incoming: seq<Property>): (r: seq<Property>)
    ensures |existing| <= |r| <= |existing| + |incoming|
    decreases |existing|
  {
    if existing == [] then incoming
    else
      var h := existing[0];
      var k := KeyOf(h);
      var h' := if k in KeysOf(incoming) then h["value" := LastValue(incoming, k)] else h;
      [h'] + Merged(existing[1..], Drop(incoming, {k}))
  }

  /** Merges by mapping over the existing entries and then appending what is
      left of the incoming ones. */
  method MergeProperties(existing: seq<Property>, incoming: seq<Property>)
    returns (merged: seq<Property>)
    ensures merged == Merged(existing, incoming)
  {
    var mapped: seq<Property> := [];
    var remaining := incoming;
    var i := 0;
    while i < |existing|
      invariant 0 <= i <= |existing|
      invariant mapped + Merged(existing[i..], remaining) == Merged(existing, incoming)
    {
      var h, kept := DeleteMatching(existing[i], remaining);
      assert existing[i..][1..] == existing[i + 1..];
      mapped := mapped + [h];
      remaining := kept;
      i := i + 1;
    }
    assert existing[i..] == [];
    merged := mapped + remaining;
  }

  /** One step of the merge, the `delete_if` over the working list: every entry
      whose key matches `h` is deleted and its value copied over `h`'s, so the
      last such entry's value is the one that stays. */
  method DeleteMatching(h: Property, remaining: seq<Property>)
    returns (h': Property, kept: seq<Property>)
    ensures kept == Drop(remaining, {KeyOf(h)})
    ensures h' == if KeyOf(h) in KeysOf(remaining) then h["value" := LastValue(remaining, KeyOf(h))] else h
  {
    ghost var k := KeyOf(h);
    h', kept := h, [];
    var j := 0;
    while j < |remaining|
      invariant 0 <= j <= |remaining|
      invariant KeyOf(h') == k
      invariant kept == Drop(remaining[..j], {k})
      invariant h' == Stamped(h, remaining[..j], k)
    {
      var h2 := remaining[j];
      PrefixStep(remaining, j, k);
      StampedStep(h, remaining, j, k);
      if Get(h', "name") == Get(h2, "name") && Get(h', "subtype") == Get(h2, "subtype") {
        assert KeyOf(h2) == k;
        h' := h'["value" := Get(h2, "value")];
      } else {
        assert KeyOf(h2) != k;
        kept := kept + [h2];
      }
      j := j + 1;
    }
    assert remaining[..j] == remaining;
  }

  /** `h` after taking the value of the last entry of `s` with key `k`, if any. */
  function Stamped(h: Property, s: seq<Property>, k: Key): Property {
    if k in KeysOf(s) then h["value" := LastValue(s, k)] else h
  }

  lemma StampedStep(h: Property, s: seq<Property>, j: nat, k: Key)
    requires j < |s|
    ensures Stamped(h, s[..j + 1], k) ==
              if KeyOf(s[j]) == k then Stamped(h, s[..j], k)["value" := Get(s[j], "value")]
              else Stamped(h, s[..j], k)
  {
    PrefixStep(s, j, k);
  }

  /** How Drop, KeysOf and LastValue grow when a prefix of `s` grows by one. */
  lemma PrefixStep(s: seq<Property>, j: nat, k: Key)
    requires j < |s|
    ensures Drop(s[..j + 1], {k}) == if KeyOf(s[j]) == k then Drop(s[..j], {k}) else Drop(s[..j], {k}) + [s[j]]
    ensures k in KeysOf(s[..j + 1]) <==> k in KeysOf(s[..j]) || KeyOf(s[j]) == k
    ensures LastValue(s[..j + 1], k) == if KeyOf(s[j]) == k then Get(s[j], "value") else LastValue(s[..j], k)
  {
    assert s[..j + 1][..j] == s[..j];
    KeysOfSnoc(s[..j], s[j]);
    assert s[..j] + [s[j]] == s[..j + 1];
  }

  lemma KeysOfSnoc(s: seq<Property>, p: Property)
    ensures KeysOf(s + [p]) == KeysOf(s) + {KeyOf(p)}
  {
    var t := s + [p];
    forall k | k in KeysOf(t) ensures k in KeysOf(s) + {KeyOf(p)} {
      var i :| 0 <= i < |t| && KeyOf(t[i]) == k;
      if i < |s| {
        assert t[i] == s[i];
      }
    }
    forall k | k in KeysOf(s) ensures k in KeysOf(t) {
      var i :| 0 <= i < |s| && KeyOf(s[i]) == k;
      assert t[i] == s[i];
    }
    assert t[|s|] == p;
  }

  lemma KeysOfCons(p: Property, s: seq<Property>)
    ensures KeysOf([p] + s) == {KeyOf(p)} + KeysOf(s)
  {
    var t := [p] + s;
    forall k | k in KeysOf(t) ensures k in {KeyOf(p)} + KeysOf(s) {
      var i :| 0 <= i < |t| && KeyOf(t[i]) == k;
      if i > 0 {
        assert t[i] == s[i - 1];
      }
    }
    forall k | k in KeysOf(s) ensures k in KeysOf(t) {
      var i :| 0 <= i < |s| && KeyOf(s[i]) == k;
      assert t[i + 1] == s[i];
    }
    assert t[0] == p;
  }

  lemma {:induction false} DropNothing(s: seq<Property>)
    ensures Drop(s, {}) == s
  {
    if s != [] {
      DropNothing(s[..|s| - 1]);
      assert s[..|s| - 1] + [s[|s| - 1]] == s;
    }
  }

  lemma {:induction false} DropDrop(s: seq<Property>, a: set<Key>, b: set<Key>)
    ensures Drop(Drop(s, a), b) == Drop(s, a + b)
  {
    if s != [] {
      var init := s[..|s| - 1];
      var x := s[|s| - 1];
      DropDrop(init, a, b);
      var d := Drop(init, a);
      if KeyOf(x) !in a {
        assert (d + [x])[..|d + [x]| - 1] == d;
      }
    }
  }

  lemma {:induction false} DropKeys(s: seq<Property>, keys: set<Key>)
    ensures KeysOf(Drop(s, keys)) == KeysOf(s) - keys
  {
    if s == [] {
    } else {
      var init := s[..|s| - 1];
      var x := s[|s| - 1];
      DropKeys(init, keys);
      KeysOfSnoc(init, x);
      assert init + [x] == s;
      if KeyOf(x) !in keys {
        KeysOfSnoc(Drop(init, keys), x);
      }
    }
  }

  lemma {:induction false} DropMembers(s: seq<Property>, keys: set<Key>)
    ensures forall p :: p in Drop(s, keys) ==> p in s && KeyOf(p) !in keys
  {
    if s != [] {
      DropMembers(s[..|s| - 1], keys);
    }
  }

  /** Every entry whose key is kept survives as often as it occurs. */
  lemma {:induction false} DropCounts(s: seq<Property>, keys: set<Key>)
    ensures forall p :: multiset(Drop(s, keys))[p] == if KeyOf(p) in keys then 0 else multiset(s)[p]
  {
    if s != [] {
      var init := s[..|s| - 1];
      DropCounts(init, keys);
      assert s == init + [s[|s| - 1]];
    }
  }

  lemma {:induction false} DropInOrder(s: seq<Property>, keys: set<Key>)
    ensures Subsequence(Drop(s, keys), s)
  {
    if s != [] {
      var init := s[..|s| - 1];
      var x := s[|s| - 1];
      var d := Drop(init, keys);
      DropInOrder(init, keys);
      if KeyOf(x) in keys {
        SubsequenceWeaken(d, init, x);
        assert init + [x] == s;
      } else {
        assert (d + [x])[..|d + [x]| - 1] == d;
      }
    }
  }

  lemma {:induction false} LastValueDrop(s: seq<Property>, keys: set<Key>, k: Key)
    requires k !in keys
    ensures LastValue(Drop(s, keys), k) == LastValue(s, k)
  {
    if s != [] {
      var init := s[..|s| - 1];
      var x := s[|s| - 1];
      LastValueDrop(init, keys, k);
      var d := Drop(init, keys);
      if KeyOf(x) !in keys {
        assert (d + [x])[..|d + [x]| - 1] == d;
      }
    }
  }

  /** LastValue reads the value of the last incoming entry with the key. */
  lemma {:induction false} LastValueIsLast(s: seq<Property>, k: Key)
    ensures k !in KeysOf(s) ==> LastValue(s, k) == Nil
    ensures k in KeysOf(s) ==>
              exists i :: 0 <= i < |s| && KeyOf(s[i]) == k && LastValue(s, k) == Get(s[i], "value") &&
                          forall j :: i < j < |s| ==> KeyOf(s[j]) != k
  {
    if s != [] {
      var n := |s|;
      var init := s[..n - 1];
      LastValueIsLast(init, k);
      KeysOfSnoc(init, s[n - 1]);
      assert init + [s[n - 1]] == s;
      if KeyOf(s[n - 1]) != k && k in KeysOf(s) {
        var i :| 0 <= i < n - 1 && KeyOf(init[i]) == k && LastValue(init, k) == Get(init[i], "value") &&
                 forall j :: i < j < n - 1 ==> KeyOf(init[j]) != k;
        assert s[i] == init[i];
        assert forall j :: i < j < n ==> KeyOf(s[j]) != k by {
          assert forall j :: i < j < n - 1 ==> s[j] == init[j];
        }
      }
    }
  }

  /** Whether entry `i` is the first of `s` with its key. */
  ghost predicate FirstOfKey(s: seq<Property>, i: nat)
    requires i < |s|
  {
    KeyOf(s[i]) !in KeysOf(s[..i])
  }

  /** What existing entry `i` becomes: the first entry with a given key takes the
      value of the last incoming entry with that key; any later entry with the
      same key, and any entry no incoming entry matches, is left as it is. */
  ghost function MergedEntry(existing: seq<Property>, incoming: seq<Property>, i: nat): Property
    requires i < |existing|
  {
    var h := existing[i];
    if FirstOfKey(existing, i) && KeyOf(h) in KeysOf(incoming)
    then h["value" := LastValue(incoming, KeyOf(h))]
    else h
  }

  /** The merged list keeps every existing entry at its position (updated as
      MergedEntry says) and then lists the incoming entries whose key no
      existing entry has, in their original order. */
  lemma {:induction false} MergedShape(existing: seq<Property>, incoming: seq<Property>)
    ensures |Merged(existing, incoming)| == |existing| + |Drop(incoming, KeysOf(existing))|
    ensures Merged(existing, incoming)[|existing|..] == Drop(incoming, KeysOf(existing))
    ensures forall i :: 0 <= i < |existing| ==>
              Merged(existing, incoming)[i] == MergedEntry(existing, incoming, i)
    decreases |existing|
  {
    if existing == [] {
      DropNothing(incoming);
      assert KeysOf(existing) == {};
    } else {
      var h := existing[0];
      var k0 := KeyOf(h);
      var rest := existing[1..];
      var inc' := Drop(incoming, {k0});
      MergedShape(rest, inc');
      var m := Merged(existing, incoming);
      var m' := Merged(rest, inc');
      assert m[1..] == m';
      assert existing == [h] + rest;
      KeysOfCons(h, rest);
      DropDrop(incoming, {k0}, KeysOf(rest));
      assert m[|existing|..] == m'[|rest|..];
      DropKeys(incoming, {k0});
      forall i | 0 <= i < |existing|
        ensures m[i] == MergedEntry(existing, incoming, i)
      {
        if i == 0 {
          assert KeysOf(existing[..0]) == {};
        } else {
          assert m[i] == m'[i - 1];
          MergedEntryShift(existing, incoming, i);
        }
      }
    }
  }

  /** Entry `i > 0` of a merge is entry `i - 1` of the merge of the remaining
      existing entries into what the first one left of the incoming ones. */
  lemma MergedEntryShift(existing: seq<Property>, incoming: seq<Property>, i: nat)
    requires 0 < i < |existing|
    ensures MergedEntry(existing[1..], Drop(incoming, {KeyOf(existing[0])}), i - 1) ==
            MergedEntry(existing, incoming, i)
  {
    var h := existing[0];
    var k0 := KeyOf(h);
    var rest := existing[1..];
    assert rest[i - 1] == existing[i];
    assert existing[..i] == [h] + rest[..i - 1];
    KeysOfCons(h, rest[..i - 1]);
    DropKeys(incoming, {k0});
    var k := KeyOf(existing[i]);
    if k != k0 {
      LastValueDrop(incoming, {k0}, k);
    }
  }

  /** A merge changes nothing but `value`, and only on matched entries; the
      appended entries are incoming entries, in their relative order. */
  lemma MergeTouchesOnlyValue(existing: seq<Property>, incoming: seq<Property>)
    ensures forall i, f :: 0 <= i < |existing| && f != "value" ==>
              (f in Merged(existing, incoming)[i] <==> f in existing[i]) &&
              Get(Merged(existing, incoming)[i], f) == Get(existing[i], f)
    ensures forall i :: 0 <= i < |existing| && KeyOf(existing[i]) !in KeysOf(incoming) ==>
              Merged(existing, incoming)[i] == existing[i]
    ensures Subsequence(Merged(existing, incoming)[|existing|..], incoming)
  {
    MergedShape(existing, incoming);
    DropInOrder(incoming, KeysOf(existing));
  }

  predicate DistinctKeys(s: seq<Property>) {
    forall a, b :: 0 <= a < b < |s| ==> KeyOf(s[a]) != KeyOf(s[b])
  }

  predicate CarryValues(s: seq<Property>) {
    forall a :: 0 <= a < |s| ==> "value" in s[a]
  }

  lemma {:induction false} DropDistinct(s: seq<Property>, keys: set<Key>)
    requires DistinctKeys(s)
    ensures DistinctKeys(Drop(s, keys))
  {
    if s != [] {
      var init := s[..|s| - 1];
      var x := s[|s| - 1];
      assert DistinctKeys(init) by {
        assert forall a :: 0 <= a < |init| ==> init[a] == s[a];
      }
      DropDistinct(init, keys);
      if KeyOf(x) !in keys {
        var d := Drop(init, keys);
        DropKeys(init, keys);
        assert KeyOf(x) !in KeysOf(init);
        forall a, b | 0 <= a < b < |d + [x]| ensures KeyOf((d + [x])[a]) != KeyOf((d + [x])[b]) {
          if b == |d| {
            assert KeyOf(d[a]) in KeysOf(d);
          }
        }
      }
    }
  }

  /** A merge never changes a key, and leaves every incoming key present. */
  lemma MergedKeys(existing: seq<Property>, incoming: seq<Property>)
    ensures forall i :: 0 <= i < |existing| ==> KeyOf(Merged(existing, incoming)[i]) == KeyOf(existing[i])
    ensures KeysOf(incoming) <= KeysOf(Merged(existing, incoming))
  {
    var m := Merged(existing, incoming);
    var u := Drop(incoming, KeysOf(existing));
    var e := |existing|;
    MergedShape(existing, incoming);
    DropKeys(incoming, KeysOf(existing));
    assert forall i :: 0 <= i < e ==> KeyOf(m[i]) == KeyOf(existing[i]);
    forall k | k in KeysOf(incoming) ensures k in KeysOf(m) {
      if k in KeysOf(existing) {
        var i :| 0 <= i < e && KeyOf(existing[i]) == k;
        assert KeyOf(m[i]) == k;
      } else {
        assert k in KeysOf(u);
        var t :| 0 <= t < |u| && KeyOf(u[t]) == k;
        assert m[e + t] == m[e..][t] == u[t];
      }
    }
  }

  lemma IdempotentOnExisting(existing: seq<Property>, incoming: seq<Property>, i: nat)
    requires i < |existing|
    ensures MergedEntry(Merged(existing, incoming), incoming, i) == Merged(existing, incoming)[i]
  {
    var m := Merged(existing, incoming);
    MergedShape(existing, incoming);
    MergedKeys(existing, incoming);
    KeysOfSameKeys(m[..i], existing[..i]);
  }

  lemma IdempotentOnAppended(existing: seq<Property>, incoming: seq<Property>, i: nat)
    requires DistinctKeys(incoming) && CarryValues(incoming)
    requires |existing| <= i < |Merged(existing, incoming)|
    ensures MergedEntry(Merged(existing, incoming), incoming, i) == Merged(existing, incoming)[i]
  {
    var m := Merged(existing, incoming);
    AppendedFirstOfKey(existing, incoming, i);
    var b :| 0 <= b < |incoming| && incoming[b] == m[i];
    LastValueOfDistinct(incoming, b);
    assert "value" in m[i];
    assert m[i]["value" := Get(m[i], "value")] == m[i];
  }

  /** An appended entry is an incoming entry, and the first of its key in the
      merged list. */
  lemma AppendedFirstOfKey(existing: seq<Property>, incoming: seq<Property>, i: nat)
    requires DistinctKeys(incoming)
    requires |existing| <= i < |Merged(existing, incoming)|
    ensures Merged(existing, incoming)[i] in incoming
    ensures FirstOfKey(Merged(existing, incoming), i)
  {
    var m := Merged(existing, incoming);
    var u := Drop(incoming, KeysOf(existing));
    var e := |existing|;
    var t := i - e;
    MergedShape(existing, incoming);
    MergedKeys(existing, incoming);
    DropKeys(incoming, KeysOf(existing));
    DropDistinct(incoming, KeysOf(existing));
    DropMembers(incoming, KeysOf(existing));
    assert m[i] == m[e..][t] == u[t];
    var k := KeyOf(u[t]);
    assert k in KeysOf(u);
    forall s | 0 <= s < i ensures KeyOf(m[..i][s]) != k {
      if s < e {
        assert KeyOf(existing[s]) in KeysOf(existing);
      } else {
        assert m[s] == m[e..][s - e] == u[s - e];
      }
    }
  }

  /** With distinct keys, the last value of an entry's key is its own value. */
  lemma LastValueOfDistinct(incoming: seq<Property>, b: nat)
    requires DistinctKeys(incoming) && b < |incoming|
    ensures KeyOf(incoming[b]) in KeysOf(incoming)
    ensures LastValue(incoming, KeyOf(incoming[b])) == Get(incoming[b], "value")
  {
    var k := KeyOf(incoming[b]);
    LastValueIsLast(incoming, k);
    var a :| 0 <= a < |incoming| && KeyOf(incoming[a]) == k && LastValue(incoming, k) == Get(incoming[a], "value") &&
             forall j :: a < j < |incoming| ==> KeyOf(incoming[j]) != k;
    assert a == b;
  }

  /** Merging the same incoming entries a second time changes nothing, provided
      they carry distinct keys and each has a `value` key. */
  lemma MergeIdempotent(existing: seq<Property>, incoming: seq<Property>)
    requires DistinctKeys(incoming) && CarryValues(incoming)
    ensures Merged(Merged(existing, incoming), incoming) == Merged(existing, incoming)
  {
    var m := Merged(existing, incoming);
    var mm := Merged(m, incoming);
    MergedShape(m, incoming);
    MergedKeys(existing, incoming);
    DropAll(incoming, KeysOf(m));
    assert |mm| == |m|;
    forall i | 0 <= i < |m| ensures mm[i] == m[i] {
      if i < |existing| {
        IdempotentOnExisting(existing, incoming, i);
      } else {
        IdempotentOnAppended(existing, incoming, i);
      }
    }
  }

  lemma {:induction false} DropAll(s: seq<Property>, keys: set<Key>)
    requires KeysOf(s) <= keys
    ensures Drop(s, keys) == []
  {
    if s != [] {
      var init := s[..|s| - 1];
      KeysOfSnoc(init, s[|s| - 1]);
      assert init + [s[|s| - 1]] == s;
      DropAll(init, keys);
    }
  }

  /** Encoding an update and merging it twice gives the list that merging it
      once gives, when the options carry distinct keys and every hash value
      carries a `value` key. */
  lemma EncodeMergeIdempotent(existing: seq<Property>, options: Options)
    requires forall a, b :: 0 <= a < b < |options| ==> options[a].0 != options[b].0
    requires forall a :: 0 <= a < |options| && options[a].1.Hash? ==> "value" in options[a].1.entries
    ensures var incoming := Encode(options).properties;
            Merged(Merged(existing, incoming), incoming) == Merged(existing, incoming)
  {
    var incoming := Encode(options).properties;
    var ps := PropertyPositions(options);
    EncodeEntries(options);
    forall a, b | 0 <= a < b < |incoming| ensures KeyOf(incoming[a]) != KeyOf(incoming[b]) {
      assert ps[a] < ps[b];
      assert Get(incoming[a], "name") == Str(options[ps[a]].0);
      assert Get(incoming[b], "name") == Str(options[ps[b]].0);
    }
    forall a | 0 <= a < |incoming| ensures "value" in incoming[a] {
      assert incoming[a] == ParseProperty(options[ps[a]].0, options[ps[a]].1);
    }
    MergeIdempotent(existing, incoming);
  }

  /** Without distinct keys a second merge is not idempotent: the first of two
      appended entries with one key takes the second one's value. */
  lemma MergeTwiceWithRepeatedKey()
    ensures var first := map["name" := Str("phone"), "value" := Str("1")];
            var second := map["name" := Str("phone"), "value" := Str("2")];
            var incoming := [first, second];
            Merged(Merged([], incoming), incoming) != Merged([], incoming) &&
            Merged(Merged([], incoming), incoming) == [first["value" := Str("2")], second]
  {
    var first := map["name" := Str("phone"), "value" := Str("1")];
    var second := map["name" := Str("phone"), "value" := Str("2")];
    var incoming := [first, second];
    assert Merged([], incoming) == incoming;
    MergedShape(incoming, incoming);
    assert incoming[..0] == [];
    assert incoming[..1] == [first];
    assert KeyOf(first) in KeysOf(incoming);
    assert LastValue(incoming, KeyOf(first)) == Str("2");
    assert Merged(incoming, incoming)[0] == first["value" := Str("2")];
    assert first["value" := Str("2")]["value"] != first["value"];
    assert Drop(incoming, {KeyOf(first)}) == [];
    assert Merged([second], []) == [second];
  }

  /** The `delete_if` reading of a merge: two existing entries and two incoming
      ones share a key. The first existing entry takes the LAST incoming value,
      both incoming entries are consumed, and the second existing entry keeps
      its old value. */
  lemma MergeWithDuplicates(e1: Property, e2: Property, i1: Property, i2: Property)
    requires KeyOf(e1) == KeyOf(e2) == KeyOf(i1) == KeyOf(i2)
    ensures Merged([e1, e2], [i1, i2]) == [e1["value" := Get(i2, "value")], e2]
  {
    var existing := [e1, e2];
    var incoming := [i1, i2];
    MergedShape(existing, incoming);
    assert existing[..0] == [] && existing[..1] == [e1];
    assert KeysOf(existing) == {KeyOf(e1)} by {
      assert existing[0] == e1 && existing[1] == e2;
    }
    assert KeyOf(e1) in KeysOf(incoming) by {
      assert incoming[0] == i1;
    }
    DropAll(incoming, KeysOf(existing)) by {
      KeysOfSnoc([i1], i2);
      KeysOfSnoc([], i1);
      assert [] + [i1] == [i1] && [i1] + [i2] == incoming;
    }
    assert LastValue(incoming, KeyOf(e1)) == Get(i2, "value");
    assert KeyOf(e1) in KeysOf(existing[..1]) by {
      assert existing[..1][0] == e1;
    }
  }

  lemma KeysOfSameKeys(s: seq<Property>, t: seq<Property>)
    requires |s| == |t| && forall i :: 0 <= i < |s| ==> KeyOf(s[i]) == KeyOf(t[i])
    ensures KeysOf(s) == KeysOf(t)
  {
    forall k | k in KeysOf(s) ensures k in KeysOf(t) {
      var i :| 0 <= i < |s| && KeyOf(s[i]) == k;
      assert KeyOf(t[i]) == k;
    }
    forall k | k in KeysOf(t) ensures k in KeysOf(s) {
      var i :| 0 <= i < |t| && KeyOf(t[i]) == k;
      assert KeyOf(s[i]) == k;
    }
  }

  // ---------------------------------------------------------------------------
  // Selecting and reading entries

  /** A name (a String or Symbol, taken by `to_s`) or a hash of field/value pairs
      that an entry must all carry. */
  datatype Selector = ByName(name: string) | ByFields(pairs: seq<(string, Value)>)

  predicate Matches(p: Property, sel: Selector) {
    match sel
    case ByName(n) => Get(p, "name") == Str(n)
    case ByFields(pairs) => forall i :: 0 <= i < |pairs| ==> Get(p, pairs[i].0) == pairs[i].1
  }

  /** The entries of `ps` that the selector matches. */
  function Selected(ps: seq<Property>, sel: Selector): (r: seq<Property>)
    ensures |r| <= |ps|
    ensures forall p :: p in r ==> p in ps && Matches(p, sel)
    ensures forall i :: 0 <= i < |ps| && Matches(ps[i], sel) ==> ps[i] in r
  {
    if ps == [] then []
    else
      var prev := Selected(ps[..|ps| - 1], sel);
      if Matches(ps[|ps| - 1], sel) then prev + [ps[|ps| - 1]] else prev
  }

  /** Every matching entry is selected as often as it occurs, and no other. */
  lemma {:induction false} SelectedCounts(ps: seq<Property>, sel: Selector)
    ensures forall p :: multiset(Selected(ps, sel))[p] == if Matches(p, sel) then multiset(ps)[p] else 0
  {
    if ps != [] {
      var init := ps[..|ps| - 1];
      SelectedCounts(init, sel);
      assert ps == init + [ps[|ps| - 1]];
    }
  }

  /** The selection keeps the order of the properties. */
  lemma {:induction false} SelectedInOrder(ps: seq<Property>, sel: Selector)
    ensures Subsequence(Selected(ps, sel), ps)
  {
    if ps != [] {
      var init := ps[..|ps| - 1];
      var x := ps[|ps| - 1];
      var prev := Selected(init, sel);
      SelectedInOrder(init, sel);
      if Matches(x, sel) {
        assert (prev + [x])[..|prev + [x]| - 1] == prev;
      } else {
        SubsequenceWeaken(prev, init, x);
        assert init + [x] == ps;
      }
    }
  }

  lemma {:induction false} SelectedSingle(ps: seq<Property>, sel: Selector, i: nat)
    requires i < |ps| && Matches(ps[i], sel)
    requires forall j :: 0 <= j < |ps| && j != i ==> !Matches(ps[j], sel)
    ensures Selected(ps, sel) == [ps[i]]
  {
    var n := |ps|;
    var init := ps[..n - 1];
    if i == n - 1 {
      SelectedNone(init, sel);
    } else {
      SelectedSingle(init, sel, i);
    }
  }

  lemma {:induction false} SelectedNone(ps: seq<Property>, sel: Selector)
    requires forall j :: 0 <= j < |ps| ==> !Matches(ps[j], sel)
    ensures Selected(ps, sel) == []
  {
    if ps != [] {
      SelectedNone(ps[..|ps| - 1], sel);
    }
  }

  lemma {:induction false} SelectedMany(ps: seq<Property>, sel: Selector, i: nat, j: nat)
    requires i < j < |ps| && Matches(ps[i], sel) && Matches(ps[j], sel)
    ensures |Selected(ps, sel)| >= 2
  {
    var n := |ps|;
    var init := ps[..n - 1];
    if j == n - 1 {
      assert init[i] == ps[i];
      assert ps[i] in Selected(init, sel);
    } else {
      SelectedMany(init, sel, i, j);
    }
  }

  /** The `value` of each entry, in order. */
  function Values(s: seq<Property>): seq<Value> {
    seq(|s|, m requires 0 <= m < |s| => Get(s[m], "value"))
  }

  /** `get_property` over a properties list: nil when nothing matches, the one
      value when one entry matches, the values of all matching entries, in
      order, when several do. */
  function Lookup(ps: seq<Property>, sel: Selector): (r: Value)
    ensures (forall i :: 0 <= i < |ps| ==> !Matches(ps[i], sel)) ==> r == Nil
  {
    var found := Selected(ps, sel);
    assert found != [] ==> found[0] in found;
    if |found| > 1 then Arr(Values(found))
    else if |found| == 1 then Get(found[0], "value")
    else Nil
  }

  lemma LookupSingle(ps: seq<Property>, sel: Selector, i: nat)
    requires i < |ps| && Matches(ps[i], sel)
    requires forall j :: 0 <= j < |ps| && j != i ==> !Matches(ps[j], sel)
    ensures Lookup(ps, sel) == Get(ps[i], "value")
  {
    SelectedSingle(ps, sel, i);
  }

  lemma LookupMany(ps: seq<Property>, sel: Selector, i: nat, j: nat)
    requires i < j < |ps| && Matches(ps[i], sel) && Matches(ps[j], sel)
    ensures Lookup(ps, sel).Arr?
    ensures Lookup(ps, sel).items == Values(Selected(ps, sel))
    ensures |Lookup(ps, sel).items| >= 2
  {
    SelectedMany(ps, sel, i, j);
  }

  /** The selector `{name: .., subtype: ..}` that a test uses to read back one
      entry: it matches exactly the entries with the same key. */
  function KeySelector(p: Property): Selector {
    ByFields([("name", Get(p, "name")), ("subtype", Get(p, "subtype"))])
  }

  lemma KeySelectorMatches(p: Property, q: Property)
    ensures Matches(q, KeySelector(p)) <==> KeyOf(q) == KeyOf(p)
  {
    var pairs := KeySelector(p).pairs;
    assert Matches(q, KeySelector(p)) ==>
             Get(q, pairs[0].0) == pairs[0].1 && Get(q, pairs[1].0) == pairs[1].1;
    if KeyOf(q) == KeyOf(p) {
      forall i | 0 <= i < |pairs| ensures Get(q, pairs[i].0) == pairs[i].1 {
        assert i == 0 || i == 1;
      }
    }
  }
}
