/** The Contact resource object: its top-level fields and its `properties`
    list, read with `select_properties` / `get_property` and updated in place
    by `update_attributes`. */
module Contacts {
  import opened Json
  import opened PropertyCodec

  class Contact {
    /** The top-level fields: control fields and whatever else the CRM sent. */
    var fields: map<string, Value>
    /** The `properties` list; None when the contact has no such key. */
    var properties: Option<seq<Property>>

    /** The list is kept apart from the other top-level fields. */
    ghost predicate Valid()
      reads this
    {
      "properties" !in fields
    }

    constructor (fields: map<string, Value>, properties: Option<seq<Property>>)
      requires "properties" !in fields
      ensures Valid() && this.fields == fields && this.properties == properties
    {
      this.fields := fields;
      this.properties := properties;
    }

    /** `select_properties`. Without a `properties` list the source raises
        (NoMethodError on nil); that outcome is None here. */
    method SelectProperties(sel: Selector) returns (r: Option<seq<Property>>)
      ensures r.None? <==> properties.None?
      ensures properties.Some? ==> r == Some(Selected(properties.value, sel))
    {
      if properties.None? {
        return None;
      }
      var ps := properties.value;
      var acc: seq<Property> := [];
      var i := 0;
      while i < |ps|
        invariant 0 <= i <= |ps|
        invariant acc == Selected(ps[..i], sel)
      {
        var keep := SelectorAccepts(ps[i], sel);
        assert ps[..i + 1][..i] == ps[..i];
        if keep {
          acc := acc + [ps[i]];
        }
        i := i + 1;
      }
      assert ps[..i] == ps;
      r := Some(acc);
    }

    /** `get_property`: nil when the contact has no `properties` list or nothing
        matches; otherwise as Lookup says. */
    function GetProperty(sel: Selector): (r: Value)
      reads this
      ensures properties.None? ==> r == Nil
      ensures properties.Some? ==>
                (forall i :: 0 <= i < |properties.value| ==> !Matches(properties.value[i], sel)) ==> r == Nil
    {
      if properties.None? then Nil else Lookup(properties.value, sel)
    }

    /** `update_attributes`: encode the options, merge the new entries into the
        existing list, and overwrite the top-level fields the payload carries.
        Without a `properties` list the source raises before changing anything;
        that outcome is `ok == false` here. */
    method UpdateAttributes(options: Options) returns (ok: bool)
      requires Valid()
      modifies this
      ensures Valid()
      ensures ok <==> old(properties).Some?
      ensures !ok ==> fields == old(fields) && properties == old(properties)
      ensures ok ==> fields == old(fields) + Encode(options).control
      ensures ok ==> properties == Some(Merged(old(properties).value, Encode(options).properties))
    {
      var payload := ParseContactFields(options);
      if properties.None? {
        return false;
      }
      var merged := MergeProperties(properties.value, payload.properties);
      EncodeControlKeys(options);
      FieldTiersDisjoint("properties");
      fields := fields + payload.control;
      properties := Some(merged);
      ok := true;
    }
  }

  /** The test inside `select_properties` for one entry; for a hash selector it
      clears a flag on the first pair the entry does not carry. */
  method SelectorAccepts(a: Property, sel: Selector) returns (selected: bool)
    ensures selected == Matches(a, sel)
  {
    match sel {
      case ByName(n) =>
        selected := Get(a, "name") == Str(n);
      case ByFields(pairs) =>
        selected := true;
        var j := 0;
        while j < |pairs|
          invariant 0 <= j <= |pairs|
          invariant selected <==> forall m :: 0 <= m < j ==> Get(a, pairs[m].0) == pairs[m].1
        {
          if Get(a, pairs[j].0) != pairs[j].1 {
            selected := false;
          }
          j := j + 1;
        }
    }
  }

  /** After `update_attributes(key => v)` for a key stored as a property,
      reading back the entry with that (name, subtype) gives the new value. An
      entry with a new (name, subtype) was absent before and is appended; an
      existing one is overwritten and the list keeps its length. */
  lemma UpdateReadsBack(props: seq<Property>, key: string, v: Value)
    requires !IsContactField(key)
    requires forall a, b :: 0 <= a < b < |props| && KeyOf(props[a]) == KeyOf(ParseProperty(key, v))
               ==> KeyOf(props[b]) != KeyOf(props[a])
    ensures var e := ParseProperty(key, v);
            var after := Merged(props, Encode([(key, v)]).properties);
            && Lookup(after, KeySelector(e)) == Get(e, "value")
            && (KeyOf(e) in KeysOf(props) ==> |after| == |props|)
            && (KeyOf(e) !in KeysOf(props) ==> |after| == |props| + 1 && Lookup(props, KeySelector(e)) == Nil)
  {
    var e := ParseProperty(key, v);
    var options := [(key, v)];
    assert options[..0] == [];
    assert Encode(options).properties == [e];
    if KeyOf(e) in KeysOf(props) {
      var i0 :| 0 <= i0 < |props| && KeyOf(props[i0]) == KeyOf(e);
      MergeOverwrites(props, e, i0);
    } else {
      MergeAppends(props, e);
    }
  }

  lemma MergeOne(props: seq<Property>, e: Property)
    ensures KeysOf([e]) == {KeyOf(e)}
    ensures LastValue([e], KeyOf(e)) == Get(e, "value")
    ensures |Merged(props, [e])| == |props| + |Drop([e], KeysOf(props))|
    ensures forall j :: 0 <= j < |props| ==> KeyOf(Merged(props, [e])[j]) == KeyOf(props[j])
  {
    assert [e][0] == e;
    assert [e][..0] == [];
    MergedShape(props, [e]);
    MergedKeys(props, [e]);
  }

  /** Merging one entry whose key the list holds exactly once, at `i0`. */
  lemma MergeOverwrites(props: seq<Property>, e: Property, i0: nat)
    requires i0 < |props| && KeyOf(props[i0]) == KeyOf(e)
    requires forall j :: 0 <= j < |props| && j != i0 ==> KeyOf(props[j]) != KeyOf(e)
    ensures |Merged(props, [e])| == |props|
    ensures Lookup(Merged(props, [e]), KeySelector(e)) == Get(e, "value")
  {
    var after := Merged(props, [e]);
    var sel := KeySelector(e);
    MergeOne(props, e);
    OverwrittenEntry(props, e, i0);
    KeySelectorMatches(e, after[i0]);
    forall j | 0 <= j < |after| && j != i0 ensures !Matches(after[j], sel) {
      KeySelectorMatches(e, after[j]);
    }
    LookupSingle(after, sel, i0);
  }

  /** The entry at `i0` takes the merged entry's value and nothing is appended. */
  lemma OverwrittenEntry(props: seq<Property>, e: Property, i0: nat)
    requires i0 < |props| && KeyOf(props[i0]) == KeyOf(e)
    requires forall j :: 0 <= j < |props| && j != i0 ==> KeyOf(props[j]) != KeyOf(e)
    ensures |Merged(props, [e])| == |props|
    ensures Merged(props, [e])[i0] == props[i0]["value" := Get(e, "value")]
  {
    var k := KeyOf(e);
    MergeOne(props, e);
    MergedShape(props, [e]);
    assert k in KeysOf(props);
    DropAll([e], KeysOf(props));
    assert k !in KeysOf(props[..i0]) by {
      forall s | 0 <= s < i0 ensures KeyOf(props[..i0][s]) != k {
        assert props[..i0][s] == props[s];
      }
    }
    assert FirstOfKey(props, i0);
  }

  /** Merging one entry whose key the list does not hold. */
  lemma MergeAppends(props: seq<Property>, e: Property)
    requires KeyOf(e) !in KeysOf(props)
    ensures |Merged(props, [e])| == |props| + 1
    ensures Lookup(Merged(props, [e]), KeySelector(e)) == Get(e, "value")
    ensures Lookup(props, KeySelector(e)) == Nil
  {
    var k := KeyOf(e);
    var after := Merged(props, [e]);
    var sel := KeySelector(e);
    MergeOne(props, e);
    MergedShape(props, [e]);
    assert [e][..0] == [];
    assert Drop([e], KeysOf(props)) == [e];
    assert after[|props|] == after[|props|..][0] == e;
    KeySelectorMatches(e, e);
    forall j | 0 <= j < |after| && j != |props| ensures !Matches(after[j], sel) {
      KeySelectorMatches(e, after[j]);
      assert KeyOf(props[j]) in KeysOf(props);
    }
    LookupSingle(after, sel, |props|);
    forall j | 0 <= j < |props| ensures !Matches(props[j], sel) {
      KeySelectorMatches(e, props[j]);
      assert KeyOf(props[j]) in KeysOf(props);
    }
  }

  function HomePhone(): Property {
    map["type" := Str("SYSTEM"), "name" := Str("phone"),
        "subtype" := Str("home"), "value" := Str("1231111111")]
  }

  function MobilePhone(): Property {
    map["type" := Str("SYSTEM"), "name" := Str("phone"),
        "subtype" := Str("mobile"), "value" := Str("1232222222")]
  }

  function MobileSelector(): Selector {
    ByFields([("name", Str("phone")), ("subtype", Str("mobile"))])
  }

  /** A contact with a home and a mobile phone: asking by name alone gives both
      numbers in order. */
  lemma TwoPhonesByName()
    ensures Lookup([HomePhone(), MobilePhone()], ByName("phone")) ==
              Arr([Str("1231111111"), Str("1232222222")])
  {
    var props := [HomePhone(), MobilePhone()];
    var sel := ByName("phone");
    assert Matches(props[0], sel) && Matches(props[1], sel);
    assert props[..1] == [HomePhone()] && props[..1][..0] == [];
    assert Selected(props[..1][..0], sel) == [];
    assert Selected(props[..1], sel) == [HomePhone()];
    assert Selected(props, sel) == props;
    LookupMany(props, sel, 0, 1);
  }

  /** Asking by name and subtype gives the mobile number alone. */
  lemma TwoPhonesBySubtype()
    ensures Lookup([HomePhone(), MobilePhone()], MobileSelector()) == Str("1232222222")
  {
    var props := [HomePhone(), MobilePhone()];
    var sel := MobileSelector();
    assert !Matches(props[0], sel) by {
      assert Get(props[0], sel.pairs[1].0) != sel.pairs[1].1;
    }
    assert Matches(props[1], sel) by {
      forall m | 0 <= m < |sel.pairs| ensures Get(props[1], sel.pairs[m].0) == sel.pairs[m].1 {
        assert m == 0 || m == 1;
      }
    }
    LookupSingle(props, sel, 1);
  }

  /** Updating `phone` with a mobile hash replaces the mobile number and keeps
      both entries. */
  lemma UpdateMobilePhone()
    ensures var update := Hash(map["value" := Str("1233333333"), "subtype" := Str("mobile")]);
            var after := Merged([HomePhone(), MobilePhone()], Encode([("phone", update)]).properties);
            Lookup(after, MobileSelector()) == Str("1233333333") && |after| == 2
  {
    var props := [HomePhone(), MobilePhone()];
    var update := Hash(map["value" := Str("1233333333"), "subtype" := Str("mobile")]);
    var e := ParseProperty("phone", update);
    assert Get(e, "name") == Str("phone") && Get(e, "subtype") == Str("mobile");
    assert Get(e, "value") == Str("1233333333");
    assert KeySelector(e) == MobileSelector();
    assert KeyOf(props[0]) != KeyOf(e);
    assert KeyOf(e) in KeysOf(props) by {
      assert KeyOf(props[1]) == KeyOf(e);
    }
    assert !IsContactField("phone");
    UpdateReadsBack(props, "phone", update);
  }
}
