/** The class-level side of the Contact resource that is not HTTP: the
    normalisation of the e-mail list `search_by_email` sends, and what `find`,
    `all`, `search`, `search_by_email`, `create` and `update_score` make of
    the transport's response. The request itself is not modelled; the
    response is a parameter. */
module ContactResponses {
  import opened Json

  /** A response as the transport returns it: a status and a decoded body. */
  datatype Response = Response(status: int, body: Value)

  // ---------------------------------------------------------------------------
  // E-mail normalisation: `emails.flatten.compact.uniq`

  /** `x` is an element of `vs` or, at any depth, of an array nested in it. */
  predicate Occurs(x: Value, vs: seq<Value>)
    decreases vs
  {
    exists i :: 0 <= i < |vs| && (vs[i] == x || (vs[i].Arr? && Occurs(x, vs[i].items)))
  }

  /** Occurrence in a non-empty list: in its head, inside the head, or in its tail. */
  lemma OccursCons(vs: seq<Value>)
    requires vs != []
    ensures forall x {:trigger Occurs(x, vs)} :: Occurs(x, vs) <==>
              vs[0] == x || (vs[0].Arr? && Occurs(x, vs[0].items)) || Occurs(x, vs[1..])
  {
    forall x | Occurs(x, vs[1..])
      ensures Occurs(x, vs)
    {
      var i :| 0 <= i < |vs[1..]| && (vs[1..][i] == x || (vs[1..][i].Arr? && Occurs(x, vs[1..][i].items)));
      assert vs[i + 1] == vs[1..][i];
    }
    forall x | Occurs(x, vs) && vs[0] != x && !(vs[0].Arr? && Occurs(x, vs[0].items))
      ensures Occurs(x, vs[1..])
    {
      var i :| 0 <= i < |vs| && (vs[i] == x || (vs[i].Arr? && Occurs(x, vs[i].items)));
      assert i > 0 && vs[1..][i - 1] == vs[i];
    }
  }

  /** Ruby `Array#flatten`: nested arrays, at any depth, are spliced in place
      (`FlattenNested`), so no array is left. */
  function Flatten(vs: seq<Value>): (r: seq<Value>)
    ensures forall x :: x in r ==> !x.Arr?
    decreases vs
  {
    if vs == [] then []
    else
      assert vs[0] in vs;
      (if vs[0].Arr? then Flatten(vs[0].items) else [vs[0]]) + Flatten(vs[1..])
  }

  /** What is left after flattening are exactly the non-array values that
      occur at some depth of the input. */
  lemma {:induction false} FlattenLeaves(vs: seq<Value>)
    ensures forall x :: x in Flatten(vs) <==> !x.Arr? && Occurs(x, vs)
    decreases vs
  {
    if vs != [] {
      assert vs[0] in vs;
      OccursCons(vs);
      if vs[0].Arr? {
        FlattenLeaves(vs[0].items);
      }
      FlattenLeaves(vs[1..]);
    }
  }

  /** A nested array contributes its own flattening, in its place. */
  lemma FlattenNested(xs: seq<Value>, rest: seq<Value>)
    ensures Flatten([Arr(xs)] + rest) == Flatten(xs) + Flatten(rest)
  {
    var vs := [Arr(xs)] + rest;
    assert vs[0] == Arr(xs) && vs[1..] == rest;
  }

  /** Flattening commutes with concatenation. */
  lemma {:induction false} FlattenAppend(a: seq<Value>, b: seq<Value>)
    ensures Flatten(a + b) == Flatten(a) + Flatten(b)
  {
    if a == [] {
      assert a + b == b;
    } else {
      assert (a + b)[0] == a[0];
      assert (a + b)[1..] == a[1..] + b;
      FlattenAppend(a[1..], b);
    }
  }

  /** A list without nested arrays is left as it is. */
  lemma {:induction false} FlattenFlat(vs: seq<Value>)
    requires forall i :: 0 <= i < |vs| ==> !vs[i].Arr?
    ensures Flatten(vs) == vs
  {
    if vs != [] {
      FlattenFlat(vs[1..]);
    }
  }

  /** Ruby `Array#compact`: the nils are dropped, every other element is kept
      as often as it occurs (`CompactCounts`), in order (`CompactInOrder`). */
  function Compact(vs: seq<Value>): (r: seq<Value>)
    ensures forall x :: x in r <==> x in vs && x != Nil
  {
    if vs == [] then []
    else
      var prev := Compact(vs[..|vs| - 1]);
      if vs[|vs| - 1] == Nil then prev else prev + [vs[|vs| - 1]]
  }

  lemma {:induction false} CompactCounts(vs: seq<Value>)
    ensures multiset(Compact(vs)) == multiset(vs)[Nil := 0]
  {
    if vs != [] {
      var init := vs[..|vs| - 1];
      CompactCounts(init);
      assert vs == init + [vs[|vs| - 1]];
    }
  }

  lemma {:induction false} CompactInOrder(vs: seq<Value>)
    ensures Subsequence(Compact(vs), vs)
  {
    if vs != [] {
      var init := vs[..|vs| - 1];
      var x := vs[|vs| - 1];
      var prev := Compact(init);
      CompactInOrder(init);
      if x == Nil {
        SubsequenceWeaken(prev, init, x);
        assert init + [x] == vs;
      } else {
        assert (prev + [x])[..|prev + [x]| - 1] == prev;
      }
    }
  }

  /** Ruby `Array#uniq`: the first occurrence of each value, in order. */
  function Uniq(vs: seq<Value>): (r: seq<Value>)
    ensures forall x :: x in r <==> x in vs
    ensures forall a, b :: 0 <= a < b < |r| ==> r[a] != r[b]
  {
    if vs == [] then []
    else
      var prev := Uniq(vs[..|vs| - 1]);
      if vs[|vs| - 1] in prev then prev else prev + [vs[|vs| - 1]]
  }

  /** The position of the first occurrence of `x` in `vs`: no earlier
      element is `x` (`FirstIndexIsFirst`). */
  ghost function FirstIndex(vs: seq<Value>, x: Value): (i: nat)
    requires x in vs
    ensures i < |vs| && vs[i] == x
    decreases |vs|
  {
    var init := vs[..|vs| - 1];
    assert vs == init + [vs[|vs| - 1]];
    if x in init then FirstIndex(init, x) else |vs| - 1
  }

  lemma {:induction false} FirstIndexIsFirst(vs: seq<Value>, x: Value, j: nat)
    requires x in vs && j < FirstIndex(vs, x)
    ensures vs[j] != x
    decreases |vs|
  {
    var init := vs[..|vs| - 1];
    if x in init {
      FirstIndexIsFirst(init, x, j);
    } else {
      assert vs[j] == init[j];
    }
  }

  // Proof helpers: the first occurrence of a value seen before the last
  // element, and of one that is new there.
  lemma FirstIndexInPrefix(vs: seq<Value>, x: Value)
    requires vs != [] && x in vs[..|vs| - 1]
    ensures x in vs && FirstIndex(vs[..|vs| - 1], x) == FirstIndex(vs, x)
  {
  }

  lemma FirstIndexOfNew(vs: seq<Value>)
    requires vs != [] && vs[|vs| - 1] !in vs[..|vs| - 1]
    ensures FirstIndex(vs, vs[|vs| - 1]) == |vs| - 1
  {
  }

  /** Uniq lists the values in the order of their first occurrences. */
  lemma {:induction false} UniqKeepsFirstOccurrences(vs: seq<Value>)
    ensures forall a, b :: 0 <= a < b < |Uniq(vs)| ==>
              FirstIndex(vs, Uniq(vs)[a]) < FirstIndex(vs, Uniq(vs)[b])
  {
    if vs != [] {
      var n := |vs|;
      var init := vs[..n - 1];
      var x := vs[n - 1];
      var prev := Uniq(init);
      var r := Uniq(vs);
      UniqKeepsFirstOccurrences(init);
      assert r == if x in prev then prev else prev + [x];
      forall a, b | 0 <= a < b < |r| ensures FirstIndex(vs, r[a]) < FirstIndex(vs, r[b]) {
        assert r[a] == prev[a];
        FirstIndexInPrefix(vs, r[a]);
        if b < |prev| {
          assert r[b] == prev[b];
          FirstIndexInPrefix(vs, r[b]);
        } else {
          assert b == |prev| && r[b] == x && x !in prev;
          assert x !in init;
          FirstIndexOfNew(vs);
          assert FirstIndex(vs, r[a]) == FirstIndex(init, prev[a]) < n - 1;
        }
      }
    }
  }

  /** Dropping nils keeps the order in which the other values first occur. */
  lemma {:induction false} CompactKeepsFirstOccurrences(vs: seq<Value>, x: Value, y: Value)
    requires x in Compact(vs) && y in Compact(vs)
    requires FirstIndex(Compact(vs), x) < FirstIndex(Compact(vs), y)
    ensures FirstIndex(vs, x) < FirstIndex(vs, y)
  {
    var init := vs[..|vs| - 1];
    if x !in Compact(init) {
      CompactLastNew(vs, x);
      if y in Compact(init) {
        CompactLastOld(vs, y);
      }
    } else if y in Compact(init) {
      CompactLastOld(vs, x);
      CompactLastOld(vs, y);
      CompactKeepsFirstOccurrences(init, x, y);
      CompactOrderOld(vs, x, y);
    } else {
      CompactOrderNew(vs, x, y);
    }
  }

  // Proof helpers for the two cases that remain: both values seen before the
  // last element, or only the first of them.
  lemma CompactOrderOld(vs: seq<Value>, x: Value, y: Value)
    requires vs != [] && x in vs[..|vs| - 1] && y in vs[..|vs| - 1]
    requires FirstIndex(vs[..|vs| - 1], x) < FirstIndex(vs[..|vs| - 1], y)
    ensures FirstIndex(vs, x) < FirstIndex(vs, y)
  {
    FirstIndexInPrefix(vs, x);
    FirstIndexInPrefix(vs, y);
  }

  lemma CompactOrderNew(vs: seq<Value>, x: Value, y: Value)
    requires vs != [] && x in Compact(vs[..|vs| - 1])
    requires y in Compact(vs) && y !in Compact(vs[..|vs| - 1])
    ensures FirstIndex(vs, x) < FirstIndex(vs, y)
  {
    CompactLastNew(vs, y);
    CompactLastOld(vs, x);
    FirstIndexOfNew(vs);
    FirstIndexInPrefix(vs, x);
  }

  // Proof helpers: what one more element does to the first occurrences in a
  // compacted list, for a value seen before and for a new one.
  lemma CompactLastOld(vs: seq<Value>, x: Value)
    requires vs != [] && x in Compact(vs[..|vs| - 1])
    ensures x in vs[..|vs| - 1] && x in Compact(vs)
    ensures FirstIndex(Compact(vs), x) == FirstIndex(Compact(vs[..|vs| - 1]), x)
  {
    var prev := Compact(vs[..|vs| - 1]);
    var c := Compact(vs);
    if vs[|vs| - 1] != Nil {
      assert c == prev + [vs[|vs| - 1]] && c[..|prev|] == prev;
      FirstIndexInPrefix(c, x);
    }
  }

  lemma CompactLastNew(vs: seq<Value>, x: Value)
    requires vs != [] && x in Compact(vs) && x !in Compact(vs[..|vs| - 1])
    ensures x == vs[|vs| - 1] && x !in vs[..|vs| - 1]
    ensures FirstIndex(Compact(vs), x) == |Compact(vs[..|vs| - 1])|
  {
    var prev := Compact(vs[..|vs| - 1]);
    var c := Compact(vs);
    assert c == prev + [vs[|vs| - 1]] && c[..|prev|] == prev;
    FirstIndexOfNew(c);
  }

  /** What `search_by_email` sends: each non-nil scalar found at any depth of
      the arguments, once. */
  function NormalizeEmails(emails: seq<Value>): (r: seq<Value>)
    ensures forall x :: x in r <==> x != Nil && !x.Arr? && Occurs(x, emails)
    ensures forall a, b :: 0 <= a < b < |r| ==> r[a] != r[b]
  {
    FlattenLeaves(emails);
    Uniq(Compact(Flatten(emails)))
  }

  /** The e-mails are sent in the order in which they first occur in the
      flattened arguments. */
  lemma NormalizeEmailsOrder(emails: seq<Value>)
    ensures forall x :: x in NormalizeEmails(emails) ==> x in Flatten(emails)
    ensures forall a, b :: 0 <= a < b < |NormalizeEmails(emails)| ==>
              FirstIndex(Flatten(emails), NormalizeEmails(emails)[a]) <
              FirstIndex(Flatten(emails), NormalizeEmails(emails)[b])
  {
    var f := Flatten(emails);
    var c := Compact(f);
    var r := NormalizeEmails(emails);
    UniqKeepsFirstOccurrences(c);
    forall a, b | 0 <= a < b < |r|
      ensures FirstIndex(f, r[a]) < FirstIndex(f, r[b])
    {
      CompactKeepsFirstOccurrences(f, r[a], r[b]);
    }
  }

  /** `search_by_email('a@x.com', ['b@x.com', nil, 'a@x.com'])` sends the two
      addresses once each, in that order. */
  lemma NormalizeNestedEmails()
    ensures NormalizeEmails([Str("a@x.com"), Arr([Str("b@x.com"), Nil, Str("a@x.com")])]) ==
              [Str("a@x.com"), Str("b@x.com")]
  {
    var a := Str("a@x.com");
    var b := Str("b@x.com");
    FlattenNestedExample(a, b);
    CompactExample(a, b);
    UniqExample(a, b);
  }

  // Proof helpers for the three stages of the example above.
  lemma FlattenNestedExample(a: Value, b: Value)
    requires !a.Arr? && !b.Arr?
    ensures Flatten([a, Arr([b, Nil, a])]) == [a, b, Nil, a]
  {
    var x := Arr([b, Nil, a]);
    FlattenNested([b, Nil, a], []);
    FlattenFlat([b, Nil, a]);
    FlattenScalar(a, [x]);
    assert [a] + [x] == [a, x] && [x] + [] == [x];
  }

  // Proof helper: a scalar in front stays in front.
  lemma FlattenScalar(v: Value, rest: seq<Value>)
    requires !v.Arr?
    ensures Flatten([v] + rest) == [v] + Flatten(rest)
  {
    assert ([v] + rest)[0] == v && ([v] + rest)[1..] == rest;
  }

  lemma CompactExample(a: Value, b: Value)
    requires a != Nil && b != Nil
    ensures Compact([a, b, Nil, a]) == [a, b, a]
  {
    assert [a][..0] == [];
    assert Compact([a]) == [a];
    assert [a, b][..1] == [a];
    assert Compact([a, b]) == [a, b];
    assert [a, b, Nil][..2] == [a, b];
    assert Compact([a, b, Nil]) == [a, b];
    assert [a, b, Nil, a][..3] == [a, b, Nil];
  }

  lemma UniqExample(a: Value, b: Value)
    requires a != b
    ensures Uniq([a, b, a]) == [a, b]
  {
    assert [a][..0] == [];
    assert Uniq([a]) == [a];
    assert [a, b][..1] == [a];
    assert Uniq([a, b]) == [a, b];
    assert [a, b, a][..2] == [a, b];
  }

  // ---------------------------------------------------------------------------
  // Shaping responses

  /** The fields of a contact built with `new` (a Hashie::Mash). A hash gives
      its entries; nil and false give an empty contact, since the source hash
      is then skipped; any other value raises, since its fields are read with
      `each_pair`. */
  function NewContact(v: Value): Option<map<string, Value>> {
    match v
    case Hash(h) => Some(h)
    case Nil => Some(map[])
    case Bool(b) => if b then None else Some(map[])
    case _ => None
  }

  /** `map { |body| new body }` over a list: raises unless every element can
      be made a contact. */
  function NewContacts(items: seq<Value>): (r: Option<seq<map<string, Value>>>)
    ensures r.Some? <==> forall i :: 0 <= i < |items| ==> NewContact(items[i]).Some?
    ensures r.Some? ==> (|r.value| == |items| &&
              forall i :: 0 <= i < |items| ==> NewContact(items[i]) == Some(r.value[i]))
  {
    if items == [] then Some([])
    else
      match (NewContact(items[0]), NewContacts(items[1..]))
      case (Some(c), Some(cs)) =>
        assert forall i :: 1 <= i < |items| ==> items[i] == items[1..][i - 1];
        Some([c] + cs)
      case _ =>
        assert forall i :: 1 <= i < |items| ==> items[i] == items[1..][i - 1];
        None
  }

  // Proof helper: the nils dropped, the rest can be made contacts exactly
  // when every non-nil element can.
  lemma CompactNewContacts(items: seq<Value>)
    ensures NewContacts(Compact(items)).Some? <==>
              forall i :: 0 <= i < |items| && items[i] != Nil ==> NewContact(items[i]).Some?
  {
    var kept := Compact(items);
    if forall i :: 0 <= i < |items| && items[i] != Nil ==> NewContact(items[i]).Some? {
      forall j | 0 <= j < |kept| ensures NewContact(kept[j]).Some? {
        assert kept[j] in kept;
        var i :| 0 <= i < |items| && items[i] == kept[j];
      }
    } else {
      var i :| 0 <= i < |items| && items[i] != Nil && NewContact(items[i]).None?;
      assert items[i] in kept;
      var j :| 0 <= j < |kept| && kept[j] == items[i];
    }
  }

  /** What `all` and `search` return: the contacts built from the body's
      elements on 200, the response itself otherwise. An empty hash maps to no
      contacts; a non-empty one yields its pairs, which `new` rejects. */
  datatype ListResult = Contacts(contacts: seq<map<string, Value>>) | Raw(response: Response) | ListRaises

  function ShapeList(resp: Response): (r: ListResult)
    ensures r.Raw? <==> resp.status != 200
    ensures r.Raw? ==> r.response == resp
    ensures resp.status == 200 && resp.body == Hash(map[]) ==> r == Contacts([])
    ensures resp.status == 200 && !resp.body.Arr? && resp.body != Hash(map[]) ==> r == ListRaises
    ensures resp.status == 200 && resp.body.Arr? ==>
              (r.Contacts? <==> forall i :: 0 <= i < |resp.body.items| ==> NewContact(resp.body.items[i]).Some?)
    ensures resp.status == 200 && resp.body.Arr? && r.Contacts? ==>
              |r.contacts| == |resp.body.items| &&
              forall i :: 0 <= i < |resp.body.items| ==> NewContact(resp.body.items[i]) == Some(r.contacts[i])
  {
    if resp.status != 200 then Raw(resp)
    else if resp.body == Hash(map[]) then Contacts([])
    else if resp.body.Arr? then
      match NewContacts(resp.body.items)
      case Some(cs) => Contacts(cs)
      case None => ListRaises
    else ListRaises
  }

  /** A body of contacts and one number: the number cannot be made a contact. */
  lemma ListWithNumberRaises(h: map<string, Value>)
    ensures ShapeList(Response(200, Arr([Hash(h), Int(1)]))) == ListRaises
  {
    assert !NewContact([Hash(h), Int(1)][1]).Some?;
  }

  /** What `find` returns: the contact on 200, a not-found error carrying the
      response on 204, and nil on any other status. */
  datatype FindResult = Found(contact: map<string, Value>) | NotFound(response: Response) | NoResult | FindRaises

  function ShapeFind(resp: Response): (r: FindResult)
    ensures r.Found? ==> resp.status == 200 && NewContact(resp.body) == Some(r.contact)
    ensures resp.status == 200 && resp.body.Hash? ==> r == Found(resp.body.entries)
    ensures r.FindRaises? <==> resp.status == 200 && NewContact(resp.body).None?
    ensures r.NotFound? <==> resp.status == 204
    ensures r.NotFound? ==> r.response == resp
    ensures r.NoResult? <==> resp.status != 200 && resp.status != 204
  {
    if resp.status == 200 then
      match NewContact(resp.body)
      case Some(c) => Found(c)
      case None => FindRaises
    else if resp.status == 204 then NotFound(resp)
    else NoResult
  }

  /** What `search_by_email` returns. The body's size is tested before the
      nils are dropped, so a list may hold fewer than two contacts. A body that
      is no array raises, except an empty hash, whose `first` is nil. */
  datatype EmailResult = Many(contacts: seq<map<string, Value>>) | One(contact: map<string, Value>) | NoContact | EmailRaises

  function ShapeSearchByEmail(body: Value): (r: EmailResult)
    ensures body.Arr? && |body.items| > 1 ==>
              (r.Many? <==> forall i :: 0 <= i < |body.items| && body.items[i] != Nil ==> NewContact(body.items[i]).Some?)
    ensures r.Many? ==> (body.Arr? && |body.items| > 1 && |r.contacts| == |Compact(body.items)| &&
              forall i :: 0 <= i < |r.contacts| ==> NewContact(Compact(body.items)[i]) == Some(r.contacts[i]))
    ensures body.Arr? && |body.items| == 1 && body.items[0].Hash? && body.items[0].entries != map[] ==>
              r == One(body.items[0].entries)
    ensures r.One? ==> body.Arr? && |body.items| == 1 && NewContact(body.items[0]) == Some(r.contact) &&
                       r.contact != map[]
    ensures r.NoContact? <==> (body == Hash(map[]) ||
              (body.Arr? && (body.items == [] || (|body.items| == 1 && NewContact(body.items[0]) == Some(map[])))))
    ensures !body.Arr? && body != Hash(map[]) ==> r == EmailRaises
  {
    if body == Hash(map[]) then NoContact
    else if !body.Arr? then EmailRaises
    else if |body.items| > 1 then
      var kept := Compact(body.items);
      CompactNewContacts(body.items);
      match NewContacts(kept)
      case Some(cs) => Many(cs)
      case None => EmailRaises
    else
      var first := if body.items == [] then Nil else body.items[0];
      match NewContact(first)
      case None => EmailRaises
      case Some(c) => if c == map[] then NoContact else One(c)
  }

  /** A body of two entries, one of them null, gives a list of one contact,
      not the contact itself. */
  lemma SearchByEmailListOfOne(h: map<string, Value>)
    ensures ShapeSearchByEmail(Arr([Nil, Hash(h)])) == Many([h])
  {
    var items := [Nil, Hash(h)];
    assert items[..1] == [Nil];
    assert [Nil][..0] == [];
    assert Compact([Nil]) == [];
    assert Compact(items) == [Hash(h)];
  }

  /** A lone `false` gives an empty contact, and so nil. */
  lemma SearchByEmailLoneFalse()
    ensures ShapeSearchByEmail(Arr([Bool(false)])) == NoContact
  {
  }

  /** What `create` and `update_score` return: the contact when there is a
      response and its status is 200, nil otherwise. */
  datatype CreateResult = Created(contact: map<string, Value>) | NotCreated | CreateRaises

  function ShapeCreated(resp: Option<Response>): (r: CreateResult)
    ensures r.NotCreated? <==> !(resp.Some? && resp.value.status == 200)
    ensures r.Created? ==> NewContact(resp.value.body) == Some(r.contact)
    ensures r.CreateRaises? <==> resp.Some? && resp.value.status == 200 && NewContact(resp.value.body).None?
  {
    if resp.Some? && resp.value.status == 200 then
      match NewContact(resp.value.body)
      case Some(c) => Created(c)
      case None => CreateRaises
    else NotCreated
  }
}
