/** Decoded JSON / Ruby values as the Contact resource sees them, and small
    sequence facts shared by the other modules. */
module Json {

  datatype Option<+T> = None | Some(value: T)

  /** A JSON value as decoded by the transport, or a Ruby literal passed by a
      caller. Hash keys are strings: Ruby symbols are taken after `to_s`. */
  datatype Value =
    | Nil
    | Bool(b: bool)
    | Int(i: int)
    | Str(s: string)
    | Arr(items: seq<Value>)
    | Hash(entries: map<string, Value>)

  /** Ruby `h[k]` on a hash: a missing key reads as nil. */
  function Get(h: map<string, Value>, k: string): Value {
    if k in h then h[k] else Nil
  }

  /** `sub` is `s` with some elements removed, the rest kept in order. */
  predicate Subsequence<T(==)>(sub: seq<T>, s: seq<T>)
    decreases |s|
  {
    if sub == [] then true
    else if s == [] then false
    else if sub[|sub| - 1] == s[|s| - 1] then Subsequence(sub[..|sub| - 1], s[..|s| - 1])
    else Subsequence(sub, s[..|s| - 1])
  }

  lemma {:induction false} SubsequenceOfSelf<T>(s: seq<T>)
    ensures Subsequence(s, s)
  {
    if s != [] {
      SubsequenceOfSelf(s[..|s| - 1]);
    }
  }

  lemma {:induction false} SubsequenceMayDropLast<T>(sub: seq<T>, s: seq<T>)
    requires sub != [] && Subsequence(sub, s)
    ensures Subsequence(sub[..|sub| - 1], s)
    decreases |s|, 1
  {
    var init := sub[..|sub| - 1];
    if s != [] {
      if init == [] {
      } else if sub[|sub| - 1] == s[|s| - 1] {
        SubsequenceWeaken(init, s[..|s| - 1], s[|s| - 1]);
        assert s[..|s| - 1] + [s[|s| - 1]] == s;
      } else {
        SubsequenceMayDropLast(sub, s[..|s| - 1]);
        SubsequenceWeaken(init, s[..|s| - 1], s[|s| - 1]);
        assert s[..|s| - 1] + [s[|s| - 1]] == s;
      }
    }
  }

  lemma {:induction false} SubsequenceWeaken<T>(sub: seq<T>, s: seq<T>, x: T)
    requires Subsequence(sub, s)
    ensures Subsequence(sub, s + [x])
    decreases |s| + 1, 0
  {
    assert (s + [x])[..|s + [x]| - 1] == s;
    if sub != [] && sub[|sub| - 1] == x {
      SubsequenceMayDropLast(sub, s);
    }
  }
}
