/** The subscriber's in-memory stand-in for Redis: a map from keys to
    values, where a value is a list of strings or a scalar, with pushes at
    either end of a list, a pop from the first non-empty list among several
    keys, and set, get, delete and clear. */
module RedisClient {
  import opened Common

  /** A stored value: a list (`[]interface{}` in the source) or anything
      else, kept as its text. */
  datatype Value = List(items: seq<string>) | Scalar(text: string)

  datatype StoreError =
    | NotAList(key: string)   // "value at key <key> is not a list"
    | Timeout                 // "timeout"
    | KeyNotFound             // "key not found"

  /** The key holds something that is not a list; pushes refuse it. */
  predicate HoldsScalar(d: map<string, Value>, key: string)
  {
    key in d && d[key].Scalar?
  }

  /** The list at a key; an absent key is an empty list. */
  function Items(d: map<string, Value>, key: string): seq<string>
  {
    if key in d && d[key].List? then d[key].items else []
  }

  /** A pop can take from the key: it holds a non-empty list. */
  predicate Ready(d: map<string, Value>, key: string)
  {
    key in d && d[key].List? && d[key].items != []
  }

  /** The position of the first key a pop can take from, or the number of
      keys when there is none. */
  function FirstReady(d: map<string, Value>, keys: seq<string>): (i: nat)
    ensures i <= |keys|
    ensures forall k :: 0 <= k < i ==> !Ready(d, keys[k])
    ensures i < |keys| ==> Ready(d, keys[i])
  {
    if keys == [] || Ready(d, keys[0]) then 0 else 1 + FirstReady(d, keys[1..])
  }

  /** The outcome of a pop over `keys`: the key and the head it removes, and
      the store after it; a timeout leaves the store as it was. */
  function Popped(d: map<string, Value>, keys: seq<string>): (r: (Result<seq<string>, StoreError>, map<string, Value>))
    ensures r.1.Keys == d.Keys
    ensures r.0.Err? <==> forall k :: 0 <= k < |keys| ==> !Ready(d, keys[k])
    ensures r.0.Err? ==> r.0.error == Timeout && r.1 == d
    ensures r.0.Ok? ==> |r.0.value| == 2
    ensures r.0.Ok? ==> FirstReady(d, keys) < |keys| && r.0.value[0] == keys[FirstReady(d, keys)]
    ensures r.0.Ok? ==>
      var key := r.0.value[0];
      && key in keys && Ready(d, key)
      && r.0.value[1] == d[key].items[0]
      && r.1[key] == List(d[key].items[1..])
      && forall k :: k in d && k != key ==> r.1[k] == d[k]
  {
    var i := FirstReady(d, keys);
    if i == |keys| then (Err(Timeout), d)
    else (Ok([keys[i], d[keys[i]].items[0]]), d[keys[i] := List(d[keys[i]].items[1..])])
  }

  /** The sequence reversed. */
  function Reversed(s: seq<string>): (r: seq<string>)
    ensures |r| == |s|
    ensures forall i :: 0 <= i < |s| ==> r[i] == s[|s| - 1 - i]
  {
    if s == [] then [] else Reversed(s[1..]) + [s[0]]
  }

  /** Reversing twice gives the sequence back. */
  lemma ReversedInvolution(s: seq<string>)
    ensures Reversed(Reversed(s)) == s
  {
    var r := Reversed(Reversed(s));
    assert |r| == |s|;
    forall i | 0 <= i < |s| ensures r[i] == s[i] {
      assert r[i] == Reversed(s)[|s| - 1 - i];
    }
  }

  /** reverse: swap the ends in place, moving inwards. */
  method Reverse(a: array<string>)
    modifies a
    ensures a[..] == Reversed(old(a[..]))
  {
    var i, j := 0, a.Length - 1;
    while i < j
      invariant 0 <= i && j == a.Length - 1 - i && i <= j + 1
      invariant forall k :: 0 <= k < i ==> a[k] == old(a[a.Length - 1 - k]) && a[a.Length - 1 - k] == old(a[k])
      invariant forall k :: i <= k <= j ==> a[k] == old(a[k])
    {
      a[i], a[j] := a[j], a[i];
      i, j := i + 1, j - 1;
    }
    assert forall k :: 0 <= k < a.Length ==> a[k] == old(a[..])[a.Length - 1 - k];
  }

  /** The first n keys a delete names, as a set. */
  function KeysUpTo(keys: seq<string>, n: nat): set<string>
    requires n <= |keys|
  {
    if n == 0 then {} else KeysUpTo(keys, n - 1) + {keys[n - 1]}
  }

  /** The set of keys a delete names. */
  function KeySet(keys: seq<string>): set<string>
  {
    KeysUpTo(keys, |keys|)
  }

  lemma {:induction false} KeysUpToMembers(keys: seq<string>, n: nat)
    requires n <= |keys|
    ensures forall k :: k in KeysUpTo(keys, n) <==> k in keys[..n]
  {
    if n > 0 {
      KeysUpToMembers(keys, n - 1);
      assert keys[..n] == keys[..n - 1] + [keys[n - 1]];
    }
  }

  /** A key is in the set exactly when the list names it. */
  lemma KeySetMembers(keys: seq<string>)
    ensures forall k :: k in KeySet(keys) <==> k in keys
  {
    KeysUpToMembers(keys, |keys|);
    assert keys[..|keys|] == keys;
  }

  /** fmt's "%v" rendering of a value: a list as its items between brackets,
      separated by spaces. */
  function Render(v: Value): string
  {
    match v
    case Scalar(text) => text
    case List(items) => "[" + SpaceSeparated(items) + "]"
  }

  function SpaceSeparated(items: seq<string>): string
  {
    if items == [] then ""
    else if |items| == 1 then items[0]
    else items[0] + " " + SpaceSeparated(items[1..])
  }

  /** A pop right after an LPush takes the first value pushed and leaves
      the store as if only the others had been pushed. */
  lemma PopAfterLPush(d: map<string, Value>, key: string, values: seq<string>)
    requires !HoldsScalar(d, key) && values != []
    ensures Popped(d[key := List(values + Items(d, key))], [key]) ==
      (Ok([key, values[0]]), d[key := List(values[1..] + Items(d, key))])
  {
    var pushed := d[key := List(values + Items(d, key))];
    assert Ready(pushed, [key][0]) && FirstReady(pushed, [key]) == 0;
    assert (values + Items(d, key))[0] == values[0];
    assert (values + Items(d, key))[1..] == values[1..] + Items(d, key);
    assert Popped(pushed, [key]).0 == Ok([key, values[0]]);
    assert pushed[key := List(values[1..] + Items(d, key))] == d[key := List(values[1..] + Items(d, key))];
  }

  /** RPush adds at the tail: on a non-empty list, popping then pushing and
      pushing then popping give the same reply and the same store, so the
      list is a queue. */
  lemma PopCommutesWithRPush(d: map<string, Value>, key: string, values: seq<string>)
    requires Ready(d, key)
    ensures var popped := Popped(d, [key]);
      Popped(d[key := List(Items(d, key) + values)], [key]) ==
        (popped.0, popped.1[key := List(Items(popped.1, key) + values)])
  {
    var pushed := d[key := List(Items(d, key) + values)];
    assert Ready(pushed, [key][0]) && Ready(d, [key][0]);
    assert FirstReady(pushed, [key]) == 0 && FirstReady(d, [key]) == 0;
    assert (Items(d, key) + values)[0] == Items(d, key)[0];
    assert (Items(d, key) + values)[1..] == Items(d, key)[1..] + values;
    var popped := Popped(d, [key]);
    assert popped.1 == d[key := List(Items(d, key)[1..])];
    assert Items(popped.1, key) == Items(d, key)[1..];
    assert Popped(pushed, [key]).1 == pushed[key := List(Items(d, key)[1..] + values)];
    assert pushed[key := List(Items(d, key)[1..] + values)] == popped.1[key := List(Items(d, key)[1..] + values)];
  }

  /** BRPop, a pop over the keys reversed, takes from the LAST key of the
      caller's order that holds a non-empty list, and still takes that
      list's head. */
  lemma BRPopTakesLastReady(d: map<string, Value>, keys: seq<string>)
    requires exists k :: 0 <= k < |keys| && Ready(d, keys[k])
    ensures var j := |keys| - 1 - FirstReady(d, Reversed(keys));
      && 0 <= j < |keys| && Ready(d, keys[j])
      && (forall k :: j < k < |keys| ==> !Ready(d, keys[k]))
      && Popped(d, Reversed(keys)).0 == Ok([keys[j], d[keys[j]].items[0]])
  {
    var rev := Reversed(keys);
    var k :| 0 <= k < |keys| && Ready(d, keys[k]);
    assert rev[|keys| - 1 - k] == keys[k];
    var i := FirstReady(d, rev);
    var j := |keys| - 1 - i;
    assert rev[i] == keys[j];
    forall m | j < m < |keys| ensures !Ready(d, keys[m]) {
      assert rev[|keys| - 1 - m] == keys[m];
    }
  }

  /** The store after Del has handled the first n keys, deleting each one
      that is still present. */
  function Left<V>(d: map<string, V>, keys: seq<string>, n: nat): map<string, V>
    requires n <= |keys|
  {
    if n == 0 then d
    else
      var left := Left(d, keys, n - 1);
      if keys[n - 1] in left then left - {keys[n - 1]} else left
  }

  /** How many of the first n keys are in `present` and not named earlier. */
  function Gone(present: set<string>, keys: seq<string>, n: nat): nat
    requires n <= |keys|
  {
    if n == 0 then 0
    else Gone(present, keys, n - 1) + if keys[n - 1] in present && keys[n - 1] !in KeysUpTo(keys, n - 1) then 1 else 0
  }

  /** A key is left exactly when the store held it and no handled key names it. */
  lemma {:induction false} LeftMember<V>(d: map<string, V>, keys: seq<string>, n: nat, k: string)
    requires n <= |keys|
    ensures k in Left(d, keys, n) <==> k in d && k !in KeysUpTo(keys, n)
  {
    if n > 0 {
      LeftMember(d, keys, n - 1, k);
    }
  }

  lemma {:induction false} LeftMembers<V>(d: map<string, V>, keys: seq<string>, n: nat)
    requires n <= |keys|
    ensures forall k :: k in Left(d, keys, n) <==> k in d && k !in KeysUpTo(keys, n)
    ensures forall k :: k in Left(d, keys, n) ==> Left(d, keys, n)[k] == d[k]
  {
    if n > 0 {
      LeftMembers(d, keys, n - 1);
    }
  }

  /** Deleting the keys one at a time removes exactly the keys named. */
  lemma LeftIsSubtract<V>(d: map<string, V>, keys: seq<string>, n: nat)
    requires n <= |keys|
    ensures Left(d, keys, n) == d - KeysUpTo(keys, n)
  {
    LeftMembers(d, keys, n);
  }

  lemma CountOne(present: set<string>, s: set<string>, x: string)
    requires x in present && x !in s
    ensures |present * (s + {x})| == |present * s| + 1
  {
    assert present * (s + {x}) == (present * s) + {x};
  }

  lemma CountNone(present: set<string>, s: set<string>, x: string)
    requires x !in present || x in s
    ensures present * (s + {x}) == present * s
  {
  }

  /** The count is the number of distinct named keys that were present. */
  lemma {:induction false} GoneIsCount(present: set<string>, keys: seq<string>, n: nat)
    requires n <= |keys|
    ensures Gone(present, keys, n) == |present * KeysUpTo(keys, n)|
    ensures Gone(present, keys, n) <= n
  {
    if n > 0 {
      GoneIsCount(present, keys, n - 1);
      var s, x := KeysUpTo(keys, n - 1), keys[n - 1];
      if x in present && x !in s {
        CountOne(present, s, x);
      } else {
        CountNone(present, s, x);
      }
    }
  }

  /** Del's loop over the keys: drop each one still present and count it. */
  method DeleteKeys<V>(d: map<string, V>, keys: seq<string>) returns (remaining: map<string, V>, deleted: nat)
    ensures remaining == d - KeySet(keys)
    ensures deleted == |d.Keys * KeySet(keys)|
    ensures deleted <= |keys|
  {
    remaining, deleted := d, 0;
    for i := 0 to |keys|
      invariant remaining == Left(d, keys, i)
      invariant deleted == Gone(d.Keys, keys, i)
    {
      var key := keys[i];
      LeftMember(d, keys, i, key);
      if key in remaining {
        remaining := remaining - {key};
        deleted := deleted + 1;
      }
    }
    LeftIsSubtract(d, keys, |keys|);
    GoneIsCount(d.Keys, keys, |keys|);
  }

  /** A key named twice is deleted and counted once; an absent key is not
      counted. */
  lemma DelCountsDistinctPresentKeys(v: Value)
    ensures var d := map["a" := v];
      && d - KeySet(["a", "a", "b"]) == map[]
      && |d.Keys * KeySet(["a", "a", "b"])| == 1
  {
    var d := map["a" := v];
    KeySetMembers(["a", "a", "b"]);
    assert KeySet(["a", "a", "b"]) == {"a", "b"};
    assert d.Keys * {"a", "b"} == {"a"};
  }

  class MockRedis {
    var data: map<string, Value>

    constructor()
      ensures data == map[]
    {
      data := map[];
    }

    /** LPush: on an absent key, start an empty list; on a list, put
        `values`, in argument order, in front of it; refuse a scalar. */
    method LPush(key: string, values: seq<string>) returns (err: Option<StoreError>)
      modifies this
      ensures HoldsScalar(old(data), key) ==> err == Some(NotAList(key)) && data == old(data)
      ensures !HoldsScalar(old(data), key) ==>
        err.None? && data == old(data)[key := List(values + Items(old(data), key))]
    {
      if key !in data {
        data := data[key := List([])];
      }
      if data[key].Scalar? {
        return Some(NotAList(key));
      }
      data := data[key := List(values + data[key].items)];
      return None;
    }

    /** RPush: as LPush, but `values` go after the list's items. */
    method RPush(key: string, values: seq<string>) returns (err: Option<StoreError>)
      modifies this
      ensures HoldsScalar(old(data), key) ==> err == Some(NotAList(key)) && data == old(data)
      ensures !HoldsScalar(old(data), key) ==>
        err.None? && data == old(data)[key := List(Items(old(data), key) + values)]
    {
      if key !in data {
        data := data[key := List([])];
      }
      if data[key].Scalar? {
        return Some(NotAList(key));
      }
      data := data[key := List(data[key].items + values)];
      return None;
    }

    /** BLPop, one pass over the keys in order: pop the head of the first
        non-empty list and return the key with it; scalars and empty lists
        are passed over. With nothing to pop every later pass sees the same
        store, so the wait ends in a timeout. */
    method BLPop(keys: seq<string>) returns (r: Result<seq<string>, StoreError>)
      modifies this
      ensures (r, data) == Popped(old(data), keys)
    {
      for i := 0 to |keys|
        invariant forall k :: 0 <= k < i ==> !Ready(data, keys[k])
        invariant data == old(data)
      {
        var key := keys[i];
        if key in data && data[key].List? && data[key].items != [] {
          var list := data[key].items;
          data := data[key := List(list[1..])];
          return Ok([key, list[0]]);
        }
      }
      return Err(Timeout);
    }

    /** BRPop: reverse the caller's keys in place, then BLPop over them; it
        still pops the head of the list it picks. */
    method BRPop(keys: array<string>) returns (r: Result<seq<string>, StoreError>)
      modifies this, keys
      ensures keys[..] == Reversed(old(keys[..]))
      ensures (r, data) == Popped(old(data), Reversed(old(keys[..])))
    {
      Reverse(keys);
      r := BLPop(keys[..]);
    }

    /** Set: the key holds `value` from now on, whatever it held before. */
    method Set(key: string, value: Value)
      modifies this
      ensures data == old(data)[key := value]
      ensures forall k :: k != key ==> (k in data <==> k in old(data))
    {
      data := data[key := value];
    }

    /** Get: the rendered value of a present key, an error for an absent one. */
    method Get(key: string) returns (r: Result<string, StoreError>)
      ensures key in data ==> r == Ok(Render(data[key]))
      ensures key !in data ==> r == Err(KeyNotFound)
    {
      if key in data {
        return Ok(Render(data[key]));
      }
      return Err(KeyNotFound);
    }

    /** Del: remove each named key, counting those that were present; a key
        named twice or absent is not counted. */
    method Del(keys: seq<string>) returns (deleted: nat)
      modifies this
      ensures data == old(data) - KeySet(keys)
      ensures deleted == |old(data).Keys * KeySet(keys)|
    {
      var remaining;
      remaining, deleted := DeleteKeys(data, keys);
      data := remaining;
    }

    /** Clear: the store is empty. */
    method Clear()
      modifies this
      ensures data == map[]
    {
      data := map[];
    }
  }
}
