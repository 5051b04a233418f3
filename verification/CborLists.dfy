/** Runs of CBOR items of one kind: the loops every encoder and decoder here shares. */
module CborLists {
  import opened Bytes
  import opened Results

  /** Items in front of `rest`. */
  function PutAll<T>(put: (T, Bytes) -> Bytes, items: seq<T>, rest: Bytes): Bytes {
    if items == [] then rest else put(items[0], PutAll(put, items[1..], rest))
  }

  /** `count` items off the front of `s`, or the first error. */
  function GetAll<T, E>(get: Bytes -> Result<(T, Bytes), E>, count: nat, s: Bytes): Result<(seq<T>, Bytes), E> {
    if count == 0 then Ok(([], s))
    else
      match get(s)
      case Err(error) => Err(error)
      case Ok((item, rest)) =>
        match GetAll(get, count - 1, rest)
        case Err(error) => Err(error)
        case Ok((items, after)) => Ok(([item] + items, after))
  }

  /** What `put` wrote is followed by the rest, untouched. */
  ghost predicate Prepends<T(!new)>(put: (T, Bytes) -> Bytes) {
    forall item, rest :: put(item, rest) == put(item, []) + rest
  }

  /** `get` takes off exactly what `put` put in front. */
  ghost predicate Inverts<T, E>(get: Bytes -> Result<(T, Bytes), E>, put: (T, Bytes) -> Bytes, item: T) {
    forall rest :: get(put(item, rest)) == Ok((item, rest))
  }

  lemma {:induction false} AllRoundTrip<T, E>(
      get: Bytes -> Result<(T, Bytes), E>, put: (T, Bytes) -> Bytes, items: seq<T>, rest: Bytes)
    requires forall item :: item in items ==> Inverts(get, put, item)
    ensures GetAll(get, |items|, PutAll(put, items, rest)) == Ok((items, rest))
    decreases |items|
  {
    if items != [] {
      AllRoundTrip(get, put, items[1..], rest);
      assert items[0] in items;
      assert get(put(items[0], PutAll(put, items[1..], rest))) == Ok((items[0], PutAll(put, items[1..], rest)));
      assert items == [items[0]] + items[1..];
    }
  }

  /** The encoder's loop. */
  method WriteAll<T(!new)>(put: (T, Bytes) -> Bytes, items: seq<T>, start: Bytes) returns (out: Bytes)
    requires Prepends(put)
    ensures out == start + PutAll(put, items, [])
  {
    out := start;
    assert items[0..] == items;
    for k := 0 to |items|
      invariant start + PutAll(put, items, []) == out + PutAll(put, items[k..], [])
    {
      PutAllStep(put, items, k);
      out := out + put(items[k], []);
    }
  }

  lemma PutAllStep<T(!new)>(put: (T, Bytes) -> Bytes, items: seq<T>, k: nat)
    requires Prepends(put) && k < |items|
    ensures PutAll(put, items[k..], []) == put(items[k], []) + PutAll(put, items[k + 1..], [])
  {
    assert items[k..][1..] == items[k + 1..];
  }

  /** The decoder's loop. */
  method ReadAll<T, E>(get: Bytes -> Result<(T, Bytes), E>, count: nat, s: Bytes)
    returns (result: Result<(seq<T>, Bytes), E>)
    ensures result == GetAll(get, count, s)
  {
    var items: seq<T>, rest := [], s;
    FollowingNothing(GetAll(get, count, s));
    for k := 0 to count
      invariant GetAll(get, count, s) == Following(items, GetAll(get, count - k, rest))
    {
      var next := get(rest);
      if next.Err? {
        return Err(next.error);
      }
      FollowingStep(items, next.value.0, GetAll(get, count - k - 1, next.value.1));
      items, rest := items + [next.value.0], next.value.1;
    }
    assert items + [] == items;
    return Ok((items, rest));
  }

  lemma FollowingNothing<T, E>(more: Result<(seq<T>, Bytes), E>)
    ensures Following([], more) == more
  {
    if more.Ok? {
      assert [] + more.value.0 == more.value.0;
    }
  }

  function Following<T, E>(items: seq<T>, more: Result<(seq<T>, Bytes), E>): Result<(seq<T>, Bytes), E> {
    match more
    case Err(error) => Err(error)
    case Ok((others, rest)) => Ok((items + others, rest))
  }

  lemma FollowingStep<T, E>(items: seq<T>, item: T, more: Result<(seq<T>, Bytes), E>)
    ensures Following(items, Following([item], more)) == Following(items + [item], more)
  {
    if more.Ok? {
      assert items + ([item] + more.value.0) == items + [item] + more.value.0;
    }
  }

  /** The number of items read is the number asked for, and each satisfies what `get` guarantees. */
  lemma {:induction false} AllSatisfy<T, E>(
      get: Bytes -> Result<(T, Bytes), E>, good: T -> bool, count: nat, s: Bytes)
    requires forall t :: get(t).Ok? ==> good(get(t).value.0)
    requires GetAll(get, count, s).Ok?
    ensures var items := GetAll(get, count, s).value.0;
            |items| == count && forall item :: item in items ==> good(item)
    decreases count
  {
    if count > 0 {
      AllSatisfy(get, good, count - 1, get(s).value.1);
    }
  }
}
