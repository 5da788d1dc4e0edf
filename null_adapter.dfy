/** NullAdapter: the in-process engine. Its only state is the map $data from
    key to a record of the value and its absolute expiry. */
module NullCache {
  import opened CacheTypes
  import opened KeyValidation

  /** One slot of $data: ['value' => ..., 'expire_at' => ...]; None is null. */
  datatype Record = Record(value: Value, expireAt: Option<int>)

  /** set's expiry: a null ttl never expires, any other ttl (zero and negative
      included) expires at now + ttl. */
  function ExpireAt(ttl: Option<int>, now: int): (e: Option<int>)
    ensures e.None? <==> ttl.None?
    ensures e.Some? ==> e.value - now == ttl.value
  {
    if ttl.None? then None else Some(now + ttl.value)
  }

  /** The freshness test get and has share, `!expire_at || expire_at >= time()`:
      a null expiry and an expiry of 0 (falsy in PHP) never expire; otherwise
      the entry is fresh up to and including its expiry second. */
  function IsFresh(rec: Record, now: int): (live: bool)
    ensures rec.expireAt.None? ==> live
    ensures rec.expireAt == Some(0) ==> live
    ensures rec.expireAt.Some? && rec.expireAt.value != 0 ==> (live <==> now <= rec.expireAt.value)
  {
    rec.expireAt.None? || rec.expireAt.value == 0 || rec.expireAt.value >= now
  }

  /** What get returns for `key` at time `now`. */
  function Lookup(data: map<string, Record>, key: string, default: Value, now: int): (r: Result<Value>)
    ensures r.Err? <==> !ValidKey(key)
    ensures r.Err? ==> r.error == KeyError(key)
    ensures r.Ok? ==> r.value == default || (key in data && r.value == data[key].value)
  {
    if !ValidKey(key) then Err(KeyError(key))
    else if key in data && IsFresh(data[key], now) then Ok(data[key].value)
    else Ok(default)
  }

  /** What has returns for `key` at time `now`. */
  function Probe(data: map<string, Record>, key: string, now: int): (r: Result<bool>)
    ensures r.Err? <==> !ValidKey(key)
    ensures r.Err? ==> r.error == KeyError(key)
  {
    if !ValidKey(key) then Err(KeyError(key))
    else Ok(key in data && IsFresh(data[key], now))
  }

  /** $data after set($key, $value, $ttl) at time `now`. */
  function Store(data: map<string, Record>, key: string, value: Value, ttl: Option<int>, now: int): (d: map<string, Record>)
    ensures key in d && d[key].value == value && d[key].expireAt == ExpireAt(ttl, now)
    ensures d.Keys == data.Keys + {key}
    ensures forall k | k in data && k != key :: d[k] == data[k]
  {
    data[key := Record(value, ExpireAt(ttl, now))]
  }

  /** $data after setting every pair of `values` in order. */
  function StoreSeq(data: map<string, Record>, values: seq<(string, Value)>, ttl: Option<int>, now: int): (d: map<string, Record>)
    ensures data.Keys <= d.Keys
  {
    if values == [] then data
    else
      var last := values[|values| - 1];
      Store(StoreSeq(data, values[..|values| - 1], ttl, now), last.0, last.1, ttl, now)
  }

  /** One more pair of setMultiple: the fold over the longer prefix is one
      more store on the fold over the shorter one. */
  lemma StoreStep(data: map<string, Record>, values: seq<(string, Value)>, i: nat, ttl: Option<int>, now: int)
    requires i < |values|
    ensures StoreSeq(data, values[..i + 1], ttl, now) == Store(StoreSeq(data, values[..i], ttl, now), values[i].0, values[i].1, ttl, now)
  {
    assert values[..i + 1][..i] == values[..i];
  }

  function KeysOf(values: seq<(string, Value)>): (keys: seq<string>)
    ensures |keys| == |values|
    ensures forall i | 0 <= i < |values| :: keys[i] == values[i].0
  {
    if values == [] then [] else [values[0].0] + KeysOf(values[1..])
  }

  class NullAdapter {
    var data: map<string, Record>

    constructor ()
      ensures data == map[]
    {
      data := map[];
    }

    /** get: reads $data only; an expired record stays stored. */
    method Get(key: string, default: Value, now: int) returns (r: Result<Value>)
      ensures r == Lookup(data, key, default, now)
    {
      var fault := CheckKey(key);
      if fault.Some? {
        return Err(InvalidArgument(fault.value));
      }
      if key in data && IsFresh(data[key], now) {
        return Ok(data[key].value);
      }
      return Ok(default);
    }

    /** set: replaces the record for `key` and nothing else; always true. */
    method Set(key: string, value: Value, ttl: Option<int>, now: int) returns (r: Result<bool>)
      modifies this
      ensures ValidKey(key) ==> r == Ok(true) && data == Store(old(data), key, value, ttl, now)
      ensures !ValidKey(key) ==> r == Err(KeyError(key)) && data == old(data)
    {
      var fault := CheckKey(key);
      if fault.Some? {
        return Err(InvalidArgument(fault.value));
      }
      data := data[key := Record(value, ExpireAt(ttl, now))];
      return Ok(true);
    }

    /** delete: drops the record for `key`, present or not; always true. */
    method Delete(key: string) returns (r: Result<bool>)
      modifies this
      ensures ValidKey(key) ==> r == Ok(true) && data == old(data) - {key}
      ensures !ValidKey(key) ==> r == Err(KeyError(key)) && data == old(data)
    {
      var fault := CheckKey(key);
      if fault.Some? {
        return Err(InvalidArgument(fault.value));
      }
      data := data - {key};
      return Ok(true);
    }

    /** clear: empties $data without validating anything; always true. */
    method Clear() returns (r: bool)
      modifies this
      ensures r && data == map[]
    {
      data := map[];
      return true;
    }

    /** has: the freshness test of get, as a boolean; reads $data only. */
    method Has(key: string, now: int) returns (r: Result<bool>)
      ensures r == Probe(data, key, now)
      ensures r == Ok(true) ==> key in data && Lookup(data, key, Null, now) == Ok(data[key].value)
    {
      var fault := CheckKey(key);
      if fault.Some? {
        return Err(InvalidArgument(fault.value));
      }
      if key in data && IsFresh(data[key], now) {
        return Ok(true);
      }
      return Ok(false);
    }

    /** getMultiple run to its end: one get per key in input order, until the
        first refused key throws. */
    method GetMultiple(keys: seq<string>, default: Value, now: int) returns (y: Yielded)
      ensures |y.pairs| == FirstInvalid(keys)
      ensures forall i | 0 <= i < |y.pairs| ::
        y.pairs[i] == (keys[i], Lookup(data, keys[i], default, now).value)
      ensures y.thrown.None? <==> FirstInvalid(keys) == |keys|
      ensures y.thrown.Some? ==> y.thrown.value == KeyError(keys[|y.pairs|])
    {
      var pairs: seq<(string, Value)> := [];
      var i := 0;
      while i < |keys|
        invariant i <= FirstInvalid(keys)
        invariant |pairs| == i
        invariant forall j | 0 <= j < i :: pairs[j] == (keys[j], Lookup(data, keys[j], default, now).value)
      {
        var r := Get(keys[i], default, now);
        if r.Err? {
          return Yielded(pairs, Some(r.error));
        }
        pairs := pairs + [(keys[i], r.value)];
        i := i + 1;
      }
      return Yielded(pairs, None);
    }

    /** setMultiple: set for each pair in order; the first refused key throws
        and the records written before it stay. */
    method SetMultiple(values: seq<(string, Value)>, ttl: Option<int>, now: int) returns (r: Result<bool>)
      modifies this
      ensures var n := FirstInvalid(KeysOf(values));
        data == StoreSeq(old(data), values[..n], ttl, now) &&
        r == if n < |values| then Err(KeyError(values[n].0)) else Ok(true)
    {
      ghost var keys := KeysOf(values);
      var i := 0;
      while i < |values|
        invariant i <= FirstInvalid(keys)
        invariant data == StoreSeq(old(data), values[..i], ttl, now)
      {
        assert keys[i] == values[i].0;
        var ok := Set(values[i].0, values[i].1, ttl, now);
        if ok.Err? {
          assert i == FirstInvalid(keys);
          return ok;
        }
        // set never returns false here, so the early `return false` is dead
        StoreStep(old(data), values, i, ttl, now);
        i := i + 1;
      }
      assert values[..i] == values;
      return Ok(true);
    }

    /** deleteMultiple: delete for each key in order; the first refused key
        throws and the deletions before it stay. */
    method DeleteMultiple(keys: seq<string>) returns (r: Result<bool>)
      modifies this
      ensures var n := FirstInvalid(keys);
        data == old(data) - (set k | k in keys[..n]) &&
        r == if n < |keys| then Err(KeyError(keys[n])) else Ok(true)
    {
      var i := 0;
      while i < |keys|
        invariant i <= FirstInvalid(keys)
        invariant data == old(data) - (set k | k in keys[..i])
      {
        var ok := Delete(keys[i]);
        if ok.Err? {
          return ok;
        }
        // delete never returns false here, so the early `return false` is dead
        assert keys[..i + 1] == keys[..i] + [keys[i]];
        i := i + 1;
      }
      assert keys[..i] == keys;
      return Ok(true);
    }
  }

  /** set without a ttl: get returns the value at every later time, and has is true. */
  lemma SetWithoutTtlNeverExpires(data: map<string, Record>, key: string, value: Value, t: int, now: int, default: Value)
    requires ValidKey(key)
    ensures Lookup(Store(data, key, value, None, t), key, default, now) == Ok(value)
    ensures Probe(Store(data, key, value, None, t), key, now) == Ok(true)
  {
  }

  /** set with ttl d at time t: get and has at time now see the value iff
      t + d >= now, except that an expiry of exactly 0 never expires. */
  lemma SetWithTtlExpires(data: map<string, Record>, key: string, value: Value, d: int, t: int, now: int, default: Value)
    requires ValidKey(key)
    ensures var live := t + d >= now || t + d == 0;
      Lookup(Store(data, key, value, Some(d), t), key, default, now) == Ok(if live then value else default) &&
      Probe(Store(data, key, value, Some(d), t), key, now) == Ok(live)
  {
  }

  /** ttl 0 gives expire_at == now: still fresh during that same second,
      gone one second later (when now is not 0). */
  lemma ZeroTtlLastsOneSecond(data: map<string, Record>, key: string, value: Value, now: int, default: Value)
    requires ValidKey(key) && now != 0 && now + 1 != 0
    ensures Lookup(Store(data, key, value, Some(0), now), key, default, now) == Ok(value)
    ensures Lookup(Store(data, key, value, Some(0), now), key, default, now + 1) == Ok(default)
  {
  }

  /** An expiry that lands exactly on 0 (ttl == -now) is falsy, so the
      record never expires, however late get is called. */
  lemma ZeroExpiryNeverExpires(data: map<string, Record>, key: string, value: Value, t: int, now: int, default: Value)
    requires ValidKey(key)
    ensures Lookup(Store(data, key, value, Some(-t), t), key, default, now) == Ok(value)
  {
  }

  /** set touches no other key: get and has on every other key are unchanged. */
  lemma SetLeavesOtherKeys(data: map<string, Record>, key: string, value: Value, ttl: Option<int>, t: int,
                           other: string, default: Value, now: int)
    requires other != key
    ensures Lookup(Store(data, key, value, ttl, t), other, default, now) == Lookup(data, other, default, now)
    ensures Probe(Store(data, key, value, ttl, t), other, now) == Probe(data, other, now)
  {
  }

  /** After delete (of a present or absent key) get misses and has is false;
      other keys are unaffected. */
  lemma DeleteThenMiss(data: map<string, Record>, key: string, other: string, default: Value, now: int)
    requires ValidKey(key) && other != key
    ensures Lookup(data - {key}, key, default, now) == Ok(default)
    ensures Probe(data - {key}, key, now) == Ok(false)
    ensures Lookup(data - {key}, other, default, now) == Lookup(data, other, default, now)
  {
  }

  /** has agrees with get: true exactly when get returns the stored value
      rather than the default. */
  lemma HasAgreesWithGet(data: map<string, Record>, key: string, default: Value, now: int)
    requires ValidKey(key)
    ensures Probe(data, key, now) == Ok(true) <==> key in data && Lookup(data, key, default, now) == Ok(data[key].value) && IsFresh(data[key], now)
    ensures Probe(data, key, now) == Ok(false) ==> Lookup(data, key, default, now) == Ok(default)
  {
  }

  /** After setting pairs with distinct keys, each key holds its own pair's
      value. */
  lemma {:induction false} StoreSeqHolds(data: map<string, Record>, values: seq<(string, Value)>, ttl: Option<int>, now: int, i: nat)
    requires i < |values|
    requires forall p, q | 0 <= p < q < |values| :: values[p].0 != values[q].0
    ensures values[i].0 in StoreSeq(data, values, ttl, now)
    ensures StoreSeq(data, values, ttl, now)[values[i].0] == Record(values[i].1, ExpireAt(ttl, now))
  {
    if i < |values| - 1 {
      var init := values[..|values| - 1];
      StoreSeqHolds(data, init, ttl, now, i);
      assert values[i].0 != values[|values| - 1].0;
    }
  }

  /** Setting pairs leaves every key that none of them names untouched. */
  lemma {:induction false} StoreSeqKeeps(data: map<string, Record>, values: seq<(string, Value)>, ttl: Option<int>, now: int, k: string)
    requires forall i | 0 <= i < |values| :: values[i].0 != k
    ensures k in StoreSeq(data, values, ttl, now) <==> k in data
    ensures k in data ==> StoreSeq(data, values, ttl, now)[k] == data[k]
  {
    if values != [] {
      StoreSeqKeeps(data, values[..|values| - 1], ttl, now, k);
    }
  }

  /** setMultiple then getMultiple: with distinct valid keys and no ttl, every
      key reads back the value it was given, at any later time. */
  lemma SetMultipleThenGet(data: map<string, Record>, values: seq<(string, Value)>, t: int, now: int, default: Value)
    requires forall i | 0 <= i < |values| :: ValidKey(values[i].0)
    requires forall i, j | 0 <= i < j < |values| :: values[i].0 != values[j].0
    ensures FirstInvalid(KeysOf(values)) == |values|
    ensures forall i | 0 <= i < |values| ::
      Lookup(StoreSeq(data, values, None, t), values[i].0, default, now) == Ok(values[i].1)
  {
    forall i | 0 <= i < |values|
      ensures Lookup(StoreSeq(data, values, None, t), values[i].0, default, now) == Ok(values[i].1)
    {
      StoreSeqHolds(data, values, None, t, i);
    }
  }

  /** clear then has: no key is present in the emptied map. */
  lemma ClearThenMiss(key: string, now: int)
    requires ValidKey(key)
    ensures Probe(map[], key, now) == Ok(false)
  {
  }
}
