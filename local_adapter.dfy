/** LocalAdapter: the filesystem engine. The cache directory is a map from
    child name to child; every key lives in a file named after it, holding the
    encoded entry. Filesystem calls are modelled on that map, and the directory's
    write permission decides whether creating and removing succeed. */
module LocalCache {
  import opened CacheTypes
  import opened KeyValidation
  import opened EntryCodec

  /** A child of the cache directory: a file, or a sub-directory that is empty or not. */
  datatype Child = File(content: Blob) | Dir(empty: bool)

  /** The stored ttl of an entry that never expires. */
  const Never: int := 9999999999

  /** set's stored ttl, `$ttl ? time() + $ttl : 9999999999`: null and 0 are
      falsy and mean never; any other ttl, negative included, is added to now. */
  function ExpiryStamp(ttl: Option<int>, now: int): (stamp: int)
    ensures ttl.None? || ttl == Some(0) ==> stamp == Never
    ensures ttl.Some? && ttl.value != 0 ==> stamp - now == ttl.value
  {
    if ttl.None? || ttl.value == 0 then Never else now + ttl.value
  }

  /** is_file: a regular file of that name, never a directory. */
  predicate IsFile(c: map<string, Child>, name: string): (f: bool)
    ensures f ==> name in c && !IsDir(c, name)
  {
    name in c && c[name].File?
  }

  /** is_dir: a sub-directory, empty or not, never a file. */
  predicate IsDir(c: map<string, Child>, name: string): (d: bool)
    ensures d ==> name in c && !c[name].File?
  {
    name in c && c[name].Dir?
  }

  /** What get and has find under `key` at time `now`. */
  datatype Observation =
    | Absent               // no regular file of that name
    | Unreadable           // the file does not decode to an entry
    | Expired              // its stored ttl is before now
    | Live(value: Value)   // its stored ttl is now or later

  function Inspect(c: map<string, Child>, key: string, now: int): (o: Observation)
    ensures o.Absent? <==> !IsFile(c, key)
    ensures o.Unreadable? <==> IsFile(c, key) && DecodeEntry(c[key].content).None?
    ensures o.Live? || o.Expired? ==> IsFile(c, key) && DecodeEntry(c[key].content).Some?
    ensures o.Expired? ==> DecodeEntry(c[key].content).value.ttl < now
    ensures o.Live? ==> DecodeEntry(c[key].content).value.ttl >= now && o.value == DecodeEntry(c[key].content).value.value
  {
    if !IsFile(c, key) then Absent
    else match DecodeEntry(c[key].content)
      case None => Unreadable
      case Some(e) => if e.ttl < now then Expired else Live(e.value)
  }

  /** The value get returns for a valid key: the stored value of a live entry,
      the default for anything else. */
  function ReadValue(c: map<string, Child>, key: string, default: Value, now: int): (v: Value)
    ensures IsFile(c, key) && DecodeEntry(c[key].content).Some? && now <= DecodeEntry(c[key].content).value.ttl ==>
      v == DecodeEntry(c[key].content).value.value
    ensures !(IsFile(c, key) && DecodeEntry(c[key].content).Some? && now <= DecodeEntry(c[key].content).value.ttl) ==>
      v == default
  {
    var o := Inspect(c, key, now);
    if o.Live? then o.value else default
  }

  /** The directory after get or has observed `key`: an expired file is
      deleted, which succeeds only in a writable directory. */
  function AfterRead(c: map<string, Child>, writable: bool, key: string, now: int): (after: map<string, Child>)
    ensures after.Keys <= c.Keys && forall name | name in after :: after[name] == c[name]
    ensures forall name | name in c && name != key :: name in after
    ensures key in c && key !in after <==> ValidKey(key) && writable && Inspect(c, key, now).Expired?
  {
    if ValidKey(key) && writable && Inspect(c, key, now).Expired? then c - {key} else c
  }

  /** The directory after get calls for `keys` in order. */
  function Reap(c: map<string, Child>, writable: bool, keys: seq<string>, now: int): (after: map<string, Child>)
    ensures after.Keys <= c.Keys
  {
    if writable then c - (set k | k in keys && ValidKey(k) && Inspect(c, k, now).Expired?) else c
  }

  /** What the gets of getMultiple remove: exactly the expired files of the
      valid keys, when the directory is writable; the rest stays as it was. */
  lemma ReapMembers(c: map<string, Child>, writable: bool, keys: seq<string>, now: int)
    ensures forall name | name in Reap(c, writable, keys, now) :: Reap(c, writable, keys, now)[name] == c[name]
    ensures forall name | name in c ::
      name !in Reap(c, writable, keys, now) <==> writable && name in keys && ValidKey(name) && Inspect(c, name, now).Expired?
  {
  }

  /** file_put_contents succeeds: the name is not taken by a sub-directory,
      and either the directory is writable (a new file can be created) or a
      file of that name exists (it is truncated and rewritten in place). */
  function CanWrite(c: map<string, Child>, writable: bool, name: string): (ok: bool)
    ensures IsDir(c, name) ==> !ok
    ensures IsFile(c, name) ==> ok
    ensures name !in c ==> ok == writable
  {
    !IsDir(c, name) && (writable || IsFile(c, name))
  }

  /** The directory after set wrote the entry for `key`. */
  function Written(c: map<string, Child>, key: string, value: Value, ttl: Option<int>, now: int): (after: map<string, Child>)
    ensures IsFile(after, key) && DecodeEntry(after[key].content) == Some(Entry(key, ExpiryStamp(ttl, now), value))
    ensures after.Keys == c.Keys + {key}
    ensures forall name | name in c && name != key :: after[name] == c[name]
  {
    DecodeEncodeEntry(Entry(key, ExpiryStamp(ttl, now), value));
    c[key := File(EncodeEntry(Entry(key, ExpiryStamp(ttl, now), value)))]
  }

  /** The directory after writing every pair of `values` in order. */
  function WriteSeq(c: map<string, Child>, values: seq<(string, Value)>, ttl: Option<int>, now: int): (after: map<string, Child>)
    ensures c.Keys <= after.Keys
  {
    if values == [] then c
    else
      var last := values[|values| - 1];
      Written(WriteSeq(c, values[..|values| - 1], ttl, now), last.0, last.1, ttl, now)
  }

  /** How far setMultiple gets: the first pair whose key is refused or whose
      file cannot be written, or |values|. */
  function FirstUnwritable(c: map<string, Child>, writable: bool, values: seq<(string, Value)>): (n: nat)
    ensures n <= |values|
    ensures forall i | 0 <= i < n :: ValidKey(values[i].0) && CanWrite(c, writable, values[i].0)
    ensures n < |values| ==> !ValidKey(values[n].0) || !CanWrite(c, writable, values[n].0)
  {
    if values == [] || !ValidKey(values[0].0) || !CanWrite(c, writable, values[0].0) then 0
    else 1 + FirstUnwritable(c, writable, values[1..])
  }

  /** How far deleteMultiple gets: the first key that is refused or names a
      file that cannot be unlinked, or |keys|. */
  function FirstUndeletable(c: map<string, Child>, writable: bool, keys: seq<string>): (n: nat)
    ensures n <= |keys|
    ensures forall i | 0 <= i < n :: ValidKey(keys[i]) && (writable || !IsFile(c, keys[i]))
    ensures n < |keys| ==> !ValidKey(keys[n]) || (!writable && IsFile(c, keys[n]))
  {
    if keys == [] || !ValidKey(keys[0]) || (!writable && IsFile(c, keys[0])) then 0
    else 1 + FirstUndeletable(c, writable, keys[1..])
  }

  /** A child clear can remove: unlink on a file, rmdir on an empty
      sub-directory, both only in a writable directory. */
  function Removable(c: map<string, Child>, writable: bool, name: string): (ok: bool)
    ensures ok ==> writable && name in c
    ensures IsDir(c, name) && !c[name].empty ==> !ok
    ensures writable && IsFile(c, name) ==> ok
    ensures writable && IsDir(c, name) && c[name].empty ==> ok
  {
    writable && name in c && (c[name].File? || c[name] == Dir(true))
  }

  /** The `.` and `..` entries clear skips: both pass key validation. */
  predicate IsDot(name: string): (d: bool)
    ensures d ==> ValidKey(name) && 1 <= |name| <= 2
  {
    name == "." || name == ".."
  }

  /** How far clear's walk gets: the first child that is not a dot entry and
      cannot be removed, or |names|. */
  function FirstUnremovable(c: map<string, Child>, writable: bool, names: seq<string>): (n: nat)
    ensures n <= |names|
    ensures forall i | 0 <= i < n :: IsDot(names[i]) || Removable(c, writable, names[i])
    ensures n < |names| ==> !IsDot(names[n]) && !Removable(c, writable, names[n])
  {
    if names == [] || (!IsDot(names[0]) && !Removable(c, writable, names[0])) then 0
    else 1 + FirstUnremovable(c, writable, names[1..])
  }

  /** Strict ascending order by character code, as strcmp orders names. */
  predicate Precedes(a: string, b: string): (p: bool)
    ensures p ==> a != b
  {
    if a == [] then b != []
    else b != [] && (a[0] < b[0] || (a[0] == b[0] && Precedes(a[1..], b[1..])))
  }

  lemma {:induction false} PrecedesIrreflexive(a: string)
    ensures !Precedes(a, a)
  {
    if a != [] {
      PrecedesIrreflexive(a[1..]);
    }
  }

  lemma {:induction false} PrecedesTransitive(a: string, b: string, d: string)
    requires Precedes(a, b) && Precedes(b, d)
    ensures Precedes(a, d)
  {
    if a != [] && a[0] == b[0] && b[0] == d[0] {
      PrecedesTransitive(a[1..], b[1..], d[1..]);
    }
  }

  /** Each name sorts strictly before the one after it. */
  predicate Ascending(names: seq<string>): (asc: bool)
    ensures asc && |names| >= 2 ==> names[0] != names[1]
  {
    |names| <= 1 || (Precedes(names[0], names[1]) && Ascending(names[1..]))
  }

  /** In an ascending sequence every earlier name sorts before every later one. */
  lemma {:induction false} AscendingPair(names: seq<string>, i: nat, j: nat)
    requires Ascending(names) && i < j < |names|
    ensures Precedes(names[i], names[j])
  {
    if i > 0 {
      AscendingPair(names[1..], i - 1, j - 1);
    } else if j > 1 {
      AscendingPair(names[1..], 0, j - 1);
      PrecedesTransitive(names[0], names[1], names[j]);
    }
  }

  /** `listing` is what scandir returns for the directory: every child name,
      the dot entries included, once each, in ascending order. */
  predicate IsListing(c: map<string, Child>, listing: seq<string>): (l: bool)
    ensures l ==> (listing == [] <==> c.Keys == {})
  {
    var l := Ascending(listing) &&
      (forall name | name in listing :: name in c) &&
      (forall name | name in c :: name in listing);
    assert l && listing != [] ==> listing[0] in c;
    l
  }

  lemma ListingDistinct(c: map<string, Child>, listing: seq<string>)
    requires IsListing(c, listing)
    ensures forall i, j | 0 <= i < j < |listing| :: listing[i] != listing[j]
  {
    forall i, j | 0 <= i < j < |listing| ensures listing[i] != listing[j] {
      AscendingPair(listing, i, j);
      PrecedesIrreflexive(listing[i]);
    }
  }

  /** getCacheFile: validates the key (outside any catch, so a refused key
      always reaches the caller) and names the file after the key itself. */
  function CacheFile(key: string): (r: Result<string>)
    ensures r.Ok? <==> ValidKey(key)
    ensures r.Ok? ==> r.value == key
    ensures r.Err? ==> r.error == KeyError(key)
  {
    match CheckKey(key)
    case Some(fault) => Err(InvalidArgument(fault))
    case None => Ok(key)
  }

  class LocalAdapter {
    /** The children of the cache directory. */
    var children: map<string, Child>
    /** Whether the cache directory is writable. */
    const writable: bool

    /** The cache directory exists: it lists itself and its parent. */
    ghost predicate Valid()
      reads this
    {
      IsDir(children, ".") && IsDir(children, "..")
    }

    /** The constructor once the directory exists; discovering and creating it
        is not part of this model. */
    constructor (existing: map<string, Child>, canWrite: bool)
      requires IsDir(existing, ".") && IsDir(existing, "..")
      ensures Valid()
      ensures children == existing && writable == canWrite
    {
      children := existing;
      writable := canWrite;
    }

    /** get: the stored value of a live entry, else the default; an expired
        file is deleted on the way; read and decode failures become the default. */
    method Get(key: string, default: Value, now: int) returns (r: Result<Value>)
      requires Valid()
      modifies this
      ensures Valid()
      ensures !ValidKey(key) ==> r == Err(KeyError(key))
      ensures ValidKey(key) ==> r == Ok(ReadValue(old(children), key, default, now))
      ensures children == AfterRead(old(children), writable, key, now)
    {
      var file := CacheFile(key);
      if file.Err? {
        return Err(file.error);
      }
      if !IsFile(children, file.value) {
        return Ok(default);
      }
      var cache := DecodeEntry(children[file.value].content);
      if cache.None? {
        return Ok(default);
      }
      if cache.value.ttl < now {
        var _ := Delete(key);
        return Ok(default);
      }
      return Ok(cache.value.value);
    }

    /** set: writes the entry {key, stored ttl, value}; true iff the write succeeds. */
    method Set(key: string, value: Value, ttl: Option<int>, now: int) returns (r: Result<bool>)
      requires Valid()
      modifies this
      ensures Valid()
      ensures !ValidKey(key) ==> r == Err(KeyError(key)) && children == old(children)
      ensures ValidKey(key) ==> r == Ok(CanWrite(old(children), writable, key))
      ensures ValidKey(key) && CanWrite(old(children), writable, key) ==> children == Written(old(children), key, value, ttl, now)
      ensures !(ValidKey(key) && CanWrite(old(children), writable, key)) ==> children == old(children)
    {
      var file := CacheFile(key);
      if file.Err? {
        return Err(file.error);
      }
      var cache := Entry(key, ExpiryStamp(ttl, now), value);
      if IsDir(children, file.value) || !(writable || IsFile(children, file.value)) {
        return Ok(false);
      }
      children := children[file.value := File(EncodeEntry(cache))];
      return Ok(true);
    }

    /** delete: unlinks the file for `key` if there is one; true when there
        was none or the unlink succeeded. */
    method Delete(key: string) returns (r: Result<bool>)
      requires Valid()
      modifies this
      ensures Valid()
      ensures !ValidKey(key) ==> r == Err(KeyError(key)) && children == old(children)
      ensures ValidKey(key) ==> r == Ok(writable || !IsFile(old(children), key))
      ensures ValidKey(key) && writable && IsFile(old(children), key) ==> children == old(children) - {key}
      ensures !(ValidKey(key) && writable && IsFile(old(children), key)) ==> children == old(children)
    {
      var file := CacheFile(key);
      if file.Err? {
        return Err(file.error);
      }
      if IsFile(children, file.value) {
        if !writable {
          return Ok(false);
        }
        children := children - {file.value};
        return Ok(true);
      }
      return Ok(true);
    }

    /** has: the freshness test of get as a boolean, with the same deletion
        of an expired file; read and decode failures become false. */
    method Has(key: string, now: int) returns (r: Result<bool>)
      requires Valid()
      modifies this
      ensures Valid()
      ensures !ValidKey(key) ==> r == Err(KeyError(key))
      ensures ValidKey(key) ==> r == Ok(Inspect(old(children), key, now).Live?)
      ensures children == AfterRead(old(children), writable, key, now)
    {
      var file := CacheFile(key);
      if file.Err? {
        return Err(file.error);
      }
      if !IsFile(children, file.value) {
        return Ok(false);
      }
      var cache := DecodeEntry(children[file.value].content);
      if cache.None? {
        return Ok(false);
      }
      if cache.value.ttl < now {
        var _ := Delete(key);
        return Ok(false);
      }
      return Ok(true);
    }

    /** getMultiple run to its end: one get per key in input order, until the
        first refused key throws. Each pair holds what get would have returned
        on the directory as it was before the run. */
    method GetMultiple(keys: seq<string>, default: Value, now: int) returns (y: Yielded)
      requires Valid()
      modifies this
      ensures Valid()
      ensures |y.pairs| == FirstInvalid(keys)
      ensures forall i | 0 <= i < |y.pairs| ::
        y.pairs[i] == (keys[i], ReadValue(old(children), keys[i], default, now))
      ensures y.thrown.None? <==> FirstInvalid(keys) == |keys|
      ensures y.thrown.Some? ==> y.thrown.value == KeyError(keys[|y.pairs|])
      ensures children == Reap(old(children), writable, keys[..FirstInvalid(keys)], now)
    {
      ghost var start := children;
      var pairs: seq<(string, Value)> := [];
      var i := 0;
      while i < |keys|
        invariant i <= FirstInvalid(keys)
        invariant |pairs| == i
        invariant forall j | 0 <= j < i :: pairs[j] == (keys[j], ReadValue(start, keys[j], default, now))
        invariant children == Reap(start, writable, keys[..i], now)
        invariant Valid()
      {
        var r := Get(keys[i], default, now);
        if r.Err? {
          assert i == FirstInvalid(keys);
          return Yielded(pairs, Some(r.error));
        }
        ReapSees(start, writable, keys, i, default, now);
        ReapStep(start, writable, keys, i, now);
        assert i < FirstInvalid(keys);
        pairs := pairs + [(keys[i], r.value)];
        i := i + 1;
      }
      assert keys[..i] == keys;
      return Yielded(pairs, None);
    }

    /** setMultiple: set for each pair in order; a refused key throws, a
        failed write returns false, and the files written before either stay. */
    method SetMultiple(values: seq<(string, Value)>, ttl: Option<int>, now: int) returns (r: Result<bool>)
      requires Valid()
      modifies this
      ensures Valid()
      ensures var n := FirstUnwritable(old(children), writable, values);
        children == WriteSeq(old(children), values[..n], ttl, now) &&
        r == if n == |values| then Ok(true)
             else if !ValidKey(values[n].0) then Err(KeyError(values[n].0))
             else Ok(false)
    {
      ghost var start := children;
      ghost var n := FirstUnwritable(start, writable, values);
      var i := 0;
      while i < |values|
        invariant i <= n
        invariant children == WriteSeq(start, values[..i], ttl, now)
        invariant Valid()
      {
        WriteStep(start, writable, values, i, ttl, now);
        assert i < n <==> ValidKey(values[i].0) && CanWrite(start, writable, values[i].0);
        r := Set(values[i].0, values[i].1, ttl, now);
        if r != Ok(true) {
          assert i == n;
          return;
        }
        i := i + 1;
      }
      assert values[..i] == values;
      r := Ok(true);
    }

    /** deleteMultiple: delete for each key in order; a refused key throws, a
        failed unlink returns false, and the files removed before either stay
        removed. */
    method DeleteMultiple(keys: seq<string>) returns (r: Result<bool>)
      requires Valid()
      modifies this
      ensures Valid()
      ensures var n := FirstUndeletable(old(children), writable, keys);
        children == Unlinked(old(children), keys[..n]) &&
        r == if n == |keys| then Ok(true)
             else if !ValidKey(keys[n]) then Err(KeyError(keys[n]))
             else Ok(false)
    {
      ghost var start := children;
      ghost var n := FirstUndeletable(start, writable, keys);
      var i := 0;
      while i < |keys|
        invariant i <= n
        invariant children == Unlinked(start, keys[..i])
        invariant Valid()
      {
        UnlinkStep(start, keys, i);
        var ok := Delete(keys[i]);
        if ok.Err? {
          return ok;
        }
        if !ok.value {
          return Ok(false);
        }
        i := i + 1;
      }
      assert keys[..i] == keys;
      return Ok(true);
    }

    /** clear: walks the scandir listing, skipping the dot entries, unlinking
        files and rmdir-ing sub-directories, and stops with false at the first
        removal that fails; the earlier removals stay. */
    method Clear(listing: seq<string>) returns (ok: bool)
      requires Valid() && IsListing(children, listing)
      modifies this
      ensures Valid()
      ensures var n := FirstUnremovable(old(children), writable, listing);
        ok == (n == |listing|) && children == Cleared(old(children), listing, n)
      ensures ok <==> forall name | name in old(children) && !IsDot(name) :: Removable(old(children), writable, name)
      ensures ok ==> children.Keys == {".", ".."}
    {
      ghost var start := children;
      ghost var n := FirstUnremovable(start, writable, listing);
      var i := 0;
      while i < |listing|
        invariant i <= n
        invariant children == Cleared(start, listing, i)
        invariant Valid()
      {
        var val := listing[i];
        ClearStep(start, writable, listing, i);
        if !IsDot(val) {
          // is_dir ? rmdir : unlink
          var removed := if IsDir(children, val) then writable && children[val].empty else writable && val in children;
          assert removed == Removable(start, writable, val);
          if !removed {
            assert i == n;
            ClearOutcome(start, writable, listing);
            return false;
          }
          children := children - {val};
        }
        assert i < n;
        i := i + 1;
      }
      assert i == n;
      ClearOutcome(start, writable, listing);
      return true;
    }
  }

  /** The directory once clear's walk has passed the first `i` names of the
      listing, removing each that is not a dot entry. */
  function Cleared(c: map<string, Child>, listing: seq<string>, i: nat): (after: map<string, Child>)
    requires i <= |listing|
    ensures after.Keys <= c.Keys
  {
    if i == 0 then c
    else if IsDot(listing[i - 1]) then Cleared(c, listing, i - 1)
    else Cleared(c, listing, i - 1) - {listing[i - 1]}
  }

  /** After the first `i` names, a child is gone iff one of them names it and
      it is not a dot entry; the children left are as they were. */
  lemma {:induction false} ClearedMembers(c: map<string, Child>, listing: seq<string>, i: nat)
    requires i <= |listing|
    ensures forall name | name in Cleared(c, listing, i) :: Cleared(c, listing, i)[name] == c[name]
    ensures forall name | name in c :: name !in Cleared(c, listing, i) <==> name in listing[..i] && !IsDot(name)
  {
    if i > 0 {
      ClearedMembers(c, listing, i - 1);
      assert listing[..i] == listing[..i - 1] + [listing[i - 1]];
    }
  }

  /** One step of clear's walk: the next name is still a child as it was at
      the start, and the dot entries survive the step. */
  lemma ClearStep(c: map<string, Child>, writable: bool, listing: seq<string>, i: nat)
    requires i < |listing| && IsListing(c, listing)
    ensures !IsDot(listing[i]) ==> listing[i] in Cleared(c, listing, i) && Cleared(c, listing, i)[listing[i]] == c[listing[i]]
    ensures !IsDot(listing[i]) ==> Removable(Cleared(c, listing, i), writable, listing[i]) == Removable(c, writable, listing[i])
    ensures IsDir(c, ".") && IsDir(c, "..") ==> IsDir(Cleared(c, listing, i + 1), ".") && IsDir(Cleared(c, listing, i + 1), "..")
  {
    ListingDistinct(c, listing);
    ClearedMembers(c, listing, i);
    ClearedMembers(c, listing, i + 1);
    assert listing[i] !in listing[..i];
  }

  /** How clear ends: it succeeds iff every non-dot child is removable, and
      then only the dot entries are left. */
  lemma ClearOutcome(c: map<string, Child>, writable: bool, listing: seq<string>)
    requires IsListing(c, listing) && IsDir(c, ".") && IsDir(c, "..")
    ensures var n := FirstUnremovable(c, writable, listing);
      (n == |listing| <==> forall name | name in c && !IsDot(name) :: Removable(c, writable, name)) &&
      (n == |listing| ==> Cleared(c, listing, n).Keys == {".", ".."})
  {
    var n := FirstUnremovable(c, writable, listing);
    if n == |listing| {
      forall name | name in c && !IsDot(name) ensures Removable(c, writable, name) {
        var i :| 0 <= i < |listing| && listing[i] == name;
      }
      ClearedAll(c, listing);
    }
  }

  /** A walk over the whole listing leaves only the dot entries. */
  lemma ClearedAll(c: map<string, Child>, listing: seq<string>)
    requires IsListing(c, listing) && IsDir(c, ".") && IsDir(c, "..")
    ensures Cleared(c, listing, |listing|).Keys == {".", ".."}
  {
    ClearedMembers(c, listing, |listing|);
    assert listing[..|listing|] == listing;
    var after := Cleared(c, listing, |listing|);
    assert forall name | name in after :: IsDot(name);
    assert "." in after && ".." in after;
  }

  /** The directory once the files named by `keys` have been unlinked. */
  function Unlinked(c: map<string, Child>, keys: seq<string>): (after: map<string, Child>)
    ensures after.Keys <= c.Keys
  {
    c - (set k | k in keys && IsFile(c, k))
  }

  /** What the deletes of deleteMultiple remove: exactly the files the keys
      name; sub-directories and unnamed children stay as they were. */
  lemma UnlinkedMembers(c: map<string, Child>, keys: seq<string>)
    ensures forall name | name in Unlinked(c, keys) :: Unlinked(c, keys)[name] == c[name]
    ensures forall name | name in c :: name !in Unlinked(c, keys) <==> name in keys && IsFile(c, name)
  {
  }

  /** One get inside getMultiple sees what it would have seen on the
      directory before the run: an earlier get removed the key's file only if
      that entry had expired, and an expired entry reads as the default. */
  lemma ReapSees(c: map<string, Child>, writable: bool, keys: seq<string>, i: nat, default: Value, now: int)
    requires i < |keys| && ValidKey(keys[i])
    ensures ReadValue(Reap(c, writable, keys[..i], now), keys[i], default, now) == ReadValue(c, keys[i], default, now)
  {
    var k := keys[i];
    var r := Reap(c, writable, keys[..i], now);
    ReapMembers(c, writable, keys[..i], now);
    if k in c && k !in r {
      assert Inspect(c, k, now).Expired?;
    } else {
      assert Inspect(r, k, now) == Inspect(c, k, now);
    }
  }

  /** One get inside getMultiple extends the reaped prefix by its key. */
  lemma ReapStep(c: map<string, Child>, writable: bool, keys: seq<string>, i: nat, now: int)
    requires i < |keys| && ValidKey(keys[i])
    ensures AfterRead(Reap(c, writable, keys[..i], now), writable, keys[i], now) == Reap(c, writable, keys[..i + 1], now)
  {
    var k := keys[i];
    assert keys[..i + 1] == keys[..i] + [k];
    if writable {
      var gone := set x | x in keys[..i] && ValidKey(x) && Inspect(c, x, now).Expired?;
      var gone' := set x | x in keys[..i + 1] && ValidKey(x) && Inspect(c, x, now).Expired?;
      assert gone' == gone + (if Inspect(c, k, now).Expired? then {k} else {});
    }
  }

  /** One delete inside deleteMultiple: the key still names a file iff it did
      at the start and no earlier key named it; unlinking it extends the prefix. */
  lemma UnlinkStep(c: map<string, Child>, keys: seq<string>, i: nat)
    requires i < |keys|
    ensures IsFile(Unlinked(c, keys[..i]), keys[i]) <==> IsFile(c, keys[i]) && keys[i] !in keys[..i]
    ensures Unlinked(c, keys[..i + 1]) ==
      if IsFile(Unlinked(c, keys[..i]), keys[i]) then Unlinked(c, keys[..i]) - {keys[i]} else Unlinked(c, keys[..i])
  {
    assert keys[..i + 1] == keys[..i] + [keys[i]];
  }

  /** Writes that all succeeded never create or remove a sub-directory, and
      leave every name exactly as writable as it was: here the first `k`
      pairs of `values`. */
  lemma {:induction false} WriteSeqKeepsDirs(c: map<string, Child>, writable: bool, values: seq<(string, Value)>, k: nat,
                                             ttl: Option<int>, now: int, name: string)
    requires k <= |values| && forall j | 0 <= j < k :: CanWrite(c, writable, values[j].0)
    ensures IsDir(WriteSeq(c, values[..k], ttl, now), name) == IsDir(c, name)
    ensures CanWrite(WriteSeq(c, values[..k], ttl, now), writable, name) == CanWrite(c, writable, name)
  {
    if k > 0 {
      var key := values[k - 1].0;
      WriteSeqKeepsDirs(c, writable, values, k - 1, ttl, now, name);
      assert values[..k][..k - 1] == values[..k - 1];
      if name == key {
        assert IsFile(WriteSeq(c, values[..k], ttl, now), name);
      }
    }
  }

  /** One set inside setMultiple: it succeeds iff it would have on the
      directory before the run, and then extends the written prefix, keeping
      the dot entries. */
  lemma WriteStep(c: map<string, Child>, writable: bool, values: seq<(string, Value)>, i: nat, ttl: Option<int>, now: int)
    requires i <= FirstUnwritable(c, writable, values) && i < |values|
    ensures CanWrite(WriteSeq(c, values[..i], ttl, now), writable, values[i].0) == CanWrite(c, writable, values[i].0)
    ensures ValidKey(values[i].0) && CanWrite(c, writable, values[i].0) ==>
      i < FirstUnwritable(c, writable, values) &&
      WriteSeq(c, values[..i + 1], ttl, now) == Written(WriteSeq(c, values[..i], ttl, now), values[i].0, values[i].1, ttl, now) &&
      IsDir(WriteSeq(c, values[..i + 1], ttl, now), ".") == IsDir(c, ".") &&
      IsDir(WriteSeq(c, values[..i + 1], ttl, now), "..") == IsDir(c, "..")
  {
    WriteSeqKeepsDirs(c, writable, values, i, ttl, now, values[i].0);
    if ValidKey(values[i].0) && CanWrite(c, writable, values[i].0) {
      assert values[..i + 1][..i] == values[..i];
      WriteSeqKeepsDirs(c, writable, values, i + 1, ttl, now, ".");
      WriteSeqKeepsDirs(c, writable, values, i + 1, ttl, now, "..");
    }
  }

  /** The round trip through a file: what set writes, get and has read back
      as live until its stored ttl has passed, and as expired after. */
  lemma InspectWritten(c: map<string, Child>, key: string, value: Value, ttl: Option<int>, t: int, now: int)
    ensures Inspect(Written(c, key, value, ttl, t), key, now) ==
      if ExpiryStamp(ttl, t) < now then Expired else Live(value)
  {
    DecodeEncodeEntry(Entry(key, ExpiryStamp(ttl, t), value));
  }

  /** set then get at the same second returns the value and deletes nothing,
      for a null, zero or positive ttl (before the never-stamp is reached). */
  lemma SetThenGet(c: map<string, Child>, writable: bool, key: string, value: Value, ttl: Option<int>, now: int, default: Value)
    requires ValidKey(key)
    requires ttl.Some? ==> ttl.value >= 0
    requires now <= Never
    ensures ReadValue(Written(c, key, value, ttl, now), key, default, now) == value
    ensures Inspect(Written(c, key, value, ttl, now), key, now).Live?
    ensures AfterRead(Written(c, key, value, ttl, now), writable, key, now) == Written(c, key, value, ttl, now)
  {
    InspectWritten(c, key, value, ttl, now, now);
  }

  /** A negative ttl is truthy: the entry is written already expired, so the
      next get returns the default and deletes the file. */
  lemma NegativeTtlIsExpiredAtOnce(c: map<string, Child>, key: string, value: Value, d: int, now: int, default: Value)
    requires ValidKey(key) && d < 0
    ensures ReadValue(Written(c, key, value, Some(d), now), key, default, now) == default
    ensures AfterRead(Written(c, key, value, Some(d), now), true, key, now) == c - {key}
  {
    InspectWritten(c, key, value, Some(d), now, now);
    assert Written(c, key, value, Some(d), now) - {key} == c - {key};
  }

  /** set with ttl d at time t, then get at a time past t + d: the default is
      returned, has is false, and the file is deleted in a writable directory. */
  lemma SetThenExpire(c: map<string, Child>, writable: bool, key: string, value: Value, d: int, t: int, now: int, default: Value)
    requires ValidKey(key) && d != 0 && t + d < now
    ensures ReadValue(Written(c, key, value, Some(d), t), key, default, now) == default
    ensures !Inspect(Written(c, key, value, Some(d), t), key, now).Live?
    ensures AfterRead(Written(c, key, value, Some(d), t), writable, key, now) ==
      if writable then Written(c, key, value, Some(d), t) - {key} else Written(c, key, value, Some(d), t)
  {
    InspectWritten(c, key, value, Some(d), t, now);
  }

  /** A null or zero ttl stores the never-stamp 9999999999: the entry is live
      at every time up to that second and expired after it. */
  lemma NeverStampLasts(c: map<string, Child>, key: string, value: Value, ttl: Option<int>, t: int, now: int)
    requires ttl.None? || ttl == Some(0)
    ensures Inspect(Written(c, key, value, ttl, t), key, now) == if now <= Never then Live(value) else Expired
  {
    InspectWritten(c, key, value, ttl, t, now);
  }

  /** Once the file for a key is gone (what delete does when it succeeds),
      get on that key returns the default and has is false. */
  lemma DeleteThenMiss(c: map<string, Child>, key: string, default: Value, now: int)
    ensures ReadValue(c - {key}, key, default, now) == default
    ensures Inspect(c - {key}, key, now) == Absent
  {
  }

  /** After writing pairs with distinct keys, each key's file holds its own
      pair's entry. */
  lemma {:induction false} WriteSeqHolds(c: map<string, Child>, values: seq<(string, Value)>, ttl: Option<int>, t: int, i: nat)
    requires i < |values|
    requires forall p, q | 0 <= p < q < |values| :: values[p].0 != values[q].0
    ensures values[i].0 in WriteSeq(c, values, ttl, t)
    ensures WriteSeq(c, values, ttl, t)[values[i].0] == File(EncodeEntry(Entry(values[i].0, ExpiryStamp(ttl, t), values[i].1)))
  {
    if i < |values| - 1 {
      WriteSeqHolds(c, values[..|values| - 1], ttl, t, i);
      assert values[i].0 != values[|values| - 1].0;
    }
  }

  /** Writing pairs leaves every child that no pair names as it was: its
      name stays (or stays absent) and its content is unchanged. */
  lemma {:induction false} WriteSeqKeeps(c: map<string, Child>, values: seq<(string, Value)>, ttl: Option<int>, now: int, name: string)
    requires forall i | 0 <= i < |values| :: values[i].0 != name
    ensures name in WriteSeq(c, values, ttl, now) <==> name in c
    ensures name in c ==> WriteSeq(c, values, ttl, now)[name] == c[name]
  {
    if values != [] {
      WriteSeqKeeps(c, values[..|values| - 1], ttl, now, name);
    }
  }

  /** setMultiple then getMultiple: with distinct valid keys, a writable
      directory and no sub-directory in the way, every write succeeds and
      every key reads back its own value while the entries are live. */
  lemma SetMultipleThenGet(c: map<string, Child>, values: seq<(string, Value)>, ttl: Option<int>, t: int, now: int, default: Value)
    requires forall i | 0 <= i < |values| :: ValidKey(values[i].0) && !IsDir(c, values[i].0)
    requires forall p, q | 0 <= p < q < |values| :: values[p].0 != values[q].0
    requires now <= ExpiryStamp(ttl, t)
    ensures FirstUnwritable(c, true, values) == |values|
    ensures forall i | 0 <= i < |values| ::
      ReadValue(WriteSeq(c, values, ttl, t), values[i].0, default, now) == values[i].1
  {
    forall i | 0 <= i < |values|
      ensures ReadValue(WriteSeq(c, values, ttl, t), values[i].0, default, now) == values[i].1
    {
      WriteSeqHolds(c, values, ttl, t, i);
      DecodeEncodeEntry(Entry(values[i].0, ExpiryStamp(ttl, t), values[i].1));
    }
  }

  /** The dot entries are directories, so set on the valid keys "." and ".."
      always fails and get on them always misses. */
  lemma DotKeysNeverStore(c: map<string, Child>, writable: bool, key: string, now: int)
    requires IsDir(c, ".") && IsDir(c, "..") && IsDot(key)
    ensures ValidKey(key)
    ensures !CanWrite(c, writable, key)
    ensures Inspect(c, key, now) == Absent
  {
    assert key[0] == '.';
  }
}
