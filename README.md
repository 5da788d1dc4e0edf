# PSR-16 simple cache: a Dafny model of its two engines

This project models the core of a PHP implementation of PSR-16, the "Common
Interface for Caching Libraries". The library has two engines behind the same
contract (`get`, `set`, `delete`, `clear`, `has`, `getMultiple`, `setMultiple`,
`deleteMultiple`):

- `NullAdapter` is the in-process engine. Its one field, `$data`, maps each key
  to a record of the value and its absolute expiry. The model is the class
  `NullCache.NullAdapter`, whose `data: map<string, Record>` the methods
  reassign.
- `LocalAdapter` is the filesystem engine. It keeps one file per key, named
  after the key, inside a cache directory. The model is the class
  `LocalCache.LocalAdapter`. Its `children` map stands for the directory: each
  child is a file holding an encoded entry, or a sub-directory that is empty or
  not. The entries `.` and `..` are always there as directories. The constant
  `writable` is the directory's write permission. Creating a file, unlinking
  one and removing a sub-directory succeed only when it is true. Overwriting
  an existing file needs the file's own permission instead, which the model
  treats as always granted.

Both engines validate keys with one shared function, `KeyValidation.CheckKey`.
A key is accepted iff it is non-empty and contains none of the characters that
section 1.2 of PSR-16 reserves, `{}()/\@:`.

Everything the PHP code takes from its environment becomes a parameter:

- The clock `time()` is the parameter `now`.
- The `scandir` listing is the parameter `listing` of `Clear`. It is required to
  be every child name, `.` and `..` included, in ascending order.

The two exception classes become `CacheTypes.CacheError`, with the variants
`InvalidArgument` and `CacheFailure`. An operation that throws returns `Err`.
A `getMultiple` generator run to its end becomes a `Yielded` value: the pairs
it yields, in order, and the exception it throws, if any.

`serialize`/`unserialize` become `EntryCodec`. It encodes values into a prefix
token stream and decodes with a parser that can fail on arbitrary content. The
round trip `DecodeEntry(EncodeEntry(e)) == Some(e)` is proved, not assumed.

The bulk operations are specified in closed form. A `First…` function gives the
index of the first key at which the loop stops. The new state is then a fold of
the single-key effect over the keys before that index.

Behaviour the model reproduces as written:
- NullAdapter's freshness test is `!expire_at || expire_at >= time()`. An entry
  is therefore still fresh during its expiry second, and an expiry of exactly 0
  counts as never (`ZeroExpiryNeverExpires`).
- The two engines read `ttl = 0` differently. NullAdapter expires the entry at
  `now`; LocalAdapter finds 0 falsy and stores the never-stamp `9999999999`
  (`TtlDivergence.ZeroTtlDiverges`).
- In LocalAdapter, `get` and `has` delete a file they find expired. A negative
  ttl is truthy, so such an entry is written already expired.
- `clear` stops at the first non-empty sub-directory, or at the first removal
  the directory's permission refuses. The removals made before that point stay.
- `.` and `..` are valid keys, but `set` on them always fails, because those
  names are directories (`DotKeysNeverStore`).

## Model

| member | source | states |
|---|---|---|
| KeyValidation.CheckKey | src/NullAdapter.php:86-98 | accepts exactly the non-empty keys without a reserved character; the empty key gives the first message, a reserved character the second |
| KeyValidation.HasReserved | src/LocalAdapter.php:165 | the character-class scan finds a match iff some character of the key is one of `{}()/\@:` |
| KeyValidation.FirstInvalid | src/NullAdapter.php:62-70 | the index where a bulk loop over keys throws: every earlier key is valid, the key there is not |
| KeyValidation.KeyError | src/NullAdapter.php:88-95 | the exception validateKey throws is always an InvalidArgumentException, with the non-empty-string message exactly for the empty key and the cannot-validate message otherwise |
| EntryCodec.ParseEncode | src/LocalAdapter.php:41 | decoding the encoding of any value, followed by anything, returns that value and leaves what followed |
| EntryCodec.ParseAllEncodeAll | src/LocalAdapter.php:41 | decoding the encodings of n values in a row returns those n values in order |
| EntryCodec.DecodeEncodeEntry | src/LocalAdapter.php:56-61 | the array set serializes, key, ttl and value, unserializes to exactly itself |
| EntryCodec.Encode | src/LocalAdapter.php:61 | serialize: every value encodes to at least one token, and the first token says whether it is a list and of how many items; ParseEncode proves the encoding can be read back |
| EntryCodec.EncodeAll | src/LocalAdapter.php:61 | the encodings of a list's items in order, at least one token per item; ParseAllEncodeAll reads them back |
| EntryCodec.Parse | src/LocalAdapter.php:41 | a successful parse of one value consumes at least one token |
| EntryCodec.ParseAll | src/LocalAdapter.php:41 | a successful parse of n values returns exactly n values and consumes no more than its input |
| EntryCodec.ParseInverse | src/LocalAdapter.php:41 | whatever parses as a value is that value's encoding followed by the unparsed rest, so decoding accepts only encodings |
| EntryCodec.ParseAllInverse | src/LocalAdapter.php:41 | whatever parses as n values is their encodings in order followed by the unparsed rest |
| EntryCodec.Decode | src/LocalAdapter.php:41 | a file decodes to a value only if its content is exactly that value's encoding |
| EntryCodec.EncodeEntry | src/LocalAdapter.php:56-61 | the file set writes decodes to the array of key, stored ttl and value, in that order |
| EntryCodec.DecodeEntry | src/LocalAdapter.php:41 | a file decodes to an entry only if its content is exactly what set writes for that entry |
| EntryCodec.TruncatedEntryIsCorrupt | src/LocalAdapter.php:41 | decoding can fail: every proper prefix of a written file, the empty file included, decodes to nothing |
| NullCache.ExpireAt | src/NullAdapter.php:25-28 | a null ttl stores no expiry; any other ttl stores now + ttl |
| NullCache.IsFresh | src/NullAdapter.php:16 | a record without expiry, or with expiry 0, is fresh; otherwise it is fresh iff now is not past its expiry |
| NullCache.Store | src/NullAdapter.php:25-28 | the key then holds the value with its expiry, the key set grows by that key only, and every other record is unchanged |
| NullCache.StoreSeq | src/NullAdapter.php:52-60 | $data after setMultiple's sets, in order: no key is lost; StoreSeqHolds and StoreSeqKeeps state what each key then holds |
| NullCache.StoreStep | src/NullAdapter.php:52-60 | each set inside setMultiple extends the fold by one store |
| NullCache.Lookup | src/NullAdapter.php:13-20 | get throws iff the key is invalid, and otherwise returns either the default or the value stored under the key |
| NullCache.Probe | src/NullAdapter.php:72-79 | has throws iff the key is invalid |
| NullCache.NullAdapter.constructor | src/NullAdapter.php:11 | a new adapter's `$data` is empty |
| NullCache.NullAdapter.Get | src/NullAdapter.php:13-20 | get returns the value of a fresh record, else the default; it changes nothing, so an expired record stays stored |
| NullCache.NullAdapter.Set | src/NullAdapter.php:22-30 | set returns true and replaces only the record for the key, with expiry null or now + ttl; an invalid key throws and changes nothing |
| NullCache.NullAdapter.Delete | src/NullAdapter.php:32-37 | delete returns true, present key or not, and removes only that key; an invalid key throws and changes nothing |
| NullCache.NullAdapter.Clear | src/NullAdapter.php:39-43 | clear returns true and leaves `$data` empty, validating nothing |
| NullCache.NullAdapter.Has | src/NullAdapter.php:72-79 | has uses get's freshness test; when it is true, get returns the stored value; it changes nothing |
| NullCache.NullAdapter.GetMultiple | src/NullAdapter.php:45-50 | yields (key, get(key, default)) for each key in input order up to the first invalid key, then throws that key's error |
| NullCache.NullAdapter.SetMultiple | src/NullAdapter.php:52-60 | sets each pair in order; the first invalid key throws, and the records written before it stay |
| NullCache.NullAdapter.DeleteMultiple | src/NullAdapter.php:62-70 | deletes each key in order; the first invalid key throws, and the deletions before it stay |
| NullCache.SetWithoutTtlNeverExpires | src/NullAdapter.php:25-28 | after set with a null ttl, get returns the value and has is true at every later time |
| NullCache.SetWithTtlExpires | src/NullAdapter.php:27 | after set with ttl d at time t, get and has at time now see the value iff t + d >= now or t + d == 0, and the default otherwise |
| NullCache.ZeroTtlLastsOneSecond | src/NullAdapter.php:16 | ttl 0 keeps the value through the same second and drops it one second later |
| NullCache.ZeroExpiryNeverExpires | src/NullAdapter.php:16 | an expiry of exactly 0 is falsy, so that record is returned at every time |
| NullCache.SetLeavesOtherKeys | src/NullAdapter.php:22-30 | set leaves get and has unchanged for every other key |
| NullCache.DeleteThenMiss | src/NullAdapter.php:32-37 | after delete, get returns the default and has is false, while other keys are unaffected |
| NullCache.HasAgreesWithGet | src/NullAdapter.php:75 | has is true exactly when the record is present and fresh and get returns its value; when has is false, get returns the default |
| NullCache.StoreSeqHolds | src/NullAdapter.php:52-60 | after setting pairs with distinct keys, each key holds its own pair's value and expiry |
| NullCache.StoreSeqKeeps | src/NullAdapter.php:52-60 | setting pairs leaves every key they do not name as it was |
| NullCache.SetMultipleThenGet | src/NullAdapter.php:45-60 | setMultiple with distinct valid keys and no ttl, followed by get of each key, returns each pair's value |
| NullCache.ClearThenMiss | src/NullAdapter.php:39-43 | after clear, has is false for every valid key |
| LocalCache.ExpiryStamp | src/LocalAdapter.php:58 | a null or zero ttl stores the never-stamp 9999999999; any other ttl, negative included, stores now + ttl |
| LocalCache.Written | src/LocalAdapter.php:56-61 | after set's write, the key names a file that decodes to the entry {key, stored ttl, value}, the directory gains only that name, and every other child is unchanged |
| LocalCache.AfterRead | src/LocalAdapter.php:42-44 | get and has remove a child only, and only the key's own file, exactly when the key is valid, the directory writable and the entry expired |
| LocalCache.CanWrite | src/LocalAdapter.php:61 | writing fails when a sub-directory takes the name, succeeds over an existing file, and otherwise succeeds iff the directory is writable |
| LocalCache.Removable | src/LocalAdapter.php:86-94 | clear can remove a child only in a writable directory: any file and any empty sub-directory, never a non-empty one |
| LocalCache.IsFile | src/LocalAdapter.php:38 | is_file holds only for an existing child that is not also a directory |
| LocalCache.IsDir | src/LocalAdapter.php:86 | is_dir holds only for an existing child that is not a regular file |
| LocalCache.IsDot | src/LocalAdapter.php:85 | the `.` and `..` entries clear skips are one or two characters long and pass key validation, so a key can name them |
| LocalCache.ReadValue | src/LocalAdapter.php:38-49 | get's return value for a valid key: the stored value when the key's file decodes and its stored ttl is at least now, the default otherwise |
| LocalCache.WriteSeq | src/LocalAdapter.php:110-118 | the directory after setMultiple's writes, in order: no child is lost; WriteSeqHolds states what each key's file then holds and WriteSeqKeeps that every other child is unchanged |
| LocalCache.Reap | src/LocalAdapter.php:103-108 | the directory after getMultiple's gets: only removals; ReapMembers states which |
| LocalCache.ReapMembers | src/LocalAdapter.php:103-108 | the gets remove exactly the expired files of the valid keys, and only in a writable directory; the other children stay as they were |
| LocalCache.Unlinked | src/LocalAdapter.php:120-128 | the directory after deleteMultiple's deletes: only removals; UnlinkedMembers states which |
| LocalCache.UnlinkedMembers | src/LocalAdapter.php:120-128 | the deletes remove exactly the files the keys name; sub-directories and unnamed children stay as they were |
| LocalCache.Cleared | src/LocalAdapter.php:84-96 | the directory after clear's walk has passed a prefix of the listing: only removals; ClearedMembers states which |
| LocalCache.ClearedMembers | src/LocalAdapter.php:84-96 | after the first i listed names, a child is gone iff one of them names it and it is not `.` or `..`; the children left are as they were |
| LocalCache.Inspect | src/LocalAdapter.php:38-45 | a key is absent iff no regular file has its name, unreadable iff its file does not decode; a decoded entry is expired iff its stored ttl is before now, and live with its stored value otherwise |
| LocalCache.Precedes | src/LocalAdapter.php:83 | scandir's strict ascending order never places a name before itself |
| LocalCache.Ascending | src/LocalAdapter.php:83 | scandir's listing sorts each name before the next, so neighbours differ; AscendingPair extends this to any two positions |
| LocalCache.IsListing | src/LocalAdapter.php:83 | scandir lists every child once, sorted, and nothing else, so the listing is empty only for an empty directory |
| LocalCache.CacheFile | src/LocalAdapter.php:148-152 | the file name is the key itself, and an invalid key throws |
| LocalCache.FirstUnwritable | src/LocalAdapter.php:110-118 | the index where setMultiple stops: every earlier key is valid and writable, the key there is not |
| LocalCache.FirstUndeletable | src/LocalAdapter.php:120-128 | the index where deleteMultiple stops: every earlier key is valid and deletable, the key there is not |
| LocalCache.FirstUnremovable | src/LocalAdapter.php:84-96 | the index where clear's walk stops: every earlier name is a dot entry or removable, the name there is neither |
| LocalCache.PrecedesIrreflexive | src/LocalAdapter.php:83 | no name sorts strictly before itself, so a sorted directory listing names each child once |
| LocalCache.PrecedesTransitive | src/LocalAdapter.php:83 | the byte order of names is transitive |
| LocalCache.AscendingPair | src/LocalAdapter.php:83 | in a listing where each name sorts before the next, every earlier name sorts before every later one |
| LocalCache.ListingDistinct | src/LocalAdapter.php:83 | a scandir listing has no repeated name |
| LocalCache.LocalAdapter.constructor | src/LocalAdapter.php:26-31 | an adapter is built over an existing directory, which lists `.` and `..` |
| LocalCache.LocalAdapter.Get | src/LocalAdapter.php:34-50 | returns the stored value of a live entry and the default for a missing file, a corrupt file or an expired entry; an expired file is unlinked when the directory is writable; an invalid key throws and changes nothing |
| LocalCache.LocalAdapter.Set | src/LocalAdapter.php:52-65 | writes the entry {key, stored ttl, value} and returns true iff no sub-directory takes the name and either the directory is writable or a file of that name already exists; otherwise nothing changes; an invalid key throws |
| LocalCache.LocalAdapter.Delete | src/LocalAdapter.php:67-78 | returns true and changes nothing when no file has the name; otherwise removes exactly that file and returns whether the unlink succeeded |
| LocalCache.LocalAdapter.Has | src/LocalAdapter.php:130-146 | true iff the file exists, decodes, and its stored ttl is at least now; an expired file is deleted as in get |
| LocalCache.LocalAdapter.GetMultiple | src/LocalAdapter.php:103-108 | yields, in input order up to the first invalid key, what get would return on the directory before the run; when the directory is writable, the expired files among those keys are deleted |
| LocalCache.LocalAdapter.SetMultiple | src/LocalAdapter.php:110-118 | writes the pairs in order up to the first refused or unwritable key; that key throws or returns false, and the earlier files stay written |
| LocalCache.LocalAdapter.DeleteMultiple | src/LocalAdapter.php:120-128 | unlinks the files named by the keys in order up to the first refused or unlinkable key; that key throws or returns false, and the earlier removals stay |
| LocalCache.LocalAdapter.Clear | src/LocalAdapter.php:80-101 | walks the sorted listing, removing files and empty sub-directories, and stops with false at the first failure, keeping the earlier removals; it returns true iff every child other than `.` and `..` is removable, and only `.` and `..` are left then |
| LocalCache.ClearStep | src/LocalAdapter.php:85-96 | each name the walk reaches is still a child as it was at the start, and removing it extends the cleared prefix |
| LocalCache.ClearOutcome | src/LocalAdapter.php:80-101 | the walk completes iff every non-dot child is removable, and a completed walk leaves only `.` and `..` |
| LocalCache.ClearedAll | src/LocalAdapter.php:80-101 | a walk over the whole listing leaves only `.` and `..` |
| LocalCache.ReapSees | src/LocalAdapter.php:103-108 | a get inside getMultiple sees what it would have seen before the run, because an earlier deletion only removes an entry that would have read as the default anyway |
| LocalCache.ReapStep | src/LocalAdapter.php:103-108 | the removal a get inside getMultiple makes extends the reaped prefix by its key |
| LocalCache.UnlinkStep | src/LocalAdapter.php:120-128 | inside deleteMultiple, a key still names a file iff it did at the start and no earlier key named it |
| LocalCache.WriteSeqKeepsDirs | src/LocalAdapter.php:110-118 | writes that all succeeded never create or remove a sub-directory |
| LocalCache.WriteStep | src/LocalAdapter.php:110-118 | a set inside setMultiple succeeds iff it would have on the directory before the run, and then extends the written prefix by one write, keeping `.` and `..` |
| LocalCache.InspectWritten | src/LocalAdapter.php:52-61 | a file that set wrote reads back as live with its value until its stored ttl has passed, and as expired after that |
| LocalCache.SetThenGet | src/LocalAdapter.php:34-61 | set followed by get at the same second returns the value and deletes nothing, for a null, zero or positive ttl, at any time up to the never-stamp |
| LocalCache.NegativeTtlIsExpiredAtOnce | src/LocalAdapter.php:58 | a negative ttl is truthy, so the entry is written already expired: get returns the default and, in a writable directory, deletes the file |
| LocalCache.SetThenExpire | src/LocalAdapter.php:41-45 | after set with ttl d at time t, a get later than t + d returns the default, has is false, and the file is deleted when the directory is writable |
| LocalCache.NeverStampLasts | src/LocalAdapter.php:58 | a null or zero ttl stores 9999999999, so the entry stays live up to that second and expires after it |
| LocalCache.DeleteThenMiss | src/LocalAdapter.php:67-78 | once the file is removed, get returns the default and has is false |
| LocalCache.WriteSeqHolds | src/LocalAdapter.php:110-118 | after writing pairs with distinct keys, each key's file holds its own pair's entry |
| LocalCache.WriteSeqKeeps | src/LocalAdapter.php:110-118 | a child that no pair names keeps its presence or absence and its content |
| LocalCache.SetMultipleThenGet | src/LocalAdapter.php:103-118 | with distinct valid keys, a writable directory and no sub-directory in the way, every write succeeds, and every key reads back its value while the entries are live |
| LocalCache.DotKeysNeverStore | src/LocalAdapter.php:52-65 | `.` and `..` pass validation, but set on them cannot write and get on them always misses |
| TtlDivergence.ZeroTtlDiverges | src/NullAdapter.php:27 | with ttl 0, NullAdapter keeps the value for the same second only, while LocalAdapter still returns it a second later |
| TtlDivergence.NonzeroTtlAgrees | src/LocalAdapter.php:58 | for every non-zero ttl, positive or negative, get on both engines returns the same result at every time, unless the stored expiry t + ttl is exactly 0 |

## Left out

- Finding the default cache directory through Composer's installed-package registry, and creating it with `mkdir`, are not modelled. The constructor requires a directory that exists. A failed mkdir throws a plain `Exception`, not a cache exception, and is left out with the rest of the constructor.
- The source never throws `CacheException` itself, only its subclass `InvalidArgumentException`. The `CacheFailure` variant of `CacheError` is kept only so that the error type has both of PSR-16's exception kinds; no operation here produces it.
- Real filesystem calls are replaced by the `children` map and the `writable` flag. This model has no per-file permissions (an existing file can always be overwritten), no full disk, no short writes and no symbolic links.
- LocalCache.LocalAdapter.Set: returns true and writes in three cases where PHP's `file_put_contents` fails and set returns false: a key longer than the file-system's name limit, a key containing a NUL character, and an existing file whose own permission forbids writing.
- `scandir` failing is not modelled. Its listing is a parameter, sorted by character code, which is how `scandir` orders names in the C locale.
- PHP's `serialize` byte format is not modelled. The codec is a token format of its own. Values are limited to null, booleans, integers, strings and lists; floats, objects and string-keyed arrays are not modelled.
- LocalCache.LocalAdapter.Get: a file that does not decode gives the default and is left in place. In PHP, whether such a file is also deleted depends on how warnings are handled: unserialize returns false, and the ttl lookup on false reads as null.
- LocalCache.LocalAdapter.Has: a file that does not decode gives false and is left in place, for the same reason as in get.
- `file_put_contents` returns a byte count, not a bool. The model reduces it to success or failure.
- A ttl given as a `DateInterval` is not modelled; ttls are integers or null.
- Only string keys are modelled. The `is_string` check never fails here, and PHP's conversion of numeric string keys to integers in `setMultiple` is not modelled.
- The bulk methods read the clock once per call. PHP reads it again for every key.
- `getMultiple` is modelled as the generator run to its end, not lazily. A caller that stops early sees a prefix of `Yielded.pairs`; for LocalAdapter, only a prefix of the deletions has happened then.
- Races between processes on the same cache file are not modelled.
- The two exception classes are represented by the `CacheError` variants, not by a class hierarchy.
