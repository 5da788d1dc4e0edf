/** The entry codec LocalAdapter uses for its files (serialize/unserialize).
    A blob is a sequence of tokens in prefix form; decoding is a parser that
    may fail on arbitrary content. */
module EntryCodec {
  import opened CacheTypes

  datatype Token =
    | TNull
    | TBool(b: bool)
    | TInt(i: int)
    | TStr(s: string)
    | TList(n: nat)   // followed by the encodings of n values

  type Blob = seq<Token>

  /** The array LocalAdapter::set writes: the key, the absolute expiry
      timestamp and the value. */
  datatype Entry = Entry(key: string, ttl: int, value: Value)

  function Encode(v: Value): (b: Blob)
    ensures b != [] && (b[0].TList? <==> v.List?)
    ensures v.List? ==> b[0] == TList(|v.items|)
    decreases v, 1
  {
    match v
    case Null => [TNull]
    case Bool(x) => [TBool(x)]
    case Int(x) => [TInt(x)]
    case Str(x) => [TStr(x)]
    case List(items) => [TList(|items|)] + EncodeAll(items)
  }

  function EncodeAll(vs: seq<Value>): (b: Blob)
    ensures |b| >= |vs|
    decreases vs, 0
  {
    if vs == [] then [] else Encode(vs[0]) + EncodeAll(vs[1..])
  }

  /** Parses one value off the front of `b`, returning it with the rest. */
  function Parse(b: Blob): (r: Option<(Value, Blob)>)
    ensures r.Some? ==> |r.value.1| < |b|
    decreases |b|, 0
  {
    if b == [] then None
    else match b[0]
      case TNull => Some((Null, b[1..]))
      case TBool(x) => Some((Bool(x), b[1..]))
      case TInt(x) => Some((Int(x), b[1..]))
      case TStr(x) => Some((Str(x), b[1..]))
      case TList(n) =>
        match ParseAll(n, b[1..])
        case None => None
        case Some((items, rest)) => Some((List(items), rest))
  }

  /** Parses exactly `n` values off the front of `b`. */
  function ParseAll(n: nat, b: Blob): (r: Option<(seq<Value>, Blob)>)
    ensures r.Some? ==> |r.value.1| <= |b| && |r.value.0| == n
    decreases |b|, 1, n
  {
    if n == 0 then Some(([], b))
    else match Parse(b)
      case None => None
      case Some((v, rest)) =>
        match ParseAll(n - 1, rest)
        case None => None
        case Some((vs, rest')) => Some(([v] + vs, rest'))
  }

  /** Parsing an encoded value gives it back and leaves what followed. */
  lemma {:induction false} ParseEncode(v: Value, rest: Blob)
    ensures Parse(Encode(v) + rest) == Some((v, rest))
    decreases v, 1
  {
    var b := Encode(v) + rest;
    match v
    case List(items) =>
      ParseAllEncodeAll(items, rest);
      assert b == [TList(|items|)] + (EncodeAll(items) + rest);
      assert b[0] == TList(|items|) && b[1..] == EncodeAll(items) + rest;
    case _ =>
      assert |Encode(v)| == 1 && b[1..] == rest;
  }

  lemma {:induction false} ParseAllEncodeAll(vs: seq<Value>, rest: Blob)
    ensures ParseAll(|vs|, EncodeAll(vs) + rest) == Some((vs, rest))
    decreases vs, 0
  {
    if vs != [] {
      var tail := EncodeAll(vs[1..]) + rest;
      assert EncodeAll(vs) + rest == Encode(vs[0]) + tail;
      ParseEncode(vs[0], tail);
      ParseAllEncodeAll(vs[1..], rest);
      assert Parse(EncodeAll(vs) + rest) == Some((vs[0], tail));
      assert ParseAll(|vs| - 1, tail) == Some((vs[1..], rest));
      assert [vs[0]] + vs[1..] == vs;
    } else {
      assert EncodeAll(vs) + rest == rest;
    }
  }

  /** Whatever Parse reads is an encoding: the input is the encoding of the
      value read, followed by the rest. */
  lemma {:induction false} ParseInverse(b: Blob)
    requires Parse(b).Some?
    ensures b == Encode(Parse(b).value.0) + Parse(b).value.1
    decreases |b|, 0
  {
    match b[0]
    case TList(n) =>
      ParseAllInverse(n, b[1..]);
      assert b == [b[0]] + b[1..];
    case _ =>
      assert b == [b[0]] + b[1..];
  }

  lemma {:induction false} ParseAllInverse(n: nat, b: Blob)
    requires ParseAll(n, b).Some?
    ensures b == EncodeAll(ParseAll(n, b).value.0) + ParseAll(n, b).value.1
    decreases |b|, 1, n
  {
    if n > 0 {
      var (v, rest) := Parse(b).value;
      ParseInverse(b);
      ParseAllInverse(n - 1, rest);
      var (vs, rest') := ParseAll(n - 1, rest).value;
      assert ([v] + vs)[0] == v && ([v] + vs)[1..] == vs;
    }
  }

  /** unserialize: a blob decodes only when it is exactly one value, and then
      it is that value's encoding. */
  function Decode(b: Blob): (r: Option<Value>)
    ensures r.Some? ==> Encode(r.value) == b
  {
    match Parse(b)
    case Some((v, rest)) =>
      if rest == [] then
        ParseInverse(b);
        assert Encode(v) + [] == Encode(v);
        Some(v)
      else None
    case None => None
  }

  /** serialize of the array set writes. */
  function EncodeEntry(e: Entry): (b: Blob)
    ensures Decode(b) == Some(List([Str(e.key), Int(e.ttl), e.value]))
  {
    var v := List([Str(e.key), Int(e.ttl), e.value]);
    ParseEncode(v, []);
    assert Encode(v) + [] == Encode(v);
    Encode(v)
  }

  /** Reads back an entry; anything not shaped like one is a decode failure,
      and only the exact encoding of an entry decodes to it. */
  function DecodeEntry(b: Blob): (r: Option<Entry>)
    ensures r.Some? ==> EncodeEntry(r.value) == b
  {
    match Decode(b)
    case Some(List(items)) =>
      if |items| == 3 && items[0].Str? && items[1].Int? then
        assert items == [Str(items[0].s), Int(items[1].i), items[2]];
        Some(Entry(items[0].s, items[1].i, items[2]))
      else None
    case _ => None
  }

  /** The round trip LocalAdapter relies on: a file it wrote reads back as
      the entry it wrote. */
  lemma DecodeEncodeEntry(e: Entry)
    ensures DecodeEntry(EncodeEntry(e)) == Some(e)
  {
    assert [Str(e.key), Int(e.ttl), e.value][0] == Str(e.key);
  }

  /** A partially written file reads as a miss: no proper prefix of an
      entry's encoding decodes. */
  lemma TruncatedEntryIsCorrupt(e: Entry)
    ensures forall k | 0 <= k < |EncodeEntry(e)| :: DecodeEntry(EncodeEntry(e)[..k]) == None
  {
    var full := EncodeEntry(e);
    forall k | 0 <= k < |full| ensures DecodeEntry(full[..k]) == None {
      var part := full[..k];
      if Decode(part).Some? {
        var w := Decode(part).value;
        var tail := full[k..];
        assert full == Encode(w) + tail;
        ParseEncode(w, tail);
        assert false;
      }
    }
  }
}
