/** Key validation shared by NullAdapter and LocalAdapter (validateKey). */
module KeyValidation {
  import opened CacheTypes

  /** The characters section 1.2 of PSR-16 reserves: { } ( ) / \ @ : */
  const Reserved: set<char> := {'{', '}', '(', ')', '/', '\\', '@', ':'}

  /** Reference definition: a key is accepted iff it is non-empty and holds
      no reserved character. */
  predicate ValidKey(key: string) {
    key != [] && forall i | 0 <= i < |key| :: key[i] !in Reserved
  }

  /** The character-class search `[{}()/\@:]`: true iff some character of
      `s` is reserved. */
  function HasReserved(s: string): (found: bool)
    ensures found <==> exists i | 0 <= i < |s| :: s[i] in Reserved
  {
    if s == [] then false
    else if s[0] in Reserved then true
    else
      var found := HasReserved(s[1..]);
      assert forall i | 1 <= i < |s| :: s[i] == s[1..][i - 1];
      found
  }

  /** validateKey: the empty key is refused first, then any key matching the
      reserved character class; None means the key passes. */
  function CheckKey(key: string): (r: Option<KeyFault>)
    ensures r.None? <==> ValidKey(key)
    ensures r == Some(EmptyKey) <==> key == []
    ensures r == Some(ReservedCharacter) <==> key != [] && exists i | 0 <= i < |key| :: key[i] in Reserved
  {
    if key == [] then Some(EmptyKey)
    else if HasReserved(key) then Some(ReservedCharacter)
    else None
  }

  /** The exception validateKey throws for a refused key. */
  function KeyError(key: string): (e: CacheError)
    requires !ValidKey(key)
    ensures e.InvalidArgument?
    ensures e == InvalidArgument(EmptyKey) <==> key == []
    ensures e == InvalidArgument(ReservedCharacter) <==> key != []
  {
    InvalidArgument(CheckKey(key).value)
  }

  /** Index of the first refused key in `keys`, or |keys| when all pass: how
      far a bulk operation gets before validation throws. */
  function FirstInvalid(keys: seq<string>): (n: nat)
    ensures n <= |keys|
    ensures forall i | 0 <= i < n :: ValidKey(keys[i])
    ensures n < |keys| ==> !ValidKey(keys[n])
  {
    if keys == [] || !ValidKey(keys[0]) then 0 else 1 + FirstInvalid(keys[1..])
  }
}
