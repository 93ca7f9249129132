/**
 * The parameter list behind `URLSearchParams` (section 6.2 of the WHATWG URL Standard):
 * an ordered list of name-value pairs with `get`, `getAll`, `delete` and `set`, and
 * the `application/x-www-form-urlencoded` serializer of section 5.2 of that standard.
 */
module SearchParams {

  import opened Wrappers

  type Params = seq<(string, string)>

  newtype byte = x: int | 0 <= x < 256

  /** `getAll(name)`: the values of the pairs named `name`, in list order. */
  function ValuesOf(p: Params, name: string): seq<string> {
    if p == [] then []
    else (if p[0].0 == name then [p[0].1] else []) + ValuesOf(p[1..], name)
  }

  /** `get(name)`: the value of the first pair named `name`, or null. */
  function Get(p: Params, name: string): Option<string> {
    var vs := ValuesOf(p, name);
    if vs == [] then None else Some(vs[0])
  }

  /** `delete(name)`: remove every pair named `name`. */
  function DeleteAll(p: Params, name: string): (r: Params)
    ensures |r| <= |p|
  {
    if p == [] then []
    else if p[0].0 == name then DeleteAll(p[1..], name)
    else [p[0]] + DeleteAll(p[1..], name)
  }

  /**
   * `set(name, value)`: give the first pair named `name` the new value and remove
   * the later ones; append a pair when there is none.
   */
  function SetFirst(p: Params, name: string, value: string): (r: Params)
    ensures |r| <= |p| + 1
  {
    if p == [] then [(name, value)]
    else if p[0].0 == name then [(name, value)] + DeleteAll(p[1..], name)
    else [p[0]] + SetFirst(p[1..], name, value)
  }

  /** The pairs of `p` whose names are not in `names`, in list order. */
  function Outside(p: Params, names: set<string>): Params {
    if p == [] then []
    else (if p[0].0 in names then [] else [p[0]]) + Outside(p[1..], names)
  }

  // ---------------------------------------------------------------------------
  // The application/x-www-form-urlencoded serializer

  /** The UTF-8 encoding of one Unicode scalar value. */
  function Utf8(c: char): (bs: seq<byte>)
    ensures 1 <= |bs| <= 4
  {
    var n := c as int;
    if n < 0x80 then [n as byte]
    else if n < 0x800 then [(0xC0 + n / 0x40) as byte, (0x80 + n % 0x40) as byte]
    else if n < 0x10000 then
      [(0xE0 + n / 0x1000) as byte, (0x80 + n / 0x40 % 0x40) as byte, (0x80 + n % 0x40) as byte]
    else
      [(0xF0 + n / 0x40000) as byte, (0x80 + n / 0x1000 % 0x40) as byte,
       (0x80 + n / 0x40 % 0x40) as byte, (0x80 + n % 0x40) as byte]
  }

  function Utf8String(s: string): seq<byte> {
    if s == [] then [] else Utf8(s[0]) + Utf8String(s[1..])
  }

  /** The bytes the urlencoded byte serializer leaves as they are: `*-._`, digits and ASCII letters. */
  predicate KeptAsIs(b: byte) {
    b == 0x2A || b == 0x2D || b == 0x2E || b == 0x5F
    || (0x30 <= b <= 0x39) || (0x41 <= b <= 0x5A) || (0x61 <= b <= 0x7A)
  }

  /** The upper-case hexadecimal digit for `d`. */
  function HexDigit(d: int): (c: char)
    requires 0 <= d < 16
    ensures '0' <= c <= '9' || 'A' <= c <= 'F'
  {
    if d < 10 then ('0' as int + d) as char else ('A' as int + d - 10) as char
  }

  /** One byte as the serializer writes it: space as `+`, kept bytes as themselves, the rest as `%XX`. */
  function EncodeByte(b: byte): string {
    if b == 0x20 then "+"
    else if KeptAsIs(b) then [b as int as char]
    else ['%', HexDigit(b as int / 16), HexDigit(b as int % 16)]
  }

  function EncodeBytes(bs: seq<byte>): string {
    if bs == [] then "" else EncodeByte(bs[0]) + EncodeBytes(bs[1..])
  }

  /** The urlencoded form of a name or value. */
  function FormEncode(s: string): string {
    EncodeBytes(Utf8String(s))
  }

  function SerializePair(pair: (string, string)): string {
    FormEncode(pair.0) + "=" + FormEncode(pair.1)
  }

  /** `toString()`: the encoded pairs `name=value`, joined by `&`. */
  function Serialize(p: Params): string {
    if p == [] then ""
    else if |p| == 1 then SerializePair(p[0])
    else SerializePair(p[0]) + "&" + Serialize(p[1..])
  }

  /** A `URLSearchParams` object: its list is updated in place by `delete` and `set`. */
  class UrlSearchParams {
    var list: Params

    constructor (init: Params)
      ensures list == init
    {
      list := init;
    }

    method Delete(name: string)
      modifies this
      ensures list == DeleteAll(old(list), name)
    {
      list := DeleteAll(list, name);
    }

    method Set(name: string, value: string)
      modifies this
      ensures list == SetFirst(old(list), name, value)
    {
      list := SetFirst(list, name, value);
    }

    function ToString(): string
      reads this
    {
      Serialize(list)
    }
  }

  // ---------------------------------------------------------------------------
  // Properties of delete and set

  /** After `delete(name)` no pair has that name; pairs with other names keep their values. */
  lemma {:induction false} DeleteAllValues(p: Params, name: string, other: string)
    ensures ValuesOf(DeleteAll(p, name), other) == if other == name then [] else ValuesOf(p, other)
  {
    if p != [] {
      DeleteAllValues(p[1..], name, other);
      if p[0].0 != name {
        assert ([p[0]] + DeleteAll(p[1..], name))[1..] == DeleteAll(p[1..], name);
      }
    }
  }

  /** After `set(name, value)` exactly one pair has that name, with `value`; other names keep their values. */
  lemma {:induction false} SetFirstValues(p: Params, name: string, value: string, other: string)
    ensures ValuesOf(SetFirst(p, name, value), other) == if other == name then [value] else ValuesOf(p, other)
  {
    if p == [] {
    } else if p[0].0 == name {
      DeleteAllValues(p[1..], name, other);
      assert ([(name, value)] + DeleteAll(p[1..], name))[1..] == DeleteAll(p[1..], name);
    } else {
      SetFirstValues(p[1..], name, value, other);
      assert ([p[0]] + SetFirst(p[1..], name, value))[1..] == SetFirst(p[1..], name, value);
    }
  }

  /** Deleting a name that does not occur changes nothing. */
  lemma {:induction false} DeleteAbsent(p: Params, name: string)
    requires ValuesOf(p, name) == []
    ensures DeleteAll(p, name) == p
  {
    if p != [] {
      DeleteAbsent(p[1..], name);
    }
  }

  /** Setting a name that occurs once, already with that value, changes nothing. */
  lemma {:induction false} SetSettled(p: Params, name: string, value: string)
    requires ValuesOf(p, name) == [value]
    ensures SetFirst(p, name, value) == p
  {
    if p[0].0 == name {
      assert ValuesOf(p, name) == [p[0].1] + ValuesOf(p[1..], name);
      assert ([p[0].1] + ValuesOf(p[1..], name))[0] == p[0].1;
      assert p[0].1 == value && ValuesOf(p[1..], name) == [];
      assert p[0] == (name, value);
      DeleteAbsent(p[1..], name);
      assert p == [(name, value)] + p[1..];
    } else {
      SetSettled(p[1..], name, value);
    }
  }

  /** `set` on an absent name appends the pair at the end. */
  lemma {:induction false} SetFirstAppends(p: Params, name: string, value: string)
    requires ValuesOf(p, name) == []
    ensures SetFirst(p, name, value) == p + [(name, value)]
  {
    if p != [] {
      SetFirstAppends(p[1..], name, value);
    }
  }

  /** `set` on a present name replaces its first pair in place: everything before it is untouched. */
  lemma {:induction false} SetFirstInPlace(p: Params, name: string, value: string, i: nat)
    requires i < |p| && p[i].0 == name
    requires forall j :: 0 <= j < i ==> p[j].0 != name
    ensures |SetFirst(p, name, value)| > i
    ensures SetFirst(p, name, value)[..i + 1] == p[..i] + [(name, value)]
  {
    if i > 0 {
      SetFirstInPlace(p[1..], name, value, i - 1);
    }
  }

  /** Deleting or setting a name in `names` leaves the pairs outside `names` as they were, in order. */
  lemma {:induction false} DeleteAllOutside(p: Params, name: string, names: set<string>)
    requires name in names
    ensures Outside(DeleteAll(p, name), names) == Outside(p, names)
  {
    if p != [] {
      DeleteAllOutside(p[1..], name, names);
      if p[0].0 != name {
        assert ([p[0]] + DeleteAll(p[1..], name))[1..] == DeleteAll(p[1..], name);
      }
    }
  }

  lemma {:induction false} SetFirstOutside(p: Params, name: string, value: string, names: set<string>)
    requires name in names
    ensures Outside(SetFirst(p, name, value), names) == Outside(p, names)
  {
    if p == [] {
    } else if p[0].0 == name {
      DeleteAllOutside(p[1..], name, names);
      assert ([(name, value)] + DeleteAll(p[1..], name))[1..] == DeleteAll(p[1..], name);
    } else {
      SetFirstOutside(p[1..], name, value, names);
      assert ([p[0]] + SetFirst(p[1..], name, value))[1..] == SetFirst(p[1..], name, value);
    }
  }

  // ---------------------------------------------------------------------------
  // Properties of the serializer

  /** The serialized list is empty exactly when the list is. */
  lemma SerializeEmpty(p: Params)
    ensures Serialize(p) == "" <==> p == []
  {
    if p != [] {
      assert '=' in SerializePair(p[0]);
    }
  }

  /** Encoded names and values never contain `&` or `=`, so the separators are unambiguous. */
  lemma {:induction false} EncodeBytesHasNoSeparators(bs: seq<byte>)
    ensures '&' !in EncodeBytes(bs) && '=' !in EncodeBytes(bs)
  {
    if bs != [] {
      EncodeBytesHasNoSeparators(bs[1..]);
      EncodeByteHasNoSeparators(bs[0]);
    }
  }

  lemma EncodeByteHasNoSeparators(b: byte)
    ensures '&' !in EncodeByte(b) && '=' !in EncodeByte(b)
  {
    if b != 0x20 && KeptAsIs(b) {
      assert EncodeByte(b) == [b as int as char];
    }
  }

  lemma FormEncodeHasNoSeparators(s: string)
    ensures '&' !in FormEncode(s) && '=' !in FormEncode(s)
  {
    EncodeBytesHasNoSeparators(Utf8String(s));
  }
}
