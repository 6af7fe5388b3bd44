/** ABI types and values: which types are dynamic, head sizes, tuple keys, and which values a type takes. */
module AbiTypes {
  import opened Arithmetic
  import opened Basics

  datatype Type =
    | Bool
    | UInt(bits: nat)
    | Int(bits: nat)
    | String
    | Array(size: nat, elem: Type)
    | Slice(elem: Type)
    | AddressType
    | DynamicBytes
    | FixedBytes(size: nat)
    | FixedPoint
    | Tuple(fields: seq<Field>)
    | Function

  datatype Field = Field(name: string, typ: Type)

  /** A value as the caller hands it over: fixed arrays and slices are different kinds, tuples are lists or records. */
  datatype Value =
    | Flag(flag: bool)
    | Number(number: int)
    | Text(bytes: Bytes)
    | Blob(bytes: Bytes)
    | FixedList(items: seq<Value>)
    | List(items: seq<Value>)
    | Record(entries: map<string, Value>)

  /** Ways to fail. `OutOfRange` stands for an index panic. */
  datatype Error =
    | WrongKind | ExpectedArray | ExpectedSlice | LengthIncompatible | TupleTooShort | MissingKey | NotAvailable
    | ShortInput | LengthTooLarge | LengthInsufficient | OffsetTooLarge | OffsetInsufficient | SizeTooBig
    | BadBoolean | BadFunction | RepeatedKey | OutOfRange

  predicate IsVariableInput(t: Type) { t.Slice? || t.DynamicBytes? || t.String? }

  predicate IsDynamic(t: Type)
  {
    match t
    case Tuple(fields) => exists i :: 0 <= i < |fields| && IsDynamic(fields[i].typ)
    case Array(_, elem) => IsDynamic(elem)
    case _ => t.String? || t.DynamicBytes? || t.Slice?
  }

  predicate IsComposite(t: Type) { t.Array? || t.Slice? || t.Tuple? }

  /** The type of component i. */
  function ItemType(t: Type, i: nat): (e: Type)
    requires IsComposite(t) && (t.Tuple? ==> i < |t.fields|)
    ensures t decreases to e
  {
    if t.Tuple? then t.fields[i].typ else t.elem
  }

  /** The bytes a value of the type takes in the head: its own size when static, one word when dynamic. */
  function TypeSize(t: Type): nat
    decreases t, 1
  {
    if t.Array? && !IsDynamic(t.elem) then
      if t.elem.Array? || t.elem.Tuple? then t.size * TypeSize(t.elem) else t.size * 32
    else if t.Tuple? && !IsDynamic(t) then HeadSize(t, |t.fields|)
    else 32
  }

  /** The bytes the first n components take in the head. */
  function HeadSize(t: Type, n: nat): nat
    requires IsComposite(t) && (t.Tuple? ==> n <= |t.fields|)
    decreases t, 0, n
  {
    if n == 0 then 0 else HeadSize(t, n - 1) + TypeSize(ItemType(t, n - 1))
  }

  // ----- tuple keys -----

  function Decimal(n: nat): string
  {
    if n < 10 then [DIGITS[n]] else Decimal(n / 10) + [DIGITS[n % 10]]
  }

  const DIGITS: seq<char> := ['0', '1', '2', '3', '4', '5', '6', '7', '8', '9']

  /** The key a decoded tuple uses for component i. */
  function KeyOf(f: Field, i: nat): string { if f.name == "" then Decimal(i) else f.name }

  /** The key the encoder looks up in a record: the name in lower case. */
  function LowerKey(f: Field, i: nat): string { if f.name == "" then Decimal(i) else Lower(f.name) }

  function Lower(s: string): string
  {
    seq(|s|, i requires 0 <= i < |s| => if 'A' <= s[i] <= 'Z' then (s[i] as int - 'A' as int + 'a' as int) as char else s[i])
  }

  predicate DistinctKeys(fields: seq<Field>)
  {
    forall i, j :: 0 <= i < j < |fields| ==> KeyOf(fields[i], i) != KeyOf(fields[j], j)
  }

  // ----- well-formed types and their values -----

  /** Types the codec is meant for: no component of no width, byte strings of at most a word, distinct keys. */
  predicate WellFormed(t: Type)
  {
    match t
    case UInt(bits) => 8 <= bits <= 256 && bits % 8 == 0
    case Int(bits) => 8 <= bits <= 256 && bits % 8 == 0
    case FixedBytes(size) => 1 <= size <= 32
    case FixedPoint => false
    case Array(size, elem) => size > 0 && WellFormed(elem)
    case Slice(elem) => WellFormed(elem)
    case Tuple(fields) => |fields| > 0 && DistinctKeys(fields) && forall i :: 0 <= i < |fields| ==> WellFormed(fields[i].typ)
    case _ => true
  }

  /** The components of a composite value, as the encoder finds them; a record may lack a key. */
  function ItemsOf(t: Type, v: Value): (items: seq<Option<Value>>)
    requires IsComposite(t)
    requires v.FixedList? || v.List? || (t.Tuple? && v.Record?)
    requires t.Tuple? && !v.Record? ==> |v.items| >= |t.fields|
    ensures t.Tuple? ==> |items| == |t.fields|
  {
    if t.Tuple? then
      seq(|t.fields|, i requires 0 <= i < |t.fields| =>
        if !v.Record? then Some(v.items[i])
        else if LowerKey(t.fields[i], i) in v.entries then Some(v.entries[LowerKey(t.fields[i], i)])
        else None)
    else seq(|v.items|, i requires 0 <= i < |v.items| => Some(v.items[i]))
  }

  /** The value has the shape of the type, number by number and component by component. */
  predicate Matches(t: Type, v: Value)
    decreases t
  {
    match t
    case Bool => v.Flag?
    case UInt(bits) => v.Number? && 0 <= v.number < Pow2(bits)
    case Int(bits) => v.Number? && bits > 0 && 0 <= v.number + Pow2(bits - 1) < Pow2(bits)
    case String => v.Text?
    case AddressType => v.Blob? && |v.bytes| == 20
    case DynamicBytes => v.Blob?
    case FixedBytes(size) => v.Blob? && |v.bytes| == size
    case FixedPoint => false
    case Function => v.Blob? && |v.bytes| == 24
    case Slice(elem) => v.List? && forall i :: 0 <= i < |v.items| ==> Matches(elem, v.items[i])
    case Array(size, elem) => v.FixedList? && |v.items| == size && forall i :: 0 <= i < |v.items| ==> Matches(elem, v.items[i])
    case Tuple(fields) =>
      && (v.List? || v.FixedList? || v.Record?)
      && (if v.Record? then |v.entries| >= |fields| else |v.items| >= |fields|)
      && var items := ItemsOf(t, v);
         forall i :: 0 <= i < |fields| ==> items[i].Some? && Matches(fields[i].typ, items[i].value)
  }

  // ----- what decoding gives back -----

  /** The value as the decoder presents it: the same, but tuples are records under their declared keys. */
  function Canonical(t: Type, v: Value): Value
    requires Matches(t, v)
    decreases t, 1
  {
    match t
    case Slice(_) => List(CanonicalItems(t, ItemsOf(t, v), |v.items|))
    case Array(_, _) => FixedList(CanonicalItems(t, ItemsOf(t, v), |v.items|))
    case Tuple(fields) => Record(Keyed(fields, CanonicalItems(t, ItemsOf(t, v), |fields|)))
    case _ => v
  }

  function CanonicalItems(t: Type, items: seq<Option<Value>>, n: nat): (vs: seq<Value>)
    requires IsComposite(t) && n <= |items| && (t.Tuple? ==> n <= |t.fields|)
    requires forall i :: 0 <= i < n ==> items[i].Some? && Matches(ItemType(t, i), items[i].value)
    ensures |vs| == n
    decreases t, 0, n
  {
    if n == 0 then [] else CanonicalItems(t, items, n - 1) + [Canonical(ItemType(t, n - 1), items[n - 1].value)]
  }

  /** A record from the first fields and their values; an earlier key wins. */
  function Keyed(fields: seq<Field>, vs: seq<Value>): map<string, Value>
    requires |vs| <= |fields|
    decreases |vs|
  {
    if |vs| == 0 then map[]
    else Keyed(fields, vs[..|vs| - 1])[KeyOf(fields[|vs| - 1], |vs| - 1) := vs[|vs| - 1]]
  }
}
