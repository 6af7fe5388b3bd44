/** The decoder: it follows the offsets of dynamic components and consumes the static ones in place. */
module AbiDecode {
  import opened Basics
  import opened BigEndian
  import opened Results
  import opened AbiTypes

  // ----- readers -----

  /** The length word of a variable input: below 2^63 and no longer than what is left. */
  function ReadLength(data: Bytes): (r: Result<nat, Error>)
    requires |data| >= 32
    ensures r.Ok? <==> FromBytes(data[..32]) < 0x8000_0000_0000_0000 && FromBytes(data[..32]) <= |data|
    ensures r.Ok? ==> r.value == FromBytes(data[..32])
  {
    var n := FromBytes(data[..32]);
    if n >= 0x8000_0000_0000_0000 then Err(LengthTooLarge)
    else if n > |data| then Err(LengthInsufficient)
    else Ok(n)
  }

  /** An offset word: below 2^63 and inside the enclosing data. */
  function ReadOffset(data: Bytes, len: nat): (r: Result<nat, Error>)
    ensures r.Ok? <==> |data| >= 32 && FromBytes(data[..32]) < 0x8000_0000_0000_0000 && FromBytes(data[..32]) <= len
    ensures r.Ok? ==> r.value == FromBytes(data[..32])
  {
    if |data| < 32 then Err(OutOfRange)
    else
      var n := FromBytes(data[..32]);
      if n >= 0x8000_0000_0000_0000 then Err(OffsetTooLarge)
      else if n > len then Err(OffsetInsufficient)
      else Ok(n)
  }

  /** Two's complement in a given modulus. */
  function Signed(n: nat, modulus: nat): int { if n >= modulus / 2 then n - modulus else n }

  /** Native widths read only their own low bytes; every other width reads the whole word. */
  function ReadInteger(t: Type, word: Bytes): int
    requires (t.UInt? || t.Int?) && |word| == 32
  {
    var bits := t.bits;
    var n := if bits == 8 then FromBytes(word[31..])
             else if bits == 16 then FromBytes(word[30..])
             else if bits == 32 then FromBytes(word[28..])
             else if bits == 64 then FromBytes(word[24..])
             else FromBytes(word);
    if t.UInt? then n
    else Signed(n, if bits == 8 then 0x100 else if bits == 16 then 0x1_0000 else if bits == 32 then 0x1_0000_0000
                   else if bits == 64 then 0x1_0000_0000_0000_0000 else TWO_256)
  }

  predicate AllZeros(b: Bytes) { forall i :: 0 <= i < |b| ==> b[i] == 0 }

  /** A value of one word, or the byte string behind its length word. */
  function DecodeLeaf(t: Type, input: Bytes, length: nat): Result<Value, Error>
    requires |input| >= 32
  {
    var word := input[..32];
    match t
    case Bool => if word[31] == 0 then Ok(Flag(false)) else if word[31] == 1 then Ok(Flag(true)) else Err(BadBoolean)
    case UInt(_) => Ok(Number(ReadInteger(t, word)))
    case Int(_) => Ok(Number(ReadInteger(t, word)))
    case String => if 32 + length > |input| then Err(OutOfRange) else Ok(Text(input[32..32 + length]))
    case DynamicBytes => if 32 + length > |input| then Err(OutOfRange) else Ok(Blob(input[32..32 + length]))
    case AddressType => Ok(Blob(word[12..]))
    case FixedBytes(size) => if size > 32 then Err(OutOfRange) else Ok(Blob(word[..size]))
    case Function => if AllZeros(word[24..]) then Ok(Blob(word[..24])) else Err(BadFunction)
    case _ => Err(NotAvailable)
  }

  // ----- the decoder as a function -----

  datatype Decoded<T> = Decoded(value: T, rest: Bytes)

  function Decode(t: Type, input: Bytes): Result<Decoded<Value>, Error>
    decreases t, 1
  {
    if |input| < 32 then Err(ShortInput)
    else
      var length := if IsVariableInput(t) then ReadLength(input) else Ok(0);
      if length.Err? then Err(length.error)
      else match t
        case Tuple(_) => DecodeFields(t, input)
        case Slice(_) => DecodeList(t, input[32..], length.value)
        case Array(size, _) => DecodeList(t, input, size)
        case _ =>
          var leaf := DecodeLeaf(t, input, length.value);
          if leaf.Err? then Err(leaf.error) else Ok(Decoded(leaf.value, input[32..]))
  }

  function DecodeFields(t: Type, data: Bytes): Result<Decoded<Value>, Error>
    requires t.Tuple?
    decreases t, 0, 1, 0
  {
    var r := DecodeItems(t, data, |t.fields|);
    if r.Err? then Err(r.error) else Ok(Decoded(Record(Keyed(t.fields, r.value.value)), r.value.rest))
  }

  function DecodeList(t: Type, data: Bytes, size: nat): Result<Decoded<Value>, Error>
    requires t.Slice? || t.Array?
    decreases t, 0, 1, 0
  {
    if 32 * size > |data| then Err(SizeTooBig)
    else
      var r := DecodeItems(t, data, size);
      if r.Err? then Err(r.error)
      else Ok(Decoded(if t.Slice? then List(r.value.value) else FixedList(r.value.value), r.value.rest))
  }

  /** The first n components and the heads that remain. */
  function DecodeItems(t: Type, orig: Bytes, n: nat): (r: Result<Decoded<seq<Value>>, Error>)
    requires IsComposite(t) && (t.Tuple? ==> n <= |t.fields|)
    ensures r.Ok? ==> |r.value.value| == n
    decreases t, 0, 0, n
  {
    if n == 0 then Ok(Decoded([], orig))
    else
      var before := DecodeItems(t, orig, n - 1);
      if before.Err? then before
      else DecodeItem(t, orig, n - 1, before.value)
  }

  /** One more component: a dynamic one lies behind its offset, a static one at the front of the remaining heads. */
  function DecodeItem(t: Type, orig: Bytes, i: nat, before: Decoded<seq<Value>>): (r: Result<Decoded<seq<Value>>, Error>)
    requires IsComposite(t) && (t.Tuple? ==> i < |t.fields|)
    ensures r.Ok? ==> |r.value.value| == |before.value| + 1
    decreases t, 0, 0, i
  {
    var elem := ItemType(t, i);
    var offset := if IsDynamic(elem) then ReadOffset(before.rest, |orig|) else Ok(0);
    if offset.Err? then Err(offset.error)
    else
      var one := Decode(elem, if IsDynamic(elem) then orig[offset.value..] else before.rest);
      if one.Err? then Err(one.error)
      else if t.Tuple? && RepeatsKey(t.fields, i) then Err(RepeatedKey)
      else Ok(Decoded(before.value + [one.value.value], if IsDynamic(elem) then before.rest[32..] else one.value.rest))
  }

  predicate RepeatsKey(fields: seq<Field>, i: nat)
    requires i < |fields|
  {
    exists j :: 0 <= j < i && KeyOf(fields[j], j) == KeyOf(fields[i], i)
  }

  lemma {:induction false} FirstErrorStays(t: Type, orig: Bytes, i: nat, n: nat)
    requires IsComposite(t) && i <= n && (t.Tuple? ==> n <= |t.fields|)
    requires DecodeItems(t, orig, i).Err?
    ensures DecodeItems(t, orig, n) == DecodeItems(t, orig, i)
    decreases n - i
  {
    if i < n {
      FirstErrorStays(t, orig, i, n - 1);
    }
  }

  /** The keys of a record built from the first fields. */
  lemma {:induction false} KeyedKeys(fields: seq<Field>, vs: seq<Value>, key: string)
    requires |vs| <= |fields|
    ensures key in Keyed(fields, vs) <==> exists j :: 0 <= j < |vs| && KeyOf(fields[j], j) == key
  {
    var n := |vs|;
    if n > 0 {
      KeyedKeys(fields, vs[..n - 1], key);
    }
  }

  // ----- the decoder as it runs -----

  method DecodeValue(t: Type, input: Bytes) returns (r: Result<Decoded<Value>, Error>)
    ensures r == Decode(t, input)
    decreases t, 1
  {
    if |input| < 32 {
      return Err(ShortInput);
    }
    var length := 0;
    if IsVariableInput(t) {
      var l := ReadLength(input);
      if l.Err? {
        return Err(l.error);
      }
      length := l.value;
    }
    if t.Tuple? {
      r := DecodeTuple(t, input);
    } else if t.Slice? {
      r := DecodeArraySlice(t, input[32..], length);
    } else if t.Array? {
      r := DecodeArraySlice(t, input, t.size);
    } else {
      var leaf := DecodeLeaf(t, input, length);
      r := if leaf.Err? then Err(leaf.error) else Ok(Decoded(leaf.value, input[32..]));
    }
  }

  /** The loop over the components of a tuple, filling a record. */
  method DecodeTuple(t: Type, orig: Bytes) returns (r: Result<Decoded<Value>, Error>)
    requires t.Tuple?
    ensures r == DecodeFields(t, orig)
    decreases t, 0
  {
    hide Decode, IsDynamic, KeyOf;
    var res: map<string, Value> := map[];
    var data := orig;
    var n := |t.fields|;
    ghost var vs: seq<Value> := [];
    var i := 0;
    while i < n
      invariant 0 <= i <= n && |vs| == i
      invariant DecodeItems(t, orig, i) == Ok(Decoded(vs, data))
      invariant res == Keyed(t.fields, vs)
    {
      FirstErrors(t, orig, i, n);
      assert DecodeItems(t, orig, i + 1) == DecodeItem(t, orig, i, Decoded(vs, data));
      var elem := t.fields[i].typ;
      var entry := data;
      if IsDynamic(elem) {
        var offset := ReadOffset(data, |orig|);
        if offset.Err? {
          return Err(offset.error);
        }
        entry := orig[offset.value..];
      }
      var one := DecodeValue(elem, entry);
      if one.Err? {
        return Err(one.error);
      }
      if !IsDynamic(elem) {
        data := one.value.rest;
      } else {
        data := data[32..];
      }
      var key := KeyOf(t.fields[i], i);
      KeyedKeys(t.fields, vs, key);
      if key in res {
        return Err(RepeatedKey);
      }
      res := res[key := one.value.value];
      assert (vs + [one.value.value])[..i] == vs;
      vs := vs + [one.value.value];
      i := i + 1;
    }
    r := Ok(Decoded(Record(res), data));
  }

  /** An error at component i is the error of the whole. */
  lemma FirstErrors(t: Type, orig: Bytes, i: nat, n: nat)
    requires IsComposite(t) && i < n && (t.Tuple? ==> n <= |t.fields|)
    ensures DecodeItems(t, orig, i + 1).Err? ==> DecodeItems(t, orig, n) == DecodeItems(t, orig, i + 1)
  {
    if DecodeItems(t, orig, i + 1).Err? {
      FirstErrorStays(t, orig, i + 1, n);
    }
  }

  /** The loop over the elements of a slice or array. */
  method DecodeArraySlice(t: Type, orig: Bytes, size: nat) returns (r: Result<Decoded<Value>, Error>)
    requires t.Slice? || t.Array?
    ensures r == DecodeList(t, orig, size)
    decreases t, 0
  {
    hide Decode, IsDynamic;
    if 32 * size > |orig| {
      return Err(SizeTooBig);
    }
    var res: seq<Value> := [];
    var data := orig;
    var i := 0;
    while i < size
      invariant 0 <= i <= size && |res| == i
      invariant DecodeItems(t, orig, i) == Ok(Decoded(res, data))
    {
      FirstErrors(t, orig, i, size);
      assert DecodeItems(t, orig, i + 1) == DecodeItem(t, orig, i, Decoded(res, data));
      var isDynamic := IsDynamic(t.elem);
      var entry := data;
      if isDynamic {
        var offset := ReadOffset(data, |orig|);
        if offset.Err? {
          return Err(offset.error);
        }
        entry := orig[offset.value..];
      }
      var one := DecodeValue(t.elem, entry);
      if one.Err? {
        return Err(one.error);
      }
      if !isDynamic {
        data := one.value.rest;
      } else {
        data := data[32..];
      }
      res := res + [one.value.value];
      i := i + 1;
    }
    r := Ok(Decoded(if t.Slice? then List(res) else FixedList(res), data));
  }
}
