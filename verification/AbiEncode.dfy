/** The encoder: heads with offsets, then tails. */
module AbiEncode {
  import opened Basics
  import opened Results
  import opened AbiTypes
  import opened AbiWords

  // ----- leaves -----

  function PackNum(n: nat): (w: Bytes)
    ensures |w| == 32
  {
    ToU256(n)
  }

  /** A byte string: its length, then its bytes padded to whole words. */
  function PackBytes(b: Bytes): (r: Bytes)
    ensures |r| % 32 == 0 && 32 + |b| <= |r| < 64 + |b|
    ensures r[..32] == PackNum(|b|) && r[32..32 + |b|] == b && forall i :: 32 + |b| <= i < |r| ==> r[i] == 0
  {
    PackNum(|b|) + PadBytes(b, (|b| + 31) / 32 * 32, false)
  }

  // ----- heads and tails -----

  /** Which of the first n components are dynamic. */
  function Dynamics(t: Type, n: nat): (d: seq<bool>)
    requires IsComposite(t) && (t.Tuple? ==> n <= |t.fields|)
    ensures |d| == n && forall i :: 0 <= i < n ==> d[i] == IsDynamic(ItemType(t, i))
  {
    seq(n, i requires 0 <= i < n => IsDynamic(ItemType(t, i)))
  }

  /** The encodings of the dynamic ones among the first n components. */
  function Tails(dynamic: seq<bool>, es: seq<Bytes>, n: nat): Bytes
    requires n <= |es| && n <= |dynamic|
  {
    if n == 0 then [] else Tails(dynamic, es, n - 1) + if dynamic[n - 1] then es[n - 1] else []
  }

  /**
   * The heads of the first n components, when all heads together take `size` bytes: a static component is its own
   * encoding, a dynamic one the offset of its tail.
   */
  function Heads(dynamic: seq<bool>, es: seq<Bytes>, n: nat, size: nat): Bytes
    requires n <= |es| && n <= |dynamic|
  {
    if n == 0 then []
    else Heads(dynamic, es, n - 1, size) +
         if dynamic[n - 1] then PackNum(size + |Tails(dynamic, es, n - 1)|) else es[n - 1]
  }

  function Layout(dynamic: seq<bool>, es: seq<Bytes>, size: nat): Bytes
    requires |es| == |dynamic|
  {
    Heads(dynamic, es, |es|, size) + Tails(dynamic, es, |es|)
  }

  // ----- the encoder as a function -----

  function Encode(t: Type, v: Value): Result<Bytes, Error>
    decreases t, 1
  {
    match t
    case Slice(_) => EncodeList(t, v)
    case Array(_, _) => EncodeList(t, v)
    case Tuple(_) => EncodeFields(t, v)
    case String => if v.Text? then Ok(PackBytes(v.bytes)) else Err(WrongKind)
    case Bool => if v.Flag? then Ok(PadBytes(if v.flag then [1] else [], 32, true)) else Err(WrongKind)
    case AddressType => if v.Blob? then Ok(PadBytes(v.bytes, 32, true)) else Err(WrongKind)
    case UInt(_) => if v.Number? then Ok(ToU256(v.number)) else Err(WrongKind)
    case Int(_) => if v.Number? then Ok(ToU256(v.number)) else Err(WrongKind)
    case DynamicBytes => if v.Blob? then Ok(PackBytes(v.bytes)) else Err(WrongKind)
    case FixedBytes(_) => if v.Blob? then Ok(PadBytes(v.bytes, 32, false)) else Err(WrongKind)
    case Function => if v.Blob? then Ok(PadBytes(v.bytes, 32, false)) else Err(WrongKind)
    case FixedPoint => Err(NotAvailable)
  }

  function EncodeList(t: Type, v: Value): Result<Bytes, Error>
    requires t.Slice? || t.Array?
    decreases t, 0, 1, 0
  {
    if !(v.FixedList? || v.List?) then Err(WrongKind)
    else if v.FixedList? && !t.Array? then Err(ExpectedArray)
    else if v.List? && !t.Slice? then Err(ExpectedSlice)
    else if t.Array? && t.size != |v.items| then Err(LengthIncompatible)
    else
      var es := EncodeItems(t, ItemsOf(t, v), |v.items|);
      if es.Err? then Err(es.error)
      else
        var n := |v.items|;
        Ok((if IsVariableInput(t) then PackNum(n) else []) + Layout(Dynamics(t, n), es.value, HeadSize(t, n)))
  }

  function EncodeFields(t: Type, v: Value): Result<Bytes, Error>
    requires t.Tuple?
    decreases t, 0, 1, 0
  {
    if !(v.List? || v.FixedList? || v.Record?) then Err(WrongKind)
    else if (if v.Record? then |v.entries| else |v.items|) < |t.fields| then Err(TupleTooShort)
    else
      var n := |t.fields|;
      var es := EncodeItems(t, ItemsOf(t, v), n);
      if es.Err? then Err(es.error) else Ok(Layout(Dynamics(t, n), es.value, HeadSize(t, n)))
  }

  /** The encodings of the first n components, or the first error. */
  function EncodeItems(t: Type, items: seq<Option<Value>>, n: nat): (r: Result<seq<Bytes>, Error>)
    requires IsComposite(t) && n <= |items| && (t.Tuple? ==> n <= |t.fields|)
    ensures r.Ok? ==> |r.value| == n
    decreases t, 0, 0, n
  {
    if n == 0 then Ok([])
    else
      var before := EncodeItems(t, items, n - 1);
      if before.Err? then before
      else if items[n - 1].None? then Err(MissingKey)
      else
        var e := Encode(ItemType(t, n - 1), items[n - 1].value);
        if e.Err? then Err(e.error) else Ok(before.value + [e.value])
  }

  /** One more component: its error, or one more encoding. */
  lemma NextItem(t: Type, items: seq<Option<Value>>, es: seq<Bytes>, i: nat)
    requires IsComposite(t) && i < |items| && (t.Tuple? ==> i < |t.fields|) && EncodeItems(t, items, i) == Ok(es)
    ensures items[i].None? ==> EncodeItems(t, items, i + 1) == Err(MissingKey)
    ensures items[i].Some? ==>
              var e := Encode(ItemType(t, i), items[i].value);
              EncodeItems(t, items, i + 1) == if e.Err? then Err(e.error) else Ok(es + [e.value])
  {
    hide Encode;
  }

  lemma NoItems(t: Type, items: seq<Option<Value>>)
    requires IsComposite(t)
    ensures EncodeItems(t, items, 0) == Ok([])
  {
  }

  lemma {:induction false} FirstErrorStays(t: Type, items: seq<Option<Value>>, i: nat, n: nat)
    requires IsComposite(t) && i <= n <= |items| && (t.Tuple? ==> n <= |t.fields|)
    requires EncodeItems(t, items, i).Err?
    ensures EncodeItems(t, items, n) == EncodeItems(t, items, i)
    decreases n - i
  {
    if i < n {
      FirstErrorStays(t, items, i, n - 1);
    }
  }

  /** One more component leaves the earlier heads and tails alone. */
  lemma {:induction false} EarlierParts(dynamic: seq<bool>, es: seq<Bytes>, e: Bytes, n: nat, size: nat)
    requires n <= |es| && n <= |dynamic|
    ensures Heads(dynamic, es + [e], n, size) == Heads(dynamic, es, n, size)
    ensures Tails(dynamic, es + [e], n) == Tails(dynamic, es, n)
  {
    hide PackNum;
    if n > 0 {
      EarlierParts(dynamic, es, e, n - 1, size);
    }
  }

  /** One more component adds one head and, when dynamic, one tail. */
  lemma NextParts(dynamic: seq<bool>, es: seq<Bytes>, e: Bytes, size: nat)
    requires |es| < |dynamic|
    ensures var n := |es|;
            && Tails(dynamic, es + [e], n + 1) == (if dynamic[n] then Tails(dynamic, es, n) + e else Tails(dynamic, es, n))
            && Heads(dynamic, es + [e], n + 1, size) ==
                 Heads(dynamic, es, n, size) + (if dynamic[n] then PackNum(size + |Tails(dynamic, es, n)|) else e)
  {
    hide PackNum;
    EarlierParts(dynamic, es, e, |es|, size);
    assert (es + [e])[|es|] == e;
    assert Tails(dynamic, es, |es|) + [] == Tails(dynamic, es, |es|);
  }

  lemma NoParts(dynamic: seq<bool>, size: nat)
    ensures Tails(dynamic, [], 0) == [] && Heads(dynamic, [], 0, size) == []
  {
  }

  /** An array's head size is its length times the size of its element's head. */
  lemma {:induction false} ListHeadSize(t: Type, n: nat)
    requires t.Slice? || t.Array?
    ensures HeadSize(t, n) == TypeSize(t.elem) * n
  {
    if n > 0 {
      ListHeadSize(t, n - 1);
    }
  }

  // ----- the encoder as it runs -----

  method EncodeValue(t: Type, v: Value) returns (r: Result<Bytes, Error>)
    ensures r == Encode(t, v)
    decreases t, 1
  {
    match t {
      case Slice(_) => r := EncodeSliceAndArray(t, v);
      case Array(_, _) => r := EncodeSliceAndArray(t, v);
      case Tuple(_) => r := EncodeTuple(t, v);
      case _ => r := Encode(t, v);
    }
  }

  /** One pass over the elements, growing heads and tails; the offset moves with the tail. */
  method EncodeSliceAndArray(t: Type, v: Value) returns (r: Result<Bytes, Error>)
    requires t.Slice? || t.Array?
    ensures r == EncodeList(t, v)
    decreases t, 0
  {
    hide Encode, EncodeItems, IsDynamic, PackNum, TypeSize, HeadSize, Heads, Tails;
    if !(v.FixedList? || v.List?) {
      return Err(WrongKind);
    }
    if v.FixedList? && !t.Array? {
      return Err(ExpectedArray);
    } else if v.List? && !t.Slice? {
      return Err(ExpectedSlice);
    }
    if t.Array? && t.size != |v.items| {
      return Err(LengthIncompatible);
    }
    var length: Bytes := if IsVariableInput(t) then PackNum(|v.items|) else [];
    var ret, tail: Bytes := [], [];
    var isDynamic := IsDynamic(t.elem);
    var n := |v.items|;
    var offset := if isDynamic then TypeSize(t.elem) * n else 0;
    ghost var items := ItemsOf(t, v);
    ghost var es: seq<Bytes> := [];
    ghost var dynamic, size := Dynamics(t, n), HeadSize(t, n);
    NoParts(dynamic, size);
    NoItems(t, items);
    ListHeadSize(t, n);
    var i := 0;
    while i < n
      invariant 0 <= i <= n && |es| == i
      invariant EncodeItems(t, items, i) == Ok(es)
      invariant tail == Tails(dynamic, es, i)
      invariant isDynamic ==> offset == size + |tail|
      invariant ret == Heads(dynamic, es, i, size)
    {
      NextItem(t, items, es, i);
      var val := EncodeValue(t.elem, v.items[i]);
      if val.Err? {
        FirstErrorStays(t, items, i + 1, n);
        return val;
      }
      NextParts(dynamic, es, val.value, size);
      if !isDynamic {
        ret := ret + val.value;
      } else {
        ret := ret + PackNum(offset);
        offset := offset + |val.value|;
        tail := tail + val.value;
      }
      es := es + [val.value];
      i := i + 1;
    }
    assert length + (ret + tail) == length + ret + tail;
    r := Ok(length + ret + tail);
  }

  method SumSizes(t: Type) returns (offset: nat)
    requires t.Tuple?
    ensures offset == HeadSize(t, |t.fields|)
  {
    offset := 0;
    for k := 0 to |t.fields|
      invariant offset == HeadSize(t, k)
    {
      offset := offset + TypeSize(t.fields[k].typ);
    }
  }

  /** The same for a tuple, whose components have their own types and come by index or by key. */
  method EncodeTuple(t: Type, v: Value) returns (r: Result<Bytes, Error>)
    requires t.Tuple?
    ensures r == EncodeFields(t, v)
    decreases t, 0
  {
    hide Encode, EncodeItems, IsDynamic, PackNum, TypeSize, HeadSize, Heads, Tails;
    if !(v.List? || v.FixedList? || v.Record?) {
      return Err(WrongKind);
    }
    var isList := !v.Record?;
    if (if isList then |v.items| else |v.entries|) < |t.fields| {
      return Err(TupleTooShort);
    }
    var n := |t.fields|;
    var offset := SumSizes(t);
    ghost var items := ItemsOf(t, v);
    ghost var es: seq<Bytes> := [];
    ghost var dynamic, size := Dynamics(t, n), HeadSize(t, n);
    NoParts(dynamic, size);
    NoItems(t, items);
    var ret, tail: Bytes := [], [];
    var i := 0;
    while i < n
      invariant 0 <= i <= n && |es| == i
      invariant EncodeItems(t, items, i) == Ok(es)
      invariant tail == Tails(dynamic, es, i)
      invariant offset == size + |tail|
      invariant ret == Heads(dynamic, es, i, size)
    {
      NextItem(t, items, es, i);
      var aux: Value;
      if isList {
        aux := v.items[i];
      } else {
        var key := LowerKey(t.fields[i], i);
        if key !in v.entries {
          FirstErrorStays(t, items, i + 1, n);
          return Err(MissingKey);
        }
        aux := v.entries[key];
      }
      var val := EncodeValue(t.fields[i].typ, aux);
      if val.Err? {
        FirstErrorStays(t, items, i + 1, n);
        return val;
      }
      NextParts(dynamic, es, val.value, size);
      if IsDynamic(t.fields[i].typ) {
        ret := ret + PackNum(offset);
        tail := tail + val.value;
        offset := offset + |val.value|;
      } else {
        ret := ret + val.value;
      }
      es := es + [val.value];
      i := i + 1;
    }
    r := Ok(ret + tail);
  }
}
