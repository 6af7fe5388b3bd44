/** Decoding an encoding, followed by anything, gives the value back. */
module AbiRoundTrip {
  import opened Arithmetic
  import opened Basics
  import opened BigEndian
  import opened Results
  import opened AbiTypes
  import opened AbiWords
  import opened AbiEncode
  import opened AbiDecode

  // ----- where the parts of a layout lie -----

  function Head(dynamic: seq<bool>, es: seq<Bytes>, k: nat, size: nat): Bytes
    requires k < |es| && k < |dynamic|
  {
    if dynamic[k] then PackNum(size + |Tails(dynamic, es, k)|) else es[k]
  }

  /** The head of component k follows the earlier heads. */
  lemma {:induction false} HeadPlace(dynamic: seq<bool>, es: seq<Bytes>, k: nat, n: nat, size: nat) returns (after: Bytes)
    requires k < n <= |es| && n <= |dynamic|
    ensures Heads(dynamic, es, n, size) == Heads(dynamic, es, k, size) + (Head(dynamic, es, k, size) + after)
    ensures Heads(dynamic, es, k + 1, size) == Heads(dynamic, es, k, size) + Head(dynamic, es, k, size)
    decreases n
  {
    hide PackNum;
    if k + 1 == n {
      after := [];
      assert Head(dynamic, es, k, size) + [] == Head(dynamic, es, k, size);
    } else {
      var a := HeadPlace(dynamic, es, k, n - 1, size);
      var last := Head(dynamic, es, n - 1, size);
      after := a + last;
      assert Heads(dynamic, es, n, size) == Heads(dynamic, es, n - 1, size) + last;
      assert Heads(dynamic, es, k, size) + (Head(dynamic, es, k, size) + a) + last
          == Heads(dynamic, es, k, size) + (Head(dynamic, es, k, size) + (a + last));
    }
  }

  /** The tail of a dynamic component follows the earlier tails. */
  lemma {:induction false} TailPlace(dynamic: seq<bool>, es: seq<Bytes>, k: nat, n: nat) returns (after: Bytes)
    requires k < n <= |es| && n <= |dynamic| && dynamic[k]
    ensures Tails(dynamic, es, n) == Tails(dynamic, es, k) + (es[k] + after)
    decreases n
  {
    if k + 1 == n {
      after := [];
      assert es[k] + [] == es[k];
    } else {
      var a := TailPlace(dynamic, es, k, n - 1);
      var last := if dynamic[n - 1] then es[n - 1] else [];
      after := a + last;
      assert Tails(dynamic, es, k) + (es[k] + a) + last == Tails(dynamic, es, k) + (es[k] + (a + last));
    }
  }

  lemma {:induction false} NoTails(dynamic: seq<bool>, es: seq<Bytes>, n: nat)
    requires n <= |es| && n <= |dynamic| && forall i :: 0 <= i < n ==> !dynamic[i]
    ensures Tails(dynamic, es, n) == []
  {
    if n > 0 {
      NoTails(dynamic, es, n - 1);
    }
  }

  // ----- sizes -----

  lemma StaticComponents(t: Type, n: nat)
    requires IsComposite(t) && !t.Slice? && !IsDynamic(t) && (t.Tuple? ==> n <= |t.fields|)
    ensures forall i :: 0 <= i < n ==> !IsDynamic(ItemType(t, i))
  {
  }

  lemma {:induction false} SizesPositive(t: Type)
    requires WellFormed(t)
    ensures TypeSize(t) >= 32
    ensures IsDynamic(t) ==> TypeSize(t) == 32
    decreases t, 1
  {
    if t.Array? {
      SizesPositive(t.elem);
      if !IsDynamic(t.elem) {
        assert t.size * TypeSize(t.elem) >= 32 && t.size * 32 >= 32;
      }
    } else if t.Tuple? {
      HeadsPositive(t, |t.fields|);
    }
  }

  lemma {:induction false} HeadsPositive(t: Type, n: nat)
    requires IsComposite(t) && WellFormed(t) && (t.Tuple? ==> n <= |t.fields|)
    ensures HeadSize(t, n) >= 32 * n
    decreases t, 0, n
  {
    if n > 0 {
      HeadsPositive(t, n - 1);
      SizesPositive(ItemType(t, n - 1));
    }
  }

  /** A static composite takes as much as its heads. */
  lemma StaticSize(t: Type, n: nat)
    requires WellFormed(t) && !IsDynamic(t) && ((t.Array? && n == t.size) || (t.Tuple? && n == |t.fields|))
    ensures TypeSize(t) == HeadSize(t, n)
  {
    if t.Array? {
      ListHeadSize(t, n);
    }
  }

  ghost predicate MatchingItems(t: Type, items: seq<Option<Value>>, n: nat)
  {
    && IsComposite(t) && n <= |items| && (t.Tuple? ==> n <= |t.fields|)
    && forall i :: 0 <= i < n ==> items[i].Some? && Matches(ItemType(t, i), items[i].value)
  }

  /** The number of components a matching value has. */
  function Count(t: Type, v: Value): nat
    requires IsComposite(t) && Matches(t, v)
  {
    if t.Tuple? then |t.fields| else |v.items|
  }

  lemma MatchingComponents(t: Type, v: Value)
    requires IsComposite(t) && Matches(t, v)
    ensures MatchingItems(t, ItemsOf(t, v), Count(t, v))
  {
  }

  /** Every matching value has an encoding, of at least a word; a static type's has exactly the type's size. */
  lemma {:induction false} EncodedShape(t: Type, v: Value)
    requires WellFormed(t) && Matches(t, v)
    ensures Encode(t, v).Ok? && |Encode(t, v).value| >= 32
    ensures !IsDynamic(t) ==> |Encode(t, v).value| == TypeSize(t)
    decreases t, 1
  {
    if IsComposite(t) {
      CompositeShape(t, v);
    } else {
      hide ToU256, PackNum;
    }
  }

  lemma {:induction false} CompositeShape(t: Type, v: Value)
    requires WellFormed(t) && Matches(t, v) && IsComposite(t)
    ensures Encode(t, v).Ok? && |Encode(t, v).value| >= 32
    ensures !IsDynamic(t) ==> |Encode(t, v).value| == TypeSize(t)
    decreases t, 0, 1, 0
  {
    hide PackNum, WellFormed, IsDynamic, TypeSize, HeadSize, Heads, Tails;
    var n := Count(t, v);
    var items := ItemsOf(t, v);
    MatchingComponents(t, v);
    ItemsShape(t, items, n);
    var es := EncodeItems(t, items, n).value;
    LayoutShape(t, es, n, HeadSize(t, n));
    HeadsPositive(t, n);
    CountPositive(t, v);
    if !IsDynamic(t) {
      NotSlice(t);
      StaticComponents(t, n);
      NoTails(Dynamics(t, n), es, n);
      StaticSize(t, n);
    }
  }

  lemma CountPositive(t: Type, v: Value)
    requires WellFormed(t) && Matches(t, v) && IsComposite(t)
    ensures t.Slice? || Count(t, v) > 0
  {
  }

  lemma NotSlice(t: Type)
    requires !IsDynamic(t)
    ensures !t.Slice?
  {
  }

  /** The encodings of the components have the sizes of their types. */
  lemma {:induction false} ItemsShape(t: Type, items: seq<Option<Value>>, n: nat)
    requires MatchingItems(t, items, n) && WellFormed(t)
    ensures EncodeItems(t, items, n).Ok?
    ensures SizedItems(t, EncodeItems(t, items, n).value, n)
    decreases t, 0, 0, n
  {
    hide Encode, WellFormed, IsDynamic, TypeSize, Matches;
    if n > 0 {
      ItemsShape(t, items, n - 1);
      ItemWellFormed(t, n - 1);
      EncodedShape(ItemType(t, n - 1), items[n - 1].value);
    }
  }

  lemma ItemWellFormed(t: Type, i: nat)
    requires IsComposite(t) && WellFormed(t) && (t.Tuple? ==> i < |t.fields|)
    ensures WellFormed(ItemType(t, i))
  {
  }

  ghost predicate SizedItems(t: Type, es: seq<Bytes>, n: nat)
  {
    && IsComposite(t) && |es| == n && (t.Tuple? ==> n <= |t.fields|)
    && forall i :: 0 <= i < n ==> |es[i]| >= 32 && (!IsDynamic(ItemType(t, i)) ==> |es[i]| == TypeSize(ItemType(t, i)))
  }

  lemma {:induction false} HeadsLength(t: Type, es: seq<Bytes>, n: nat, k: nat, size: nat)
    requires SizedItems(t, es, n) && WellFormed(t) && k <= n
    ensures |Heads(Dynamics(t, n), es, k, size)| == HeadSize(t, k)
    decreases k
  {
    hide WellFormed, IsDynamic, TypeSize, PackNum, Tails;
    if k > 0 {
      HeadsLength(t, es, n, k - 1, size);
      ItemWellFormed(t, k - 1);
      SizesPositive(ItemType(t, k - 1));
    }
  }

  lemma LayoutShape(t: Type, es: seq<Bytes>, n: nat, size: nat)
    requires SizedItems(t, es, n) && WellFormed(t)
    ensures |Heads(Dynamics(t, n), es, n, size)| == HeadSize(t, n)
    ensures |Layout(Dynamics(t, n), es, size)| == HeadSize(t, n) + |Tails(Dynamics(t, n), es, n)|
  {
    HeadsLength(t, es, n, n, size);
  }

  // ----- leaves -----

  lemma BitPowers()
    ensures Pow2(8) == 0x100 && Pow2(16) == 0x1_0000 && Pow2(32) == 0x1_0000_0000
    ensures Pow2(64) == 0x1_0000_0000_0000_0000 && Pow2(256) == TWO_256
  {
    assert Pow2(4) == 16;
    hide Pow2;
    Pow2Square(4, 16);
    Pow2Square(8, 0x100);
    Pow2Square(16, 0x1_0000);
    Pow2Square(32, 0x1_0000_0000);
    Pow2Square(64, 0x1_0000_0000_0000_0000);
    Pow2Square(128, 0x1_0000_0000_0000_0000_0000_0000_0000_0000);
  }

  /** A number in range of its type is inside 256 bits, halved for signed types. */
  lemma NumberRange(t: Type, n: int)
    requires WellFormed(t) && (t.UInt? || t.Int?) && Matches(t, Number(n))
    ensures t.UInt? ==> 0 <= n < TWO_256
    ensures t.Int? ==> 0 <= n + TWO_256 / 2 < TWO_256
    ensures t.bits == 8 ==> if t.UInt? then 0 <= n < 0x100 else 0 <= n + 0x80 < 0x100
    ensures t.bits == 16 ==> if t.UInt? then 0 <= n < 0x1_0000 else 0 <= n + 0x8000 < 0x1_0000
    ensures t.bits == 32 ==> if t.UInt? then 0 <= n < 0x1_0000_0000 else 0 <= n + 0x8000_0000 < 0x1_0000_0000
    ensures t.bits == 64 ==> if t.UInt? then 0 <= n < 0x1_0000_0000_0000_0000
                             else 0 <= n + 0x8000_0000_0000_0000 < 0x1_0000_0000_0000_0000
  {
    hide Pow2;
    BitPowers();
    Pow2Grows(t.bits, 256);
    Pow2Grows(t.bits - 1, 255);
    Pow2Step(t.bits - 1);
    Pow2Step(255);
  }

  /** The low part of a word, in a width that divides the word's. */
  lemma NarrowRead(n: int, m: nat, q: nat)
    requires q >= 1 && TWO_256 == m * q && 0 <= n + m < m + m
    ensures m > 0 && Wrapped(n) % m == if n < 0 then n + m else n
  {
    assert m > 0 && m <= TWO_256;
    if n < 0 {
      assert Wrapped(n) == m * (q - 1) + (n + m);
      RemainderUnique(Wrapped(n), m, q - 1, n + m);
    } else {
      RemainderUnique(Wrapped(n), m, 0, n);
    }
  }

  /** Reading a written number, for every width and sign. */
  lemma NumberRoundTrip(t: Type, n: int)
    requires WellFormed(t) && (t.UInt? || t.Int?) && Matches(t, Number(n))
    ensures ReadInteger(t, ToU256(n)) == n
  {
    hide WellFormed, Matches, ToU256, Pow256, FromBytes, Wrapped;
    NumberRange(t, n);
    WordPower();
    if t.bits == 8 {
      WordReads(n, 1);
      NarrowRead(n, 0x100, TWO_256 / 0x100);
    } else if t.bits == 16 {
      WordReads(n, 2);
      NarrowRead(n, 0x1_0000, TWO_256 / 0x1_0000);
    } else if t.bits == 32 {
      WordReads(n, 4);
      NarrowRead(n, 0x1_0000_0000, TWO_256 / 0x1_0000_0000);
    } else if t.bits == 64 {
      WordReads(n, 8);
      NarrowRead(n, 0x1_0000_0000_0000_0000, TWO_256 / 0x1_0000_0000_0000_0000);
    } else {
      WordReads(n, 0);
    }
  }

  /** A value of one word. */
  lemma WordRoundTrip(t: Type, v: Value, suffix: Bytes)
    requires WellFormed(t) && Matches(t, v) && !IsComposite(t) && !IsVariableInput(t)
    ensures Decode(t, Encode(t, v).value + suffix) == Ok(Decoded(v, suffix))
  {
    EncodedShape(t, v);
    var e := Encode(t, v).value;
    assert (e + suffix)[..32] == e && (e + suffix)[32..] == suffix;
    assert DecodeLeaf(t, e + suffix, 0) == Ok(v) by { WordLeaf(t, v, e + suffix); }
  }

  lemma WordLeaf(t: Type, v: Value, input: Bytes)
    requires WellFormed(t) && Matches(t, v) && !IsComposite(t) && !IsVariableInput(t)
    requires |input| >= 32 && Encode(t, v) == Ok(input[..32])
    ensures DecodeLeaf(t, input, 0) == Ok(v)
  {
    hide ToU256, FromBytes, Pow2;
    var word := input[..32];
    match t {
      case UInt(_) => NumberRoundTrip(t, v.number);
      case Int(_) => NumberRoundTrip(t, v.number);
      case AddressType => assert word[12..] == v.bytes;
      case FixedBytes(size) => assert word[..size] == v.bytes;
      case Function => assert word[..24] == v.bytes;
      case Bool =>
      case String =>
      case DynamicBytes =>
      case FixedPoint =>
      case Array(_, _) =>
      case Slice(_) =>
      case Tuple(_) =>
    }
  }

  /** Reading a number that was packed, at the front of anything. */
  lemma PackedReads(n: nat, rest: Bytes)
    requires n < 0x8000_0000_0000_0000
    ensures FromBytes((PackNum(n) + rest)[..32]) == n
  {
    hide FromBytes, ToU256, Wrapped;
    assert (PackNum(n) + rest)[..32] == PackNum(n);
    WordReads(n, 0);
    WrappedSmall(n);
  }

  lemma WrappedSmall(n: nat)
    requires n < 0x8000_0000_0000_0000
    ensures Wrapped(n) == n
  {
  }

  /** A byte string, however long its padding and whatever follows. */
  lemma BytesRoundTrip(t: Type, v: Value, suffix: Bytes)
    requires (t.String? || t.DynamicBytes?) && Matches(t, v) && |PackBytes(v.bytes)| < 0x8000_0000_0000_0000
    ensures Decode(t, Encode(t, v).value + suffix).Ok? && Decode(t, Encode(t, v).value + suffix).value.value == v
  {
    hide ToU256, FromBytes, PadBytes;
    var b := v.bytes;
    var padded := PadBytes(b, (|b| + 31) / 32 * 32, false);
    var input := PackNum(|b|) + padded + suffix;
    assert input == PackNum(|b|) + (padded + suffix);
    PackedReads(|b|, padded + suffix);
    assert ReadLength(input) == Ok(|b|);
    assert input[32..32 + |b|] == b by { PaddedFront(b); }
  }

  lemma PaddedFront(b: Bytes)
    ensures PadBytes(b, (|b| + 31) / 32 * 32, false)[..|b|] == b
  {
  }

  // ----- components -----

  lemma {:induction false} ItemEncoded(t: Type, items: seq<Option<Value>>, n: nat, i: nat)
    requires IsComposite(t) && i < n <= |items| && (t.Tuple? ==> n <= |t.fields|) && EncodeItems(t, items, n).Ok?
    ensures items[i].Some? && Encode(ItemType(t, i), items[i].value) == Ok(EncodeItems(t, items, n).value[i])
    decreases n
  {
    hide Encode;
    if i < n - 1 {
      ItemEncoded(t, items, n - 1, i);
    }
  }

  /** A value survives the trip, with any suffix; a static one leaves exactly the suffix. */
  ghost predicate Survives(t: Type, v: Value, suffix: Bytes)
    requires Matches(t, v)
  {
    && Encode(t, v).Ok?
    && var d := Decode(t, Encode(t, v).value + suffix);
       d.Ok? && d.value.value == Canonical(t, v) && (!IsDynamic(t) ==> d.value.rest == suffix)
  }

  /** One step of the decoder's loop, given where the component's bytes are. */
  lemma StepFrom(t: Type, orig: Bytes, i: nat, vs: seq<Value>, v: Value, off: nat, rest: Bytes, behind: Bytes)
    requires IsComposite(t) && (t.Tuple? ==> i < |t.fields| && !RepeatsKey(t.fields, i))
    requires Matches(ItemType(t, i), v) && Encode(ItemType(t, i), v).Ok?
    requires forall s: Bytes :: Survives(ItemType(t, i), v, s)
    requires off < 0x8000_0000_0000_0000 && off <= |orig|
    requires IsDynamic(ItemType(t, i)) ==> orig[off..] == Encode(ItemType(t, i), v).value + behind
    ensures var head := if IsDynamic(ItemType(t, i)) then PackNum(off) else Encode(ItemType(t, i), v).value;
            DecodeItem(t, orig, i, Decoded(vs, head + rest)) == Ok(Decoded(vs + [Canonical(ItemType(t, i), v)], rest))
  {
    hide IsDynamic, Decode, Encode, Canonical, Matches, PackNum;
    if IsDynamic(ItemType(t, i)) {
      PackedReads(off, rest);
      assert (PackNum(off) + rest)[32..] == rest;
      assert Survives(ItemType(t, i), v, behind);
    } else {
      assert Survives(ItemType(t, i), v, rest);
    }
  }

  /** Where the bytes of component i are: its head after the earlier heads, its tail at its offset. */
  lemma Places(d: seq<bool>, es: seq<Bytes>, i: nat, suffix: Bytes, size: nat) returns (rest: Bytes, behind: Bytes)
    requires i < |es| == |d| && |Heads(d, es, |es|, size)| == size
    ensures var orig := Layout(d, es, size) + suffix;
            && HeadsEnd(d, es, i, size) <= |orig| && orig[HeadsEnd(d, es, i, size)..] == Head(d, es, i, size) + rest
            && HeadsEnd(d, es, i + 1, size) <= |orig| && orig[HeadsEnd(d, es, i + 1, size)..] == rest
            && (d[i] ==> size + |Tails(d, es, i)| <= |Layout(d, es, size)| &&
                         orig[size + |Tails(d, es, i)|..] == es[i] + behind)
  {
    hide PackNum, Tails, Heads, Head;
    var n := |es|;
    var orig := Layout(d, es, size) + suffix;
    var after := HeadPlace(d, es, i, n, size);
    rest := after + Tails(d, es, n) + suffix;
    behind := [];
    assert orig == Heads(d, es, i, size) + (Head(d, es, i, size) + rest);
    assert orig == Heads(d, es, i + 1, size) + rest;
    if d[i] {
      var last := TailPlace(d, es, i, n);
      behind := last + suffix;
      assert orig == (Heads(d, es, n, size) + Tails(d, es, i)) + (es[i] + behind);
    }
  }

  /** Component i of a layout is decoded from its place, whether in the heads or among the tails. */
  lemma ItemStep(t: Type, es: seq<Bytes>, n: nat, i: nat, suffix: Bytes, vs: seq<Value>, v: Value)
    requires WellFormed(t) && SizedItems(t, es, n) && i < n
    requires (t.Tuple? ==> !RepeatsKey(t.fields, i)) && Matches(ItemType(t, i), v) && Encode(ItemType(t, i), v) == Ok(es[i])
    requires |Layout(Dynamics(t, n), es, HeadSize(t, n))| < 0x8000_0000_0000_0000
    requires forall s: Bytes :: Survives(ItemType(t, i), v, s)
    ensures var (d, size) := (Dynamics(t, n), HeadSize(t, n));
            var orig := Layout(d, es, size) + suffix;
            && HeadsEnd(d, es, i, size) <= |orig| && HeadsEnd(d, es, i + 1, size) <= |orig|
            && DecodeItem(t, orig, i, Decoded(vs, orig[HeadsEnd(d, es, i, size)..])) ==
                 Ok(Decoded(vs + [Canonical(ItemType(t, i), v)], orig[HeadsEnd(d, es, i + 1, size)..]))
  {
    hide WellFormed, IsDynamic, DecodeItem, Encode, Canonical, Matches, PackNum, Tails, Heads, HeadSize, TypeSize, Survives;
    hide Layout, HeadsEnd, RepeatsKey;
    var d, size := Dynamics(t, n), HeadSize(t, n);
    LayoutShape(t, es, n, size);
    var rest, behind := Places(d, es, i, suffix, size);
    StepFrom(t, Layout(d, es, size) + suffix, i, vs, v, if d[i] then size + |Tails(d, es, i)| else 0, rest, behind);
  }

  /** Where the first k heads end. */
  function HeadsEnd(dynamic: seq<bool>, es: seq<Bytes>, k: nat, size: nat): nat
    requires k <= |es| && k <= |dynamic|
  {
    |Heads(dynamic, es, k, size)|
  }

  /** A component is no longer than the layout it is part of. */
  lemma ItemFits(t: Type, es: seq<Bytes>, n: nat, i: nat, size: nat)
    requires SizedItems(t, es, n) && i < n
    ensures |es[i]| <= |Layout(Dynamics(t, n), es, size)|
  {
    hide IsDynamic, TypeSize, PackNum;
    var d := Dynamics(t, n);
    var after := HeadPlace(d, es, i, n, size);
    if d[i] {
      var last := TailPlace(d, es, i, n);
    }
  }

  /** The decoder's loop over the components of a layout, k components on. */
  lemma {:induction false} ItemsSurvive(t: Type, items: seq<Option<Value>>, n: nat, suffix: Bytes, k: nat)
    requires WellFormed(t) && MatchingItems(t, items, n) && k <= n && EncodeItems(t, items, n).Ok?
    requires |Layout(Dynamics(t, n), EncodeItems(t, items, n).value, HeadSize(t, n))| < 0x8000_0000_0000_0000
    ensures var (d, es, size) := (Dynamics(t, n), EncodeItems(t, items, n).value, HeadSize(t, n));
            var orig := Layout(d, es, size) + suffix;
            && HeadsEnd(d, es, k, size) <= |orig|
            && DecodeItems(t, orig, k) == Ok(Decoded(CanonicalItems(t, items, k), orig[HeadsEnd(d, es, k, size)..]))
    decreases t, 0, 0, k
  {
    hide WellFormed, IsDynamic, Decode, Encode, EncodeItems, DecodeItem, Canonical, Matches, PackNum, Layout, HeadSize;
    hide TypeSize, Survives;
    var d, es, size := Dynamics(t, n), EncodeItems(t, items, n).value, HeadSize(t, n);
    var orig := Layout(d, es, size) + suffix;
    if k == 0 {
      assert HeadsEnd(d, es, 0, size) == 0 && orig[0..] == orig;
    } else {
      var i := k - 1;
      ItemsSurvive(t, items, n, suffix, i);
      ItemsShape(t, items, n);
      ItemEncoded(t, items, n, i);
      ItemWellFormed(t, i);
      ItemFits(t, es, n, i, size);
      NoRepeats(t, i);
      forall s: Bytes ensures Survives(ItemType(t, i), items[i].value, s) {
        RoundTrip(ItemType(t, i), items[i].value, s);
      }
      ItemStep(t, es, n, i, suffix, CanonicalItems(t, items, i), items[i].value);
    }
  }

  lemma NoRepeats(t: Type, i: nat)
    requires WellFormed(t) && (t.Tuple? ==> i < |t.fields|)
    ensures t.Tuple? ==> !RepeatsKey(t.fields, i)
  {
  }

  lemma {:induction false} CompositeSurvives(t: Type, v: Value, suffix: Bytes)
    requires WellFormed(t) && Matches(t, v) && IsComposite(t) && Encode(t, v).Ok?
    requires |Encode(t, v).value| < 0x8000_0000_0000_0000
    ensures Survives(t, v, suffix)
    decreases t, 0, 1, 0
  {
    hide WellFormed, IsDynamic, PackNum, HeadSize, TypeSize, DecodeItems, EncodeItems, CanonicalItems, Heads, Tails, Keyed;
    var n := Count(t, v);
    var items := ItemsOf(t, v);
    MatchingComponents(t, v);
    ItemsShape(t, items, n);
    var es := EncodeItems(t, items, n).value;
    var d, size := Dynamics(t, n), HeadSize(t, n);
    var layout := Layout(d, es, size);
    CompositeForm(t, v);
    var orig := layout + suffix;
    ItemsSurvive(t, items, n, suffix, n);
    LayoutShape(t, es, n, size);
    HeadsPositive(t, n);
    CountPositive(t, v);
    var input := Encode(t, v).value + suffix;
    if t.Slice? {
      assert input == PackNum(n) + orig;
      PackedReads(n, orig);
      assert ReadLength(input) == Ok(n);
      assert input[32..] == orig;
      assert Decode(t, input) == DecodeList(t, orig, n);
      SliceDynamic(t);
    } else {
      assert input == orig && |input| >= 32;
      if !IsDynamic(t) {
        StaticComponents(t, n);
        NoTails(d, es, n);
        assert orig[HeadsEnd(d, es, n, size)..] == suffix;
      }
      if t.Array? {
        assert Decode(t, input) == DecodeList(t, input, n);
      } else {
        assert Decode(t, input) == DecodeFields(t, input);
      }
    }
  }

  lemma SliceDynamic(t: Type)
    requires t.Slice?
    ensures IsDynamic(t)
  {
  }

  /** The encoding of a composite value is its layout, after the length for slices. */
  lemma CompositeForm(t: Type, v: Value)
    requires IsComposite(t) && Matches(t, v) && EncodeItems(t, ItemsOf(t, v), Count(t, v)).Ok?
    ensures var n := Count(t, v);
            var layout := Layout(Dynamics(t, n), EncodeItems(t, ItemsOf(t, v), n).value, HeadSize(t, n));
            Encode(t, v) == Ok(if t.Slice? then PackNum(n) + layout else layout)
  {
    hide IsDynamic, PackNum, HeadSize, EncodeItems, Heads, Tails;
    var n := Count(t, v);
    var layout := Layout(Dynamics(t, n), EncodeItems(t, ItemsOf(t, v), n).value, HeadSize(t, n));
    assert [] + layout == layout;
  }

  /**
   * The round trip: for every well-formed type and matching value whose encoding is shorter than 2^63 bytes, decoding
   * the encoding followed by any suffix gives the value back, and a static type leaves exactly the suffix.
   */
  lemma {:induction false} RoundTrip(t: Type, v: Value, suffix: Bytes)
    requires WellFormed(t) && Matches(t, v)
    requires Encode(t, v).Ok? && |Encode(t, v).value| < 0x8000_0000_0000_0000
    ensures Survives(t, v, suffix)
    decreases t, 1
  {
    if IsComposite(t) {
      CompositeSurvives(t, v, suffix);
    } else if IsVariableInput(t) {
      BytesRoundTrip(t, v, suffix);
    } else {
      WordRoundTrip(t, v, suffix);
    }
  }

  // ----- why keys are distinct -----

  /** A tuple with two equal keys is never decoded, whatever the input. */
  lemma RepeatedKeyNeverDecodes(t: Type, i: nat, input: Bytes)
    requires t.Tuple? && i < |t.fields| && RepeatsKey(t.fields, i)
    ensures Decode(t, input).Err?
  {
    hide IsDynamic;
    if |input| >= 32 {
      var before := DecodeItems(t, input, i);
      assert before.Ok? ==> DecodeItems(t, input, i + 1) == DecodeItem(t, input, i, before.value);
      AbiDecode.FirstErrorStays(t, input, i + 1, |t.fields|);
    }
  }
}
