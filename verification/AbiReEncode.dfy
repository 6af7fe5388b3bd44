/** Encoding a decoded value again: which types give back the bytes the value came from. */
module AbiReEncode {
  import opened Basics
  import opened BigEndian
  import opened Results
  import opened Arithmetic
  import opened AbiTypes
  import opened AbiWords
  import opened AbiEncode
  import opened AbiDecode
  import opened AbiRoundTrip

  // ----- types whose names are in lower case -----

  /** Every tuple key is found under its lower-case form. */
  predicate LowerNames(t: Type)
  {
    match t
    case Array(_, elem) => LowerNames(elem)
    case Slice(elem) => LowerNames(elem)
    case Tuple(fields) => forall i :: 0 <= i < |fields| ==> LowerKey(fields[i], i) == KeyOf(fields[i], i) && LowerNames(fields[i].typ)
    case _ => true
  }

  /** The keys of the tuple itself are found under their lower-case form, whatever the types of its components. */
  predicate OwnKeysLower(t: Type)
  {
    t.Tuple? ==> forall i :: 0 <= i < |t.fields| ==> LowerKey(t.fields[i], i) == KeyOf(t.fields[i], i)
  }

  lemma {:induction false} KeyedLookup(fields: seq<Field>, vs: seq<Value>, i: nat)
    requires i < |vs| <= |fields| && DistinctKeys(fields)
    ensures KeyOf(fields[i], i) in Keyed(fields, vs) && Keyed(fields, vs)[KeyOf(fields[i], i)] == vs[i]
    decreases |vs|
  {
    hide KeyOf;
    if i < |vs| - 1 {
      KeyedLookup(fields, vs[..|vs| - 1], i);
    }
  }

  lemma {:induction false} KeyedSize(fields: seq<Field>, vs: seq<Value>)
    requires |vs| <= |fields| && DistinctKeys(fields)
    ensures |Keyed(fields, vs)| == |vs|
    decreases |vs|
  {
    hide KeyOf;
    if |vs| > 0 {
      var n := |vs| - 1;
      KeyedSize(fields, vs[..n]);
      KeyedKeys(fields, vs[..n], KeyOf(fields[n], n));
    }
  }

  lemma {:induction false} CanonicalItem(t: Type, items: seq<Option<Value>>, n: nat, i: nat)
    requires MatchingItems(t, items, n) && i < n
    ensures CanonicalItems(t, items, n)[i] == Canonical(ItemType(t, i), items[i].value)
    decreases n
  {
    hide Matches, Canonical;
    if i < n - 1 {
      CanonicalItem(t, items, n - 1, i);
    }
  }

  /** The components the encoder finds in a decoded value are the decoded components. */
  lemma DecodedItems(t: Type, v: Value, i: nat)
    requires WellFormed(t) && OwnKeysLower(t) && IsComposite(t) && Matches(t, v) && i < Count(t, v)
    ensures MatchingItems(t, ItemsOf(t, v), Count(t, v))
    ensures var c := Canonical(t, v);
            && (if t.Slice? then c.List? else if t.Array? then c.FixedList? else c.Record?)
            && (if t.Tuple? then |c.entries| == |t.fields| else |c.items| == |v.items|)
            && ItemsOf(t, c)[i] == Some(Canonical(ItemType(t, i), ItemsOf(t, v)[i].value))
  {
    hide Keyed, CanonicalItems, KeyOf, LowerKey;
    MatchingComponents(t, v);
    var n := Count(t, v);
    CanonicalItem(t, ItemsOf(t, v), n, i);
    if t.Tuple? {
      KeyedLookup(t.fields, CanonicalItems(t, ItemsOf(t, v), n), i);
      KeyedSize(t.fields, CanonicalItems(t, ItemsOf(t, v), n));
    }
  }

  /** A value with n components, of the kind the encoder expects for the type. */
  ghost predicate Encodable(t: Type, v: Value, n: nat)
  {
    && IsComposite(t)
    && (t.Slice? ==> v.List? && |v.items| == n)
    && (t.Array? ==> v.FixedList? && |v.items| == t.size == n)
    && (t.Tuple? ==> n == |t.fields| && (v.List? || v.FixedList? || v.Record?)
                     && n <= if v.Record? then |v.entries| else |v.items|)
  }

  /** The encoding of a composite value is determined by the encodings of its components. */
  ghost function Assemble(t: Type, n: nat, es: Result<seq<Bytes>, Error>): Result<Bytes, Error>
    requires IsComposite(t) && (t.Tuple? ==> n <= |t.fields|) && (es.Ok? ==> |es.value| == n)
  {
    if es.Err? then Err(es.error)
    else Ok((if t.Slice? then PackNum(n) else []) + Layout(Dynamics(t, n), es.value, HeadSize(t, n)))
  }

  lemma Assembled(t: Type, v: Value, n: nat)
    requires Encodable(t, v, n)
    ensures Encode(t, v) == Assemble(t, n, EncodeItems(t, ItemsOf(t, v), n))
  {
    hide IsDynamic, PackNum, HeadSize, EncodeItems, Heads, Tails;
    var es := EncodeItems(t, ItemsOf(t, v), n);
    if es.Ok? {
      var layout := Layout(Dynamics(t, n), es.value, HeadSize(t, n));
      assert [] + layout == layout;
    }
  }

  lemma EncodableBoth(t: Type, v: Value)
    requires WellFormed(t) && IsComposite(t) && Matches(t, v)
    ensures Encodable(t, v, Count(t, v)) && Encodable(t, Canonical(t, v), Count(t, v))
  {
    hide Keyed, CanonicalItems;
    MatchingComponents(t, v);
    if t.Tuple? {
      KeyedSize(t.fields, CanonicalItems(t, ItemsOf(t, v), |t.fields|));
    }
  }

  /** A decoded value encodes to the bytes it came from, when tuple names are in lower case. */
  lemma {:induction false} ReEncode(t: Type, v: Value)
    requires WellFormed(t) && LowerNames(t) && Matches(t, v)
    ensures Encode(t, Canonical(t, v)) == Encode(t, v)
    decreases t, 1
  {
    if IsComposite(t) {
      hide *;
      ReEncodeItems(t, v, Count(t, v));
      EncodableBoth(t, v);
      Assembled(t, v, Count(t, v));
      Assembled(t, Canonical(t, v), Count(t, v));
    }
  }

  lemma {:induction false} ReEncodeItems(t: Type, v: Value, k: nat)
    requires WellFormed(t) && LowerNames(t) && IsComposite(t) && Matches(t, v) && k <= Count(t, v)
    ensures ShapeOf(t, Canonical(t, v)) && k <= |ItemsOf(t, Canonical(t, v))|
    ensures EncodeItems(t, ItemsOf(t, Canonical(t, v)), k) == EncodeItems(t, ItemsOf(t, v), k)
    decreases t, 0, 0, k
  {
    hide WellFormed, LowerNames, Encode, Canonical, Matches, ItemsOf;
    CanonicalShape(t, v);
    if k > 0 {
      ReEncodeItems(t, v, k - 1);
      PartsFine(t, k - 1);
      DecodedItems(t, v, k - 1);
      ReEncode(ItemType(t, k - 1), ItemsOf(t, v)[k - 1].value);
    }
  }

  /** A value the encoder can take components from. */
  ghost predicate ShapeOf(t: Type, v: Value)
  {
    && IsComposite(t) && (v.FixedList? || v.List? || (t.Tuple? && v.Record?))
    && (t.Tuple? && !v.Record? ==> |v.items| >= |t.fields|)
  }

  lemma CanonicalShape(t: Type, v: Value)
    requires IsComposite(t) && Matches(t, v)
    ensures ShapeOf(t, v) && ShapeOf(t, Canonical(t, v)) && |ItemsOf(t, Canonical(t, v))| == Count(t, v)
  {
    hide Keyed, CanonicalItems;
    MatchingComponents(t, v);
  }

  lemma PartsFine(t: Type, i: nat)
    requires WellFormed(t) && LowerNames(t) && IsComposite(t) && (t.Tuple? ==> i < |t.fields|)
    ensures WellFormed(ItemType(t, i)) && LowerNames(ItemType(t, i)) && OwnKeysLower(t)
  {
  }

  // ----- two values that encode differently, for every type -----

  lemma DifferAt(x: Bytes, y: Bytes, p: Bytes, a: Bytes, q: Bytes, p': Bytes, b: Bytes, q': Bytes)
    requires x == p + (a + q) && y == p' + (b + q') && |p| == |p'| && |a| == |b| && a != b
    ensures x != y
  {
    assert x[|p|..|p| + |a|] == a;
    assert y[|p|..|p| + |a|] == b;
  }

  lemma {:induction false} SameLengths(d: seq<bool>, es: seq<Bytes>, fs: seq<Bytes>, n: nat, size: nat)
    requires n <= |es| == |fs| == |d| && forall k :: 0 <= k < |es| ==> |es[k]| == |fs[k]|
    ensures |Heads(d, es, n, size)| == |Heads(d, fs, n, size)| && |Tails(d, es, n)| == |Tails(d, fs, n)|
  {
    hide PackNum;
    if n > 0 {
      SameLengths(d, es, fs, n - 1, size);
    }
  }

  /** Layouts of components of the same lengths differ as soon as one component does. */
  lemma LayoutDiffers(d: seq<bool>, es: seq<Bytes>, fs: seq<Bytes>, i: nat, size: nat)
    requires i < |es| == |fs| == |d| && (forall k :: 0 <= k < |es| ==> |es[k]| == |fs[k]|) && es[i] != fs[i]
    ensures |Layout(d, es, size)| == |Layout(d, fs, size)| && Layout(d, es, size) != Layout(d, fs, size)
  {
    hide PackNum, Heads, Tails;
    var n := |es|;
    SameLengths(d, es, fs, n, size);
    SameLengths(d, es, fs, i, size);
    var x, y := Layout(d, es, size), Layout(d, fs, size);
    if d[i] {
      var p := TailPlace(d, es, i, n);
      var q := TailPlace(d, fs, i, n);
      var h, h' := Heads(d, es, n, size) + Tails(d, es, i), Heads(d, fs, n, size) + Tails(d, fs, i);
      assert x == h + (es[i] + p) && y == h' + (fs[i] + q);
      DifferAt(x, y, h, es[i], p, h', fs[i], q);
    } else {
      var p := HeadPlace(d, es, i, n, size);
      var q := HeadPlace(d, fs, i, n, size);
      var h, h' := Heads(d, es, i, size), Heads(d, fs, i, size);
      var u, w := p + Tails(d, es, n), q + Tails(d, fs, n);
      assert x == h + (es[i] + u) && y == h' + (fs[i] + w);
      DifferAt(x, y, h, es[i], u, h', fs[i], w);
    }
  }

  /** The number of components a composed value gets; a slice may have any number, and gets one. */
  function Arity(t: Type): nat
    requires IsComposite(t)
  {
    if t.Tuple? then |t.fields| else if t.Array? then t.size else 1
  }

  /** A composite value from its components. */
  function Compose(t: Type, ws: seq<Value>): Value
    requires IsComposite(t)
  {
    if t.Array? then FixedList(ws) else List(ws)
  }

  ghost predicate Components(t: Type, ws: seq<Value>)
  {
    IsComposite(t) && |ws| == Arity(t) && forall k :: 0 <= k < |ws| ==> Matches(ItemType(t, k), ws[k])
  }

  lemma Composed(t: Type, ws: seq<Value>)
    requires Components(t, ws)
    ensures var v := Compose(t, ws);
            && Matches(t, v) && Count(t, v) == |ws| && Encodable(t, v, |ws|)
            && |ItemsOf(t, v)| == |ws| && forall k :: 0 <= k < |ws| ==> ItemsOf(t, v)[k] == Some(ws[k])
  {
  }

  /** Two values of the type with different encodings of the same length. */
  ghost predicate Twins(t: Type, v: Value, w: Value)
  {
    && Matches(t, v) && Matches(t, w)
    && Encode(t, v).Ok? && Encode(t, w).Ok? && |Encode(t, v).value| == |Encode(t, w).value|
    && Encode(t, v) != Encode(t, w)
  }

  /** The encodings of the components of a composed value. */
  lemma ComposedItems(t: Type, ws: seq<Value>) returns (es: seq<Bytes>)
    requires WellFormed(t) && Components(t, ws)
    ensures var n := |ws|;
            && |es| == n && (forall k :: 0 <= k < n ==> Encode(ItemType(t, k), ws[k]) == Ok(es[k]))
            && Encode(t, Compose(t, ws)) == Assemble(t, n, Ok(es))
  {
    hide WellFormed, Encode, EncodeItems, Matches, Assemble;
    Composed(t, ws);
    var v, n := Compose(t, ws), |ws|;
    var items := ItemsOf(t, v);
    ItemsShape(t, items, n);
    es := EncodeItems(t, items, n).value;
    forall k | 0 <= k < n ensures Encode(ItemType(t, k), ws[k]) == Ok(es[k]) {
      ItemEncoded(t, items, n, k);
    }
    Assembled(t, v, n);
  }

  /** Composed values are twins when their components are equal or twins, and one pair is twins. */
  lemma ComposedTwins(t: Type, vs: seq<Value>, ws: seq<Value>, i: nat)
    requires WellFormed(t) && Components(t, vs) && Components(t, ws) && i < |vs|
    requires Twins(ItemType(t, i), vs[i], ws[i])
    requires forall k :: 0 <= k < |vs| ==> vs[k] == ws[k] || Twins(ItemType(t, k), vs[k], ws[k])
    ensures Twins(t, Compose(t, vs), Compose(t, ws))
  {
    hide WellFormed, Encode, Matches, IsDynamic, HeadSize, Layout, PackNum;
    var n := |vs|;
    Composed(t, vs);
    Composed(t, ws);
    var es := ComposedItems(t, vs);
    var fs := ComposedItems(t, ws);
    var d, size := Dynamics(t, n), HeadSize(t, n);
    assert forall k :: 0 <= k < n ==> |es[k]| == |fs[k]|;
    LayoutDiffers(d, es, fs, i, size);
    var front: Bytes := if t.Slice? then PackNum(n) else [];
    var x, y := Layout(d, es, size), Layout(d, fs, size);
    assert x + [] == x && y + [] == y;
    DifferAt(front + x, front + y, front, x, [], front, y, []);
  }

  /** A value of every type, in two versions. */
  function Sample(t: Type, b: bool): Value
    decreases t, 1
  {
    var x: Byte := if b then 1 else 0;
    match t
    case Bool => Flag(b)
    case UInt(_) => Number(x)
    case Int(_) => Number(x)
    case String => Text([x])
    case AddressType => Blob(seq(20, _ => x))
    case DynamicBytes => Blob([x])
    case FixedBytes(size) => Blob(seq(size, _ => x))
    case Function => Blob(seq(24, _ => x))
    case FixedPoint => Flag(b)
    case _ => Compose(t, Samples(t, b, Arity(t)))
  }

  function Samples(t: Type, b: bool, n: nat): (ws: seq<Value>)
    requires IsComposite(t) && (t.Tuple? ==> n <= |t.fields|)
    ensures |ws| == n
    decreases t, 0, n
  {
    if n == 0 then [] else Samples(t, b, n - 1) + [Sample(ItemType(t, n - 1), b)]
  }

  lemma SmallNumber(t: Type, n: nat)
    requires WellFormed(t) && (t.UInt? || t.Int?) && n <= 1
    ensures Matches(t, Number(n))
  {
    hide Pow2;
    BitPowers();
    Pow2Grows(8, t.bits);
    Pow2Step(t.bits - 1);
  }

  lemma LeafTwins(t: Type)
    requires WellFormed(t) && !IsComposite(t)
    ensures Twins(t, Sample(t, false), Sample(t, true))
  {
    hide Pow2, ToU256, FromBytes, PadBytes;
    var v, w := Sample(t, false), Sample(t, true);
    LeafMatches(t);
    EncodedShape(t, v);
    EncodedShape(t, w);
    if IsVariableInput(t) {
      BytesRoundTrip(t, v, []);
      BytesRoundTrip(t, w, []);
    } else {
      WordRoundTrip(t, v, []);
      WordRoundTrip(t, w, []);
    }
  }

  lemma LeafMatches(t: Type)
    requires WellFormed(t) && !IsComposite(t)
    ensures Matches(t, Sample(t, false)) && Matches(t, Sample(t, true)) && Sample(t, false) != Sample(t, true)
  {
    if t.UInt? || t.Int? {
      SmallNumber(t, 0);
      SmallNumber(t, 1);
    } else if t.AddressType? || t.FixedBytes? || t.Function? {
      assert Sample(t, false).bytes[0] != Sample(t, true).bytes[0];
    }
  }

  /** Every well-formed type has two values that encode differently, in the same number of bytes. */
  lemma {:induction false} SampleTwins(t: Type)
    requires WellFormed(t)
    ensures Twins(t, Sample(t, false), Sample(t, true))
    decreases t, 1
  {
    if IsComposite(t) {
      hide Twins, Sample, WellFormed;
      SampleComposed(t);
      var n := Arity(t);
      SamplesTwins(t, n);
      ArityPositive(t);
      ComposedTwins(t, Samples(t, false, n), Samples(t, true, n), 0);
    } else {
      LeafTwins(t);
    }
  }

  lemma SampleComposed(t: Type)
    requires IsComposite(t)
    ensures forall b :: Sample(t, b) == Compose(t, Samples(t, b, Arity(t)))
  {
  }

  lemma ArityPositive(t: Type)
    requires IsComposite(t) && WellFormed(t)
    ensures Arity(t) > 0
  {
  }

  lemma {:induction false} SamplesTwins(t: Type, n: nat)
    requires IsComposite(t) && WellFormed(t) && n <= Arity(t)
    ensures forall k :: 0 <= k < n ==> Twins(ItemType(t, k), Samples(t, false, n)[k], Samples(t, true, n)[k])
    ensures n == Arity(t) ==> Components(t, Samples(t, false, n)) && Components(t, Samples(t, true, n))
    decreases t, 0, n
  {
    hide Sample, WellFormed, Matches, Encode;
    if n > 0 {
      SamplesTwins(t, n - 1);
      ItemWellFormed(t, n - 1);
      SampleTwins(ItemType(t, n - 1));
    }
  }

  // ----- names that are not in lower case -----

  lemma {:induction false} DecimalDigits(n: nat)
    ensures forall p :: 0 <= p < |Decimal(n)| ==> '0' <= Decimal(n)[p] <= '9'
  {
    if n >= 10 {
      DecimalDigits(n / 10);
    }
  }

  /** A key that is not in lower case is never looked up, for any component. */
  lemma NeverLookedUp(f: Field, i: nat, g: Field, k: nat)
    requires LowerKey(f, i) != KeyOf(f, i)
    ensures LowerKey(g, k) != KeyOf(f, i)
  {
    var p :| 0 <= p < |f.name| && 'A' <= f.name[p] <= 'Z';
    DecimalDigits(k);
    assert p < |LowerKey(g, k)| ==> !('A' <= LowerKey(g, k)[p] <= 'Z');
  }

  /** The encoder finds the same components in two records that differ under a key it never looks up. */
  lemma SameFound(t: Type, cs: seq<Value>, ds: seq<Value>, i: nat)
    requires t.Tuple? && DistinctKeys(t.fields) && |cs| == |ds| == |t.fields| && i < |cs|
    requires LowerKey(t.fields[i], i) != KeyOf(t.fields[i], i)
    requires forall k :: 0 <= k < |cs| && k != i ==> cs[k] == ds[k]
    ensures ItemsOf(t, Record(Keyed(t.fields, cs))) == ItemsOf(t, Record(Keyed(t.fields, ds)))
  {
    hide Keyed, KeyOf, LowerKey;
    var c, d := Record(Keyed(t.fields, cs)), Record(Keyed(t.fields, ds));
    forall k | 0 <= k < |t.fields| ensures ItemsOf(t, c)[k] == ItemsOf(t, d)[k] {
      var key := LowerKey(t.fields[k], k);
      KeyedKeys(t.fields, cs, key);
      KeyedKeys(t.fields, ds, key);
      if key in c.entries {
        var j :| 0 <= j < |cs| && KeyOf(t.fields[j], j) == key;
        NeverLookedUp(t.fields[i], i, t.fields[k], k);
        KeyedLookup(t.fields, cs, j);
        KeyedLookup(t.fields, ds, j);
      }
    }
  }

  /** Twins that the encoder cannot tell apart once they were decoded. */
  ghost predicate Confused(t: Type, v: Value, w: Value)
  {
    Twins(t, v, w) && Encode(t, Canonical(t, v)) == Encode(t, Canonical(t, w))
  }

  /** A key not in lower case: the component under it is lost. */
  lemma KeyConfuses(t: Type, i: nat) returns (v: Value, w: Value)
    requires WellFormed(t) && t.Tuple? && i < |t.fields| && LowerKey(t.fields[i], i) != KeyOf(t.fields[i], i)
    ensures Confused(t, v, w)
  {
    hide *;
    TupleArity(t);
    var n := Arity(t);
    SamplesTwins(t, n);
    var vs := Samples(t, false, n);
    var ws := vs[i := Samples(t, true, n)[i]];
    Exchanged(t, vs, Samples(t, true, n), i);
    v, w := Compose(t, vs), Compose(t, ws);
    TwinsAt(t, vs, ws, i);
    CanonicalRecords(t, vs, ws, i);
    IsConfused(t, v, w);
  }

  lemma TupleArity(t: Type)
    ensures t.Tuple? ==> IsComposite(t)
    ensures t.Tuple? ==> Arity(t) == |t.fields|
  {
  }

  lemma Exchanged(t: Type, vs: seq<Value>, us: seq<Value>, i: nat)
    requires Components(t, vs) && Components(t, us) && i < |vs|
    ensures Components(t, vs[i := us[i]])
  {
    hide Matches;
  }

  lemma TwinsAt(t: Type, vs: seq<Value>, ws: seq<Value>, i: nat)
    requires WellFormed(t) && Components(t, vs) && Components(t, ws) && i < |vs|
    requires ws == vs[i := ws[i]] && Twins(ItemType(t, i), vs[i], ws[i])
    ensures Twins(t, Compose(t, vs), Compose(t, ws))
  {
    hide WellFormed, Twins, Matches;
    ComposedTwins(t, vs, ws, i);
  }

  lemma CanonicalRecords(t: Type, vs: seq<Value>, ws: seq<Value>, i: nat)
    requires WellFormed(t) && t.Tuple? && Components(t, vs) && Components(t, ws) && i < |vs| && ws == vs[i := ws[i]]
    requires LowerKey(t.fields[i], i) != KeyOf(t.fields[i], i)
    ensures Matches(t, Compose(t, vs)) && Matches(t, Compose(t, ws))
    ensures Encode(t, Canonical(t, Compose(t, vs))) == Encode(t, Canonical(t, Compose(t, ws)))
  {
    hide WellFormed, Matches, Encode, EncodeItems, Keyed, KeyOf, LowerKey, CanonicalItems, Assemble;
    Composed(t, vs);
    Composed(t, ws);
    var v, w, n := Compose(t, vs), Compose(t, ws), |vs|;
    MatchingComponents(t, v);
    MatchingComponents(t, w);
    var cs, ds := CanonicalItems(t, ItemsOf(t, v), n), CanonicalItems(t, ItemsOf(t, w), n);
    forall k | 0 <= k < n && k != i ensures cs[k] == ds[k] {
      CanonicalItem(t, ItemsOf(t, v), n, k);
      CanonicalItem(t, ItemsOf(t, w), n, k);
    }
    KeysDistinct(t);
    SameFound(t, cs, ds, i);
    EncodableBoth(t, v);
    EncodableBoth(t, w);
    Assembled(t, Canonical(t, v), n);
    Assembled(t, Canonical(t, w), n);
  }

  lemma KeysDistinct(t: Type)
    requires WellFormed(t) && t.Tuple?
    ensures DistinctKeys(t.fields)
  {
  }

  lemma {:induction false} SameEncodings(t: Type, xs: seq<Option<Value>>, ys: seq<Option<Value>>, n: nat)
    requires IsComposite(t) && n <= |xs| && n <= |ys| && (t.Tuple? ==> n <= |t.fields|)
    requires forall k :: 0 <= k < n ==>
               xs[k].Some? && ys[k].Some? && Encode(ItemType(t, k), xs[k].value) == Encode(ItemType(t, k), ys[k].value)
    ensures EncodeItems(t, xs, n) == EncodeItems(t, ys, n)
  {
    hide Encode;
    if n > 0 {
      SameEncodings(t, xs, ys, n - 1);
    }
  }

  /** Confused components make confused values. */
  lemma ComponentConfuses(t: Type, i: nat, p: Value, q: Value) returns (v: Value, w: Value)
    requires WellFormed(t) && IsComposite(t) && OwnKeysLower(t) && i < Arity(t) && Confused(ItemType(t, i), p, q)
    ensures Confused(t, v, w)
  {
    hide *;
    TupleArity(t);
    var n := Arity(t);
    SamplesTwins(t, n);
    var us := Samples(t, false, n);
    ConfusedTwins(t, us, i, p, q);
    var vs, ws := us[i := p], us[i := q];
    v, w := Compose(t, vs), Compose(t, ws);
    TwinsAt(t, vs, ws, i);
    CanonicalLists(t, vs, ws, i);
    IsConfused(t, v, w);
  }

  lemma IsConfused(t: Type, v: Value, w: Value)
    requires Twins(t, v, w) && Matches(t, v) && Matches(t, w) && Encode(t, Canonical(t, v)) == Encode(t, Canonical(t, w))
    ensures Confused(t, v, w)
  {
  }

  lemma ConfusedTwins(t: Type, us: seq<Value>, i: nat, p: Value, q: Value)
    requires Components(t, us) && i < |us| && Confused(ItemType(t, i), p, q)
    ensures Components(t, us[i := p]) && Components(t, us[i := q]) && Twins(ItemType(t, i), p, q)
    ensures Encode(ItemType(t, i), Canonical(ItemType(t, i), p)) == Encode(ItemType(t, i), Canonical(ItemType(t, i), q))
  {
    hide Matches, Encode, Canonical;
  }

  lemma CanonicalLists(t: Type, vs: seq<Value>, ws: seq<Value>, i: nat)
    requires WellFormed(t) && OwnKeysLower(t) && Components(t, vs) && Components(t, ws) && i < |vs| && ws == vs[i := ws[i]]
    requires Encode(ItemType(t, i), Canonical(ItemType(t, i), vs[i])) == Encode(ItemType(t, i), Canonical(ItemType(t, i), ws[i]))
    ensures Matches(t, Compose(t, vs)) && Matches(t, Compose(t, ws))
    ensures Encode(t, Canonical(t, Compose(t, vs))) == Encode(t, Canonical(t, Compose(t, ws)))
  {
    hide WellFormed, OwnKeysLower, Matches, Encode, EncodeItems, Canonical, Assemble;
    Composed(t, vs);
    Composed(t, ws);
    var v, w, n := Compose(t, vs), Compose(t, ws), |vs|;
    EncodableBoth(t, v);
    EncodableBoth(t, w);
    CanonicalShape(t, v);
    CanonicalShape(t, w);
    forall k | 0 <= k < n
      ensures ItemsOf(t, Canonical(t, v))[k] == Some(Canonical(ItemType(t, k), vs[k]))
      ensures ItemsOf(t, Canonical(t, w))[k] == Some(Canonical(ItemType(t, k), ws[k]))
    {
      DecodedItems(t, v, k);
      DecodedItems(t, w, k);
    }
    SameEncodings(t, ItemsOf(t, Canonical(t, v)), ItemsOf(t, Canonical(t, w)), n);
    Assembled(t, Canonical(t, v), n);
    Assembled(t, Canonical(t, w), n);
  }

  /** A type with a name that is not in lower case, at any depth, confuses two of its values. */
  lemma {:induction false} NamesConfuse(t: Type) returns (v: Value, w: Value)
    requires WellFormed(t) && !LowerNames(t)
    ensures Confused(t, v, w)
    decreases t
  {
    hide Confused;
    if !OwnKeysLower(t) {
      var i :| 0 <= i < |t.fields| && LowerKey(t.fields[i], i) != KeyOf(t.fields[i], i);
      v, w := KeyConfuses(t, i);
    } else {
      var i := 0;
      if t.Tuple? {
        i :| 0 <= i < |t.fields| && !LowerNames(t.fields[i].typ);
      }
      var p, q := NamesConfuse(ItemType(t, i));
      v, w := ComponentConfuses(t, i, p, q);
    }
  }

  /**
   * A decoded value encodes to the bytes it came from, for all values of a type, if and only if all its names are in
   * lower case.
   */
  lemma ReEncodesExactly(t: Type)
    requires WellFormed(t)
    ensures (forall v | Matches(t, v) :: Encode(t, Canonical(t, v)) == Encode(t, v)) <==> LowerNames(t)
  {
    hide WellFormed, LowerNames, Matches, Encode, Canonical;
    if LowerNames(t) {
      forall v | Matches(t, v) ensures Encode(t, Canonical(t, v)) == Encode(t, v) {
        ReEncode(t, v);
      }
    } else {
      var v, w := NamesConfuse(t);
      assert Matches(t, v) && Matches(t, w);
      assert Encode(t, Canonical(t, v)) != Encode(t, v) || Encode(t, Canonical(t, w)) != Encode(t, w);
    }
  }

  /** A component whose name is not in lower case, alone in its tuple, is not found again. */
  lemma NameNotFound(name: string, e: Type, p: Value)
    requires name != "" && Lower(name) != name && WellFormed(e) && Matches(e, p)
    ensures var t := Tuple([Field(name, e)]);
            var v := List([p]);
            Matches(t, v) && Encode(t, v).Ok? && Encode(t, Canonical(t, v)) == Err(MissingKey)
  {
    hide Encode, Matches, WellFormed, Lower;
    var t := Tuple([Field(name, e)]);
    var v := List([p]);
    OneField(name, e);
    Composed(t, [p]);
    EncodedShape(t, v);
    MatchingComponents(t, v);
    var c := Canonical(t, v);
    KeyedKeys(t.fields, CanonicalItems(t, ItemsOf(t, v), 1), LowerKey(t.fields[0], 0));
    assert ItemsOf(t, c) == [None];
    NoItems(t, [None]);
    NextItem(t, [None], [], 0);
    EncodableBoth(t, v);
    Assembled(t, c, 1);
  }

  lemma OneField(name: string, e: Type)
    requires WellFormed(e)
    ensures WellFormed(Tuple([Field(name, e)]))
  {
  }

  /** For example `(bool A)`. */
  lemma UpperNameFails()
    ensures var t := Tuple([Field("A", Bool)]);
            var v := List([Flag(true)]);
            Matches(t, v) && Encode(t, v).Ok? && Encode(t, Canonical(t, v)) == Err(MissingKey)
  {
    assert Lower("A")[0] == 'a' != "A"[0];
    hide Encode, Canonical;
    NameNotFound("A", Bool, Flag(true));
  }

  /** Next to a component with the same name in lower case, that one is encoded in its place, and nothing is reported. */
  lemma WrongComponentEncoded(e: Type, p: Value, q: Value)
    requires WellFormed(e) && LowerNames(e) && Matches(e, p) && Matches(e, q)
    ensures var t := Tuple([Field("A", e), Field("a", e)]);
            && Matches(t, List([p, q])) && Matches(t, List([q, q]))
            && Encode(t, Canonical(t, List([p, q]))) == Encode(t, List([q, q]))
  {
    hide Encode, Matches, WellFormed, LowerNames, Canonical;
    var t := Tuple([Field("A", e), Field("a", e)]);
    TwoFields(e);
    Composed(t, [p, q]);
    Composed(t, [q, q]);
    var v, w := List([p, q]), List([q, q]);
    var c := Canonical(t, v);
    BothFound(e, p, q);
    ReEncode(e, q);
    SameEncodings(t, ItemsOf(t, c), ItemsOf(t, w), 2);
    EncodableBoth(t, v);
    Assembled(t, c, 2);
    Assembled(t, w, 2);
  }

  lemma TwoFields(e: Type)
    requires WellFormed(e)
    ensures var t := Tuple([Field("A", e), Field("a", e)]);
            && WellFormed(t) && DistinctKeys(t.fields)
            && LowerKey(t.fields[0], 0) == LowerKey(t.fields[1], 1) == KeyOf(t.fields[1], 1)
  {
    assert "A"[0] != "a"[0];
    assert Lower("A") == "a" == Lower("a");
  }

  lemma BothFound(e: Type, p: Value, q: Value)
    requires WellFormed(e) && Matches(e, p) && Matches(e, q)
    requires Matches(Tuple([Field("A", e), Field("a", e)]), List([p, q]))
    ensures var t := Tuple([Field("A", e), Field("a", e)]);
            var c := Canonical(t, List([p, q]));
            c.Record? && ItemsOf(t, c) == [Some(Canonical(e, q)), Some(Canonical(e, q))]
  {
    hide Matches, WellFormed, Keyed, KeyOf, LowerKey;
    var t := Tuple([Field("A", e), Field("a", e)]);
    var v := List([p, q]);
    TwoFields(e);
    MatchingComponents(t, v);
    CanonicalItem(t, ItemsOf(t, v), 2, 1);
    KeyedLookup(t.fields, CanonicalItems(t, ItemsOf(t, v), 2), 1);
  }
}
