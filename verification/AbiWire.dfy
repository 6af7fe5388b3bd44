/** The bytes on the wire, as the Contract ABI Specification lays them out: stated apart from the decoder. */
module AbiWire {
  import opened Basics
  import opened Results
  import opened Arithmetic
  import opened BigEndian
  import opened AbiTypes
  import opened AbiWords
  import opened AbiEncode
  import opened AbiDecode
  import opened AbiRoundTrip

  predicate Zero(b: Bytes) { forall i :: 0 <= i < |b| ==> b[i] == 0 }

  // ----- values of one word -----

  /** What the word of a value holds: numbers sign-extended to 256 bits, an address on the right, byte strings on the left. */
  ghost predicate WordHolds(t: Type, v: Value, w: Bytes)
  {
    && |w| == 32
    && match t
       case UInt(_) => v.Number? && FromBytes(w) == v.number
       case Int(_) => v.Number? && FromBytes(w) == if v.number < 0 then v.number + TWO_256 else v.number
       case Bool => v.Flag? && FromBytes(w) == if v.flag then 1 else 0
       case AddressType => v.Blob? && Zero(w[..12]) && w[12..] == v.bytes
       case FixedBytes(size) => v.Blob? && size <= 32 && w[..size] == v.bytes && Zero(w[size..])
       case Function => v.Blob? && w[..24] == v.bytes && Zero(w[24..])
       case _ => false
  }

  lemma {:induction false} FromZeros(b: Bytes)
    requires Zero(b)
    ensures FromBytes(b) == 0
  {
    if b != [] {
      FromZeros(b[..|b| - 1]);
    }
  }

  lemma FlagWord(flag: bool)
    ensures FromBytes(PadBytes(if flag then [1] else [], 32, true)) == if flag then 1 else 0
  {
    hide FromBytes;
    var w := PadBytes(if flag then [1] else [], 32, true);
    if flag {
      assert w[31..32] == [1];
      LastByte(w);
      FromZeros(w[..31]);
    } else {
      FromZeros(w);
    }
  }

  lemma LastByte(w: Bytes)
    requires |w| == 32
    ensures FromBytes(w) == 256 * FromBytes(w[..31]) + w[31]
  {
  }

  lemma NumberWord(t: Type, n: int)
    requires WellFormed(t) && (t.UInt? || t.Int?) && Matches(t, Number(n))
    ensures FromBytes(ToU256(n)) == if n < 0 then n + TWO_256 else n
  {
    hide FromBytes, ToU256, WellFormed, Matches;
    NumberRange(t, n);
    WordReads(n, 0);
  }

  /** Every value of one word is encoded as that word. */
  lemma LeafWire(t: Type, v: Value)
    requires WellFormed(t) && Matches(t, v) && !IsComposite(t) && !IsVariableInput(t)
    ensures Encode(t, v).Ok? && WordHolds(t, v, Encode(t, v).value)
  {
    hide FromBytes, ToU256, Pow2;
    match t {
      case UInt(_) => NumberWord(t, v.number);
      case Int(_) => NumberWord(t, v.number);
      case Bool => FlagWord(v.flag);
      case AddressType => PaddedLeft(v.bytes);
      case FixedBytes(_) => PaddedRight(v.bytes);
      case Function => PaddedRight(v.bytes);
      case String =>
      case DynamicBytes =>
      case FixedPoint =>
      case Array(_, _) =>
      case Slice(_) =>
      case Tuple(_) =>
    }
  }

  lemma PaddedLeft(b: Bytes)
    requires |b| <= 32
    ensures var w := PadBytes(b, 32, true); w[32 - |b|..] == b && Zero(w[..32 - |b|])
  {
    var w := PadBytes(b, 32, true);
    assert w[32 - |b|..32 - |b| + |b|] == w[32 - |b|..];
  }

  lemma PaddedRight(b: Bytes)
    requires |b| <= 32
    ensures var w := PadBytes(b, 32, false); w[..|b|] == b && Zero(w[|b|..])
  {
  }

  // ----- byte strings -----

  /** The number of bytes as a word, the bytes, and zeros up to a whole number of words. */
  lemma BytesWire(t: Type, v: Value)
    requires (t.String? || t.DynamicBytes?) && Matches(t, v)
    ensures Encode(t, v).Ok?
    ensures var (e, n) := (Encode(t, v).value, |v.bytes|);
            && 32 + n <= |e| < 64 + n && |e| % 32 == 0
            && FromBytes(e[..32]) == n % TWO_256 && e[32..32 + n] == v.bytes && Zero(e[32 + n..])
  {
    hide FromBytes, ToU256;
    WordReads(|v.bytes|, 0);
  }

  // ----- components -----

  /** Where the head of component k begins: after one word for every dynamic component and all of every static one. */
  function HeadAt(dynamic: seq<bool>, es: seq<Bytes>, k: nat): nat
    requires k <= |es| && k <= |dynamic|
  {
    if k == 0 then 0 else HeadAt(dynamic, es, k - 1) + if dynamic[k - 1] then 32 else |es[k - 1]|
  }

  /** How many bytes the dynamic ones among the first k components take. */
  function TailsTake(dynamic: seq<bool>, es: seq<Bytes>, k: nat): nat
    requires k <= |es| && k <= |dynamic|
  {
    if k == 0 then 0 else TailsTake(dynamic, es, k - 1) + if dynamic[k - 1] then |es[k - 1]| else 0
  }

  lemma {:induction false} PartsMeasured(dynamic: seq<bool>, es: seq<Bytes>, k: nat, size: nat)
    requires k <= |es| && k <= |dynamic|
    ensures |Heads(dynamic, es, k, size)| == HeadAt(dynamic, es, k) && |Tails(dynamic, es, k)| == TailsTake(dynamic, es, k)
  {
    hide PackNum;
    if k > 0 {
      PartsMeasured(dynamic, es, k - 1, size);
    }
  }

  /** The piece is in the body, at the given place. */
  predicate Holds(body: Bytes, at: nat, piece: Bytes) { at + |piece| <= |body| && body[at..at + |piece|] == piece }

  /** A component lies at its head; a dynamic one at the offset that its head holds, behind all heads and earlier tails. */
  ghost predicate LiesAt(dynamic: seq<bool>, es: seq<Bytes>, k: nat, body: Bytes)
    requires k < |es| == |dynamic|
  {
    var at := HeadAt(dynamic, es, k);
    if dynamic[k] then
      var off := HeadAt(dynamic, es, |es|) + TailsTake(dynamic, es, k);
      Holds(body, off, es[k]) && at + 32 <= |body| && FromBytes(body[at..at + 32]) == off % TWO_256
    else Holds(body, at, es[k])
  }

  ghost predicate LaidOut(dynamic: seq<bool>, es: seq<Bytes>, body: Bytes)
    requires |es| == |dynamic|
  {
    && |body| == HeadAt(dynamic, es, |es|) + TailsTake(dynamic, es, |es|)
    && forall k :: 0 <= k < |es| ==> LiesAt(dynamic, es, k, body)
  }

  lemma PieceAt(whole: Bytes, front: Bytes, piece: Bytes, back: Bytes)
    requires whole == front + (piece + back)
    ensures Holds(whole, |front|, piece)
  {
  }

  lemma HeadLies(dynamic: seq<bool>, es: seq<Bytes>, k: nat, size: nat)
    requires k < |es| == |dynamic|
    ensures Holds(Layout(dynamic, es, size), HeadAt(dynamic, es, k), Head(dynamic, es, k, size))
  {
    hide PackNum, Heads, Tails, Head, Holds;
    PartsMeasured(dynamic, es, k, size);
    var after := HeadPlace(dynamic, es, k, |es|, size);
    var front, head, tails := Heads(dynamic, es, k, size), Head(dynamic, es, k, size), Tails(dynamic, es, |es|);
    assert (front + (head + after)) + tails == front + (head + (after + tails));
    PieceAt(Layout(dynamic, es, size), front, head, after + tails);
  }

  lemma TailLies(dynamic: seq<bool>, es: seq<Bytes>, k: nat, size: nat)
    requires k < |es| == |dynamic| && dynamic[k]
    ensures Holds(Layout(dynamic, es, size), HeadAt(dynamic, es, |es|) + TailsTake(dynamic, es, k), es[k])
  {
    hide PackNum, Heads, Tails, Head, Holds;
    PartsMeasured(dynamic, es, k, size);
    PartsMeasured(dynamic, es, |es|, size);
    var last := TailPlace(dynamic, es, k, |es|);
    var heads, front := Heads(dynamic, es, |es|, size), Tails(dynamic, es, k);
    assert heads + (front + (es[k] + last)) == (heads + front) + (es[k] + last);
    PieceAt(Layout(dynamic, es, size), heads + front, es[k], last);
  }

  lemma HeadForm(dynamic: seq<bool>, es: seq<Bytes>, k: nat, size: nat)
    requires k < |es| == |dynamic|
    ensures Head(dynamic, es, k, size) == if dynamic[k] then PackNum(size + TailsTake(dynamic, es, k)) else es[k]
  {
    hide PackNum, Heads, TailsTake, Tails;
    PartsMeasured(dynamic, es, k, size);
  }

  lemma ComponentLies(dynamic: seq<bool>, es: seq<Bytes>, k: nat)
    requires k < |es| == |dynamic|
    ensures LiesAt(dynamic, es, k, Layout(dynamic, es, HeadAt(dynamic, es, |es|)))
  {
    hide PackNum, Head, FromBytes, HeadAt, TailsTake, Layout, Holds;
    var size := HeadAt(dynamic, es, |es|);
    HeadForm(dynamic, es, k, size);
    HeadLies(dynamic, es, k, size);
    if dynamic[k] {
      TailLies(dynamic, es, k, size);
      OffsetLies(Layout(dynamic, es, size), HeadAt(dynamic, es, k), size + TailsTake(dynamic, es, k));
    }
  }

  lemma OffsetLies(body: Bytes, at: nat, n: nat)
    requires Holds(body, at, PackNum(n))
    ensures at + 32 <= |body| && FromBytes(body[at..at + 32]) == n % TWO_256
  {
    hide PackNum, FromBytes;
    OffsetWord(n);
  }

  lemma OffsetWord(n: nat)
    ensures |PackNum(n)| == 32 && FromBytes(PackNum(n)) == n % TWO_256
  {
    hide FromBytes, ToU256;
    WordReads(n, 0);
  }

  /**
   * An array, slice or tuple: the number of elements of a slice, then the components, each in its head or at the offset
   * in its head, in order and without gaps.
   */
  lemma CompositeWire(t: Type, v: Value) returns (es: seq<Bytes>)
    requires WellFormed(t) && Matches(t, v) && IsComposite(t)
    ensures |es| == Count(t, v) == |ItemsOf(t, v)| && Encode(t, v).Ok?
    ensures forall k :: 0 <= k < |es| ==> ItemsOf(t, v)[k].Some? && Encode(ItemType(t, k), ItemsOf(t, v)[k].value) == Ok(es[k])
    ensures var e := Encode(t, v).value;
            && (t.Slice? ==> |e| >= 32 && FromBytes(e[..32]) == |es| % TWO_256)
            && LaidOut(Dynamics(t, |es|), es, if t.Slice? then e[32..] else e)
  {
    hide WellFormed, IsDynamic, EncodeItems, Encode, PackNum, HeadSize, Layout, FromBytes, LiesAt, HeadAt, TailsTake;
    var n, items := Count(t, v), ItemsOf(t, v);
    MatchingComponents(t, v);
    ItemsShape(t, items, n);
    es := EncodeItems(t, items, n).value;
    forall k | 0 <= k < n ensures Encode(ItemType(t, k), items[k].value) == Ok(es[k]) {
      ItemEncoded(t, items, n, k);
    }
    var d := Dynamics(t, n);
    LayoutShape(t, es, n, HeadSize(t, n));
    PartsMeasured(d, es, n, HeadSize(t, n));
    CompositeForm(t, v);
    var body := Layout(d, es, HeadSize(t, n));
    forall k | 0 <= k < n ensures LiesAt(d, es, k, body) { ComponentLies(d, es, k); }
    OffsetWord(n);
    assert t.Slice? ==> (PackNum(n) + body)[..32] == PackNum(n) && (PackNum(n) + body)[32..] == body;
  }

  /** The components of a list are its items in order, those of a record its entries under the lower-case names. */
  lemma ComponentsOf(t: Type, v: Value, k: nat)
    requires IsComposite(t) && Matches(t, v) && k < Count(t, v)
    ensures !v.Record? ==> k < |v.items| && ItemsOf(t, v)[k] == Some(v.items[k])
    ensures v.Record? ==> LowerKey(t.fields[k], k) in v.entries && ItemsOf(t, v)[k] == Some(v.entries[LowerKey(t.fields[k], k)])
  {
  }

  // ----- reading words -----

  lemma NativeReads(w: Bytes)
    requires |w| == 32
    ensures FromBytes(w[31..]) == FromBytes(w) % 0x100 && FromBytes(w[30..]) == FromBytes(w) % 0x1_0000
    ensures FromBytes(w[28..]) == FromBytes(w) % 0x1_0000_0000
    ensures FromBytes(w[24..]) == FromBytes(w) % 0x1_0000_0000_0000_0000
    ensures FromBytes(w) == FromBytes(w) % TWO_256
  {
    hide FromBytes, Pow256;
    WordPower();
    LowBytes(w, 1);
    LowBytes(w, 2);
    LowBytes(w, 4);
    LowBytes(w, 8);
    LowBytes(w, 32);
    assert w[0..] == w;
  }

  /** Two's complement of the low bits. */
  function LowSigned(n: nat, modulus: nat): int
    requires modulus > 0
  {
    if n % modulus < modulus / 2 then n % modulus else n % modulus - modulus
  }

  /** The modulus that an integer type is read in: its own for the native widths, that of a word for all others. */
  function ReadModulus(bits: nat): (m: nat)
    ensures m > 0
  {
    if bits == 8 then 0x100 else if bits == 16 then 0x1_0000 else if bits == 32 then 0x1_0000_0000
    else if bits == 64 then 0x1_0000_0000_0000_0000 else TWO_256
  }

  /** Any input of at least a word is read as an integer: the number in the word, in the modulus of the type. */
  lemma IntegerReads(t: Type, input: Bytes)
    requires (t.UInt? || t.Int?) && |input| >= 32
    ensures var n := FromBytes(input[..32]);
            Decode(t, input) == Ok(Decoded(Number(if t.UInt? then n % ReadModulus(t.bits) else LowSigned(n, ReadModulus(t.bits))),
                                           input[32..]))
  {
    hide FromBytes, Signed;
    var w := input[..32];
    NativeReads(w);
    SignedIsLow(FromBytes(w), ReadModulus(t.bits));
  }

  lemma SignedIsLow(n: nat, modulus: nat)
    requires modulus > 0
    ensures Signed(n % modulus, modulus) == LowSigned(n, modulus)
  {
  }

  /** Which words are read as a boolean, an address, fixed bytes and a function, and as what. */
  lemma WordReadsAs(t: Type, input: Bytes)
    requires |input| >= 32 && (t.Bool? || t.AddressType? || t.Function? || (t.FixedBytes? && t.size <= 32))
    ensures Decode(t, input).Ok? <==> (t.Bool? ==> input[31] <= 1) && (t.Function? ==> Zero(input[24..32]))
    ensures var d := Decode(t, input);
            d.Ok? ==>
              && d.value.rest == input[32..]
              && (t.Bool? ==> d.value.value == Flag(input[31] == 1))
              && (t.AddressType? ==> d.value.value == Blob(input[12..32]))
              && (t.FixedBytes? ==> d.value.value == Blob(input[..t.size]))
              && (t.Function? ==> d.value.value == Blob(input[..24]))
  {
    var w := input[..32];
    assert w[24..] == input[24..32] && w[12..] == input[12..32] && w[..24] == input[..24];
    if t.FixedBytes? {
      assert w[..t.size] == input[..t.size];
    }
  }

  // ----- reading components -----

  /** Component k is read from the remaining heads: in place when static, at the offset in its head when dynamic. */
  ghost predicate ReadsAt(t: Type, data: Bytes, k: nat, v: Value, heads: Bytes, left: Bytes)
    requires IsComposite(t) && (t.Tuple? ==> k < |t.fields|)
  {
    var e := ItemType(t, k);
    && (t.Tuple? ==> forall j :: 0 <= j < k ==> KeyOf(t.fields[j], j) != KeyOf(t.fields[k], k))
    && if IsDynamic(e) then
         && |heads| >= 32 && left == heads[32..]
         && var off := FromBytes(heads[..32]);
            && off < 0x8000_0000_0000_0000 && off <= |data|
            && Decode(e, data[off..]).Ok? && Decode(e, data[off..]).value.value == v
       else Decode(e, heads) == Ok(Decoded(v, left))
  }

  /** Values read one after the other; lefts[k] is what remains of the heads before component k. */
  ghost predicate ReadInOrder(t: Type, data: Bytes, vs: seq<Value>, lefts: seq<Bytes>)
  {
    && IsComposite(t) && (t.Tuple? ==> |vs| <= |t.fields|)
    && |lefts| == |vs| + 1 && lefts[0] == data
    && forall k :: 0 <= k < |vs| ==> ReadsAt(t, data, k, vs[k], lefts[k], lefts[k + 1])
  }

  lemma OneMore(t: Type, data: Bytes, before: Decoded<seq<Value>>, r: Decoded<seq<Value>>)
    requires IsComposite(t) && (t.Tuple? ==> |before.value| < |t.fields|)
    ensures DecodeItem(t, data, |before.value|, before) == Ok(r) <==>
            |r.value| == |before.value| + 1 && r.value[..|before.value|] == before.value
            && ReadsAt(t, data, |before.value|, r.value[|before.value|], before.rest, r.rest)
  {
    hide IsDynamic, Decode, FromBytes, KeyOf;
    var n := |before.value|;
    if |r.value| == n + 1 && r.value[..n] == before.value {
      assert r.value == before.value + [r.value[n]];
    }
    var d := DecodeItem(t, data, n, before);
    if d == Ok(r) {
      assert r.value == before.value + [r.value[n]];
    }
  }

  lemma {:induction false} ReadBack(t: Type, data: Bytes, vs: seq<Value>, lefts: seq<Bytes>)
    requires ReadInOrder(t, data, vs, lefts)
    ensures DecodeItems(t, data, |vs|) == Ok(Decoded(vs, lefts[|vs|]))
    decreases |vs|
  {
    hide ReadsAt, DecodeItem;
    if vs != [] {
      var n := |vs| - 1;
      ReadBack(t, data, vs[..n], lefts[..n + 1]);
      OneMore(t, data, Decoded(vs[..n], lefts[n]), Decoded(vs, lefts[n + 1]));
    }
  }

  lemma {:induction false} ReadTrace(t: Type, data: Bytes, n: nat) returns (lefts: seq<Bytes>)
    requires IsComposite(t) && (t.Tuple? ==> n <= |t.fields|) && DecodeItems(t, data, n).Ok?
    ensures var r := DecodeItems(t, data, n).value; ReadInOrder(t, data, r.value, lefts) && lefts[n] == r.rest
    decreases n
  {
    hide ReadsAt, DecodeItem;
    if n == 0 {
      lefts := [data];
    } else {
      var before, r := DecodeItems(t, data, n - 1).value, DecodeItems(t, data, n).value;
      var ls := ReadTrace(t, data, n - 1);
      OneMore(t, data, before, r);
      lefts := ls + [r.rest];
      forall k | 0 <= k < n ensures ReadsAt(t, data, k, r.value[k], lefts[k], lefts[k + 1]) {
        assert k < n - 1 ==> ReadsAt(t, data, k, before.value[k], ls[k], ls[k + 1]) && r.value[k] == before.value[k];
      }
    }
  }

  /** Components are decoded exactly when they can be read in order. */
  lemma ItemsReadExactly(t: Type, data: Bytes, vs: seq<Value>, rest: Bytes)
    requires IsComposite(t) && (t.Tuple? ==> |vs| <= |t.fields|)
    ensures DecodeItems(t, data, |vs|) == Ok(Decoded(vs, rest)) <==>
            exists lefts :: ReadInOrder(t, data, vs, lefts) && lefts[|vs|] == rest
  {
    hide ReadsAt, DecodeItems;
    if DecodeItems(t, data, |vs|) == Ok(Decoded(vs, rest)) {
      var lefts := ReadTrace(t, data, |vs|);
    }
    if lefts :| ReadInOrder(t, data, vs, lefts) && lefts[|vs|] == rest {
      ReadBack(t, data, vs, lefts);
    }
  }

  /** An array, slice or tuple is decoded exactly when its components can be read; a slice says how many it has. */
  lemma CompositeReads(t: Type, input: Bytes, v: Value, rest: Bytes)
    requires IsComposite(t) && |input| >= 32
    ensures Decode(t, input) == Ok(Decoded(v, rest)) <==>
            exists vs, lefts ::
              && ReadInOrder(t, if t.Slice? then input[32..] else input, vs, lefts) && lefts[|vs|] == rest
              && MadeOf(t, input, vs, v)
  {
    hide ReadsAt, DecodeItems, FromBytes, Keyed;
    var data := if t.Slice? then input[32..] else input;
    if Decode(t, input) == Ok(Decoded(v, rest)) {
      var n := if t.Slice? then FromBytes(input[..32]) else if t.Array? then t.size else |t.fields|;
      assert Decode(t, input) == if t.Tuple? then DecodeFields(t, data) else DecodeList(t, data, n);
      var vs := DecodeItems(t, data, n).value.value;
      ItemsReadExactly(t, data, vs, rest);
      assert MadeOf(t, input, vs, v);
    }
    if vs, lefts :| ReadInOrder(t, data, vs, lefts) && lefts[|vs|] == rest && MadeOf(t, input, vs, v) {
      ReadBack(t, data, vs, lefts);
      assert Decode(t, input) == if t.Tuple? then DecodeFields(t, data) else DecodeList(t, data, |vs|);
    }
  }

  /** The value with the given components, in the number the type or the input asks for, if the input can hold that many. */
  predicate MadeOf(t: Type, input: Bytes, vs: seq<Value>, v: Value)
    requires IsComposite(t) && |input| >= 32
  {
    if t.Slice? then
      && v == List(vs) && |vs| == FromBytes(input[..32]) < 0x8000_0000_0000_0000 && |vs| <= |input|
      && 32 * |vs| <= |input| - 32
    else if t.Array? then v == FixedList(vs) && |vs| == t.size && 32 * t.size <= |input|
    else |vs| == |t.fields| && v == Record(Keyed(t.fields, vs))
  }
}
