/** Values without any bytes, such as an array of length zero: exactly when they survive the round trip. */
module AbiNoWidth {
  import opened Basics
  import opened Results
  import opened AbiTypes
  import opened AbiEncode
  import opened AbiDecode
  import opened AbiRoundTrip

  /** The number of components of an array or tuple. */
  function Width(t: Type): nat { if t.Tuple? then |t.fields| else if t.Array? then t.size else 0 }

  /** Types whose values all have the empty encoding. */
  predicate NoWidth(t: Type)
    ensures NoWidth(t) ==> t.Array? || t.Tuple?
    decreases t, 0
  {
    match t
    case Array(size, elem) => size == 0 || Blank(elem)
    case Tuple(fields) => DistinctKeys(fields) && forall i :: 0 <= i < |fields| ==> Blank(fields[i].typ)
    case _ => false
  }

  /** The type may stand inside a type of no width. */
  predicate Blank(t: Type)
    decreases t, 1
  {
    NoWidth(t) && !IsDynamic(t)
  }

  function Max(a: nat, b: nat): nat { if a < b then b else a }

  /** How much input the decoder wants to see for such a type, though it consumes none of it. */
  function Wanted(t: Type): nat
    requires NoWidth(t)
    decreases t, 1
  {
    WantedUpTo(t, Width(t))
  }

  /** The same for the check of the type itself and its first n components. */
  function WantedUpTo(t: Type, n: nat): (w: nat)
    requires NoWidth(t) && n <= Width(t)
    ensures w >= 32 && (t.Array? ==> w >= 32 * t.size)
    decreases t, 0, n
  {
    if n == 0 then (if t.Tuple? then 32 else Max(32, 32 * t.size))
    else
      BlankItem(t, n - 1);
      Max(WantedUpTo(t, n - 1), Wanted(ItemType(t, n - 1)))
  }

  lemma BlankItem(t: Type, i: nat)
    requires NoWidth(t) && i < Width(t)
    ensures Blank(ItemType(t, i)) && (t.Tuple? ==> !RepeatsKey(t.fields, i))
  {
  }

  lemma {:induction false} EmptyHeads(dynamic: seq<bool>, es: seq<Bytes>, n: nat, size: nat)
    requires n <= |es| && n <= |dynamic| && forall i :: 0 <= i < n ==> !dynamic[i] && es[i] == []
    ensures |Heads(dynamic, es, n, size)| == 0
  {
    hide PackNum, Tails;
    if n > 0 {
      EmptyHeads(dynamic, es, n - 1, size);
    }
  }

  lemma {:induction false} EmptyEncodings(t: Type, items: seq<Option<Value>>, n: nat)
    requires NoWidth(t) && n <= Width(t) && MatchingItems(t, items, n)
    ensures var es := EncodeItems(t, items, n); es.Ok? && forall i :: 0 <= i < n ==> es.value[i] == []
    decreases t, 0, n
  {
    hide Encode, Matches, NoWidth;
    if n > 0 {
      EmptyEncodings(t, items, n - 1);
      BlankItem(t, n - 1);
      EmptyEncoding(ItemType(t, n - 1), items[n - 1].value);
    }
  }

  /** A value of no width is encoded as nothing. */
  lemma {:induction false} EmptyEncoding(t: Type, v: Value)
    requires NoWidth(t) && Matches(t, v)
    ensures Encode(t, v) == Ok([])
    decreases t, 1
  {
    hide NoWidth, IsDynamic, EncodeItems, Heads, Tails, HeadSize, Encode;
    MatchingComponents(t, v);
    var n := Width(t);
    WidthIsCount(t, v);
    EmptyEncodings(t, ItemsOf(t, v), n);
    forall i | 0 <= i < n ensures !IsDynamic(ItemType(t, i)) { BlankItem(t, i); }
    var es := EncodeItems(t, ItemsOf(t, v), n).value;
    EmptyHeads(Dynamics(t, n), es, n, HeadSize(t, n));
    NoTails(Dynamics(t, n), es, n);
    assert Layout(Dynamics(t, n), es, HeadSize(t, n)) == [];
    CompositeForm(t, v);
  }

  lemma WidthIsCount(t: Type, v: Value)
    requires NoWidth(t) && Matches(t, v)
    ensures Count(t, v) == Width(t)
  {
  }

  /** The decoder's loop over components of no width: it only looks whether enough input is there. */
  lemma {:induction false} BlankDecodings(t: Type, items: seq<Option<Value>>, input: Bytes, n: nat)
    requires NoWidth(t) && n <= Width(t) && MatchingItems(t, items, n) && |input| >= WantedUpTo(t, 0)
    ensures |input| >= WantedUpTo(t, n) ==> DecodeItems(t, input, n) == Ok(Decoded(CanonicalItems(t, items, n), input))
    ensures |input| < WantedUpTo(t, n) ==> DecodeItems(t, input, n).Err?
    decreases t, 0, n
  {
    hide Decode, Matches, NoWidth, IsDynamic, Canonical;
    if n > 0 {
      BlankDecodings(t, items, input, n - 1);
      BlankItem(t, n - 1);
      BlankDecoding(ItemType(t, n - 1), items[n - 1].value, input);
    }
  }

  /** Decoding a value of no width takes nothing, and works if and only if enough input follows. */
  lemma {:induction false} BlankDecoding(t: Type, v: Value, input: Bytes)
    requires NoWidth(t) && Matches(t, v)
    ensures |input| >= Wanted(t) ==> Decode(t, input) == Ok(Decoded(Canonical(t, v), input))
    ensures |input| < Wanted(t) ==> Decode(t, input).Err?
    decreases t, 1
  {
    hide NoWidth, IsDynamic, DecodeItems, CanonicalItems, Keyed, WantedUpTo;
    MatchingComponents(t, v);
    var n := Width(t);
    WidthIsCount(t, v);
    WantedGrows(t, n);
    if |input| >= WantedUpTo(t, 0) {
      BlankDecodings(t, ItemsOf(t, v), input, n);
    }
  }

  lemma {:induction false} WantedGrows(t: Type, n: nat)
    requires NoWidth(t) && n <= Width(t)
    ensures WantedUpTo(t, n) >= WantedUpTo(t, 0) == if t.Tuple? then 32 else Max(32, 32 * t.size)
  {
    if n > 0 {
      WantedGrows(t, n - 1);
    }
  }

  /** A value of no width survives the round trip if and only if enough input follows; on its own it never does. */
  lemma NoWidthSurvives(t: Type, v: Value, suffix: Bytes)
    requires NoWidth(t) && Matches(t, v)
    ensures Survives(t, v, suffix) <==> |suffix| >= Wanted(t)
    ensures Survives(t, v, suffix) ==> suffix != []
  {
    hide Encode, Decode, Canonical, NoWidth, Matches;
    EmptyEncoding(t, v);
    BlankDecoding(t, v, suffix);
    assert [] + suffix == suffix;
  }
}
