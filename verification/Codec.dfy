/** The protobuf codec of utils/: the encoder, the dynamic decoder and the type-directed decoder. */
module Codec {
  import opened Numbers
  import opened GoValues

  // ---------------------------------------------------------------- encoding

  function Encode(v: Go): Value
    decreases v, 2
  {
    match v
    case Nil => NullValue
    case NilPtr => NullValue
    case Ptr(target) => EncodeKind(target)
    case _ => EncodeKind(v)
  }

  /** The switch over the kind, after at most one pointer has been followed. */
  function EncodeKind(v: Go): Value
    decreases v, 1
  {
    match v
    case Bool(b) => BoolValue(b)
    case Int(i) => NumberValue(FloatOfInt(i))
    case Float(f) => NumberValue(f)
    case Str(s) => StringValue(s)
    case Struct(fs) => StructValue(EncodeFields(fs))
    case NilSlice => ListValue([])
    case Slice(es) => ListValue(seq(|es|, i requires 0 <= i < |es| => Encode(es[i])))
    case NilMap => StructValue(map[])
    case StrMap(m) => StructValue(EncodeEntries(v))
    case IntMap(m) => StructValue(WithTextKeys(EncodeNumbered(v)))
    case _ => NullValue
  }

  function EncodeEntries(v: Go): map<string, Value>
    requires v.StrMap?
    decreases v, 0
  {
    map k | k in v.entries :: Encode(v.entries[k])
  }

  function EncodeNumbered(v: Go): map<int, Value>
    requires v.IntMap?
    decreases v, 0
  {
    map k | k in v.numbered :: Encode(v.numbered[k])
  }

  /** Integer keys as decimal text; no two of them collide. */
  function WithTextKeys<T>(m: map<int, T>): (r: map<string, T>)
    ensures forall k :: k in m ==> Itoa(k) in r && r[Itoa(k)] == m[k]
    ensures forall s :: s in r ==> exists k :: k in m && s == Itoa(k)
  {
    assert forall i, j :: Itoa(i) == Itoa(j) ==> i == j by { KeysInjective(); }
    map k | k in m :: Itoa(k) := m[k]
  }

  lemma KeysInjective()
    ensures forall i, j :: Itoa(i) == Itoa(j) ==> i == j
  {
    forall i, j | Itoa(i) == Itoa(j) ensures i == j { ItoaInjective(i, j); }
  }

  /** Later fields override earlier ones. */
  function EncodeFields(fs: seq<Field>): map<string, Value>
    decreases fs
  {
    if fs == [] then map[] else EncodeFields(fs[..|fs| - 1]) + EncodeField(fs[|fs| - 1])
  }

  function EncodeField(f: Field): map<string, Value>
    decreases f
  {
    if f.desc.name.None? then map[]
    else if !f.desc.anonymous then map[f.desc.name.value := Encode(f.value)]
    else match Encode(f.value)
      case StructValue(m) => m
      case _ => map[]
  }

  lemma EncodeStruct(v: Go)
    requires v.Struct? || (v.Ptr? && v.target.Struct?)
    ensures Encode(v) == StructValue(EncodeFields(if v.Struct? then v.fields else v.target.fields))
  {
    assert v.Ptr? ==> EncodeKind(v.target) == StructValue(EncodeFields(v.target.fields));
  }

  lemma EncodeSlice(v: Go)
    requires v.Slice?
    ensures Encode(v).ListValue? && |Encode(v).values| == |v.elems|
    ensures forall i :: 0 <= i < |v.elems| ==> Encode(v).values[i] == Encode(v.elems[i])
  {
  }

  /** An embedded struct contributes its own fields. */
  lemma EncodeEmbedded(f: Field)
    requires f.desc.name.Some? && f.desc.anonymous
    requires f.value.Struct? || (f.value.Ptr? && f.value.target.Struct?)
    ensures EncodeField(f) == EncodeFields(if f.value.Struct? then f.value.fields else f.value.target.fields)
  {
    EncodeStruct(f.value);
  }

  // ---------------------------------------------------------------- dynamic decoding

  function Decode(x: Value): Go {
    match x
    case StructValue(m) => StrMap(map k | k in m :: Decode(m[k]))
    case ListValue(xs) => Slice(seq(|xs|, i requires 0 <= i < |xs| => Decode(xs[i])))
    case StringValue(s) => Str(s)
    case NumberValue(f) => Float(f)
    case BoolValue(b) => Bool(b)
    case NullValue => Nil
    case NoKind => Nil
  }

  predicate WellFormed(x: Value) {
    match x
    case NoKind => false
    case StructValue(m) => forall k :: k in m ==> WellFormed(m[k])
    case ListValue(xs) => forall i :: 0 <= i < |xs| ==> WellFormed(xs[i])
    case _ => true
  }

  /** Decoding dynamically and encoding again gives back exactly the trees in which every value has a kind. */
  lemma {:induction false} EncodeDecode(x: Value)
    ensures Encode(Decode(x)) == x <==> WellFormed(x)
  {
    match x
    case StructValue(m) =>
      forall k | k in m ensures Encode(Decode(m[k])) == m[k] <==> WellFormed(m[k]) { EncodeDecode(m[k]); }
      assert Encode(Decode(x)) == StructValue(EncodeEntries(Decode(x)));
      assert EncodeEntries(Decode(x)) == m <==> forall k :: k in m ==> Encode(Decode(m[k])) == m[k];
    case ListValue(xs) =>
      forall i | 0 <= i < |xs| ensures Encode(Decode(xs[i])) == xs[i] <==> WellFormed(xs[i]) { EncodeDecode(xs[i]); }
      EncodeSlice(Decode(x));
      var ys := Encode(Decode(x)).values;
      assert ys == xs <==> forall i :: 0 <= i < |xs| ==> ys[i] == xs[i];
    case _ =>
  }

  /** Values that carry nothing over the wire. */
  predicate IsNull(v: Go) {
    match v
    case Nil => true
    case NilPtr => true
    case Other => true
    case Ptr(target) => target.Nil? || target.NilPtr? || target.Ptr? || target.Other?
    case _ => false
  }

  lemma NullExactly(v: Go)
    ensures Encode(v).NullValue? <==> IsNull(v)
  {
  }

  /** What a value looks like once its static types are forgotten. */
  function Plain(v: Go): Go
    decreases v, 1
  {
    if IsNull(v) then Nil
    else match v
    case Ptr(target) => Plain(target)
    case Int(i) => Float(FloatOfInt(i))
    case Struct(fs) => StrMap(PlainFields(fs))
    case NilSlice => Slice([])
    case Slice(es) => Slice(seq(|es|, i requires 0 <= i < |es| => Plain(es[i])))
    case NilMap => StrMap(map[])
    case StrMap(m) => StrMap(PlainEntries(v))
    case IntMap(m) => StrMap(WithTextKeys(PlainNumbered(v)))
    case _ => v
  }

  function PlainEntries(v: Go): map<string, Go>
    requires v.StrMap?
    decreases v, 0
  {
    map k | k in v.entries :: Plain(v.entries[k])
  }

  function PlainNumbered(v: Go): map<int, Go>
    requires v.IntMap?
    decreases v, 0
  {
    map k | k in v.numbered :: Plain(v.numbered[k])
  }

  function PlainFields(fs: seq<Field>): map<string, Go>
    decreases fs
  {
    if fs == [] then map[] else PlainFields(fs[..|fs| - 1]) + PlainField(fs[|fs| - 1])
  }

  function PlainField(f: Field): map<string, Go>
    decreases f
  {
    if f.desc.name.None? then map[]
    else if !f.desc.anonymous then map[f.desc.name.value := Plain(f.value)]
    else match Plain(f.value)
      case StrMap(m) => m
      case _ => map[]
  }

  function DecodeAll(m: map<string, Value>): map<string, Go> {
    map k | k in m :: Decode(m[k])
  }

  lemma {:induction false} DecodeEncode(v: Go)
    ensures Decode(Encode(v)) == Plain(v)
    decreases v, 1
  {
    match v
    case Ptr(target) => if !IsNull(v) { DecodeEncode(target); }
    case Struct(fs) => DecodeEncodeFields(fs);
    case Slice(es) =>
      forall i | 0 <= i < |es| ensures Decode(Encode(es[i])) == Plain(es[i]) { DecodeEncode(es[i]); }
    case StrMap(m) =>
      DecodeEncodeEntries(v);
      DecodeStruct(EncodeEntries(v));
    case IntMap(m) =>
      DecodeEncodeNumbered(v);
      DecodeStruct(WithTextKeys(EncodeNumbered(v)));
      DecodeTextKeys(EncodeNumbered(v), PlainNumbered(v));
    case _ =>
  }

  lemma {:induction false} DecodeEncodeEntries(v: Go)
    requires v.StrMap?
    ensures DecodeAll(EncodeEntries(v)) == PlainEntries(v)
    decreases v, 0
  {
    forall k | k in v.entries ensures Decode(Encode(v.entries[k])) == Plain(v.entries[k]) {
      DecodeEncode(v.entries[k]);
    }
  }

  lemma {:induction false} DecodeEncodeNumbered(v: Go)
    requires v.IntMap?
    ensures forall k :: k in v.numbered ==> Decode(EncodeNumbered(v)[k]) == PlainNumbered(v)[k]
    decreases v, 0
  {
    forall k | k in v.numbered ensures Decode(Encode(v.numbered[k])) == Plain(v.numbered[k]) {
      DecodeEncode(v.numbered[k]);
    }
  }

  lemma DecodeStruct(m: map<string, Value>)
    ensures Decode(StructValue(m)) == StrMap(DecodeAll(m))
  {
  }

  lemma DecodeTextKeys(encoded: map<int, Value>, plain: map<int, Go>)
    requires encoded.Keys == plain.Keys && forall k :: k in encoded ==> Decode(encoded[k]) == plain[k]
    ensures DecodeAll(WithTextKeys(encoded)) == WithTextKeys(plain)
  {
    hide Decode, Itoa;
  }

  lemma {:induction false} DecodeEncodeFields(fs: seq<Field>)
    ensures DecodeAll(EncodeFields(fs)) == PlainFields(fs)
    decreases fs
  {
    if fs != [] {
      DecodeEncodeFields(fs[..|fs| - 1]);
      DecodeEncodeField(fs[|fs| - 1]);
    }
  }

  lemma {:induction false} DecodeEncodeField(f: Field)
    ensures DecodeAll(EncodeField(f)) == PlainField(f)
    decreases f
  {
    DecodeEncode(f.value);
  }
}
