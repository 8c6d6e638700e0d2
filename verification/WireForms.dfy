/** What goes over the wire, value by value, what comes out of it, and which values come back unchanged. */
module WireForms {
  import opened Arithmetic
  import opened Numbers
  import opened Wrappers
  import opened GoValues
  import opened Codec
  import opened TypedCodec

  // ---------------------------------------------------------------- encoding

  lemma ScalarsOnWire(v: Go)
    ensures v.Nil? || v.NilPtr? || v.Other? ==> Encode(v) == NullValue
    ensures v.Bool? ==> Encode(v) == BoolValue(v.flag)
    ensures v.Int? && -0x20_0000_0000_0000 <= v.number <= 0x20_0000_0000_0000 ==>
      Encode(v) == NumberValue(Finite(v.number as real))
    ensures v.Float? ==> Encode(v) == NumberValue(v.float)
    ensures v.Str? ==> Encode(v) == StringValue(v.text)
  {
    if v.Int? && -EXACT <= v.number <= EXACT {
      hide RoundInt;
      RoundIntExact(v.number);
    }
  }

  /** Nil slices and maps go out as empty ones; only the first of several pointers is followed. */
  lemma ContainersOnWire(v: Go)
    ensures v.NilSlice? ==> Encode(v) == ListValue([])
    ensures v.NilMap? ==> Encode(v) == StructValue(map[])
    ensures v.Slice? ==>
      && Encode(v).ListValue? && |Encode(v).values| == |v.elems|
      && forall i :: 0 <= i < |v.elems| ==> Encode(v).values[i] == Encode(v.elems[i])
    ensures v.StrMap? ==>
      && Encode(v).StructValue? && Encode(v).fields.Keys == v.entries.Keys
      && forall k :: k in v.entries ==> Encode(v).fields[k] == Encode(v.entries[k])
    ensures v.Ptr? ==> Encode(v) == if v.target.Ptr? then NullValue else Encode(v.target)
  {
    if v.StrMap? { assert Encode(v) == StructValue(EncodeEntries(v)); }
  }

  /** Integer keys go out in decimal. */
  lemma IntKeysOnWire(v: Go, key: string)
    requires v.IntMap?
    ensures Encode(v).StructValue? && (key in Encode(v).fields <==> exists k :: k in v.numbered && Itoa(k) == key)
    ensures forall k :: k in v.numbered && Itoa(k) == key ==> Encode(v).fields[key] == Encode(v.numbered[k])
  {
    hide Itoa;
    assert Encode(v) == StructValue(WithTextKeys(EncodeNumbered(v)));
  }

  /** The struct field puts something under this name: an embedded one whatever its own encoding has there. */
  predicate Contributes(f: Field, name: string) {
    && f.desc.name.Some?
    && if f.desc.anonymous then Encode(f.value).StructValue? && name in Encode(f.value).fields
       else f.desc.name == Some(name)
  }

  function Contribution(f: Field, name: string): Value
    requires Contributes(f, name)
  {
    if f.desc.anonymous then Encode(f.value).fields[name] else Encode(f.value)
  }

  /** Under a name goes what the last field with that name contributes, and no other name is used. */
  lemma {:induction false} LastFieldWins(fs: seq<Field>, name: string, i: nat)
    requires i <= |fs| && forall j :: i < j < |fs| ==> !Contributes(fs[j], name)
    ensures Encode(Struct(fs)).StructValue?
    ensures i < |fs| && Contributes(fs[i], name) ==>
      name in Encode(Struct(fs)).fields && Encode(Struct(fs)).fields[name] == Contribution(fs[i], name)
    ensures (forall j :: 0 <= j < |fs| ==> !Contributes(fs[j], name)) ==> name !in Encode(Struct(fs)).fields
  {
    EncodeStruct(Struct(fs));
    if fs != [] {
      var n := |fs| - 1;
      EncodeStruct(Struct(fs[..n]));
      if i < n { LastFieldWins(fs[..n], name, i); } else { LastFieldWins(fs[..n], name, n); }
      FieldOnWire(fs[n], name);
    }
  }

  lemma FieldOnWire(f: Field, name: string)
    ensures name in EncodeField(f) <==> Contributes(f, name)
    ensures Contributes(f, name) ==> EncodeField(f)[name] == Contribution(f, name)
  {
  }

  // ---------------------------------------------------------------- decoding without a type

  lemma DynamicForms(x: Value)
    ensures x.NoKind? || x.NullValue? ==> Decode(x) == Nil
    ensures x.BoolValue? ==> Decode(x) == Bool(x.flag)
    ensures x.NumberValue? ==> Decode(x) == Float(x.number)
    ensures x.StringValue? ==> Decode(x) == Str(x.text)
    ensures x.ListValue? ==>
      && Decode(x).Slice? && |Decode(x).elems| == |x.values|
      && forall i :: 0 <= i < |x.values| ==> Decode(x).elems[i] == Decode(x.values[i])
    ensures x.StructValue? ==>
      && Decode(x).StrMap? && Decode(x).entries.Keys == x.fields.Keys
      && forall k :: k in x.fields ==> Decode(x).entries[k] == Decode(x.fields[k])
  {
  }

  /** The values that dynamic decoding produces. */
  predicate IsDynamic(v: Go) {
    match v
    case Nil => true
    case Bool(_) => true
    case Float(_) => true
    case Str(_) => true
    case Slice(es) => forall i :: 0 <= i < |es| ==> IsDynamic(es[i])
    case StrMap(m) => forall k :: k in m ==> IsDynamic(m[k])
    case _ => false
  }

  /** Exactly these come back from a dynamic decoding as they went in. */
  lemma {:induction false} DynamicExactly(v: Go)
    ensures Decode(Encode(v)) == v <==> IsDynamic(v)
  {
    DecodeEncode(v);
    PlainExactly(v);
  }

  lemma {:induction false} PlainExactly(v: Go)
    ensures Plain(v) == v <==> IsDynamic(v)
  {
    match v
    case Slice(es) =>
      forall i | 0 <= i < |es| ensures Plain(es[i]) == es[i] <==> IsDynamic(es[i]) { PlainExactly(es[i]); }
      var plain := Plain(v).elems;
      assert plain == es <==> forall i :: 0 <= i < |es| ==> plain[i] == es[i];
    case StrMap(m) =>
      forall k | k in m ensures Plain(m[k]) == m[k] <==> IsDynamic(m[k]) { PlainExactly(m[k]); }
      var plain := PlainEntries(v);
      assert plain == m <==> forall k :: k in m ==> plain[k] == m[k];
    case Ptr(target) => PlainIsNoPointer(v);
    case _ =>
  }

  lemma {:induction false} PlainIsNoPointer(v: Go)
    ensures !Plain(v).Ptr?
  {
    if v.Ptr? && !IsNull(v) { PlainIsNoPointer(v.target); }
  }

  // ---------------------------------------------------------------- decoding into a type

  /** The kinds of data a type can take. */
  predicate Fits(data: Value, t: Type) {
    match t
    case TBool => data.BoolValue?
    case TInt(bits) => data.NumberValue? && bits > 0
    case TFloat => data.NumberValue?
    case TString => data.StringValue?
    case TStruct(_) => data.StructValue?
    case TMap(_, _) => data.StructValue?
    case TSlice(_) => data.ListValue?
    case TAny => !data.NoKind?
    case TPtr(_) => true
  }

  /** Data of another kind is an error that leaves the target alone, and null data leaves it alone too. */
  lemma OtherKindsFail(data: Value, t: Type, target: Go, r: Decoded)
    requires Decodes(data, t, target, r)
    ensures data == NullValue ==> r == Ok(true, target)
    ensures data != NullValue && !Fits(data, t) ==> r == Err(target)
  {
  }

  /** A number fills an integer field with its whole part, if that has room there. */
  lemma NumberIntoInt(x: real, i: int, bits: nat, target: Go, r: Decoded)
    requires Decodes(NumberValue(Finite(x)), TInt(bits), target, r)
    requires if x < 0.0 then i as real - 1.0 < x <= i as real else i as real <= x < i as real + 1.0
    requires || (bits == 8 && -0x80 <= i < 0x80) || (bits == 16 && -0x8000 <= i < 0x8000)
             || (bits == 32 && -0x8000_0000 <= i < 0x8000_0000)
             || (bits == 64 && -0x8000_0000_0000_0000 <= i < 0x8000_0000_0000_0000)
    ensures r == Ok(false, Int(i))
  {
    hide IntOfFloat, Narrow, FitsWidth;
    WidthsAre(i);
    TruncatesTowardZero(x, i);
    NarrowKeeps(bits, i);
  }

  lemma ScalarsFromWire(target: Go, b: bool, f: Float, s: string, x: Value, r: Decoded)
    ensures Decodes(BoolValue(b), TBool, target, r) ==> r == Ok(false, Bool(b))
    ensures Decodes(NumberValue(f), TFloat, target, r) ==> r == Ok(false, Float(f))
    ensures Decodes(StringValue(s), TString, target, r) ==> r == Ok(false, Str(s))
    ensures !x.NoKind? && !x.NullValue? && Decodes(x, TAny, target, r) ==> r == Ok(false, Decode(x))
  {
  }

  lemma ZeroForms(t: Type)
    ensures t.TBool? ==> Zero(t) == Bool(false)
    ensures t.TInt? ==> Zero(t) == Int(0)
    ensures t.TFloat? ==> Zero(t) == Float(Finite(0.0))
    ensures t.TString? ==> Zero(t) == Str("")
    ensures t.TAny? ==> Zero(t) == Nil
    ensures t.TSlice? ==> Zero(t) == NilSlice
    ensures t.TMap? ==> Zero(t) == NilMap
    ensures t.TPtr? ==> Zero(t) == NilPtr
    ensures t.TStruct? ==>
      && Zero(t).Struct? && |Zero(t).fields| == |t.fields|
      && forall i :: 0 <= i < |t.fields| ==> Zero(t).fields[i] == Field(t.fields[i].desc, Zero(t.fields[i].typ))
  {
  }

  /** A null element of a list leaves the zero value at its place. */
  lemma NullElementIsZero(xs: seq<Value>, e: Type, target: Go, r: Decoded, i: nat)
    requires Decodes(ListValue(xs), TSlice(e), target, r) && r.Ok? && i < |xs| && xs[i] == NullValue
    ensures r.value.Slice? && |r.value.elems| == |xs| && r.value.elems[i] == Zero(e)
  {
    assert SliceDecodes(xs, e, target, r);
    assert SlotDecodes(xs[i], e, Zero(e), Ok(true, r.value.elems[i]));
    assert !e.TPtr? ==> Decodes(xs[i], e, Zero(e), Ok(true, r.value.elems[i]));
  }

  // ---------------------------------------------------------------- which values come back unchanged

  /** Nothing is lost on the way: integers have 53 significant bits, interfaces hold what dynamic decoding
      makes, no slice, map or embedded pointer is nil, map entries are not null, and fields without a wire
      name are zero. */
  ghost predicate Canonical(v: Go, t: Type)
    requires HasType(v, t)
    decreases t, 0
  {
    match t
    case TInt(_) => Magnitude(v.number) % Pow2(ExcessBits(Magnitude(v.number))) == 0
    case TAny => IsDynamic(v)
    case TStruct(fs) => forall i :: 0 <= i < |fs| ==> CanonicalField(v.fields[i].value, fs[i])
    case TSlice(e) => v.Slice? && forall i :: 0 <= i < |v.elems| ==> Canonical(v.elems[i], e)
    case TMap(intKeys, e) =>
      if intKeys then
        v.IntMap? && forall k :: k in v.numbered ==> !IsNull(v.numbered[k]) && Canonical(v.numbered[k], e)
      else
        v.StrMap? && forall k :: k in v.entries ==> !IsNull(v.entries[k]) && Canonical(v.entries[k], e)
    case TPtr(e) => v.Ptr? ==> Canonical(v.target, e)
    case _ => true
  }

  ghost predicate CanonicalField(v: Go, f: FieldType)
    requires HasType(v, f.typ)
    decreases f, 0
  {
    if f.desc.name.None? then v == Zero(f.typ)
    else !(f.desc.anonymous && v.NilPtr?) && Canonical(v, f.typ)
  }

  lemma {:induction false} CanonicalExactly(v: Go, t: Type)
    requires Supported(t) && HasType(v, t)
    ensures Norm(v, t) == v <==> Canonical(v, t)
    decreases t, 1
  {
    hide RoundInt, ExcessBits, Pow2;
    match t
    case TInt(_) => RoundIntKeeps(v.number);
    case TAny => PlainExactly(v);
    case TStruct(fs) => StructExactly(v, fs);
    case TSlice(e) => if v.Slice? { SliceExactly(v, e); }
    case TMap(intKeys, e) => if v.IntMap? { NumberedExactly(v, e); } else if v.StrMap? { EntriesExactly(v, e); }
    case TPtr(e) => if v.Ptr? { CanonicalExactly(v.target, e); }
    case _ =>
  }

  lemma {:induction false} StructExactly(v: Go, fs: seq<FieldType>)
    requires Supported(TStruct(fs)) && HasType(v, TStruct(fs))
    ensures Norm(v, TStruct(fs)) == v <==> Canonical(v, TStruct(fs))
    decreases fs, 0
  {
    forall i | 0 <= i < |fs| ensures NormField(v.fields[i].value, fs[i]) == v.fields[i].value <==>
      CanonicalField(v.fields[i].value, fs[i]) { CanonicalFieldExactly(v.fields[i].value, fs[i]); }
    hide NormField, CanonicalField;
    var norm := Norm(v, TStruct(fs)).fields;
    assert norm == v.fields <==> forall i :: 0 <= i < |fs| ==> norm[i] == v.fields[i];
  }

  lemma {:induction false} SliceExactly(v: Go, e: Type)
    requires Supported(e) && v.Slice? && HasType(v, TSlice(e))
    ensures Norm(v, TSlice(e)) == v <==> Canonical(v, TSlice(e))
    decreases e, 2
  {
    forall i | 0 <= i < |v.elems| ensures Norm(v.elems[i], e) == v.elems[i] <==> Canonical(v.elems[i], e) {
      CanonicalExactly(v.elems[i], e);
    }
    var norm := Norm(v, TSlice(e)).elems;
    assert norm == v.elems <==> forall i :: 0 <= i < |v.elems| ==> norm[i] == v.elems[i];
  }

  lemma {:induction false} NumberedExactly(v: Go, e: Type)
    requires Supported(e) && v.IntMap? && HasType(v, TMap(true, e))
    ensures Norm(v, TMap(true, e)) == v <==> Canonical(v, TMap(true, e))
    decreases e, 2
  {
    hide IsNull, Supported, FitsWidth, RoundInt, FieldNames;
    forall k | k in v.numbered ensures Norm(v.numbered[k], e) == v.numbered[k] <==> Canonical(v.numbered[k], e) {
      CanonicalExactly(v.numbered[k], e);
    }
    NumberedNorm(v, e);
    SameNumbers(Norm(v, TMap(true, e)).numbered, v.numbered);
  }

  lemma NumberedNorm(v: Go, e: Type)
    requires v.IntMap? && HasType(v, TMap(true, e))
    ensures var norm := Norm(v, TMap(true, e));
      && norm.IntMap? && (forall k :: k in norm.numbered <==> k in v.numbered && !IsNull(v.numbered[k]))
      && (forall k :: k in norm.numbered ==> norm.numbered[k] == Norm(v.numbered[k], e))
  {
    hide IsNull;
  }

  lemma {:induction false} EntriesExactly(v: Go, e: Type)
    requires Supported(e) && v.StrMap? && HasType(v, TMap(false, e))
    ensures Norm(v, TMap(false, e)) == v <==> Canonical(v, TMap(false, e))
    decreases e, 2
  {
    forall k | k in v.entries ensures Norm(v.entries[k], e) == v.entries[k] <==> Canonical(v.entries[k], e) {
      CanonicalExactly(v.entries[k], e);
    }
    hide Norm, IsNull, Supported;
    EntriesNorm(v, e);
    SameEntries(Norm(v, TMap(false, e)).entries, v.entries);
  }

  lemma EntriesNorm(v: Go, e: Type)
    requires v.StrMap? && HasType(v, TMap(false, e))
    ensures var norm := Norm(v, TMap(false, e));
      && norm.StrMap? && (forall k :: k in norm.entries <==> k in v.entries && !IsNull(v.entries[k]))
      && (forall k :: k in norm.entries ==> norm.entries[k] == Norm(v.entries[k], e))
  {
    hide IsNull;
  }

  lemma SameEntries(m: map<string, Go>, m': map<string, Go>)
    requires m.Keys <= m'.Keys
    ensures m == m' <==> forall k :: k in m' ==> k in m && m[k] == m'[k]
  {
    if forall k :: k in m' ==> k in m && m[k] == m'[k] { assert m.Keys == m'.Keys; }
  }

  lemma SameNumbers(m: map<int, Go>, m': map<int, Go>)
    requires m.Keys <= m'.Keys
    ensures m == m' <==> forall k :: k in m' ==> k in m && m[k] == m'[k]
  {
    if forall k :: k in m' ==> k in m && m[k] == m'[k] { assert m.Keys == m'.Keys; }
  }

  lemma {:induction false} CanonicalFieldExactly(v: Go, f: FieldType)
    requires HasType(v, f.typ) && Supported(f.typ) && EmbedsStruct(f)
    ensures NormField(v, f) == v <==> CanonicalField(v, f)
    decreases f, 0
  {
    if f.desc.name.Some? && !(f.desc.anonymous && v.NilPtr?) { CanonicalExactly(v, f.typ); }
  }

  /** A value comes back unchanged exactly when it is canonical. */
  lemma RoundTripExactly(v: Go, t: Type, r: Decoded)
    requires Supported(t) && HasType(v, t) && SlotDecodes(Encode(v), t, Zero(t), r)
    ensures r.Ok? && (r.value == v <==> Canonical(v, t))
  {
    hide *;
    RoundTrip(v, t, r);
    CanonicalExactly(v, t);
  }
}
