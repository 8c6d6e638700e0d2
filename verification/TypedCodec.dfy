/** The type-directed decoder and its round trip with the encoder. */
module TypedCodec {
  import opened Arithmetic
  import opened Numbers
  import opened Wrappers
  import opened GoValues
  import opened Codec

  /** `isNil` tells the caller that the data was null and the target was left alone; `left` is what the
      target holds after an error.  `Err` also stands for the panic on storing a value without a kind into
      an interface. */
  datatype Decoded = Ok(isNil: bool, value: Go) | Err(left: Go)

  function FieldOf(target: Go, i: nat, t: Type): Go {
    if target.Struct? && i < |target.fields| then target.fields[i].value else Zero(t)
  }

  /** Decoding `data` into a target of type `t` that holds `target` may end as `r`.  Only the choice
      among integer keys of equal value is open. */
  ghost predicate Decodes(data: Value, t: Type, target: Go, r: Decoded)
    decreases t, 1
  {
    if data.NullValue? then r == Ok(true, target)
    else match t
      case TBool => r == if data.BoolValue? then Ok(false, Bool(data.flag)) else Err(target)
      case TInt(bits) =>
        r == if data.NumberValue? && bits > 0 then Ok(false, Int(Narrow(bits, IntOfFloat(data.number))))
             else Err(target)
      case TFloat => r == if data.NumberValue? then Ok(false, Float(data.number)) else Err(target)
      case TString => r == if data.StringValue? then Ok(false, Str(data.text)) else Err(target)
      case TAny => r == if data.NoKind? then Err(target) else Ok(false, Decode(data))
      case TPtr(_) => r == Ok(false, target)
      case TStruct(fs) => if data.StructValue? then StructDecodes(data, fs, target, r) else r == Err(target)
      case TSlice(e) => if data.ListValue? then SliceDecodes(data.values, e, target, r) else r == Err(target)
      case TMap(intKeys, e) =>
        if !data.StructValue? then r == Err(target)
        else if intKeys then IntMapDecodes(data.fields, e, target, r)
        else TextMapDecodes(data.fields, e, target, r)
  }

  ghost predicate StructDecodes(data: Value, fs: seq<FieldType>, target: Go, r: Decoded)
    requires data.StructValue?
    decreases fs, 1
  {
    match r
    case Err(left) => left.Struct? && exists i: nat :: FailsAt(data, fs, target, left.fields, i)
    case Ok(isNil, value) =>
      && !isNil && value.Struct? && |value.fields| == |fs|
      && forall i :: 0 <= i < |fs| ==> IsDecoded(data, fs[i], FieldOf(target, i, fs[i].typ), value.fields[i])
  }

  /** The fields before the `i`-th one are decoded, that one fails and the later ones are untouched. */
  ghost predicate FailsAt(data: Value, fs: seq<FieldType>, target: Go, left: seq<Field>, i: nat)
    requires data.StructValue?
    decreases fs, 0
  {
    && i < |fs| == |left|
    && (forall j :: 0 <= j < i ==> IsDecoded(data, fs[j], FieldOf(target, j, fs[j].typ), left[j]))
    && left[i].desc == fs[i].desc && FieldDecodes(data, fs[i], FieldOf(target, i, fs[i].typ), Err(left[i].value))
    && (forall j :: i < j < |fs| ==> left[j] == Field(fs[j].desc, FieldOf(target, j, fs[j].typ)))
  }

  ghost predicate IsDecoded(data: Value, f: FieldType, slot: Go, x: Field)
    requires data.StructValue?
    decreases f, 1
  {
    x.desc == f.desc && exists n :: FieldDecodes(data, f, slot, Ok(n, x.value))
  }

  /** A slice or map is stored once all its elements are decoded. */
  ghost predicate SliceDecodes(xs: seq<Value>, e: Type, target: Go, r: Decoded)
    decreases e, 3
  {
    match r
    case Err(left) => left == target && exists i, x :: 0 <= i < |xs| && SlotDecodes(xs[i], e, Zero(e), Err(x))
    case Ok(isNil, value) =>
      && !isNil && value.Slice? && |value.elems| == |xs|
      && forall i :: 0 <= i < |xs| ==> SlotDecodes(xs[i], e, Zero(e), Ok(xs[i].NullValue?, value.elems[i]))
  }

  /** Null entries are dropped. */
  ghost predicate TextMapDecodes(m: map<string, Value>, e: Type, target: Go, r: Decoded)
    decreases e, 3
  {
    match r
    case Err(left) => left == target && exists k, x :: k in m && SlotDecodes(m[k], e, Zero(e), Err(x))
    case Ok(isNil, value) =>
      && !isNil && value.StrMap?
      && (forall k :: k in value.entries <==> k in m && !m[k].NullValue?)
      && (forall k :: k in value.entries ==> SlotDecodes(m[k], e, Zero(e), Ok(false, value.entries[k])))
  }

  ghost predicate IntMapDecodes(m: map<string, Value>, e: Type, target: Go, r: Decoded)
    decreases e, 3
  {
    match r
    case Err(left) =>
      && left == target
      && ((exists k, x :: k in m && SlotDecodes(m[k], e, Zero(e), Err(x))) ||
          (exists k :: k in m && !m[k].NullValue? && Atoi(k).None?))
    case Ok(isNil, value) =>
      && !isNil && value.IntMap?
      && (forall k :: k in m && !m[k].NullValue? ==>
           && Atoi(k).Some? && Atoi(k).value in value.numbered
           && exists v :: SlotDecodes(m[k], e, Zero(e), Ok(false, v)))
      && (forall n :: n in value.numbered ==> exists k ::
           && k in m && !m[k].NullValue? && Atoi(k) == Some(n)
           && SlotDecodes(m[k], e, Zero(e), Ok(false, value.numbered[n])))
  }

  /** A struct field, slice element or map element: a pointer slot receives a fresh target, which an error
      discards. */
  ghost predicate SlotDecodes(data: Value, t: Type, slot: Go, r: Decoded)
    decreases t, 2
  {
    if !t.TPtr? then Decodes(data, t, slot, r)
    else if data.NullValue? then r == Ok(true, slot)
    else match r
      case Err(left) => left == slot && exists x :: Decodes(data, t.elem, Zero(t.elem), Err(x))
      case Ok(isNil, value) => !isNil && value.Ptr? && Decodes(data, t.elem, Zero(t.elem), Ok(false, value.target))
  }

  /** An embedded field is decoded from the whole struct; a field without data keeps its value. */
  ghost predicate FieldDecodes(data: Value, f: FieldType, slot: Go, r: Decoded)
    requires data.StructValue?
    decreases f, 0
  {
    if f.desc.name.None? then r == Ok(false, slot)
    else if f.desc.anonymous then SlotDecodes(data, f.typ, slot, r)
    else if f.desc.name.value in data.fields then SlotDecodes(data.fields[f.desc.name.value], f.typ, slot, r)
    else r == Ok(false, slot)
  }

  // ---------------------------------------------------------------- the normal form

  /** What is left of a value after encoding it and decoding it into its own type. */
  ghost function Norm(v: Go, t: Type): Go
    requires HasType(v, t)
    decreases t, 0
  {
    match t
    case TInt(_) => Int(RoundInt(v.number))
    case TAny => Plain(v)
    case TStruct(fs) =>
      Struct(seq(|fs|, i requires 0 <= i < |fs| => Field(fs[i].desc, NormField(v.fields[i].value, fs[i]))))
    case TSlice(e) =>
      if v.NilSlice? then Slice([])
      else Slice(seq(|v.elems|, i requires 0 <= i < |v.elems| => Norm(v.elems[i], e)))
    case TMap(intKeys, e) =>
      if v.NilMap? then if intKeys then IntMap(map[]) else StrMap(map[])
      else if intKeys then IntMap(map k | k in v.numbered && !IsNull(v.numbered[k]) :: Norm(v.numbered[k], e))
      else StrMap(map k | k in v.entries && !IsNull(v.entries[k]) :: Norm(v.entries[k], e))
    case TPtr(e) => if v.NilPtr? then NilPtr else Ptr(Norm(v.target, e))
    case _ => v
  }

  ghost function NormField(v: Go, f: FieldType): Go
    requires HasType(v, f.typ)
    decreases f, 0
  {
    if f.desc.name.None? then Zero(f.typ)
    else if f.desc.anonymous && v.NilPtr? then Untouched(f)
    else Norm(v, f.typ)
  }

  /** An accepted field none of whose wire names is present: embedded pointers are still allocated. */
  ghost function Untouched(f: FieldType): Go
    decreases f, 0
  {
    if f.desc.name.None? || !f.desc.anonymous then Zero(f.typ)
    else match f.typ
      case TStruct(fs) => UntouchedStruct(fs)
      case TPtr(e) => if e.TStruct? then Ptr(UntouchedStruct(e.fields)) else NilPtr
      case _ => Zero(f.typ)
  }

  ghost function UntouchedStruct(fs: seq<FieldType>): Go
    decreases fs
  {
    Struct(seq(|fs|, i requires 0 <= i < |fs| => Field(fs[i].desc, Untouched(fs[i]))))
  }

  // ---------------------------------------------------------------- flattening keeps every field

  ghost predicate AgreeOn(m: map<string, Value>, m': map<string, Value>, names: set<string>) {
    forall k :: k in names ==> (k in m <==> k in m') && (k in m ==> m[k] == m'[k])
  }

  /** `vs` are the fields of a struct of type `fs`. */
  ghost predicate Typed(vs: seq<Field>, fs: seq<FieldType>) {
    && |vs| == |fs|
    && forall i :: 0 <= i < |fs| ==>
         vs[i].desc == fs[i].desc && HasType(vs[i].value, fs[i].typ) && Supported(fs[i].typ) && EmbedsStruct(fs[i])
  }

  ghost predicate DistinctNames(fs: seq<FieldType>) {
    forall i, j :: 0 <= i < j < |fs| ==> FieldNames(fs[i]) !! FieldNames(fs[j])
  }

  lemma {:induction false} NamesOfField(fs: seq<FieldType>, i: nat)
    requires i < |fs|
    ensures FieldNames(fs[i]) <= Names(fs)
  {
    if i < |fs| - 1 { NamesOfField(fs[..|fs| - 1], i); }
  }

  lemma {:induction false} EncodedNames(vs: seq<Field>, fs: seq<FieldType>)
    requires Typed(vs, fs)
    ensures EncodeFields(vs).Keys <= Names(fs)
    decreases fs, 1
  {
    if fs != [] {
      EncodedNames(vs[..|vs| - 1], fs[..|fs| - 1]);
      EncodedFieldNames(vs[|vs| - 1], fs[|fs| - 1]);
    }
  }

  lemma {:induction false} EncodedFieldNames(v: Field, f: FieldType)
    requires v.desc == f.desc && HasType(v.value, f.typ) && Supported(f.typ) && EmbedsStruct(f)
    ensures EncodeField(v).Keys <= FieldNames(f)
    decreases f, 0
  {
    if f.desc.name.Some? && f.desc.anonymous {
      match f.typ
      case TStruct(gs) =>
        EncodedNames(v.value.fields, gs);
        EncodeEmbedded(v);
      case TPtr(e) =>
        if v.value.Ptr? {
          EncodedNames(v.value.target.fields, e.fields);
          EncodeEmbedded(v);
        }
    }
  }

  lemma {:induction false} KeysAvoid(vs: seq<Field>, names: set<string>)
    requires forall j :: 0 <= j < |vs| ==> EncodeField(vs[j]).Keys !! names
    ensures EncodeFields(vs).Keys !! names
  {
    if vs != [] { KeysAvoid(vs[..|vs| - 1], names); }
  }

  /** What field `i` puts under names that no other field uses is not overridden. */
  lemma {:induction false} Survives(vs: seq<Field>, names: set<string>, i: nat)
    requires i < |vs| && forall j :: 0 <= j < |vs| && j != i ==> EncodeField(vs[j]).Keys !! names
    ensures AgreeOn(EncodeFields(vs), EncodeField(vs[i]), names)
  {
    hide EncodeField;
    var n := |vs| - 1;
    if i < n { Survives(vs[..n], names, i); } else { KeysAvoid(vs[..n], names); }
  }

  /** No other field overrides what field `i` contributes. */
  lemma FieldSurvives(vs: seq<Field>, fs: seq<FieldType>, i: nat)
    requires Typed(vs, fs) && DistinctNames(fs) && i < |fs|
    ensures AgreeOn(EncodeFields(vs), EncodeField(vs[i]), FieldNames(fs[i]))
  {
    hide EncodeFields, EncodeField, HasType, Supported, EmbedsStruct;
    forall j | 0 <= j < |vs| && j != i ensures EncodeField(vs[j]).Keys !! FieldNames(fs[i]) {
      EncodedFieldNames(vs[j], fs[j]);
    }
    Survives(vs, FieldNames(fs[i]), i);
  }

  // ---------------------------------------------------------------- the round trip

  lemma NullNormIsZero(v: Go, t: Type)
    requires HasType(v, t) && Supported(t) && IsNull(v)
    ensures Norm(v, t) == Zero(t) && (t.TAny? || t.TPtr?)
  {
  }

  /** Encoding a value and decoding it into a zero slot of its type yields its normal form. */
  lemma {:induction false} RoundTrip(v: Go, t: Type, r: Decoded)
    requires Supported(t) && HasType(v, t)
    requires SlotDecodes(Encode(v), t, Zero(t), r)
    ensures r == Ok(IsNull(v), Norm(v, t))
    decreases t, 3
  {
    hide RoundInt, FloatOfInt, IntOfFloat, Narrow, FitsWidth;
    hide StructDecodes, SliceDecodes, TextMapDecodes, IntMapDecodes;
    NullExactly(v);
    if IsNull(v) {
      NullNormIsZero(v, t);
    } else {
      match t
      case TInt(bits) => IntRoundTrip(v.number, bits);
      case TAny => DecodeEncode(v);
      case TStruct(fs) => StructRoundTrip(EncodeFields(v.fields), v, fs, r);
      case TSlice(e) => if v.Slice? { SliceRoundTrip(Encode(v).values, v, e, r); } else { NilSliceRoundTrip(e, r); }
      case TMap(intKeys, e) =>
        if v.NilMap? { NilMapRoundTrip(e, r); }
        else if intKeys { IntMapRoundTrip(v, e, r); }
        else { TextMapRoundTrip(v, e, r); }
      case TPtr(e) => PointerRoundTrip(v, e, r);
      case _ =>
    }
  }

  lemma IntRoundTrip(i: int, bits: nat)
    requires bits in {8, 16, 32, 64}
    ensures FitsWidth(bits, RoundInt(i)) ==> Narrow(bits, IntOfFloat(FloatOfInt(i))) == RoundInt(i)
  {
    hide RoundInt, FloatOfInt, IntOfFloat, Narrow, FitsWidth;
    if FitsWidth(bits, RoundInt(i)) {
      WidthsFitInt64(bits, RoundInt(i));
      IntThroughFloat(i);
      NarrowKeeps(bits, RoundInt(i));
    }
  }

  lemma {:induction false} PointerRoundTrip(v: Go, e: Type, r: Decoded)
    requires Supported(TPtr(e)) && HasType(v, TPtr(e)) && v.Ptr? && !IsNull(v)
    requires SlotDecodes(Encode(v), TPtr(e), NilPtr, r)
    ensures r == Ok(false, Norm(v, TPtr(e)))
    decreases e, 4
  {
    NullExactly(v);
    assert Encode(v) == Encode(v.target) && !IsNull(v.target);
    if r.Ok? {
      RoundTrip(v.target, e, Ok(false, r.value.target));
    } else {
      var x :| Decodes(Encode(v), e, Zero(e), Err(x));
      RoundTrip(v.target, e, Err(x));
    }
  }

  lemma WidthsFitInt64(bits: nat, i: int)
    requires bits in {8, 16, 32, 64} && FitsWidth(bits, i)
    ensures IsInt64(i)
  {
    hide Pow2;
    PowersOfTwo();
  }

  lemma {:induction false} SliceRoundTrip(xs: seq<Value>, v: Go, e: Type, r: Decoded)
    requires Supported(e) && v.Slice? && HasType(v, TSlice(e))
    requires |xs| == |v.elems| && forall i :: 0 <= i < |xs| ==> xs[i] == Encode(v.elems[i])
    requires SliceDecodes(xs, e, NilSlice, r)
    ensures r == Ok(false, Norm(v, TSlice(e)))
    decreases e, 4
  {
    forall i, d | 0 <= i < |xs| && SlotDecodes(xs[i], e, Zero(e), d)
      ensures d == Ok(IsNull(v.elems[i]), Norm(v.elems[i], e))
    {
      RoundTrip(v.elems[i], e, d);
    }
    assert r.value.elems == Norm(v, TSlice(e)).elems;
  }

  lemma NilSliceRoundTrip(e: Type, r: Decoded)
    requires SliceDecodes([], e, NilSlice, r)
    ensures r == Ok(false, Slice([]))
  {
  }

  lemma NilMapRoundTrip(e: Type, r: Decoded)
    ensures IntMapDecodes(map[], e, NilMap, r) ==> r == Ok(false, IntMap(map[]))
    ensures TextMapDecodes(map[], e, NilMap, r) ==> r == Ok(false, StrMap(map[]))
  {
    if IntMapDecodes(map[], e, NilMap, r) { assert forall n :: n !in r.value.numbered; }
    if TextMapDecodes(map[], e, NilMap, r) { assert r.value.entries == map[]; }
  }

  lemma {:induction false} TextMapRoundTrip(v: Go, e: Type, r: Decoded)
    requires Supported(e) && v.StrMap? && HasType(v, TMap(false, e))
    requires TextMapDecodes(EncodeEntries(v), e, NilMap, r)
    ensures r == Ok(false, Norm(v, TMap(false, e)))
    decreases e, 4
  {
    var m := EncodeEntries(v);
    forall k, d | k in m && SlotDecodes(m[k], e, Zero(e), d)
      ensures d == Ok(IsNull(v.entries[k]), Norm(v.entries[k], e))
    {
      RoundTrip(v.entries[k], e, d);
    }
    forall k | k in m ensures m[k].NullValue? <==> IsNull(v.entries[k]) { NullExactly(v.entries[k]); }
    TextMapEntries(m, v, e, r);
  }

  lemma TextMapEntries(m: map<string, Value>, v: Go, e: Type, r: Decoded)
    requires v.StrMap? && HasType(v, TMap(false, e)) && m.Keys == v.entries.Keys
    requires forall k :: k in m ==> (m[k].NullValue? <==> IsNull(v.entries[k]))
    requires forall k, d :: k in m && SlotDecodes(m[k], e, Zero(e), d) ==>
      d == Ok(IsNull(v.entries[k]), Norm(v.entries[k], e))
    requires TextMapDecodes(m, e, NilMap, r)
    ensures r == Ok(false, Norm(v, TMap(false, e)))
  {
    hide SlotDecodes, IsNull, Zero;
    assert r.value.entries == Norm(v, TMap(false, e)).entries;
  }

  lemma {:induction false} IntMapRoundTrip(v: Go, e: Type, r: Decoded)
    requires Supported(e) && v.IntMap? && HasType(v, TMap(true, e))
    requires IntMapDecodes(WithTextKeys(EncodeNumbered(v)), e, NilMap, r)
    ensures r == Ok(false, Norm(v, TMap(true, e)))
    decreases e, 5
  {
    var m := WithTextKeys(EncodeNumbered(v));
    assert WireEntries(m, v, e) by {
      hide EntryDecodes, IntMapDecodes;
      forall s | s in m ensures EntryDecodes(s, m[s], v, e) { EntryRoundTrip(s, v, e); }
    }
    IntMapEntries(m, v, e, r);
  }

  lemma {:induction false} EntryRoundTrip(s: string, v: Go, e: Type)
    requires Supported(e) && v.IntMap? && HasType(v, TMap(true, e)) && s in WithTextKeys(EncodeNumbered(v))
    ensures EntryDecodes(s, WithTextKeys(EncodeNumbered(v))[s], v, e)
    decreases e, 4
  {
    TextKeyEntry(s, v);
    var y := v.numbered[Atoi(s).value];
    forall d | SlotDecodes(Encode(y), e, Zero(e), d) ensures d == Ok(IsNull(y), Norm(y, e)) { RoundTrip(y, e, d); }
  }

  /** Wire entry `s` spells a key of the map and can only decode to the normal form of its value. */
  ghost predicate EntryDecodes(s: string, x: Value, v: Go, e: Type)
    requires v.IntMap? && HasType(v, TMap(true, e))
  {
    && IsEntryOf(s, x, v)
    && forall d :: SlotDecodes(x, e, Zero(e), d) ==>
         d == Ok(IsNull(v.numbered[Atoi(s).value]), Norm(v.numbered[Atoi(s).value], e))
  }

  /** Wire entry `s` carries the map entry whose key it spells. */
  ghost predicate IsEntryOf(s: string, x: Value, v: Go)
    requires v.IntMap?
  {
    && Atoi(s).Some? && Atoi(s).value in v.numbered && s == Itoa(Atoi(s).value)
    && x == Encode(v.numbered[Atoi(s).value]) && (x.NullValue? <==> IsNull(v.numbered[Atoi(s).value]))
  }

  lemma TextKeyEntry(s: string, v: Go)
    requires v.IntMap? && s in WithTextKeys(EncodeNumbered(v))
    requires forall k :: k in v.numbered ==> IsInt64(k)
    ensures IsEntryOf(s, WithTextKeys(EncodeNumbered(v))[s], v)
  {
    var k :| k in v.numbered && s == Itoa(k);
    AtoiOfItoa(k);
    NullExactly(v.numbered[k]);
  }

  /** Every entry on the wire spells a key of the map, and every key is spelt. */
  ghost predicate WireEntries(m: map<string, Value>, v: Go, e: Type)
    requires v.IntMap? && HasType(v, TMap(true, e))
  {
    (forall s :: s in m ==> EntryDecodes(s, m[s], v, e)) && (forall n :: n in v.numbered ==> Itoa(n) in m)
  }

  /** The map under key `n` holds something that is not null and has normal form `x`. */
  ghost predicate Restores(v: Go, e: Type, n: int, x: Go)
    requires v.IntMap? && HasType(v, TMap(true, e))
  {
    n in v.numbered && !IsNull(v.numbered[n]) && x == Norm(v.numbered[n], e)
  }

  lemma IntMapEntries(m: map<string, Value>, v: Go, e: Type, r: Decoded)
    requires v.IntMap? && HasType(v, TMap(true, e)) && WireEntries(m, v, e)
    requires IntMapDecodes(m, e, NilMap, r)
    ensures r == Ok(false, Norm(v, TMap(true, e)))
  {
    hide Itoa, Atoi, Encode, SlotDecodes, IsNull, EntryDecodes, Restores;
    forall s | s in m ensures Atoi(s).Some? && forall x :: !SlotDecodes(m[s], e, Zero(e), Err(x)) {
      EntryFacts(s, m[s], v, e);
    }
    forall n | n in v.numbered && !IsNull(v.numbered[n]) ensures n in r.value.numbered {
      AtoiOfItoa(n);
      EntryFacts(Itoa(n), m[Itoa(n)], v, e);
    }
    forall n | n in r.value.numbered ensures Restores(v, e, n, r.value.numbered[n]) {
      var x := r.value.numbered[n];
      var s :| s in m && !m[s].NullValue? && Atoi(s) == Some(n) && SlotDecodes(m[s], e, Zero(e), Ok(false, x));
      EntryRestores(s, m[s], v, e, x);
    }
    SameNumbered(v, e, r.value.numbered);
  }

  lemma EntryFacts(s: string, x: Value, v: Go, e: Type)
    requires v.IntMap? && HasType(v, TMap(true, e)) && EntryDecodes(s, x, v, e)
    ensures Atoi(s).Some? && Atoi(s).value in v.numbered && (x.NullValue? <==> IsNull(v.numbered[Atoi(s).value]))
    ensures forall y :: !SlotDecodes(x, e, Zero(e), Err(y))
  {
  }

  lemma EntryRestores(s: string, x: Value, v: Go, e: Type, y: Go)
    requires v.IntMap? && HasType(v, TMap(true, e)) && EntryDecodes(s, x, v, e)
    requires !x.NullValue? && SlotDecodes(x, e, Zero(e), Ok(false, y))
    ensures Restores(v, e, Atoi(s).value, y)
  {
  }

  lemma SameNumbered(v: Go, e: Type, numbered: map<int, Go>)
    requires v.IntMap? && HasType(v, TMap(true, e))
    requires forall n :: n in v.numbered && !IsNull(v.numbered[n]) ==> n in numbered
    requires forall n :: n in numbered ==> Restores(v, e, n, numbered[n])
    ensures IntMap(numbered) == Norm(v, TMap(true, e))
  {
    forall n | n in numbered
      ensures n in v.numbered && !IsNull(v.numbered[n]) && numbered[n] == Norm(v.numbered[n], e)
    {
      assert Restores(v, e, n, numbered[n]);
    }
    var norm := Norm(v, TMap(true, e)).numbered;
    assert forall n :: n in norm ==> n in v.numbered && !IsNull(v.numbered[n]);
    assert forall n :: n in norm ==> n in numbered;
    assert forall n :: n in numbered ==> n in norm;
    assert numbered == norm;
  }

  /** A slot for a struct is decoded field by field. */
  lemma StructSlot(data: Value, fs: seq<FieldType>, slot: Go, r: Decoded)
    requires data.StructValue? && SlotDecodes(data, TStruct(fs), slot, r)
    ensures StructDecodes(data, fs, slot, r)
  {
    assert Decodes(data, TStruct(fs), slot, r) == StructDecodes(data, fs, slot, r);
  }

  /** A slot for a pointer to a struct gets a fresh struct that is decoded field by field. */
  lemma PointerSlot(data: Value, fs: seq<FieldType>, slot: Go, r: Decoded) returns (d: Decoded)
    requires data.StructValue? && SlotDecodes(data, TPtr(TStruct(fs)), slot, r)
    ensures StructDecodes(data, fs, Zero(TStruct(fs)), d) && r.Ok? == d.Ok?
    ensures r.Ok? ==> !r.isNil && r.value.Ptr? && d == Ok(false, r.value.target)
  {
    if r.Ok? {
      d := Ok(false, r.value.target);
    } else {
      var x :| Decodes(data, TStruct(fs), Zero(TStruct(fs)), Err(x));
      d := Err(x);
    }
    assert Decodes(data, TStruct(fs), Zero(TStruct(fs)), d) == StructDecodes(data, fs, Zero(TStruct(fs)), d);
  }

  /** The field can only be decoded to `x`, and without an error. */
  ghost predicate OnlyTo(data: Value, f: FieldType, slot: Go, x: Field)
    requires data.StructValue?
  {
    forall d :: FieldDecodes(data, f, slot, d) ==> d.Ok? && x == Field(f.desc, d.value)
  }

  ghost predicate AllOnlyTo(data: Value, fs: seq<FieldType>, target: Go, expected: seq<Field>)
    requires data.StructValue? && |expected| == |fs|
  {
    forall i :: 0 <= i < |fs| ==> OnlyTo(data, fs[i], FieldOf(target, i, fs[i].typ), expected[i])
  }

  /** If every field can only be decoded to what is expected of it, so can the struct. */
  lemma StructOf(data: Value, fs: seq<FieldType>, target: Go, expected: seq<Field>, r: Decoded)
    requires data.StructValue? && |expected| == |fs| && StructDecodes(data, fs, target, r)
    ensures AllOnlyTo(data, fs, target, expected) ==> r == Ok(false, Struct(expected))
  {
    hide FieldDecodes;
    if r.Err? {
      var i: nat :| FailsAt(data, fs, target, r.left.fields, i);
      assert FieldDecodes(data, fs[i], FieldOf(target, i, fs[i].typ), Err(r.left.fields[i].value));
      assert !OnlyTo(data, fs[i], FieldOf(target, i, fs[i].typ), expected[i]);
    } else if AllOnlyTo(data, fs, target, expected) {
      forall i | 0 <= i < |fs| ensures r.value.fields[i] == expected[i] {
        assert OnlyTo(data, fs[i], FieldOf(target, i, fs[i].typ), expected[i]);
        assert IsDecoded(data, fs[i], FieldOf(target, i, fs[i].typ), r.value.fields[i]);
      }
      assert r.value.fields == expected;
    }
  }

  /** A struct is recovered from any wire struct that agrees with its encoding on its own names. */
  lemma {:induction false} StructRoundTrip(m: map<string, Value>, v: Go, fs: seq<FieldType>, r: Decoded)
    requires Supported(TStruct(fs)) && HasType(v, TStruct(fs))
    requires AgreeOn(m, EncodeFields(v.fields), Names(fs))
    requires StructDecodes(StructValue(m), fs, Zero(TStruct(fs)), r)
    ensures r == Ok(false, Norm(v, TStruct(fs)))
    decreases fs, 0
  {
    var data, zero := StructValue(m), Zero(TStruct(fs));
    var expected := Norm(v, TStruct(fs)).fields;
    forall i | 0 <= i < |fs| ensures OnlyTo(data, fs[i], FieldOf(zero, i, fs[i].typ), expected[i]) {
      FieldSurvives(v.fields, fs, i);
      NamesOfField(fs, i);
      forall d | FieldDecodes(data, fs[i], FieldOf(zero, i, fs[i].typ), d)
        ensures d.Ok? && expected[i] == Field(fs[i].desc, d.value)
      {
        FieldRoundTrip(m, v.fields[i], fs[i], d);
      }
    }
    StructOf(data, fs, zero, expected, r);
  }

  lemma {:induction false} FieldRoundTrip(m: map<string, Value>, v: Field, f: FieldType, r: Decoded)
    requires v.desc == f.desc && HasType(v.value, f.typ) && Supported(f.typ) && EmbedsStruct(f)
    requires AgreeOn(m, EncodeField(v), FieldNames(f))
    requires FieldDecodes(StructValue(m), f, Zero(f.typ), r)
    ensures r.Ok? && r.value == NormField(v.value, f)
    decreases f, 0
  {
    if f.desc.name.Some? {
      if !f.desc.anonymous {
        assert f.desc.name.value in FieldNames(f);
        RoundTrip(v.value, f.typ, r);
      } else {
        match f.typ
        case TStruct(gs) =>
          EncodeEmbedded(v);
          StructSlot(StructValue(m), gs, Zero(f.typ), r);
          StructRoundTrip(m, v.value, gs, r);
        case TPtr(e) =>
          var d := PointerSlot(StructValue(m), e.fields, Zero(f.typ), r);
          if v.value.Ptr? { EncodeEmbedded(v); } else { assert EncodeField(v) == map[]; }
          if v.value.NilPtr? { UntouchedRoundTrip(m, e.fields, d); }
          else { StructRoundTrip(m, v.value.target, e.fields, d); }
      }
    }
  }

  /** Decoding a struct none of whose names is on the wire only allocates embedded pointers. */
  lemma {:induction false} UntouchedRoundTrip(m: map<string, Value>, fs: seq<FieldType>, r: Decoded)
    requires Supported(TStruct(fs)) && m.Keys !! Names(fs)
    requires StructDecodes(StructValue(m), fs, Zero(TStruct(fs)), r)
    ensures r == Ok(false, UntouchedStruct(fs))
    decreases fs, 0
  {
    var data, zero := StructValue(m), Zero(TStruct(fs));
    var expected := UntouchedStruct(fs).fields;
    forall i | 0 <= i < |fs| ensures OnlyTo(data, fs[i], FieldOf(zero, i, fs[i].typ), expected[i]) {
      NamesOfField(fs, i);
      forall d | FieldDecodes(data, fs[i], FieldOf(zero, i, fs[i].typ), d)
        ensures d.Ok? && expected[i] == Field(fs[i].desc, d.value)
      {
        UntouchedField(m, fs[i], d);
      }
    }
    StructOf(data, fs, zero, expected, r);
  }

  lemma {:induction false} UntouchedField(m: map<string, Value>, f: FieldType, d: Decoded)
    requires Supported(f.typ) && EmbedsStruct(f) && m.Keys !! FieldNames(f)
    requires FieldDecodes(StructValue(m), f, Zero(f.typ), d)
    ensures d.Ok? && d.value == Untouched(f)
    decreases f, 0
  {
    var data := StructValue(m);
    if f.desc.name.Some? && f.desc.anonymous {
      match f.typ
      case TStruct(gs) =>
        StructSlot(data, gs, Zero(f.typ), d);
        UntouchedRoundTrip(m, gs, d);
      case TPtr(e) =>
        var x := PointerSlot(data, e.fields, Zero(f.typ), d);
        UntouchedRoundTrip(m, e.fields, x);
    } else if f.desc.name.Some? {
      assert f.desc.name.value in FieldNames(f);
    }
  }
}
