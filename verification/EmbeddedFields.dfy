/** Embedded fields that are no structs: what the decoder makes of them, and exactly when the encoding of a
    struct can be decoded. */
module EmbeddedFields {
  import opened Numbers
  import opened Wrappers
  import opened GoValues
  import opened Codec
  import opened TypedCodec

  /** The type behind at most one pointer. */
  function Behind(t: Type): Type {
    if t.TPtr? then t.elem else t
  }

  predicate Embedded(f: FieldType) {
    f.desc.name.Some? && f.desc.anonymous
  }

  /** A map or an interface takes in the whole struct. */
  predicate Absorbs(f: FieldType) {
    Embedded(f) && (Behind(f.typ).TMap? || Behind(f.typ).TAny?)
  }

  lemma FieldIsSlot(data: Value, f: FieldType, slot: Go, r: Decoded)
    requires data.StructValue? && Embedded(f)
    ensures FieldDecodes(data, f, slot, r) <==> SlotDecodes(data, f.typ, slot, r)
    ensures !f.typ.TPtr? ==> (FieldDecodes(data, f, slot, r) <==> Decodes(data, f.typ, slot, r))
  {
  }

  /** An embedded scalar or slice, or a pointer to one, makes every struct value undecodable, also the one
      the encoder made. */
  lemma EmbeddedNonStructFails(data: Value, fs: seq<FieldType>, target: Go, r: Decoded, i: nat)
    requires data.StructValue? && i < |fs| && Embedded(fs[i])
    requires var t := Behind(fs[i].typ); t.TBool? || t.TInt? || t.TFloat? || t.TString? || t.TSlice?
    requires StructDecodes(data, fs, target, r)
    ensures r.Err?
  {
    var slot, t := FieldOf(target, i, fs[i].typ), Behind(fs[i].typ);
    forall slot', n, x ensures !Decodes(data, t, slot', Ok(n, x)) { NoStructIn(data, t, slot', n, x); }
    forall n, x ensures !FieldDecodes(data, fs[i], slot, Ok(n, x)) { FieldIsSlot(data, fs[i], slot, Ok(n, x)); }
  }

  lemma NoStructIn(data: Value, t: Type, slot: Go, isNil: bool, x: Go)
    requires data.StructValue? && (t.TBool? || t.TInt? || t.TFloat? || t.TString? || t.TSlice?)
    ensures !Decodes(data, t, slot, Ok(isNil, x))
  {
  }

  /** An embedded interface receives the whole struct in its dynamic form. */
  lemma EmbeddedInterfaceAbsorbs(data: Value, fs: seq<FieldType>, target: Go, r: Decoded, i: nat)
    requires data.StructValue? && i < |fs| && Embedded(fs[i]) && fs[i].typ.TAny?
    requires StructDecodes(data, fs, target, r) && r.Ok?
    ensures r.value.fields[i].value == Decode(data)
  {
    var slot, x := FieldOf(target, i, fs[i].typ), r.value.fields[i].value;
    assert IsDecoded(data, fs[i], slot, r.value.fields[i]);
    forall n ensures FieldDecodes(data, fs[i], slot, Ok(n, x)) <==> Ok(n, x) == Ok(false, Decode(data)) {
      FieldIsSlot(data, fs[i], slot, Ok(n, x));
    }
  }

  /** An embedded map, or the map behind an embedded pointer, receives every field of the struct that is
      not null, those of the other members included.  If one of them is no value for the map, or its name
      no key for it, the struct cannot be decoded. */
  lemma EmbeddedMapAbsorbs(
      data: Value, fs: seq<FieldType>, target: Go, r: Decoded, i: nat, intKeys: bool, e: Type)
    requires data.StructValue? && i < |fs| && Embedded(fs[i]) && Behind(fs[i].typ) == TMap(intKeys, e)
    requires StructDecodes(data, fs, target, r)
    ensures r.Ok? ==> var x := r.value.fields[i].value;
      && (fs[i].typ.TPtr? ==> x.Ptr?)
      && MapDecodes(data, intKeys, e, if fs[i].typ.TPtr? then x.target else x)
    ensures (exists k :: Foreign(data, intKeys, k, e)) ==> r.Err?
  {
    if r.Ok? {
      var slot, x := FieldOf(target, i, fs[i].typ), r.value.fields[i].value;
      assert IsDecoded(data, fs[i], slot, r.value.fields[i]);
      var n :| FieldDecodes(data, fs[i], slot, Ok(n, x));
      FieldIsSlot(data, fs[i], slot, Ok(n, x));
      var slot', x' := if fs[i].typ.TPtr? then Zero(fs[i].typ.elem) else slot, if fs[i].typ.TPtr? then x.target else x;
      MapFromStruct(data, intKeys, e, slot', Ok(false, x'));
    }
  }

  ghost predicate MapDecodes(data: Value, intKeys: bool, e: Type, x: Go)
    requires data.StructValue?
  {
    if intKeys then IntMapDecodes(data.fields, e, NilMap, Ok(false, x))
    else TextMapDecodes(data.fields, e, NilMap, Ok(false, x))
  }

  /** `k` carries something that is no value of type `e`, or is not a number where a number is needed. */
  ghost predicate Foreign(data: Value, intKeys: bool, k: string, e: Type)
    requires data.StructValue?
  {
    && k in data.fields && !data.fields[k].NullValue?
    && ((intKeys && Atoi(k).None?) || forall x :: !SlotDecodes(data.fields[k], e, Zero(e), Ok(false, x)))
  }

  lemma MapFromStruct(data: Value, intKeys: bool, e: Type, slot: Go, d: Decoded)
    requires data.StructValue? && Decodes(data, TMap(intKeys, e), slot, d) && d.Ok? && !d.isNil
    ensures MapDecodes(data, intKeys, e, d.value)
    ensures forall k :: !Foreign(data, intKeys, k, e)
  {
    hide SlotDecodes, Atoi;
    if intKeys {
      assert IntMapDecodes(data.fields, e, slot, d);
    } else {
      assert TextMapDecodes(data.fields, e, slot, d);
      forall k | k in data.fields && !data.fields[k].NullValue? ensures !Foreign(data, intKeys, k, e) {
        assert SlotDecodes(data.fields[k], e, Zero(e), Ok(false, d.value.entries[k]));
      }
    }
  }

  /** A struct that consists of an embedded map round-trips like the map. */
  lemma EmbeddedMapAlone(v: Go, f: FieldType, e: Type, r: Decoded)
    requires Embedded(f) && f.typ == TMap(false, e) && Supported(e)
    requires v.StrMap? && HasType(v, f.typ)
    requires Decodes(Encode(Struct([Field(f.desc, v)])), TStruct([f]), Zero(TStruct([f])), r)
    ensures r == Ok(false, Struct([Field(f.desc, Norm(v, f.typ))]))
  {
    var data, slot := StructValue(EncodeEntries(v)), NilMap;
    MapAloneEncodes(v, f.desc);
    StructSlot(data, [f], Zero(TStruct([f])), r);
    assert Zero(f.typ) == slot && FieldOf(Zero(TStruct([f])), 0, f.typ) == slot;
    forall d | FieldDecodes(data, f, slot, d) ensures d == Ok(false, Norm(v, f.typ)) {
      FieldIsSlot(data, f, slot, d);
      TextMapRoundTrip(v, e, d);
    }
    StructOf(data, [f], Zero(TStruct([f])), [Field(f.desc, Norm(v, f.typ))], r);
  }

  lemma MapAloneEncodes(v: Go, desc: FieldDesc)
    requires v.StrMap? && desc.name.Some? && desc.anonymous
    ensures Encode(Struct([Field(desc, v)])) == StructValue(EncodeEntries(v))
  {
    var fs := [Field(desc, v)];
    EncodeStruct(Struct(fs));
    assert fs[..0] == [] && EncodeFields(fs) == EncodeFields([]) + EncodeField(fs[0]);
    assert Encode(v) == StructValue(EncodeEntries(v));
  }

  // ---------------------------------------------------------------- success does not depend on the map order

  /** The same data cannot both be decoded and fail, whatever the targets hold. */
  lemma {:induction false} NotBoth(data: Value, t: Type, s: Go, s': Go, n: bool, x: Go, y: Go)
    requires Decodes(data, t, s, Ok(n, x))
    ensures !Decodes(data, t, s', Err(y))
    decreases t, 1
  {
    if !data.NullValue? {
      match t
      case TStruct(fs) => if data.StructValue? { StructNotBoth(data, fs, s, s', n, x, y); }
      case TSlice(e) => if data.ListValue? { SliceNotBoth(data.values, e, s, s', n, x, y); }
      case TMap(intKeys, e) => if data.StructValue? { MapNotBoth(data, intKeys, e, s, s', n, x, y); }
      case _ =>
    }
  }

  lemma {:induction false} SlotNotBoth(data: Value, t: Type, s: Go, s': Go, n: bool, x: Go, y: Go)
    requires SlotDecodes(data, t, s, Ok(n, x))
    ensures !SlotDecodes(data, t, s', Err(y))
    decreases t, 2
  {
    if !t.TPtr? {
      NotBoth(data, t, s, s', n, x, y);
    } else if !data.NullValue? {
      forall z ensures !Decodes(data, t.elem, Zero(t.elem), Err(z)) {
        NotBoth(data, t.elem, Zero(t.elem), Zero(t.elem), false, x.target, z);
      }
    }
  }

  lemma {:induction false} FieldNotBoth(data: Value, f: FieldType, s: Go, s': Go, n: bool, x: Go, y: Go)
    requires data.StructValue? && FieldDecodes(data, f, s, Ok(n, x))
    ensures !FieldDecodes(data, f, s', Err(y))
    decreases f, 0
  {
    if f.desc.name.Some? {
      if f.desc.anonymous {
        SlotNotBoth(data, f.typ, s, s', n, x, y);
      } else if f.desc.name.value in data.fields {
        SlotNotBoth(data.fields[f.desc.name.value], f.typ, s, s', n, x, y);
      }
    }
  }

  lemma {:induction false} StructNotBoth(data: Value, fs: seq<FieldType>, s: Go, s': Go, n: bool, x: Go, y: Go)
    requires data.StructValue? && StructDecodes(data, fs, s, Ok(n, x))
    ensures !StructDecodes(data, fs, s', Err(y))
    decreases fs, 0
  {
    forall i, z | 0 <= i < |fs| ensures !FieldDecodes(data, fs[i], FieldOf(s', i, fs[i].typ), Err(z)) {
      var slot := FieldOf(s, i, fs[i].typ);
      assert IsDecoded(data, fs[i], slot, x.fields[i]);
      var n' :| FieldDecodes(data, fs[i], slot, Ok(n', x.fields[i].value));
      FieldNotBoth(data, fs[i], slot, FieldOf(s', i, fs[i].typ), n', x.fields[i].value, z);
    }
  }

  lemma {:induction false} SliceNotBoth(xs: seq<Value>, e: Type, s: Go, s': Go, n: bool, x: Go, y: Go)
    requires SliceDecodes(xs, e, s, Ok(n, x))
    ensures !SliceDecodes(xs, e, s', Err(y))
    decreases e, 3
  {
    forall i, z | 0 <= i < |xs| ensures !SlotDecodes(xs[i], e, Zero(e), Err(z)) {
      SlotNotBoth(xs[i], e, Zero(e), Zero(e), xs[i].NullValue?, x.elems[i], z);
    }
  }

  lemma {:induction false} MapNotBoth(data: Value, intKeys: bool, e: Type, s: Go, s': Go, n: bool, x: Go, y: Go)
    requires data.StructValue? && Decodes(data, TMap(intKeys, e), s, Ok(n, x))
    ensures !Decodes(data, TMap(intKeys, e), s', Err(y))
    decreases e, 5
  {
    MapFromStruct(data, intKeys, e, s, Ok(n, x));
    NoForeignNoError(data, intKeys, e, s', y);
  }

  /** A map fails on nothing but foreign entries. */
  lemma {:induction false} NoForeignNoError(data: Value, intKeys: bool, e: Type, slot: Go, y: Go)
    requires data.StructValue? && forall k :: !Foreign(data, intKeys, k, e)
    ensures !Decodes(data, TMap(intKeys, e), slot, Err(y))
    decreases e, 4
  {
    forall k | k in data.fields ensures EntryIsFine(data.fields[k], intKeys, k, e) {
      EntryCannotFail(data, intKeys, k, e);
    }
    FineEntriesCannotFail(data.fields, intKeys, e, slot, y);
    assert Decodes(data, TMap(intKeys, e), slot, Err(y)) ==
      if intKeys then IntMapDecodes(data.fields, e, slot, Err(y)) else TextMapDecodes(data.fields, e, slot, Err(y));
  }

  ghost predicate EntryIsFine(x: Value, intKeys: bool, k: string, e: Type) {
    (intKeys && !x.NullValue? ==> Atoi(k).Some?) && forall z :: !SlotDecodes(x, e, Zero(e), Err(z))
  }

  lemma {:induction false} EntryCannotFail(data: Value, intKeys: bool, k: string, e: Type)
    requires data.StructValue? && k in data.fields && !Foreign(data, intKeys, k, e)
    ensures EntryIsFine(data.fields[k], intKeys, k, e)
    decreases e, 3
  {
    var x := data.fields[k];
    if !x.NullValue? {
      var v :| SlotDecodes(x, e, Zero(e), Ok(false, v));
      forall z ensures !SlotDecodes(x, e, Zero(e), Err(z)) { SlotNotBoth(x, e, Zero(e), Zero(e), false, v, z); }
    }
  }

  lemma FineEntriesCannotFail(m: map<string, Value>, intKeys: bool, e: Type, slot: Go, y: Go)
    requires forall k :: k in m ==> EntryIsFine(m[k], intKeys, k, e)
    ensures !TextMapDecodes(m, e, slot, Err(y)) && (intKeys ==> !IntMapDecodes(m, e, slot, Err(y)))
  {
    hide SlotDecodes, Atoi, Zero;
  }

  // ---------------------------------------------------------------- exactly when an encoding can be decoded

  /** The field takes the struct `data`: it is not embedded, or it is a struct or an interface, or a map
      that no field of the struct is foreign to; each perhaps behind a pointer. */
  ghost predicate Takes(data: Value, f: FieldType)
    requires data.StructValue?
  {
    Embedded(f) ==>
      match Behind(f.typ)
      case TStruct(_) => true
      case TAny => true
      case TMap(intKeys, e) => forall k :: !Foreign(data, intKeys, k, e)
      case _ => false
  }

  /** What a map or an interface contributes does not override the named fields and embedded structs. */
  ghost predicate NoClash(vs: seq<Field>, fs: seq<FieldType>)
    requires |vs| == |fs|
  {
    forall i, j :: 0 <= i < |fs| && 0 <= j < |fs| && Absorbs(fs[j]) && i != j ==>
      EncodeField(vs[j]).Keys !! FieldNames(fs[i])
  }

  /** The encoding of a struct can be decoded exactly when every embedded field takes it. */
  lemma OwnEncodingDecodesExactly(v: Go, fs: seq<FieldType>, r: Decoded)
    requires v.Struct? && HasType(v, TStruct(fs)) && DistinctNames(fs) && NoClash(v.fields, fs)
    requires forall i :: 0 <= i < |fs| ==> Supported(fs[i].typ)
    requires Decodes(Encode(v), TStruct(fs), Zero(TStruct(fs)), r)
    ensures r.Ok? <==> forall i :: 0 <= i < |fs| ==> Takes(StructValue(EncodeFields(v.fields)), fs[i])
  {
    var data, zero := StructValue(EncodeFields(v.fields)), Zero(TStruct(fs));
    EncodeStruct(v);
    StructSlot(data, fs, zero, r);
    if r.Ok? {
      forall i | 0 <= i < |fs| ensures Takes(data, fs[i]) { DecodedTakes(data, fs, zero, r, i); }
    } else {
      var i: nat :| FailsAt(data, fs, zero, r.left.fields, i);
      assert FieldOf(zero, i, fs[i].typ) == Zero(fs[i].typ);
      TakesDecodes(v.fields, fs, i, Err(r.left.fields[i].value));
    }
  }

  lemma DecodedTakes(data: Value, fs: seq<FieldType>, target: Go, r: Decoded, i: nat)
    requires data.StructValue? && i < |fs| && Supported(fs[i].typ) && StructDecodes(data, fs, target, r)
    ensures r.Ok? ==> Takes(data, fs[i])
  {
    if Embedded(fs[i]) {
      match Behind(fs[i].typ)
      case TStruct(_) =>
      case TAny =>
      case TMap(intKeys, e) => EmbeddedMapAbsorbs(data, fs, target, r, i, intKeys, e);
      case _ => EmbeddedNonStructFails(data, fs, target, r, i);
    }
  }

  /** A field that takes the encoding cannot fail on it. */
  lemma TakesDecodes(vs: seq<Field>, fs: seq<FieldType>, i: nat, d: Decoded)
    requires |vs| == |fs| && i < |fs| && DistinctNames(fs) && NoClash(vs, fs)
    requires forall j :: 0 <= j < |fs| ==> vs[j].desc == fs[j].desc && HasType(vs[j].value, fs[j].typ)
    requires forall j :: 0 <= j < |fs| ==> Supported(fs[j].typ)
    requires FieldDecodes(StructValue(EncodeFields(vs)), fs[i], Zero(fs[i].typ), d)
    ensures Takes(StructValue(EncodeFields(vs)), fs[i]) ==> d.Ok?
  {
    var data, f := StructValue(EncodeFields(vs)), fs[i];
    if Takes(data, f) {
      if Absorbs(f) {
        AbsorbingTakes(data, f, Zero(f.typ), d);
      } else {
        forall j | 0 <= j < |fs| && j != i ensures EncodeField(vs[j]).Keys !! FieldNames(f) {
          KeysOfOthers(vs[j], fs[j]);
        }
        Survives(vs, FieldNames(f), i);
        FieldRoundTrip(data.fields, vs[i], f, d);
      }
    }
  }

  /** Only embedded maps and interfaces put other names on the wire than those of their type. */
  lemma KeysOfOthers(v: Field, f: FieldType)
    requires v.desc == f.desc && HasType(v.value, f.typ) && Supported(f.typ)
    ensures Absorbs(f) || EncodeField(v).Keys <= FieldNames(f)
  {
    if EmbedsStruct(f) {
      EncodedFieldNames(v, f);
    } else if !Absorbs(f) {
      NotFlattened(v.value, f.typ);
    }
  }

  lemma NotFlattened(v: Go, t: Type)
    requires HasType(v, t) && Supported(t) && !Behind(t).TStruct? && !Behind(t).TMap? && !Behind(t).TAny?
    ensures !Encode(v).StructValue?
  {
    if v.Ptr? { assert Encode(v) == EncodeKind(v.target); } else { assert Encode(v) == EncodeKind(v) || v.NilPtr?; }
  }

  lemma AbsorbingTakes(data: Value, f: FieldType, slot: Go, d: Decoded)
    requires data.StructValue? && Absorbs(f) && Supported(f.typ) && Takes(data, f)
    requires FieldDecodes(data, f, slot, d)
    ensures d.Ok?
  {
    FieldIsSlot(data, f, slot, d);
    if Behind(f.typ).TMap? {
      var t := Behind(f.typ);
      forall slot', y ensures !Decodes(data, t, slot', Err(y)) { NoForeignNoError(data, t.intKeys, t.elem, slot', y); }
    }
  }
}
