/** Decoding into a target that already holds something: what the data does not mention stays. */
module Merging {
  import opened Numbers
  import opened Wrappers
  import opened GoValues
  import opened TypedCodec

  /** Every part of `target` that the type gives a place to is there. */
  ghost predicate Shaped(target: Go, fs: seq<FieldType>) {
    && target.Struct? && |target.fields| == |fs|
    && forall i :: 0 <= i < |fs| ==>
         && target.fields[i].desc == fs[i].desc
         && (fs[i].typ.TStruct? ==> Shaped(target.fields[i].value, fs[i].typ.fields))
  }

  lemma {:induction false} TypedIsShaped(v: Go, fs: seq<FieldType>)
    requires HasType(v, TStruct(fs))
    ensures Shaped(v, fs)
  {
    forall i | 0 <= i < |fs| && fs[i].typ.TStruct? ensures Shaped(v.fields[i].value, fs[i].typ.fields) {
      TypedIsShaped(v.fields[i].value, fs[i].typ.fields);
    }
  }

  /** What the target holds after the call, whether or not it succeeded. */
  function After(r: Decoded): Go {
    if r.Ok? then r.value else r.left
  }

  /** The data says nothing about this field: it has no wire name, or its name is absent or null. */
  predicate NotMentioned(data: Value, f: FieldType)
    requires data.StructValue?
  {
    match f.desc.name
    case None => true
    case Some(name) => !f.desc.anonymous && (name !in data.fields || data.fields[name] == NullValue)
  }

  lemma NotMentionedSlot(data: Value, f: FieldType, slot: Go, d: Decoded)
    requires data.StructValue? && NotMentioned(data, f) && FieldDecodes(data, f, slot, d)
    ensures d.Ok? && d.value == slot
  {
    if f.desc.name.Some? && f.desc.name.value in data.fields {
      assert SlotDecodes(data.fields[f.desc.name.value], f.typ, slot, d);
      assert Decodes(NullValue, f.typ, slot, d) ==> d == Ok(true, slot);
    }
  }

  lemma NotMentionedField(data: Value, f: FieldType, slot: Go, x: Field, v: Go)
    requires data.StructValue? && NotMentioned(data, f)
    ensures IsDecoded(data, f, slot, x) ==> x == Field(f.desc, slot)
    ensures !FieldDecodes(data, f, slot, Err(v))
  {
    hide FieldDecodes;
    forall d | FieldDecodes(data, f, slot, d) ensures d.Ok? && d.value == slot { NotMentionedSlot(data, f, slot, d); }
  }

  /** A field that is not mentioned holds what it held, also when another field fails. */
  lemma NotMentionedKeeps(data: Value, fs: seq<FieldType>, target: Go, r: Decoded, i: nat)
    requires data.StructValue? && Shaped(target, fs) && StructDecodes(data, fs, target, r)
    requires i < |fs| && NotMentioned(data, fs[i])
    ensures After(r).Struct? && |After(r).fields| == |fs| && After(r).fields[i] == target.fields[i]
  {
    hide IsDecoded, FieldDecodes, NotMentioned;
    var left := After(r).fields[i];
    NotMentionedField(data, fs[i], FieldOf(target, i, fs[i].typ), left, left.value);
  }

  /** The data from which a field is decoded: an embedded field shares that of its struct. */
  function DataOf(data: Value, f: FieldType): Value
    requires data.StructValue? && !NotMentioned(data, f)
  {
    if f.desc.anonymous then data else data.fields[f.desc.name.value]
  }

  lemma StructSlotMerges(data: Value, fs: seq<FieldType>, slot: Go, r: Decoded)
    requires !data.NullValue? && SlotDecodes(data, TStruct(fs), slot, r) && r.Ok?
    ensures data.StructValue? && !r.isNil && StructDecodes(data, fs, slot, r)
  {
    assert Decodes(data, TStruct(fs), slot, r) ==
           if data.StructValue? then StructDecodes(data, fs, slot, r) else r == Err(slot);
  }

  /** A mentioned struct is decoded into what the field holds, not into a fresh value. */
  lemma StructFieldMerges(data: Value, fs: seq<FieldType>, target: Go, r: Decoded, i: nat)
    requires data.StructValue? && Shaped(target, fs) && StructDecodes(data, fs, target, r) && r.Ok?
    requires i < |fs| && fs[i].typ.TStruct? && !NotMentioned(data, fs[i])
    ensures DataOf(data, fs[i]).StructValue? && r.value.Struct? && |r.value.fields| == |fs|
    ensures StructDecodes(DataOf(data, fs[i]), fs[i].typ.fields, target.fields[i].value,
                          Ok(false, r.value.fields[i].value))
  {
    var f, slot := fs[i], FieldOf(target, i, fs[i].typ);
    assert IsDecoded(data, f, slot, r.value.fields[i]);
    hide StructDecodes, SlotDecodes, Shaped;
    var n :| FieldDecodes(data, f, slot, Ok(n, r.value.fields[i].value));
    StructSlotMerges(DataOf(data, f), f.typ.fields, slot, Ok(n, r.value.fields[i].value));
  }

  /** What a place inside nested structs holds; a path lists the fields to go through. */
  function At(v: Go, path: seq<nat>): Option<Go> {
    if path == [] then Some(v)
    else if v.Struct? && path[0] < |v.fields| then At(v.fields[path[0]].value, path[1..])
    else None
  }

  /** Following the path through structs, embedded or not, one comes to a field that is not mentioned. */
  predicate Unmentioned(data: Value, fs: seq<FieldType>, path: seq<nat>)
    decreases path
  {
    && path != [] && path[0] < |fs| && data.StructValue?
    && var f := fs[path[0]];
       NotMentioned(data, f) || (f.typ.TStruct? && Unmentioned(DataOf(data, f), f.typ.fields, path[1..]))
  }

  /** Nothing the data does not mention changes, at any depth. */
  lemma {:induction false} UnmentionedStays(data: Value, fs: seq<FieldType>, target: Go, r: Decoded, path: seq<nat>)
    requires Unmentioned(data, fs, path) && Shaped(target, fs)
    requires StructDecodes(data, fs, target, r) && r.Ok?
    ensures At(r.value, path) == At(target, path)
    decreases path
  {
    hide StructDecodes;
    var i := path[0];
    if NotMentioned(data, fs[i]) {
      NotMentionedKeeps(data, fs, target, r, i);
    } else {
      StructFieldMerges(data, fs, target, r, i);
      var inner := Ok(false, r.value.fields[i].value);
      UnmentionedStays(DataOf(data, fs[i]), fs[i].typ.fields, target.fields[i].value, inner, path[1..]);
    }
  }

  /** Data that is there replaces everything but a struct: the result does not depend on what was held. */
  lemma MentionedReplaces(data: Value, t: Type, slot: Go, slot': Go, r: Decoded)
    requires !data.NullValue? && !t.TStruct? && SlotDecodes(data, t, slot, r) && r.Ok?
    ensures SlotDecodes(data, t, slot', r)
  {
    hide Decodes;
    if !t.TPtr? { DecodesAlike(data, t, slot, slot', r); }
  }

  lemma DecodesAlike(data: Value, t: Type, slot: Go, slot': Go, r: Decoded)
    requires !data.NullValue? && !t.TStruct? && !t.TPtr? && r.Ok? && Decodes(data, t, slot, r)
    ensures Decodes(data, t, slot', r)
  {
    hide SliceDecodes, TextMapDecodes, IntMapDecodes, IntOfFloat, Narrow, StructDecodes;
    match t
    case TSlice(e) => SliceReplaces(data.values, e, slot, slot', r);
    case TMap(_, e) => MapReplaces(data.fields, e, slot, slot', r);
    case _ =>
  }

  lemma SliceReplaces(xs: seq<Value>, e: Type, slot: Go, slot': Go, r: Decoded)
    requires r.Ok?
    ensures SliceDecodes(xs, e, slot, r) <==> SliceDecodes(xs, e, slot', r)
  {
    hide SlotDecodes;
  }

  lemma MapReplaces(m: map<string, Value>, e: Type, slot: Go, slot': Go, r: Decoded)
    requires r.Ok?
    ensures TextMapDecodes(m, e, slot, r) <==> TextMapDecodes(m, e, slot', r)
    ensures IntMapDecodes(m, e, slot, r) <==> IntMapDecodes(m, e, slot', r)
  {
    hide SlotDecodes, Atoi;
  }

  /** No pointer is embedded, at any depth of embedding. */
  predicate NoEmbeddedPointer(fs: seq<FieldType>)
    decreases fs
  {
    forall i :: 0 <= i < |fs| ==> EmbedsNoPointer(fs[i])
  }

  predicate EmbedsNoPointer(f: FieldType)
    decreases f, 0
  {
    if f.desc.name.None? || !f.desc.anonymous then true
    else match f.typ
      case TPtr(_) => false
      case TStruct(gs) => NoEmbeddedPointer(gs)
      case _ => true
  }

  /** Data with none of the names of a struct, such as an empty one, leaves every value of it as it is. */
  lemma {:induction false} NothingMentioned(m: map<string, Value>, fs: seq<FieldType>, target: Go, r: Decoded)
    requires Supported(TStruct(fs)) && NoEmbeddedPointer(fs) && Shaped(target, fs) && m.Keys !! Names(fs)
    requires StructDecodes(StructValue(m), fs, target, r)
    ensures r == Ok(false, target)
    decreases fs
  {
    hide StructDecodes;
    var data := StructValue(m);
    forall i | 0 <= i < |fs| ensures OnlyTo(data, fs[i], FieldOf(target, i, fs[i].typ), target.fields[i]) {
      NamesOfField(fs, i);
      var f, slot := fs[i], target.fields[i].value;
      if f.desc.name.Some? && f.desc.anonymous {
        forall d | FieldDecodes(data, f, slot, d) ensures d == Ok(false, slot) {
          StructSlot(data, f.typ.fields, slot, d);
          NothingMentioned(m, f.typ.fields, slot, d);
        }
      }
    }
    StructOf(data, fs, target, target.fields, r);
  }
}
