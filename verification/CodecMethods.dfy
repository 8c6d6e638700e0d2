/** The codec as it runs: loops that fill maps and slices, in any map order, against the
    specifications in Codec and TypedCodec. */
module CodecMethods {
  import opened Numbers
  import opened Wrappers
  import opened GoValues
  import opened Codec
  import opened TypedCodec

  method ConvertInterfaceToGrpcStruct(data: Go) returns (r: Value)
    ensures r == Encode(data)
    decreases data, 1
  {
    match data
    case Nil => r := NullValue;
    case NilPtr => r := NullValue;
    case Ptr(target) => r := ConvertKind(target);
    case _ => r := ConvertKind(data);
  }

  method ConvertKind(v: Go) returns (r: Value)
    ensures r == EncodeKind(v)
    decreases v, 0
  {
    match v
    case Bool(b) => r := BoolValue(b);
    case Int(i) => r := NumberValue(FloatOfInt(i));
    case Float(f) => r := NumberValue(f);
    case Str(s) => r := StringValue(s);
    case Struct(fs) =>
      var fields := ConvertFields(v);
      r := StructValue(fields);
    case NilSlice => r := ListValue([]);
    case Slice(es) =>
      var values: seq<Value> := [];
      for i := 0 to |es|
        invariant |values| == i && forall j :: 0 <= j < i ==> values[j] == Encode(es[j])
      {
        var value := ConvertInterfaceToGrpcStruct(es[i]);
        values := values + [value];
      }
      r := ListValue(values);
    case NilMap => r := StructValue(map[]);
    case StrMap(m) =>
      var fields: map<string, Value> := map[];
      var todo := m.Keys;
      while todo != {}
        invariant todo <= m.Keys && fields.Keys == m.Keys - todo
        invariant forall k :: k in fields ==> fields[k] == Encode(m[k])
      {
        var k :| k in todo;
        var value := ConvertInterfaceToGrpcStruct(m[k]);
        fields := fields[k := value];
        todo := todo - {k};
      }
      assert fields == EncodeEntries(v);
      r := StructValue(fields);
    case IntMap(m) =>
      var fields := ConvertNumbered(v);
      r := StructValue(fields);
    case _ => r := NullValue;
  }

  method ConvertFields(v: Go) returns (fields: map<string, Value>)
    requires v.Struct?
    ensures fields == EncodeFields(v.fields)
    decreases v, 0, 0
  {
    var fs := v.fields;
    fields := map[];
    for i := 0 to |fs|
      invariant fields == EncodeFields(fs[..i])
    {
      assert fs[..i + 1][..i] == fs[..i];
      if fs[i].desc.name.Some? {
        var value := ConvertInterfaceToGrpcStruct(fs[i].value);
        if !fs[i].desc.anonymous {
          fields := fields[fs[i].desc.name.value := value];
        } else if value.StructValue? {
          fields := Merge(fields, value.fields);
        }
      }
    }
    assert fs[..|fs|] == fs;
  }

  method Merge(fields: map<string, Value>, more: map<string, Value>) returns (r: map<string, Value>)
    ensures r == fields + more
  {
    r := fields;
    var todo := more.Keys;
    while todo != {}
      invariant todo <= more.Keys && r.Keys == fields.Keys + (more.Keys - todo)
      invariant forall k :: k in r ==> r[k] == if k in more && k !in todo then more[k] else fields[k]
    {
      var k :| k in todo;
      r := r[k := more[k]];
      todo := todo - {k};
    }
  }

  /** `fields` holds the encoded entries of `m` under their keys' decimal text, except for `todo`. */
  ghost predicate Spells(fields: map<string, Value>, m: map<int, Go>, todo: set<int>) {
    && (forall k :: k in m && k !in todo ==> Itoa(k) in fields && fields[Itoa(k)] == Encode(m[k]))
    && (forall s :: s in fields ==> exists k :: k in m && k !in todo && s == Itoa(k))
  }

  method ConvertNumbered(v: Go) returns (fields: map<string, Value>)
    requires v.IntMap?
    ensures fields == WithTextKeys(EncodeNumbered(v))
    decreases v, 0, 0
  {
    hide Spells, Itoa;
    var m := v.numbered;
    fields := map[];
    SpellsNothing(m);
    var todo := m.Keys;
    while todo != {}
      invariant todo <= m.Keys && Spells(fields, m, todo)
    {
      var k := AnyKey(todo);
      var value := ConvertInterfaceToGrpcStruct(m[k]);
      SpellsMore(fields, m, todo, k);
      fields := fields[Itoa(k) := value];
      todo := todo - {k};
    }
    SpellsAll(fields, v);
  }

  method AnyKey<T(==)>(keys: set<T>) returns (k: T)
    requires keys != {}
    ensures k in keys
  {
    k :| k in keys;
  }

  lemma SpellsNothing(m: map<int, Go>)
    ensures Spells(map[], m, m.Keys)
  {
  }

  lemma SpellsMore(fields: map<string, Value>, m: map<int, Go>, todo: set<int>, k: int)
    requires Spells(fields, m, todo) && k in todo && k in m
    ensures Spells(fields[Itoa(k) := Encode(m[k])], m, todo - {k})
  {
    hide Itoa, Encode;
    KeysInjective();
    var more := fields[Itoa(k) := Encode(m[k])];
    forall s | s in more ensures exists n :: n in m && n !in todo - {k} && s == Itoa(n) {
      if s != Itoa(k) { var n :| n in m && n !in todo && s == Itoa(n); }
    }
  }

  lemma SpellsAll(fields: map<string, Value>, v: Go)
    requires v.IntMap? && Spells(fields, v.numbered, {})
    ensures fields == WithTextKeys(EncodeNumbered(v))
  {
    hide Itoa, Encode;
    var all := WithTextKeys(EncodeNumbered(v));
    forall s | s in all ensures s in fields && fields[s] == all[s] {
      var k :| k in EncodeNumbered(v) && s == Itoa(k);
    }
    forall s | s in fields ensures s in all {
      var k :| k in v.numbered && s == Itoa(k);
      assert k in EncodeNumbered(v);
    }
  }

  // ---------------------------------------------------------------- dynamic decoding

  method ConvertGrpcStructToInterface(data: Value) returns (r: Go)
    ensures r == Decode(data)
  {
    match data
    case StructValue(m) =>
      var fields: map<string, Go> := map[];
      var todo := m.Keys;
      while todo != {}
        invariant todo <= m.Keys && fields.Keys == m.Keys - todo
        invariant forall k :: k in fields ==> fields[k] == Decode(m[k])
      {
        var k :| k in todo;
        var value := ConvertGrpcStructToInterface(m[k]);
        fields := fields[k := value];
        todo := todo - {k};
      }
      r := StrMap(fields);
    case ListValue(xs) =>
      var list: seq<Go> := [];
      for i := 0 to |xs|
        invariant |list| == i && forall j :: 0 <= j < i ==> list[j] == Decode(xs[j])
      {
        var value := ConvertGrpcStructToInterface(xs[i]);
        list := list + [value];
      }
      r := Slice(list);
    case StringValue(s) => r := Str(s);
    case NumberValue(f) => r := Float(f);
    case BoolValue(b) => r := Bool(b);
    case _ => r := Nil;
  }

  // ---------------------------------------------------------------- typed decoding

  method GrpcToGoInner(data: Value, t: Type, target: Go) returns (r: Decoded)
    ensures Decodes(data, t, target, r)
    decreases t, 1
  {
    if data.NullValue? { return Ok(true, target); }
    match t
    case TBool => r := if data.BoolValue? then Ok(false, Bool(data.flag)) else Err(target);
    case TInt(bits) =>
      r := if data.NumberValue? && bits > 0 then Ok(false, Int(Narrow(bits, IntOfFloat(data.number)))) else Err(target);
    case TFloat => r := if data.NumberValue? then Ok(false, Float(data.number)) else Err(target);
    case TString => r := if data.StringValue? then Ok(false, Str(data.text)) else Err(target);
    case TAny =>
      if data.NoKind? { return Err(target); }
      var value := ConvertGrpcStructToInterface(data);
      r := Ok(false, value);
    case TPtr(_) => r := Ok(false, target);
    case TStruct(fs) => if data.StructValue? { r := DecodeStruct(data, fs, target); } else { r := Err(target); }
    case TSlice(e) => if data.ListValue? { r := DecodeSlice(data.values, e, target); } else { r := Err(target); }
    case TMap(intKeys, e) =>
      if !data.StructValue? { r := Err(target); }
      else if intKeys { r := DecodeIntMap(data.fields, e, target); }
      else { r := DecodeTextMap(data.fields, e, target); }
  }

  method DecodeSlot(data: Value, t: Type, slot: Go) returns (r: Decoded)
    ensures SlotDecodes(data, t, slot, r)
    ensures r.Ok? ==> r.isNil == data.NullValue?
    decreases t, 2
  {
    if !t.TPtr? {
      r := GrpcToGoInner(data, t, slot);
    } else {
      r := GrpcToGoInner(data, t.elem, Zero(t.elem));
      match r
      case Ok(isNil, value) => r := if isNil then Ok(true, slot) else Ok(false, Ptr(value));
      case Err(_) => r := Err(slot);
    }
  }

  /** The fields are written one after the other, so an error leaves the earlier ones written. */
  method DecodeStruct(data: Value, fs: seq<FieldType>, target: Go) returns (r: Decoded)
    requires data.StructValue?
    ensures StructDecodes(data, fs, target, r)
    decreases fs, 0
  {
    hide FieldDecodes;
    var fields := seq(|fs|, i requires 0 <= i < |fs| => Field(fs[i].desc, FieldOf(target, i, fs[i].typ)));
    for i := 0 to |fs|
      invariant |fields| == |fs|
      invariant forall j :: 0 <= j < i ==> IsDecoded(data, fs[j], FieldOf(target, j, fs[j].typ), fields[j])
      invariant forall j :: i <= j < |fs| ==> fields[j] == Field(fs[j].desc, FieldOf(target, j, fs[j].typ))
    {
      var d := DecodeField(data, fs[i], fields[i].value);
      match d
      case Err(left) =>
        fields := fields[i := Field(fs[i].desc, left)];
        assert FailsAt(data, fs, target, fields, i);
        return Err(Struct(fields));
      case Ok(isNil, value) =>
        assert FieldDecodes(data, fs[i], FieldOf(target, i, fs[i].typ), Ok(isNil, value));
        fields := fields[i := Field(fs[i].desc, value)];
    }
    r := Ok(false, Struct(fields));
  }

  method DecodeField(data: Value, f: FieldType, slot: Go) returns (r: Decoded)
    requires data.StructValue?
    ensures FieldDecodes(data, f, slot, r)
    decreases f, 0
  {
    r := Ok(false, slot);
    if f.desc.name.Some? {
      if f.desc.anonymous {
        r := DecodeSlot(data, f.typ, slot);
      } else if f.desc.name.value in data.fields {
        r := DecodeSlot(data.fields[f.desc.name.value], f.typ, slot);
      }
    }
  }

  method DecodeSlice(xs: seq<Value>, e: Type, target: Go) returns (r: Decoded)
    ensures SliceDecodes(xs, e, target, r)
    decreases e, 3
  {
    hide SlotDecodes;
    var elems: seq<Go> := [];
    for i := 0 to |xs|
      invariant |elems| == i
      invariant forall j :: 0 <= j < i ==> SlotDecodes(xs[j], e, Zero(e), Ok(xs[j].NullValue?, elems[j]))
    {
      var d := DecodeSlot(xs[i], e, Zero(e));
      if d.Err? {
        assert SlotDecodes(xs[i], e, Zero(e), Err(d.left));
        return Err(target);
      }
      elems := elems + [d.value];
    }
    r := Ok(false, Slice(elems));
  }

  /** `entries` holds the decoded entries of `m` but those in `todo`. */
  ghost predicate TextSoFar(m: map<string, Value>, e: Type, todo: set<string>, entries: map<string, Go>) {
    && (forall k :: k in entries <==> k in m && k !in todo && !m[k].NullValue?)
    && (forall k :: k in entries ==> SlotDecodes(m[k], e, Zero(e), Ok(false, entries[k])))
  }

  lemma TextMore(m: map<string, Value>, e: Type, todo: set<string>, entries: map<string, Go>, k: string, d: Decoded)
    requires k in m && TextSoFar(m, e, todo, entries) && k in todo
    requires d.Ok? && d.isNil == m[k].NullValue? && SlotDecodes(m[k], e, Zero(e), d)
    ensures TextSoFar(m, e, todo - {k}, if d.isNil then entries else entries[k := d.value])
  {
    hide SlotDecodes;
  }

  lemma TextDone(m: map<string, Value>, e: Type, target: Go, entries: map<string, Go>)
    requires TextSoFar(m, e, {}, entries)
    ensures TextMapDecodes(m, e, target, Ok(false, StrMap(entries)))
  {
    hide SlotDecodes;
  }

  lemma EntryFails(m: map<string, Value>, e: Type, target: Go, k: string, x: Go)
    requires k in m && SlotDecodes(m[k], e, Zero(e), Err(x))
    ensures TextMapDecodes(m, e, target, Err(target)) && IntMapDecodes(m, e, target, Err(target))
  {
    hide SlotDecodes;
  }

  method DecodeTextMap(m: map<string, Value>, e: Type, target: Go) returns (r: Decoded)
    ensures TextMapDecodes(m, e, target, r)
    decreases e, 3
  {
    hide SlotDecodes, Zero;
    var entries: map<string, Go> := map[];
    var todo := m.Keys;
    while todo != {}
      invariant todo <= m.Keys && TextSoFar(m, e, todo, entries)
    {
      hide TextSoFar, TextMapDecodes;
      var k :| k in todo;
      var d := DecodeSlot(m[k], e, Zero(e));
      if d.Err? {
        EntryFails(m, e, target, k, d.left);
        return Err(target);
      }
      TextMore(m, e, todo, entries, k, d);
      if !d.isNil { entries := entries[k := d.value]; }
      todo := todo - {k};
    }
    TextDone(m, e, target, entries);
    r := Ok(false, StrMap(entries));
  }

  /** `numbered` holds the decoded entries of `m` but those in `todo`, under the keys they spell. */
  ghost predicate NumberedSoFar(m: map<string, Value>, e: Type, todo: set<string>, numbered: map<int, Go>) {
    && (forall k :: k in m && k !in todo && !m[k].NullValue? ==>
         && Atoi(k).Some? && Atoi(k).value in numbered
         && exists v :: SlotDecodes(m[k], e, Zero(e), Ok(false, v)))
    && (forall n :: n in numbered ==> exists k ::
         k in m && !m[k].NullValue? && Atoi(k) == Some(n) && SlotDecodes(m[k], e, Zero(e), Ok(false, numbered[n])))
  }

  lemma NumberedMore(m: map<string, Value>, e: Type, todo: set<string>, numbered: map<int, Go>, k: string, d: Decoded)
    requires k in m && NumberedSoFar(m, e, todo, numbered) && k in todo && d.Ok? && d.isNil == m[k].NullValue?
    requires SlotDecodes(m[k], e, Zero(e), d) && (!d.isNil ==> Atoi(k).Some?)
    ensures NumberedSoFar(m, e, todo - {k}, if d.isNil then numbered else numbered[Atoi(k).value := d.value])
  {
    hide SlotDecodes, Atoi, Zero;
  }

  lemma NumberedDone(m: map<string, Value>, e: Type, target: Go, numbered: map<int, Go>)
    requires NumberedSoFar(m, e, {}, numbered)
    ensures IntMapDecodes(m, e, target, Ok(false, IntMap(numbered)))
  {
    hide SlotDecodes, Atoi, Zero;
  }

  lemma KeyFails(m: map<string, Value>, e: Type, target: Go, k: string)
    requires k in m && !m[k].NullValue? && Atoi(k).None?
    ensures IntMapDecodes(m, e, target, Err(target))
  {
    hide SlotDecodes, Atoi, Zero;
  }

  method DecodeIntMap(m: map<string, Value>, e: Type, target: Go) returns (r: Decoded)
    ensures IntMapDecodes(m, e, target, r)
    decreases e, 3
  {
    hide Atoi, SlotDecodes, Zero;
    var numbered: map<int, Go> := map[];
    var todo := m.Keys;
    while todo != {}
      invariant todo <= m.Keys && NumberedSoFar(m, e, todo, numbered)
    {
      hide NumberedSoFar, IntMapDecodes;
      var k :| k in todo;
      var d := DecodeSlot(m[k], e, Zero(e));
      if d.Err? {
        EntryFails(m, e, target, k, d.left);
        return Err(target);
      }
      if !d.isNil {
        var n := Atoi(k);
        if n.None? {
          KeyFails(m, e, target, k);
          return Err(target);
        }
        NumberedMore(m, e, todo, numbered, k, d);
        numbered := numbered[n.value := d.value];
      } else {
        NumberedMore(m, e, todo, numbered, k, d);
      }
      todo := todo - {k};
    }
    NumberedDone(m, e, target, numbered);
    r := Ok(false, IntMap(numbered));
  }
}
