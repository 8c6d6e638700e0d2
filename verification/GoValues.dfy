/** Go values and types as the codec's reflection sees them, and protobuf `Value` trees. */
module GoValues {
  import opened Numbers
  import opened Wrappers

  /** google.protobuf.Value; `NoKind` is a message whose oneof is not set. */
  datatype Value =
    | NoKind
    | NullValue
    | NumberValue(number: Numbers.Float)
    | StringValue(text: string)
    | BoolValue(flag: bool)
    | StructValue(fields: map<string, Value>)
    | ListValue(values: seq<Value>)

  /** What the codec asks about a struct field: its wire name (None for a field tagged "-") and
      whether it is embedded. */
  datatype FieldDesc = FieldDesc(name: Option<string>, anonymous: bool)

  datatype Field = Field(desc: FieldDesc, value: Go)

  datatype Go =
    | Nil                                     // a nil interface
    | Bool(flag: bool)
    | Int(number: int)
    | Float(float: Numbers.Float)
    | Str(text: string)
    | Struct(fields: seq<Field>)
    | NilSlice | Slice(elems: seq<Go>)
    | NilMap | StrMap(entries: map<string, Go>) | IntMap(numbered: map<int, Go>)
    | NilPtr | Ptr(target: Go)
    | Other                                   // channels, functions, unsigned integers, ...

  datatype FieldType = FieldType(desc: FieldDesc, typ: Type)

  datatype Type =
    | TBool
    | TInt(bits: nat)
    | TFloat
    | TString
    | TAny
    | TStruct(fields: seq<FieldType>)
    | TSlice(elem: Type)
    | TMap(intKeys: bool, elem: Type)
    | TPtr(elem: Type)

  function Zero(t: Type): Go {
    match t
    case TBool => Bool(false)
    case TInt(_) => Int(0)
    case TFloat => Float(Finite(0.0))
    case TString => Str("")
    case TAny => Nil
    case TStruct(fs) => Struct(seq(|fs|, i requires 0 <= i < |fs| => Field(fs[i].desc, Zero(fs[i].typ))))
    case TSlice(_) => NilSlice
    case TMap(_, _) => NilMap
    case TPtr(_) => NilPtr
  }

  /** `v` is a value of type `t`; a 64-bit integer must stay in range when rounded to a float64. */
  ghost predicate HasType(v: Go, t: Type) {
    match t
    case TBool => v.Bool?
    case TInt(bits) =>
      v.Int? && bits in {8, 16, 32, 64} && FitsWidth(bits, v.number) && FitsWidth(bits, RoundInt(v.number))
    case TFloat => v.Float?
    case TString => v.Str?
    case TAny => true
    case TStruct(fs) => v.Struct? && |v.fields| == |fs| &&
      forall i :: 0 <= i < |fs| ==> v.fields[i].desc == fs[i].desc && HasType(v.fields[i].value, fs[i].typ)
    case TSlice(e) => v.NilSlice? || (v.Slice? && forall i :: 0 <= i < |v.elems| ==> HasType(v.elems[i], e))
    case TMap(intKeys, e) =>
      v.NilMap? ||
      (if intKeys then v.IntMap? && forall k :: k in v.numbered ==> IsInt64(k) && HasType(v.numbered[k], e)
       else v.StrMap? && forall k :: k in v.entries ==> HasType(v.entries[k], e))
    case TPtr(e) => v.NilPtr? || (v.Ptr? && HasType(v.target, e))
  }

  // ---------------------------------------------------------------- types the codec supports

  ghost function FieldNames(f: FieldType): set<string>
    decreases f, 0
  {
    if f.desc.name.None? then {}
    else if !f.desc.anonymous then {f.desc.name.value}
    else match f.typ
      case TStruct(fs) => Names(fs)
      case TPtr(e) => if e.TStruct? then Names(e.fields) else {}
      case _ => {}
  }

  /** The wire names of a struct once embedded structs are flattened. */
  ghost function Names(fs: seq<FieldType>): set<string>
    decreases fs
  {
    if fs == [] then {} else Names(fs[..|fs| - 1]) + FieldNames(fs[|fs| - 1])
  }

  /** Flattened wire names are distinct, embedded fields are structs or pointers to structs, and a
      pointer points to something that is neither a pointer nor an interface. */
  ghost predicate Supported(t: Type) {
    match t
    case TStruct(fs) =>
      && (forall i :: 0 <= i < |fs| ==> Supported(fs[i].typ) && EmbedsStruct(fs[i]))
      && (forall i, j :: 0 <= i < j < |fs| ==> FieldNames(fs[i]) !! FieldNames(fs[j]))
    case TSlice(e) => Supported(e)
    case TMap(_, e) => Supported(e)
    case TPtr(e) => !e.TPtr? && !e.TAny? && Supported(e)
    case _ => true
  }

  ghost predicate EmbedsStruct(f: FieldType) {
    f.desc.name.Some? && f.desc.anonymous ==> f.typ.TStruct? || (f.typ.TPtr? && f.typ.elem.TStruct?)
  }
}
