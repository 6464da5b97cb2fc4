/** The generic data model the codec walks, in place of serde's visitor double dispatch:
    a `Value` is what the encoder writes, a `Shape` is the schema the decoder is asked for
    (what a concrete type's `Deserialize` implementation would request). */
module Values {

  import opened Text
  import opened FileSystem

  datatype Value =
    | Bool(b: bool)
    | Int(n: int)
    | Char(c: char)
    | Str(s: Bytes)
    | ByteBuf(bytes: Bytes)
      /** `()` and unit structs: the codec treats them identically. */
    | Unit
      /** `Option::None` */
    | Absent
      /** `Option::Some` */
    | Present(inner: Value)
    | Newtype(inner: Value)
    | Seq(elems: seq<Value>)
      /** Tuples and tuple structs: the codec treats them identically. */
    | Tuple(elems: seq<Value>)
    | Map(entries: seq<(Value, Value)>)
    | Struct(fields: seq<(Name, Value)>)
    | UnitVariant(variant: Name)
    | NewtypeVariant(variant: Name, payload: Value)
    | TupleVariant(variant: Name, elems: seq<Value>)
    | StructVariant(variant: Name, fields: seq<(Name, Value)>)

  datatype Shape =
    | BoolS
    | IntS(kind: IntKind)
    | CharS
    | StrS
    | BytesS
    | UnitS
    | OptionS(inner: Shape)
    | NewtypeS(inner: Shape)
    | SeqS(elem: Shape)
    | TupleS(elems: seq<Shape>)
      /** A map with string keys and values of the given shape. */
    | MapS(value: Shape)
      /** A struct's declared fields, in declaration order. */
    | StructS(fields: seq<(Name, Shape)>)
      /** An enum's variants, in declaration order. */
    | EnumS(variants: seq<(Name, VariantShape)>)

  datatype VariantShape =
    | UnitV
    | NewtypeV(payload: Shape)
    | TupleV(elems: seq<Shape>)
    | StructV(fields: seq<(Name, Shape)>)

  /** What the encoding of `v` leaves at its path. */
  function Layout(v: Value): Kind {
    match v
    case Absent => Missing
    case Present(x) => Layout(x)
    case Newtype(x) => Layout(x)
    case Bool(_) => FileKind
    case Int(_) => FileKind
    case Char(_) => FileKind
    case Str(_) => FileKind
    case ByteBuf(_) => FileKind
    case Unit => FileKind
    case UnitVariant(_) => FileKind
    case _ => DirKind
  }

  predicate Materializes(v: Value) {
    Layout(v) != Missing
  }

  /** The index of the first variant called `name`, or `|variants|` when there is none. */
  function FindVariant(variants: seq<(Name, VariantShape)>, name: Name): (r: nat)
    ensures r <= |variants|
    ensures r < |variants| ==> variants[r].0 == name
    ensures forall j | 0 <= j < r :: variants[j].0 != name
  {
    if |variants| == 0 then 0
    else if variants[0].0 == name then 0
    else 1 + FindVariant(variants[1..], name)
  }

  /** Every map key anywhere in `v` is a string. */
  predicate StringKeys(v: Value) {
    match v
    case Present(x) => StringKeys(x)
    case Newtype(x) => StringKeys(x)
    case Seq(es) => forall i | 0 <= i < |es| :: StringKeys(es[i])
    case Tuple(es) => forall i | 0 <= i < |es| :: StringKeys(es[i])
    case Map(en) => forall i | 0 <= i < |en| :: en[i].0.Str? && StringKeys(en[i].1)
    case Struct(fv) => forall i | 0 <= i < |fv| :: StringKeys(fv[i].1)
    case NewtypeVariant(_, x) => StringKeys(x)
    case TupleVariant(_, es) => forall i | 0 <= i < |es| :: StringKeys(es[i])
    case StructVariant(_, fv) => forall i | 0 <= i < |fv| :: StringKeys(fv[i].1)
    case _ => true
  }

  predicate DistinctNames<T>(fields: seq<(Name, T)>) {
    forall i, j | 0 <= i < j < |fields| :: fields[i].0 != fields[j].0
  }

  /** `v` is a value of shape `s`: what the decoder can produce when asked for `s`. */
  predicate HasShape(v: Value, s: Shape)
    decreases s
  {
    match s
    case BoolS => v.Bool?
    case IntS(k) => v.Int? && k.InRange(v.n)
    case CharS => v.Char?
    case StrS => v.Str?
    case BytesS => v.ByteBuf?
    case UnitS => v.Unit?
    case OptionS(t) => v.Absent? || (v.Present? && HasShape(v.inner, t))
    case NewtypeS(t) => v.Newtype? && HasShape(v.inner, t)
    case SeqS(t) => v.Seq? && forall i | 0 <= i < |v.elems| :: HasShape(v.elems[i], t)
    case TupleS(ts) => v.Tuple? && ElemsShaped(v.elems, ts, 0)
    case MapS(t) =>
      v.Map? && forall i | 0 <= i < |v.entries| :: v.entries[i].0.Str? && HasShape(v.entries[i].1, t)
    case StructS(fs) => v.Struct? && FieldsShaped(v.fields, fs, 0)
    case EnumS(vs) =>
      (v.UnitVariant? || v.NewtypeVariant? || v.TupleVariant? || v.StructVariant?) &&
      var k := FindVariant(vs, v.variant);
      k < |vs| && HasVariantShape(v, vs[k].1)
  }

  /** The elements `es` have the shapes `ts[i..]`, one for one. */
  predicate ElemsShaped(es: seq<Value>, ts: seq<Shape>, i: nat)
    requires i <= |ts|
    decreases ts, |ts| - i
  {
    && |es| == |ts| - i
    && (i < |ts| ==> HasShape(es[0], ts[i]) && ElemsShaped(es[1..], ts, i + 1))
  }

  /** The fields `fv` carry the names and shapes of the declared fields `fs[i..]`, one
      for one. */
  predicate FieldsShaped(fv: seq<(Name, Value)>, fs: seq<(Name, Shape)>, i: nat)
    requires i <= |fs|
    decreases fs, |fs| - i
  {
    && |fv| == |fs| - i
    && (i < |fs| ==>
          var f := fs[i];
          assert f.1 < f;
          fv[0].0 == f.0 && HasShape(fv[0].1, f.1) && FieldsShaped(fv[1..], fs, i + 1))
  }

  predicate HasVariantShape(v: Value, vs: VariantShape)
    requires v.UnitVariant? || v.NewtypeVariant? || v.TupleVariant? || v.StructVariant?
    decreases vs
  {
    match vs
    case UnitV => v.UnitVariant?
    case NewtypeV(t) => v.NewtypeVariant? && HasShape(v.payload, t)
    case TupleV(ts) => v.TupleVariant? && ElemsShaped(v.elems, ts, 0)
    case StructV(fs) => v.StructVariant? && FieldsShaped(v.fields, fs, 0)
  }

  /** The entries are listed in strictly ascending order of their string keys. */
  predicate KeysAscending(en: seq<(Value, Value)>) {
    && (forall i | 0 <= i < |en| :: en[i].0.Str?)
    && (forall i, j | 0 <= i < j < |en| :: LexLess(en[i].0.s, en[j].0.s))
  }

  /** `v` survives being written to a tree and read back: characters are ASCII (the
      decoder reads one byte), strings and variant names are UTF-8 (as Rust strings are),
      no `None` sits where its absence would shorten a sequence or hide an entry, element
      counts fit a `usize` index, map entries are listed in the order a directory is
      enumerated, map keys and field names are single path components, and field names
      are distinct and do not collide with the `variant` marker. */
  predicate Representable(v: Value) {
    match v
    case Char(c) => c as int < 0x80
    case Str(text) => ValidUtf8(text)
    case UnitVariant(name) => ValidUtf8(name)
    case Present(x) => Materializes(x) && Representable(x)
    case Newtype(x) => Representable(x)
    case Seq(es) =>
      |es| <= USIZE.Max() && forall i | 0 <= i < |es| :: Materializes(es[i]) && Representable(es[i])
    case Tuple(es) =>
      |es| <= USIZE.Max() && forall i | 0 <= i < |es| :: Materializes(es[i]) && Representable(es[i])
    case Map(en) =>
      KeysAscending(en) && (forall i | 0 <= i < |en| :: ValidName(en[i].0.s)) &&
      forall i | 0 <= i < |en| :: Materializes(en[i].1) && Representable(en[i].1)
    case Struct(fv) =>
      DistinctNames(fv) && (forall i | 0 <= i < |fv| :: ValidName(fv[i].0)) &&
      forall i | 0 <= i < |fv| :: Representable(fv[i].1)
    case NewtypeVariant(name, x) => ValidUtf8(name) && Representable(x)
    case TupleVariant(name, es) =>
      ValidUtf8(name) && |es| <= USIZE.Max() &&
      forall i | 0 <= i < |es| :: Materializes(es[i]) && Representable(es[i])
    case StructVariant(name, fv) =>
      ValidUtf8(name) && DistinctNames(fv) && (forall i | 0 <= i < |fv| :: ValidName(fv[i].0)) &&
      (forall i | 0 <= i < |fv| :: fv[i].0 != VARIANT) &&
      forall i | 0 <= i < |fv| :: Representable(fv[i].1)
    case _ => true
  }
}
