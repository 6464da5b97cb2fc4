/** The tree decoder (`FilesystemDeserializer`): the value of a requested shape is read
    from a path. Scalars come from the text of a file, sequences from the entries `0`,
    `1`, ... up to the first missing index, maps from every entry of a directory, structs
    from their declared fields, enums from a `variant` marker or the file itself. */
module Decoder {

  import opened Wrappers
  import opened Text
  import opened FileSystem
  import opened Values

  datatype Error =
    | Io(kind: IoError)
    | ParseBoolError
    | ParseIntError
      /** A character read from an empty file. */
    | Empty
      /** A unit read from something that is not a file. */
    | FileNotFound
    | InvalidLen(expected: nat, got: nat)
    | InvalidEnum(variant: Bytes)
    | Custom(message: string)

  const EXPECTED_NEWTYPE_VARIANT := "invalid type: unit variant, expected newtype variant"
  const EXPECTED_TUPLE_VARIANT := "invalid type: unit variant, expected tuple variant"
  const EXPECTED_STRUCT_VARIANT := "invalid type: unit variant, expected struct variant"

  /** Opening `p` and reading it to the end: a directory reads as `IsADirectory`, and a
      missing path as `NotADirectory` when a file stands in its way, `NotFound` otherwise. */
  function ReadBytes(fs: FS, p: Path): (r: Result<Bytes, Error>)
    ensures r.Ok? <==> IsFile(fs, p)
    ensures r.Ok? ==> At(fs, p) == Some(File(r.value))
    ensures r.Err? ==> r.error.Io? && (r.error.kind == NotADirectory <==> !Exists(fs, p) && Blocked(fs, p))
  {
    if IsFile(fs, p) then Ok(fs[p].content)
    else if IsDir(fs, p) then Err(Io(IsADirectory))
    else if Blocked(fs, p) then Err(Io(NotADirectory))
    else Err(Io(NotFound))
  }

  /** `string_from_file`: the content must also be UTF-8. */
  function ReadString(fs: FS, p: Path): (r: Result<Bytes, Error>)
    ensures r.Ok? <==> IsFile(fs, p) && ValidUtf8(fs[p].content)
    ensures r.Ok? ==> At(fs, p) == Some(File(r.value))
    ensures r.Err? ==> r.error.Io?
  {
    var content :- ReadBytes(fs, p);
    if ValidUtf8(content) then Ok(content) else Err(Io(InvalidData))
  }

  /** `str::parse::<bool>`: exactly `true` or `false`. */
  function ParseBool(t: Bytes): (r: Option<bool>)
    ensures r == Some(true) <==> t == TRUE_TEXT
    ensures r == Some(false) <==> t == FALSE_TEXT
  {
    if t == TRUE_TEXT then Some(true)
    else if t == FALSE_TEXT then Some(false)
    else None
  }

  /** The value of shape `s` stored at `p`. Whatever it returns has that shape. */
  function Decode(fs: FS, p: Path, s: Shape): (r: Result<Value, Error>)
    ensures r.Ok? ==> HasShape(r.value, s)
    decreases s, 2
  {
    if s.OptionS? then (if !Exists(fs, p) then Ok(Absent) else Wrap(Decode(fs, p, s.inner), InPresent))
    else if s.NewtypeS? then Wrap(Decode(fs, p, s.inner), InNewtype)
    else if s.SeqS? then WrapElems(DecodeSeqFrom(fs, p, s.elem, 0), InSeq)
    else if s.TupleS? then WrapElems(DecodeTupleFrom(fs, p, s.elems, 0), InTuple)
    else if s.MapS? then DecodeMap(fs, p, s)
    else if s.StructS? then WrapFields(DecodeFields(fs, p, s.fields, 0), None)
    else if s.EnumS? then DecodeEnum(fs, p, s)
    else DecodeScalar(fs, p, s)
  }

  /** A shape read from the text of one file. */
  predicate IsScalarShape(s: Shape) {
    s.BoolS? || s.IntS? || s.CharS? || s.StrS? || s.BytesS? || s.UnitS?
  }

  /** A scalar read from the file at `p`: booleans and integers from the trimmed UTF-8
      text, a character from the first byte, a string from the UTF-8 text, a byte buffer
      from the raw bytes; a unit only checks that `p` is a file. */
  function DecodeScalar(fs: FS, p: Path, s: Shape): (r: Result<Value, Error>)
    requires IsScalarShape(s)
    ensures r.Ok? ==> HasShape(r.value, s)
  {
    match s
    case BoolS =>
      var t :- ReadString(fs, p);
      var b := ParseBool(Trim(t));
      if b.Some? then Ok(Bool(b.value)) else Err(ParseBoolError)
    case IntS(k) =>
      var t :- ReadString(fs, p);
      var n := ParseInt(Trim(t), k);
      if n.Some? then Ok(Int(n.value)) else Err(ParseIntError)
    case CharS =>
      var bytes :- ReadBytes(fs, p);
      if |bytes| == 0 then Err(Empty) else Ok(Char(bytes[0] as char))
    case StrS =>
      var t :- ReadString(fs, p);
      Ok(Str(t))
    case BytesS =>
      var bytes :- ReadBytes(fs, p);
      Ok(ByteBuf(bytes))
    case UnitS =>
      if IsFile(fs, p) then Ok(Unit) else Err(FileNotFound)
  }

  /** The paths `p/0`, ..., `p/(i-1)`. */
  function IndexPaths(p: Path, i: nat): set<Path> {
    if i == 0 then {} else IndexPaths(p, i - 1) + {p + [Decimal(i - 1)]}
  }

  lemma {:induction false} IndexPathsFresh(p: Path, i: nat, j: nat)
    requires i <= j
    ensures p + [Decimal(j)] !in IndexPaths(p, i)
  {
    if i > 0 {
      IndexPathsFresh(p, i - 1, j);
      DecimalInjective(i - 1, j);
      assert (p + [Decimal(i - 1)])[|p|] == Decimal(i - 1);
      assert (p + [Decimal(j)])[|p|] == Decimal(j);
    }
  }

  /** Each further index entry read shrinks the set of entries not yet visited. */
  lemma SeqProgress(fs: FS, p: Path, i: nat)
    requires p + [Decimal(i)] in fs
    ensures fs.Keys - IndexPaths(p, i + 1) < fs.Keys - IndexPaths(p, i)
  {
    IndexPathsFresh(p, i, i);
    assert p + [Decimal(i)] in fs.Keys - IndexPaths(p, i);
  }

  /** `SeqAccess` without a length: the elements at `p/i`, `p/(i+1)`, ... up to the first
      index with no entry. */
  function DecodeSeqFrom(fs: FS, p: Path, t: Shape, i: nat): (r: Result<seq<Value>, Error>)
    ensures r.Ok? ==> forall j | 0 <= j < |r.value| :: HasShape(r.value[j], t)
    decreases t, 3, fs.Keys - IndexPaths(p, i)
  {
    if !Exists(fs, p + [Decimal(i)]) then Ok([])
    else
      SeqProgress(fs, p, i);
      Cons(Decode(fs, p + [Decimal(i)], t), DecodeSeqFrom(fs, p, t, i + 1))
  }

  /** `SeqAccess` with the length `|ts|`: the elements at `p/i`, ..., `p/(|ts|-1)`; a
      missing one is reported with the number of elements read before it. */
  function DecodeTupleFrom(fs: FS, p: Path, ts: seq<Shape>, i: nat): (r: Result<seq<Value>, Error>)
    requires i <= |ts|
    ensures r.Ok? ==> ElemsShaped(r.value, ts, i)
    decreases ts, |ts| - i
  {
    if i == |ts| then Ok([])
    else if !Exists(fs, p + [Decimal(i)]) then Err(InvalidLen(|ts|, i))
    else
      Cons(Decode(fs, p + [Decimal(i)], ts[i]), DecodeTupleFrom(fs, p, ts, i + 1))
  }

  /** A tuple is read only when every one of its index entries exists; the first missing
      one, when the elements before it exist and decode, is reported as `InvalidLen` with
      its index. */
  lemma {:induction false} TupleNeedsAll(fs: FS, p: Path, ts: seq<Shape>, i: nat, j: nat)
    requires i <= j < |ts| && !Exists(fs, p + [Decimal(j)])
    ensures DecodeTupleFrom(fs, p, ts, i).Err?
    ensures (forall k | i <= k < j :: Exists(fs, p + [Decimal(k)]) && Decode(fs, p + [Decimal(k)], ts[k]).Ok?) ==>
              DecodeTupleFrom(fs, p, ts, i) == Err(InvalidLen(|ts|, j))
    decreases |ts| - i
  {
    if i < j && Exists(fs, p + [Decimal(i)]) {
      TupleNeedsAll(fs, p, ts, i + 1, j);
    }
  }

  /** `MapAccess::new`: every entry of the directory `p`, its name as the key and its
      content decoded as the value. */
  function DecodeMap(fs: FS, p: Path, s: Shape): (r: Result<Value, Error>)
    requires s.MapS?
    ensures r.Ok? ==> HasShape(r.value, s)
    ensures !IsDir(fs, p) ==> r == Err(Io(if Exists(fs, p) || Blocked(fs, p) then NotADirectory else NotFound))
    decreases s, 1
  {
    if !IsDir(fs, p) then
      Err(Io(if Exists(fs, p) || Blocked(fs, p) then NotADirectory else NotFound))
    else
      var en := DecodeEntries(fs, p, s.value, SortedNames(Children(fs, p)), 0);
      if en.Err? then Err(en.error) else Ok(Map(en.value))
  }

  /** The entries named `names[i..]`, in that order, each keyed by its name. */
  function DecodeEntries(fs: FS, p: Path, t: Shape, names: seq<Name>, i: nat): (r: Result<seq<(Value, Value)>, Error>)
    requires i <= |names|
    ensures r.Ok? ==> forall j | 0 <= j < |r.value| :: r.value[j].0.Str? && HasShape(r.value[j].1, t)
    decreases t, 3, |names| - i
  {
    if i == |names| then Ok([])
    else
      Cons(Keyed(Str(names[i]), Decode(fs, p + [names[i]], t)), DecodeEntries(fs, p, t, names, i + 1))
  }

  /** The entries read carry the names they were read from, in order. */
  lemma {:induction false} EntriesNamed(fs: FS, p: Path, t: Shape, names: seq<Name>, i: nat)
    requires i <= |names| && DecodeEntries(fs, p, t, names, i).Ok?
    ensures var en := DecodeEntries(fs, p, t, names, i).value;
            |en| == |names| - i && forall j | 0 <= j < |en| :: en[j].0 == Str(names[i + j])
    decreases |names| - i, 1
  {
    if i == |names| {
      assert DecodeEntries(fs, p, t, names, i) == Ok([]);
    } else {
      EntriesNamedStep(fs, p, t, names, i);
    }
  }

  /** The step of `EntriesNamed`: the first entry read carries `names[i]`. */
  lemma EntriesNamedStep(fs: FS, p: Path, t: Shape, names: seq<Name>, i: nat)
    requires i < |names| && DecodeEntries(fs, p, t, names, i).Ok?
    ensures var en := DecodeEntries(fs, p, t, names, i).value;
            |en| == |names| - i && forall j | 0 <= j < |en| :: en[j].0 == Str(names[i + j])
    decreases |names| - i, 0
  {
    EntriesNamed(fs, p, t, names, i + 1);
    var first := Keyed(Str(names[i]), Decode(fs, p + [names[i]], t));
    var rest := DecodeEntries(fs, p, t, names, i + 1);
    assert DecodeEntries(fs, p, t, names, i) == Cons(first, rest);
    ConsKeys(first, rest.value, names, i);
  }

  /** An entry keyed `names[i]` put before entries keyed `names[i + 1..]`. */
  lemma ConsKeys(first: Result<(Value, Value), Error>, rest: seq<(Value, Value)>, names: seq<Name>, i: nat)
    requires i < |names| && first.Ok? && first.value.0 == Str(names[i])
    requires |rest| == |names| - i - 1 && forall j | 0 <= j < |rest| :: rest[j].0 == Str(names[i + 1 + j])
    ensures var en := Cons(first, Ok(rest)).value;
            |en| == |names| - i && forall j | 0 <= j < |en| :: en[j].0 == Str(names[i + j])
  {
    var en := [first.value] + rest;
    forall j | 1 <= j < |en|
      ensures en[j].0 == Str(names[i + j])
    {
      assert en[j] == rest[j - 1];
    }
  }

  /** `MapAccess::new_for` with the declared fields: each field decoded from `p/name`,
      in declaration order; entries that are not declared fields are never looked at. */
  function DecodeFields(fs: FS, p: Path, fields: seq<(Name, Shape)>, i: nat): (r: Result<seq<(Name, Value)>, Error>)
    requires i <= |fields|
    ensures r.Ok? ==> FieldsShaped(r.value, fields, i)
    decreases fields, |fields| - i
  {
    if i == |fields| then Ok([])
    else
      var f := fields[i];
      assert f.1 < f;
      Cons(Keyed(f.0, Decode(fs, p + [f.0], f.1)), DecodeFields(fs, p, fields, i + 1))
  }

  /** `deserialize_enum`: the variant name is read from `p/variant` when `p` is a
      directory and from `p` itself otherwise, and must be one of the declared variants
      (the first with that name is taken). A file selects the variant without payload, so
      any other kind of variant is an error; in a directory the payload is read by kind. */
  function DecodeEnum(fs: FS, p: Path, s: Shape): (r: Result<Value, Error>)
    requires s.EnumS?
    ensures r.Ok? ==> HasShape(r.value, s)
    decreases s, 1
  {
    var vs := s.variants;
    var dir := IsDir(fs, p);
    var name :- ReadString(fs, if dir then p + [VARIANT] else p);
    var k := FindVariant(vs, name);
    if k == |vs| then Err(InvalidEnum(name))
    else
      var e := vs[k];
      assert e.1 < e;
      if !dir then
        (match e.1
         case UnitV => Ok(UnitVariant(name))
         case NewtypeV(_) => Err(Custom(EXPECTED_NEWTYPE_VARIANT))
         case TupleV(_) => Err(Custom(EXPECTED_TUPLE_VARIANT))
         case StructV(_) => Err(Custom(EXPECTED_STRUCT_VARIANT)))
      else
        DecodePayload(fs, p, name, e.1)
  }

  /** The variant `name` of kind `vs` read from the directory at `p`: a newtype payload
      from `p/value`, tuple elements from `p/0`, `p/1`, ..., fields from their names. */
  function DecodePayload(fs: FS, p: Path, name: Name, vs: VariantShape): (r: Result<Value, Error>)
    ensures r.Ok? ==> (r.value.UnitVariant? || r.value.NewtypeVariant? || r.value.TupleVariant? ||
                       r.value.StructVariant?)
    ensures r.Ok? ==> r.value.variant == name && HasVariantShape(r.value, vs)
    decreases vs, 3
  {
    match vs
    case UnitV => Ok(UnitVariant(name))
    case NewtypeV(t) => Wrap(Decode(fs, p + [VALUE], t), InVariant(name))
    case TupleV(ts) => WrapElems(DecodeTupleFrom(fs, p, ts, 0), InTupleVariant(name))
    case StructV(fields) => WrapFields(DecodeFields(fs, p, fields, 0), Some(name))
  }

  // ---------------------------------------------------------------------------------------
  // Building results: the first error met, in reading order, is the one reported
  // ---------------------------------------------------------------------------------------

  /** A value read, then the rest of a sequence. */
  function Cons<T>(x: Result<T, Error>, rest: Result<seq<T>, Error>): Result<seq<T>, Error> {
    if x.Err? then Err(x.error)
    else if rest.Err? then Err(rest.error)
    else Ok([x.value] + rest.value)
  }

  /** A value read under the key or field name `k`. */
  function Keyed<K>(k: K, x: Result<Value, Error>): Result<(K, Value), Error> {
    if x.Err? then Err(x.error) else Ok((k, x.value))
  }

  /** What a value read is wrapped in. */
  datatype Wrapper = InPresent | InNewtype | InVariant(name: Name)

  function Wrap(x: Result<Value, Error>, w: Wrapper): Result<Value, Error> {
    if x.Err? then Err(x.error)
    else Ok(match w
            case InPresent => Present(x.value)
            case InNewtype => Newtype(x.value)
            case InVariant(name) => NewtypeVariant(name, x.value))
  }

  /** What a sequence of values read is wrapped in. */
  datatype ElemsWrapper = InSeq | InTuple | InTupleVariant(name: Name)

  function WrapElems(es: Result<seq<Value>, Error>, w: ElemsWrapper): Result<Value, Error> {
    if es.Err? then Err(es.error)
    else Ok(match w
            case InSeq => Seq(es.value)
            case InTuple => Tuple(es.value)
            case InTupleVariant(name) => TupleVariant(name, es.value))
  }

  /** Fields read, as a struct, or as the struct variant named by `variant`. */
  function WrapFields(fv: Result<seq<(Name, Value)>, Error>, variant: Option<Name>): Result<Value, Error> {
    if fv.Err? then Err(fv.error)
    else if variant.Some? then Ok(StructVariant(variant.value, fv.value))
    else Ok(Struct(fv.value))
  }

  // ---------------------------------------------------------------------------------------
  // Locality: what is decoded at `p` depends only on the subtree at `p`
  // ---------------------------------------------------------------------------------------

  /** Two trees that agree below `p` agree on `p` itself and on its entries. */
  lemma SameView(a: FS, b: FS, p: Path)
    requires SameUnder(a, b, p)
    ensures At(a, p) == At(b, p) && Children(a, p) == Children(b, p)
  {
  }

  /** Two trees that agree below `p`, and on whether a file stands above `p`, agree on the
      same facts for the child `p/n`. */
  lemma ChildView(a: FS, b: FS, p: Path, n: Name)
    requires SameUnder(a, b, p) && (Blocked(a, p) <==> Blocked(b, p))
    ensures SameUnder(a, b, p + [n]) && (Blocked(a, p + [n]) <==> Blocked(b, p + [n]))
  {
    SameView(a, b, p);
    SameUnderNarrow(a, b, p, p + [n]);
    BlockedChild(a, p, n);
    BlockedChild(b, p, n);
  }

  lemma {:induction false} DecodeLocal(a: FS, b: FS, p: Path, s: Shape)
    requires SameUnder(a, b, p) && (Blocked(a, p) <==> Blocked(b, p))
    ensures Decode(a, p, s) == Decode(b, p, s)
    decreases s, 2
  {
    SameView(a, b, p);
    match s
    case OptionS(t) => DecodeLocal(a, b, p, t);
    case NewtypeS(t) => DecodeLocal(a, b, p, t);
    case SeqS(t) => DecodeSeqLocal(a, b, p, t, 0);
    case TupleS(ts) => DecodeTupleLocal(a, b, p, ts, 0);
    case MapS(t) => DecodeEntriesLocal(a, b, p, t, SortedNames(Children(a, p)), 0);
    case StructS(fields) => DecodeFieldsLocal(a, b, p, fields, 0);
    case EnumS(_) => DecodeEnumLocal(a, b, p, s);
    case _ => DecodeScalarLocal(a, b, p, s);
  }

  lemma DecodeScalarLocal(a: FS, b: FS, p: Path, s: Shape)
    requires IsScalarShape(s) && SameUnder(a, b, p) && (Blocked(a, p) <==> Blocked(b, p))
    ensures DecodeScalar(a, p, s) == DecodeScalar(b, p, s)
  {
    SameView(a, b, p);
  }

  lemma {:induction false} DecodeSeqLocal(a: FS, b: FS, p: Path, t: Shape, i: nat)
    requires SameUnder(a, b, p) && (Blocked(a, p) <==> Blocked(b, p))
    ensures DecodeSeqFrom(a, p, t, i) == DecodeSeqFrom(b, p, t, i)
    decreases t, 3, a.Keys - IndexPaths(p, i)
  {
    var c := p + [Decimal(i)];
    ChildView(a, b, p, Decimal(i));
    SameView(a, b, c);
    if Exists(a, c) {
      SeqProgress(a, p, i);
      DecodeLocal(a, b, c, t);
      DecodeSeqLocal(a, b, p, t, i + 1);
    }
  }

  lemma {:induction false} DecodeTupleLocal(a: FS, b: FS, p: Path, ts: seq<Shape>, i: nat)
    requires SameUnder(a, b, p) && (Blocked(a, p) <==> Blocked(b, p)) && i <= |ts|
    ensures DecodeTupleFrom(a, p, ts, i) == DecodeTupleFrom(b, p, ts, i)
    decreases ts, |ts| - i
  {
    if i < |ts| {
      var c := p + [Decimal(i)];
      ChildView(a, b, p, Decimal(i));
      SameView(a, b, c);
      if Exists(a, c) {
        DecodeLocal(a, b, c, ts[i]);
        DecodeTupleLocal(a, b, p, ts, i + 1);
      }
    }
  }

  lemma {:induction false} DecodeEntriesLocal(a: FS, b: FS, p: Path, t: Shape, names: seq<Name>, i: nat)
    requires SameUnder(a, b, p) && (Blocked(a, p) <==> Blocked(b, p)) && i <= |names|
    ensures DecodeEntries(a, p, t, names, i) == DecodeEntries(b, p, t, names, i)
    decreases t, 3, |names| - i
  {
    if i < |names| {
      ChildView(a, b, p, names[i]);
      DecodeLocal(a, b, p + [names[i]], t);
      DecodeEntriesLocal(a, b, p, t, names, i + 1);
    }
  }

  lemma {:induction false} DecodeFieldsLocal(a: FS, b: FS, p: Path, fields: seq<(Name, Shape)>, i: nat)
    requires SameUnder(a, b, p) && (Blocked(a, p) <==> Blocked(b, p)) && i <= |fields|
    ensures DecodeFields(a, p, fields, i) == DecodeFields(b, p, fields, i)
    decreases fields, |fields| - i
  {
    if i < |fields| {
      var f := fields[i];
      assert f.1 < f;
      ChildView(a, b, p, f.0);
      DecodeLocal(a, b, p + [f.0], f.1);
      DecodeFieldsLocal(a, b, p, fields, i + 1);
    }
  }

  lemma {:induction false} DecodeEnumLocal(a: FS, b: FS, p: Path, s: Shape)
    requires s.EnumS?
    requires SameUnder(a, b, p) && (Blocked(a, p) <==> Blocked(b, p))
    ensures DecodeEnum(a, p, s) == DecodeEnum(b, p, s)
    decreases s, 1
  {
    SameView(a, b, p);
    ChildView(a, b, p, VARIANT);
    SameView(a, b, p + [VARIANT]);
    var vs := s.variants;
    if IsDir(a, p) && ReadString(a, p + [VARIANT]).Ok? {
      var k := FindVariant(vs, ReadString(a, p + [VARIANT]).value);
      if k < |vs| {
        var e := vs[k];
        assert e.1 < e;
        DecodePayloadLocal(a, b, p, ReadString(a, p + [VARIANT]).value, e.1);
      }
    }
  }

  lemma {:induction false} DecodePayloadLocal(a: FS, b: FS, p: Path, name: Name, vs: VariantShape)
    requires SameUnder(a, b, p) && (Blocked(a, p) <==> Blocked(b, p))
    ensures DecodePayload(a, p, name, vs) == DecodePayload(b, p, name, vs)
    decreases vs, 3
  {
    match vs
    case NewtypeV(t) =>
      ChildView(a, b, p, VALUE);
      DecodeLocal(a, b, p + [VALUE], t);
    case TupleV(ts) => DecodeTupleLocal(a, b, p, ts, 0);
    case StructV(fields) => DecodeFieldsLocal(a, b, p, fields, 0);
    case UnitV =>
  }
}
