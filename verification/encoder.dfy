/** The tree encoder (`FilesystemSerializer`): a value is written at a path, scalars as
    files holding their text, compounds as directories. Writing over an existing tree
    replaces what the value owns and leaves everything else where it was. */
module Encoder {

  import opened Wrappers
  import opened Text
  import opened FileSystem
  import opened Values

  datatype Error =
    | Io(kind: IoError)
      /** A map key that is not a string. */
    | KeyMustBeAString

  function Lift(r: Result<FS, IoError>): (r': Result<FS, Error>)
    ensures r'.Ok? <==> r.Ok?
    ensures r.Ok? ==> r'.value == r.value
    ensures r.Err? ==> r'.error == Io(r.error)
  {
    match r
    case Ok(fs) => Ok(fs)
    case Err(e) => Err(Io(e))
  }

  /** `q` lies below `p` under an entry whose name is a sequence index. */
  predicate IndexedUnder(p: Path, q: Path) {
    p < q && IsIndexName(q[|p|])
  }

  /** The tree without the index-named entries of `p` and their subtrees. */
  function DropIndexed(fs: FS, p: Path): (r: FS)
    ensures forall q :: q in r <==> q in fs && !IndexedUnder(p, q)
    ensures forall q | q in r :: r[q] == fs[q]
    ensures Valid(fs) ==> Valid(r)
  {
    var r := map q | q in fs && !IndexedUnder(p, q) :: fs[q];
    assert Valid(fs) ==> Valid(r) by {
      if Valid(fs) {
        forall q | q in r
          ensures |q| > 0 && IsDir(r, Parent(q))
        {
          var pq := Parent(q);
          assert |pq| > 0 && p < pq ==> q[|p|] == pq[|p|];
        }
      }
    }
    r
  }

  // ---------------------------------------------------------------------------------------
  // Preparing the directory of a compound value
  // ---------------------------------------------------------------------------------------

  /** `p` is a directory holding a directory whose name parses as an index. */
  predicate HoldsIndexDir(fs: FS, p: Path) {
    IsDir(fs, p) && exists n :: n in Children(fs, p) && IsIndexName(n) && IsDir(fs, p + [n])
  }

  /** `FilesystemSequenceSerializer::new` as written: a file at `p` is removed; in a
      directory at `p` every index-named entry is removed with `remove_file`, which fails
      on an index-named directory; then `p` is created as a directory. Apart from that
      failure it does what the corrected `SeqSetup` does. */
  function SeqSetupAsWritten(fs: FS, p: Path): (r: Result<FS, IoError>)
    requires Valid(fs) && |p| > 0
    ensures r.Ok? ==> Valid(r.value) && IsDir(r.value, p)
    ensures HoldsIndexDir(fs, p) ==> r == Err(IsADirectory)
    ensures !HoldsIndexDir(fs, p) ==> r == SeqSetup(fs, p)
  {
    if IsDir(fs, p) then
      if HoldsIndexDir(fs, p) then
        Err(IsADirectory)
      else
        EnsureDir(DropIndexed(fs, p), p)
    else if IsFile(fs, p) then
      RemoveFileValid(fs, p);
      match RemoveFile(fs, p)
      case Ok(fs1) => EnsureDir(fs1, p)
      case Err(e) => Err(e)
    else
      EnsureDir(fs, p)
  }

  /** `FilesystemSequenceSerializer::new` as evidently intended: the index-named entries
      of an existing directory are removed together with whatever they hold. It fails
      only when `p` cannot become a directory because an ancestor is a file. */
  function SeqSetup(fs: FS, p: Path): (r: Result<FS, IoError>)
    requires Valid(fs) && |p| > 0
    ensures r.Ok? <==> !Blocked(fs, p)
    ensures r.Err? ==> r.error == NotADirectory
    ensures r.Ok? ==> Valid(r.value) && IsDir(r.value, p) && Frame(fs, r.value, p)
    ensures r.Ok? ==> forall q | q in r.value && p < q :: q in fs && r.value[q] == fs[q] && !IsIndexName(q[|p|])
    ensures r.Ok? ==> forall q | q in fs && p < q && !IsIndexName(q[|p|]) :: q in r.value
  {
    var fs1 := if IsDir(fs, p) then DropIndexed(fs, p)
               else if IsFile(fs, p) then RemoveFileValid(fs, p); fs - {p}
               else fs;
    PrepareDir(fs, fs1, p);
    if IsFile(fs, p) || !Exists(fs, p) then
      NothingBelow(fs, p);
      EnsureDir(fs1, p)
    else
      EnsureDir(fs1, p)
  }

  /** Creating the directory `p` in `fs1`, a copy of `fs` with some entries at or below
      `p` removed, disturbs nothing outside `p` and adds nothing below it. */
  lemma PrepareDir(fs: FS, fs1: FS, p: Path)
    requires Valid(fs) && Valid(fs1) && |p| > 0 && !IsFile(fs1, p)
    requires forall q | q in fs1 :: q in fs && fs1[q] == fs[q]
    requires forall q | q in fs && !(p <= q) :: q in fs1
    ensures EnsureDir(fs1, p).Ok? <==> !Blocked(fs, p)
    ensures EnsureDir(fs1, p).Ok? ==> Frame(fs, EnsureDir(fs1, p).value, p)
    ensures EnsureDir(fs1, p).Ok? ==>
              forall q | q in EnsureDir(fs1, p).value && p < q :: q in fs1 && EnsureDir(fs1, p).value[q] == fs1[q]
  {
    forall k | 0 < k < |p|
      ensures IsFile(fs1, p[..k]) <==> IsFile(fs, p[..k])
    {
      assert !(p <= p[..k]);
    }
  }

  /** `FilesystemMapSerializer::new`: a file at `p` is removed and `p` is created as a
      directory; the entries of an existing directory are all kept. */
  function MapSetup(fs: FS, p: Path): (r: Result<FS, IoError>)
    requires Valid(fs) && |p| > 0
    ensures r.Ok? <==> !Blocked(fs, p)
    ensures r.Err? ==> r.error == NotADirectory
    ensures r.Ok? ==> Valid(r.value) && IsDir(r.value, p) && Frame(fs, r.value, p)
    ensures r.Ok? ==> forall q | q in r.value && p < q :: q in fs && r.value[q] == fs[q]
    ensures r.Ok? ==> forall q | q in fs && p < q :: q in r.value
  {
    var fs1 := if IsFile(fs, p) then RemoveFileValid(fs, p); fs - {p} else fs;
    PrepareDir(fs, fs1, p);
    if IsDir(fs, p) then
      EnsureDir(fs1, p)
    else
      NothingBelow(fs, p);
      EnsureDir(fs1, p)
  }

  /** The preparation `serialize_newtype_variant` makes: in a directory at `p` a file
      `variant` is removed and `value` is removed whatever it is; a file at `p` is removed;
      then `p` is created as a directory. */
  function NewtypeSetup(fs: FS, p: Path): (r: Result<FS, IoError>)
    requires Valid(fs) && |p| > 0
    ensures r.Ok? <==> !Blocked(fs, p)
    ensures r.Err? ==> r.error == NotADirectory
    ensures r.Ok? ==> Valid(r.value) && IsDir(r.value, p) && Frame(fs, r.value, p)
    ensures r.Ok? ==> !IsFile(r.value, p + [VARIANT]) && forall q | q in r.value :: !(p + [VALUE] <= q)
    ensures r.Ok? ==> forall q | q in r.value && p < q :: q in fs && r.value[q] == fs[q]
    ensures r.Ok? ==> forall q | q in fs && p < q && q != p + [VARIANT] && !(p + [VALUE] <= q) :: q in r.value
  {
    if IsDir(fs, p) then
      var fs1 := ClearVariant(fs, p);
      PrepareDir(fs, fs1, p);
      EnsureDir(fs1, p)
    else
      NothingBelow(fs, p);
      MapSetup(fs, p)
  }

  /** Inside the directory `p`: a file `variant` is removed, and `value` is removed
      whatever it is. */
  function ClearVariant(fs: FS, p: Path): (r: FS)
    requires Valid(fs) && IsDir(fs, p) && |p| > 0
    ensures Valid(r) && IsDir(r, p)
    ensures !IsFile(r, p + [VARIANT]) && forall q | q in r :: !(p + [VALUE] <= q)
    ensures forall q | q in r :: q in fs && r[q] == fs[q]
    ensures forall q | q in fs && q != p + [VARIANT] && !(p + [VALUE] <= q) :: q in r
  {
    var fs1 := if IsFile(fs, p + [VARIANT]) then RemoveFileValid(fs, p + [VARIANT]); fs - {p + [VARIANT]} else fs;
    Remove(fs1, p + [VALUE])
  }

  // ---------------------------------------------------------------------------------------
  // Encoding
  // ---------------------------------------------------------------------------------------

  /** `write_to_file` with its I/O failure lifted into the encoder's error type. */
  function Write(fs: FS, p: Path, content: Bytes): (r: Result<FS, Error>)
    requires Valid(fs) && |p| > 0
    ensures r.Ok? <==> !Blocked(fs, p)
    ensures r.Err? ==> r.error.Io?
    ensures r.Ok? ==> Valid(r.value) && p in r.value && r.value[p] == File(content)
    ensures r.Ok? ==> forall q | q in r.value :: !(p < q)
    ensures r.Ok? ==> Frame(fs, r.value, p)
  {
    Lift(WriteFile(fs, p, content))
  }

  /** What every encoding promises: on success the tree stays valid, nothing outside the
      subtree at `p` changes (apart from directories created on the way to `p`), and `p`
      holds what the value's layout calls for. An I/O failure happens only when an
      ancestor of `p` is a file, and a key failure only when a map key is not a string;
      otherwise the encoding succeeds. */
  predicate Encoded(fs: FS, p: Path, v: Value, r: Result<FS, Error>) {
    && (r.Ok? ==> Valid(r.value) && Frame(fs, r.value, p) && KindAt(r.value, p) == Layout(v))
    && (r.Err? && r.error.Io? ==> Blocked(fs, p))
    && (r.Err? && r.error == KeyMustBeAString ==> !StringKeys(v))
    && (!Blocked(fs, p) && StringKeys(v) ==> r.Ok?)
  }

  /** `value.serialize(FilesystemSerializer { path: p })`, with the corrected sequence
      preparation `SeqSetup` in place of `SeqSetupAsWritten` (see `EncodeSequenceAsWritten`
      and `EncodeTupleVariantAsWritten` for the encoder as written). */
  function Encode(fs: FS, p: Path, v: Value): (r: Result<FS, Error>)
    requires Valid(fs) && |p| > 0
    ensures Encoded(fs, p, v, r)
    decreases v, 2
  {
    if v.NewtypeVariant? then EncodeNewtypeVariant(fs, p, v)
    else if v.TupleVariant? then EncodeTupleVariant(fs, p, v)
    else if v.StructVariant? then EncodeStructVariant(fs, p, v)
    else if v.Absent? then Ok(Remove(fs, p))
    else if v.Present? || v.Newtype? then Encode(fs, p, v.inner)
    else if v.Seq? || v.Tuple? then EncodeSequence(fs, p, v)
    else if v.Map? then EncodeMap(fs, p, v)
    else if v.Struct? then EncodeStruct(fs, p, v)
    else EncodeScalar(fs, p, v)
  }

  /** A scalar written as one file holding its text. */
  function EncodeScalar(fs: FS, p: Path, v: Value): (r: Result<FS, Error>)
    requires Valid(fs) && |p| > 0 && IsScalar(v)
    ensures Encoded(fs, p, v, r)
  {
    Write(fs, p, ScalarText(v))
  }

  /** A value written as one file: its content. */
  predicate IsScalar(v: Value) {
    v.Bool? || v.Int? || v.Char? || v.Str? || v.ByteBuf? || v.Unit? || v.UnitVariant?
  }

  /** The text of a scalar: the boolean word, the decimal integer, the character's UTF-8
      form, the string or byte content as is, nothing for a unit, the name of a unit
      variant. */
  function ScalarText(v: Value): Bytes
    requires IsScalar(v)
  {
    match v
    case Bool(b) => if b then TRUE_TEXT else FALSE_TEXT
    case Int(n) => IntText(n)
    case Char(c) => Utf8(c)
    case Str(text) => text
    case ByteBuf(bytes) => bytes
    case Unit => []
    case UnitVariant(name) => name
  }

  /** `serialize_seq`, `serialize_tuple`, `serialize_tuple_struct`. */
  function EncodeSequence(fs: FS, p: Path, v: Value): (r: Result<FS, Error>)
    requires Valid(fs) && |p| > 0 && (v.Seq? || v.Tuple?)
    ensures Encoded(fs, p, v, r)
    decreases v, 1
  {
    var fs1 :- Lift(SeqSetup(fs, p));
    assert StringKeys(v) <==> forall j | 0 <= j < |v.elems| :: StringKeys(v.elems[j]);
    var r :- EncodeElems(fs1, p, v.elems, 0);
    FrameTrans(fs, fs1, r, p);
    Ok(r)
  }

  /** `serialize_seq`, `serialize_tuple`, `serialize_tuple_struct` as written, with the
      sequence preparation as written: over a directory holding an index-named directory
      it fails with `IsADirectory`, and otherwise it is the corrected `EncodeSequence`. */
  function EncodeSequenceAsWritten(fs: FS, p: Path, v: Value): (r: Result<FS, Error>)
    requires Valid(fs) && |p| > 0 && (v.Seq? || v.Tuple?)
    ensures HoldsIndexDir(fs, p) ==> r == Err(Io(IsADirectory))
    ensures !HoldsIndexDir(fs, p) ==> r == EncodeSequence(fs, p, v)
  {
    var fs1 :- Lift(SeqSetupAsWritten(fs, p));
    EncodeElems(fs1, p, v.elems, 0)
  }

  /** `serialize_map` followed by `serialize_entry` for each entry. */
  function EncodeMap(fs: FS, p: Path, v: Value): (r: Result<FS, Error>)
    requires Valid(fs) && |p| > 0 && v.Map?
    ensures Encoded(fs, p, v, r)
    decreases v, 1
  {
    var fs1 :- Lift(MapSetup(fs, p));
    var r :- EncodeEntries(fs1, p, v.entries, 0);
    FrameTrans(fs, fs1, r, p);
    Ok(r)
  }

  /** `serialize_struct` followed by `serialize_field` for each field. */
  function EncodeStruct(fs: FS, p: Path, v: Value): (r: Result<FS, Error>)
    requires Valid(fs) && |p| > 0 && v.Struct?
    ensures Encoded(fs, p, v, r)
    decreases v, 1
  {
    var fs1 :- Lift(MapSetup(fs, p));
    assert StringKeys(v) <==> forall j | 0 <= j < |v.fields| :: StringKeys(v.fields[j].1);
    var r :- EncodeFields(fs1, p, v.fields, 0);
    FrameTrans(fs, fs1, r, p);
    Ok(r)
  }

  /** What filling the prepared directory `p` with the parts of `v` promises: the tree
      stays valid, `p` stays a directory, nothing outside `p` changes, and the only failure
      is a map key that is not a string. */
  predicate Filled(fs: FS, p: Path, v: Value, r: Result<FS, Error>) {
    && (r.Ok? ==> Valid(r.value) && IsDir(r.value, p) && Frame(fs, r.value, p))
    && (r.Err? ==> r.error == KeyMustBeAString && !StringKeys(v))
    && (StringKeys(v) ==> r.Ok?)
  }

  /** `serialize_newtype_variant`: the variant name in `p/variant`, the payload at
      `p/value`. */
  function EncodeNewtypeVariant(fs: FS, p: Path, v: Value): (r: Result<FS, Error>)
    requires Valid(fs) && |p| > 0 && v.NewtypeVariant?
    ensures Encoded(fs, p, v, r)
    decreases v, 1
  {
    var fs1 :- Lift(NewtypeSetup(fs, p));
    var r :- FillNewtypeVariant(fs1, p, v);
    FrameTrans(fs, fs1, r, p);
    Ok(r)
  }

  function FillNewtypeVariant(fs: FS, p: Path, v: Value): (r: Result<FS, Error>)
    requires Valid(fs) && |p| > 0 && IsDir(fs, p) && v.NewtypeVariant?
    ensures Filled(fs, p, v, r)
    decreases v, 0
  {
    ChildNotBlocked(fs, p, VARIANT);
    var fs1 := Write(fs, p + [VARIANT], v.variant).value;
    ChildFrame(fs, fs1, p, VARIANT);
    ChildNotBlocked(fs1, p, VALUE);
    assert StringKeys(v) <==> StringKeys(v.payload);
    var r :- Encode(fs1, p + [VALUE], v.payload);
    ChildFrame(fs1, r, p, VALUE);
    FrameTrans(fs, fs1, r, p);
    Ok(r)
  }

  /** `serialize_tuple_variant`: the variant name in `p/variant`, the elements at
      `p/0`, `p/1`, ... */
  function EncodeTupleVariant(fs: FS, p: Path, v: Value): (r: Result<FS, Error>)
    requires Valid(fs) && |p| > 0 && v.TupleVariant?
    ensures Encoded(fs, p, v, r)
    decreases v, 1
  {
    var fs1 :- Lift(SeqSetup(fs, p));
    var r :- FillTupleVariant(fs1, p, v);
    FrameTrans(fs, fs1, r, p);
    Ok(r)
  }

  /** `serialize_tuple_variant` as written, with the sequence preparation as written: over
      a directory holding an index-named directory it fails with `IsADirectory` before the
      name is written, and otherwise it is the corrected `EncodeTupleVariant`. */
  function EncodeTupleVariantAsWritten(fs: FS, p: Path, v: Value): (r: Result<FS, Error>)
    requires Valid(fs) && |p| > 0 && v.TupleVariant?
    ensures HoldsIndexDir(fs, p) ==> r == Err(Io(IsADirectory))
    ensures !HoldsIndexDir(fs, p) ==> r == EncodeTupleVariant(fs, p, v)
  {
    var fs1 :- Lift(SeqSetupAsWritten(fs, p));
    FillTupleVariant(fs1, p, v)
  }

  function FillTupleVariant(fs: FS, p: Path, v: Value): (r: Result<FS, Error>)
    requires Valid(fs) && |p| > 0 && IsDir(fs, p) && v.TupleVariant?
    ensures Filled(fs, p, v, r)
    decreases v, 0
  {
    ChildNotBlocked(fs, p, VARIANT);
    var fs1 := Write(fs, p + [VARIANT], v.variant).value;
    ChildFrame(fs, fs1, p, VARIANT);
    assert StringKeys(v) <==> forall j | 0 <= j < |v.elems| :: StringKeys(v.elems[j]);
    var r :- EncodeElems(fs1, p, v.elems, 0);
    FrameTrans(fs, fs1, r, p);
    Ok(r)
  }

  /** `serialize_struct_variant`: the variant name in `p/variant`, each field at
      `p/name`. */
  function EncodeStructVariant(fs: FS, p: Path, v: Value): (r: Result<FS, Error>)
    requires Valid(fs) && |p| > 0 && v.StructVariant?
    ensures Encoded(fs, p, v, r)
    decreases v, 1
  {
    var fs1 :- Lift(MapSetup(fs, p));
    var r :- FillStructVariant(fs1, p, v);
    FrameTrans(fs, fs1, r, p);
    Ok(r)
  }

  function FillStructVariant(fs: FS, p: Path, v: Value): (r: Result<FS, Error>)
    requires Valid(fs) && |p| > 0 && IsDir(fs, p) && v.StructVariant?
    ensures Filled(fs, p, v, r)
    decreases v, 0
  {
    ChildNotBlocked(fs, p, VARIANT);
    var fs1 := Write(fs, p + [VARIANT], v.variant).value;
    ChildFrame(fs, fs1, p, VARIANT);
    assert StringKeys(v) <==> forall j | 0 <= j < |v.fields| :: StringKeys(v.fields[j].1);
    var r :- EncodeFields(fs1, p, v.fields, 0);
    FrameTrans(fs, fs1, r, p);
    Ok(r)
  }

  /** The elements `es[i..]` written at `p/i`, `p/(i+1)`, ... into the directory `p`. */
  function EncodeElems(fs: FS, p: Path, es: seq<Value>, i: nat): (r: Result<FS, Error>)
    requires Valid(fs) && |p| > 0 && IsDir(fs, p) && i <= |es|
    ensures r.Ok? ==> Valid(r.value) && IsDir(r.value, p) && Frame(fs, r.value, p)
    ensures r.Err? ==> r.error == KeyMustBeAString && exists j | i <= j < |es| :: !StringKeys(es[j])
    ensures (forall j | i <= j < |es| :: StringKeys(es[j])) ==> r.Ok?
    decreases es, |es| - i
  {
    if i == |es| then Ok(fs)
    else
      ChildNotBlocked(fs, p, Decimal(i));
      var fs1 :- Encode(fs, p + [Decimal(i)], es[i]);
      ChildFrame(fs, fs1, p, Decimal(i));
      var r :- EncodeElems(fs1, p, es, i + 1);
      FrameTrans(fs, fs1, r, p);
      Ok(r)
  }

  /** The map entries `en[i..]`, each value written at `p/key`; a key that is not a string
      stops the encoding. */
  function EncodeEntries(fs: FS, p: Path, en: seq<(Value, Value)>, i: nat): (r: Result<FS, Error>)
    requires Valid(fs) && |p| > 0 && IsDir(fs, p) && i <= |en|
    ensures r.Ok? ==> Valid(r.value) && IsDir(r.value, p) && Frame(fs, r.value, p)
    ensures r.Err? ==> r.error == KeyMustBeAString &&
                       exists j | i <= j < |en| :: !en[j].0.Str? || !StringKeys(en[j].1)
    ensures (forall j | i <= j < |en| :: en[j].0.Str? && StringKeys(en[j].1)) ==> r.Ok?
    decreases en, |en| - i
  {
    if i == |en| then Ok(fs)
    else
      var key :- KeyText(en[i].0);
      ChildNotBlocked(fs, p, key);
      var e := en[i];
      assert e.1 < e;
      var fs1 :- Encode(fs, p + [key], e.1);
      ChildFrame(fs, fs1, p, key);
      var r :- EncodeEntries(fs1, p, en, i + 1);
      FrameTrans(fs, fs1, r, p);
      Ok(r)
  }

  /** The struct fields `fv[i..]`, each written at `p/name`. */
  function EncodeFields(fs: FS, p: Path, fv: seq<(Name, Value)>, i: nat): (r: Result<FS, Error>)
    requires Valid(fs) && |p| > 0 && IsDir(fs, p) && i <= |fv|
    ensures r.Ok? ==> Valid(r.value) && IsDir(r.value, p) && Frame(fs, r.value, p)
    ensures r.Err? ==> r.error == KeyMustBeAString && exists j | i <= j < |fv| :: !StringKeys(fv[j].1)
    ensures (forall j | i <= j < |fv| :: StringKeys(fv[j].1)) ==> r.Ok?
    decreases fv, |fv| - i
  {
    if i == |fv| then Ok(fs)
    else
      ChildNotBlocked(fs, p, fv[i].0);
      var f := fv[i];
      assert f.1 < f;
      var fs1 :- Encode(fs, p + [f.0], f.1);
      ChildFrame(fs, fs1, p, f.0);
      var r :- EncodeFields(fs1, p, fv, i + 1);
      FrameTrans(fs, fs1, r, p);
      Ok(r)
  }

  /** `MapKeySerializer`: only a string is accepted as a map key. */
  function KeyText(k: Value): (r: Result<Name, Error>)
    ensures r.Ok? <==> k.Str?
    ensures r.Ok? ==> r.value == k.s
    ensures r.Err? ==> r.error == KeyMustBeAString
  {
    if k.Str? then Ok(k.s) else Err(KeyMustBeAString)
  }

  /** A change confined to the child `p/n` of the directory `p` is confined to `p` and
      leaves `p` a directory. */
  lemma ChildFrame(fs: FS, fs': FS, p: Path, n: Name)
    requires Valid(fs) && |p| > 0 && IsDir(fs, p) && Frame(fs, fs', p + [n])
    ensures Frame(fs, fs', p) && IsDir(fs', p)
  {
    FrameWiden(fs, fs', p + [n], p);
    assert !(p + [n] <= p);
  }

  /** The entry names `i`, ..., `n-1` of a sequence's elements. */
  function IndexNames(i: nat, n: nat): set<Name>
    decreases n - i
  {
    if i >= n then {} else {Decimal(i)} + IndexNames(i + 1, n)
  }

  /** The names of the string keys of `en[i..]`. */
  function KeyNames(en: seq<(Value, Value)>, i: nat): set<Name>
    requires i <= |en|
    decreases |en| - i
  {
    if i == |en| then {}
    else (if en[i].0.Str? then {en[i].0.s} else {}) + KeyNames(en, i + 1)
  }

  /** The names of the fields `fv[i..]`. */
  function FieldNames<T>(fv: seq<(Name, T)>, i: nat): set<Name>
    requires i <= |fv|
    decreases |fv| - i
  {
    if i == |fv| then {} else {fv[i].0} + FieldNames(fv, i + 1)
  }

  lemma {:induction false} IndexNamesSpec(i: nat, n: nat, j: nat)
    ensures Decimal(j) in IndexNames(i, n) <==> i <= j < n
    decreases n - i
  {
    if i < n {
      IndexNamesSpec(i + 1, n, j);
      DecimalInjective(i, j);
    }
  }

  lemma {:induction false} KeyNamesSpec(en: seq<(Value, Value)>, i: nat, name: Name)
    requires i <= |en|
    ensures name in KeyNames(en, i) <==> exists j | i <= j < |en| :: en[j].0 == Str(name)
    decreases |en| - i
  {
    if i < |en| {
      KeyNamesSpec(en, i + 1, name);
    }
  }

  lemma {:induction false} FieldNamesSpec<T>(fv: seq<(Name, T)>, i: nat, name: Name)
    requires i <= |fv|
    ensures name in FieldNames(fv, i) <==> exists j | i <= j < |fv| :: fv[j].0 == name
    decreases |fv| - i
  {
    if i < |fv| {
      FieldNamesSpec(fv, i + 1, name);
    }
  }

  // ---------------------------------------------------------------------------------------
  // Dispatch
  // ---------------------------------------------------------------------------------------

  /** A scalar value is written by its scalar writer. */
  lemma ScalarUnfold(fs: FS, p: Path, v: Value)
    requires Valid(fs) && |p| > 0 && IsScalar(v)
    ensures Encode(fs, p, v) == EncodeScalar(fs, p, v)
  {
    assert !v.NewtypeVariant? && !v.TupleVariant? && !v.StructVariant? && !v.Absent?;
    assert !v.Present? && !v.Newtype? && !v.Seq? && !v.Tuple? && !v.Map? && !v.Struct?;
  }

  /** A struct is written by its struct writer. */
  lemma StructUnfold(fs: FS, p: Path, v: Value)
    requires Valid(fs) && |p| > 0 && v.Struct?
    ensures Encode(fs, p, v) == EncodeStruct(fs, p, v)
  {
  }

  /** A sequence or tuple is written by its sequence writer. */
  lemma SequenceUnfold(fs: FS, p: Path, v: Value)
    requires Valid(fs) && |p| > 0 && (v.Seq? || v.Tuple?)
    ensures Encode(fs, p, v) == EncodeSequence(fs, p, v)
  {
  }

  /** A newtype variant is written by its newtype-variant writer. */
  lemma NewtypeVariantUnfold(fs: FS, p: Path, v: Value)
    requires Valid(fs) && |p| > 0 && v.NewtypeVariant?
    ensures Encode(fs, p, v) == EncodeNewtypeVariant(fs, p, v)
  {
  }

  /** A map is written by its map writer. */
  lemma MapUnfold(fs: FS, p: Path, v: Value)
    requires Valid(fs) && |p| > 0 && v.Map?
    ensures Encode(fs, p, v) == EncodeMap(fs, p, v)
  {
  }

  // ---------------------------------------------------------------------------------------
  // What the parts of a compound value touch
  // ---------------------------------------------------------------------------------------

  /** Writing the elements `es[i..]` changes only the entries `p/i`, ..., `p/(|es|-1)`. */
  lemma {:induction false} ElemsConfined(fs: FS, p: Path, es: seq<Value>, i: nat)
    requires Valid(fs) && |p| > 0 && IsDir(fs, p) && i <= |es|
    ensures EncodeElems(fs, p, es, i).Ok? ==> Confined(fs, EncodeElems(fs, p, es, i).value, p, IndexNames(i, |es|))
    decreases |es| - i
  {
    if i < |es| {
      ChildNotBlocked(fs, p, Decimal(i));
      var r1 := Encode(fs, p + [Decimal(i)], es[i]);
      if r1.Ok? {
        ChildFrame(fs, r1.value, p, Decimal(i));
        ConfinedChild(fs, r1.value, p, Decimal(i));
        ElemsConfined(r1.value, p, es, i + 1);
        var r := EncodeElems(r1.value, p, es, i + 1);
        if r.Ok? {
          ConfinedTrans(fs, r1.value, r.value, p, {Decimal(i)}, IndexNames(i + 1, |es|));
        }
      }
    }
  }

  /** Writing the entries `en[i..]` changes only the entries named by their keys. */
  lemma {:induction false} EntriesConfined(fs: FS, p: Path, en: seq<(Value, Value)>, i: nat)
    requires Valid(fs) && |p| > 0 && IsDir(fs, p) && i <= |en|
    ensures EncodeEntries(fs, p, en, i).Ok? ==> Confined(fs, EncodeEntries(fs, p, en, i).value, p, KeyNames(en, i))
    decreases |en| - i
  {
    if i < |en| && en[i].0.Str? {
      var key := en[i].0.s;
      ChildNotBlocked(fs, p, key);
      var r1 := Encode(fs, p + [key], en[i].1);
      if r1.Ok? {
        ChildFrame(fs, r1.value, p, key);
        ConfinedChild(fs, r1.value, p, key);
        EntriesConfined(r1.value, p, en, i + 1);
        var r := EncodeEntries(r1.value, p, en, i + 1);
        if r.Ok? {
          ConfinedTrans(fs, r1.value, r.value, p, {key}, KeyNames(en, i + 1));
        }
      }
    }
  }

  /** Writing the fields `fv[i..]` changes only the entries named by them. */
  lemma {:induction false} FieldsConfined(fs: FS, p: Path, fv: seq<(Name, Value)>, i: nat)
    requires Valid(fs) && |p| > 0 && IsDir(fs, p) && i <= |fv|
    ensures EncodeFields(fs, p, fv, i).Ok? ==> Confined(fs, EncodeFields(fs, p, fv, i).value, p, FieldNames(fv, i))
    decreases |fv| - i
  {
    if i < |fv| {
      var name := fv[i].0;
      ChildNotBlocked(fs, p, name);
      var r1 := Encode(fs, p + [name], fv[i].1);
      if r1.Ok? {
        ChildFrame(fs, r1.value, p, name);
        ConfinedChild(fs, r1.value, p, name);
        FieldsConfined(r1.value, p, fv, i + 1);
        var r := EncodeFields(r1.value, p, fv, i + 1);
        if r.Ok? {
          ConfinedTrans(fs, r1.value, r.value, p, {name}, FieldNames(fv, i + 1));
        }
      }
    }
  }
}
