/** Writing a value and reading it back with its own shape gives the value again, as long
    as the value is representable and no entry a map would keep lies at the target. */
module RoundTrip {

  import opened Wrappers
  import opened Text
  import opened FileSystem
  import opened Values
  import Encoder
  import Decoder

  /** The keys of string-keyed map entries, in order. */
  function KeySeq(en: seq<(Value, Value)>): (names: seq<Name>)
    requires forall j | 0 <= j < |en| :: en[j].0.Str?
    ensures |names| == |en| && forall j | 0 <= j < |en| :: names[j] == en[j].0.s
  {
    seq(|en|, j requires 0 <= j < |en| => en[j].0.s)
  }

  /** Nothing already in the tree would outlive writing `v` at `p` and change what is
      read back. A map keeps the entries it finds, so every entry of a map's directory
      must be one of its keys; the same holds for each map nested in `v` through options,
      newtypes, map entries and struct fields, at its own path. Sequences, tuples and
      newtype variants clear their element entries first and ask nothing. */
  predicate Clean(fs: FS, p: Path, v: Value)
    decreases v
  {
    match v
    case Present(x) => Clean(fs, p, x)
    case Newtype(x) => Clean(fs, p, x)
    case Map(en) =>
      && (forall n | n in Children(fs, p) :: exists j | 0 <= j < |en| :: en[j].0 == Str(n))
      && (forall j | 0 <= j < |en| :: en[j].0.Str? ==> Clean(fs, p + [en[j].0.s], en[j].1))
    case Struct(fv) => forall j | 0 <= j < |fv| :: Clean(fs, p + [fv[j].0], fv[j].1)
    case StructVariant(_, fv) => forall j | 0 <= j < |fv| :: Clean(fs, p + [fv[j].0], fv[j].1)
    case _ => true
  }

  /** Where nothing is, nothing can outlive a write. */
  lemma {:induction false} CleanAbsent(fs: FS, p: Path, v: Value)
    requires Valid(fs) && |p| > 0 && p !in fs
    ensures Clean(fs, p, v)
    decreases v
  {
    AbsentSubtree(fs, p);
    match v
    case Present(x) => CleanAbsent(fs, p, x);
    case Newtype(x) => CleanAbsent(fs, p, x);
    case Map(en) =>
      NoChildren(fs, p);
      forall j | 0 <= j < |en| && en[j].0.Str?
        ensures Clean(fs, p + [en[j].0.s], en[j].1)
      {
        var e := en[j];
        assert e.1 < e;
        assert p <= p + [e.0.s];
        CleanAbsent(fs, p + [e.0.s], e.1);
      }
    case Struct(fv) => FieldsAbsent(fs, p, v, fv);
    case StructVariant(_, fv) => FieldsAbsent(fs, p, v, fv);
    case _ =>
  }

  /** Nothing at `p`, so no entries inside it. */
  lemma NoChildren(fs: FS, p: Path)
    requires Valid(fs) && |p| > 0 && p !in fs
    ensures Children(fs, p) == {}
  {
    forall n
      ensures n !in Children(fs, p)
    {
      ChildrenSpec(fs, p, n);
      assert Parent(p + [n]) == p;
    }
  }

  /** The fields of a struct (or struct variant) `v` under an absent `p`. */
  lemma {:induction false} FieldsAbsent(fs: FS, p: Path, v: Value, fv: seq<(Name, Value)>)
    requires Valid(fs) && |p| > 0 && p !in fs && (v.Struct? || v.StructVariant?) && fv == v.fields
    ensures forall j | 0 <= j < |fv| :: Clean(fs, p + [fv[j].0], fv[j].1)
    decreases v, 0
  {
    AbsentSubtree(fs, p);
    forall j | 0 <= j < |fv|
      ensures Clean(fs, p + [fv[j].0], fv[j].1)
    {
      var f := fv[j];
      assert f.1 < f;
      assert p <= p + [f.0];
      CleanAbsent(fs, p + [f.0], f.1);
    }
  }

  /** Whether writing `v` at `p` is clean depends only on the subtree at `p`. */
  lemma {:induction false} CleanLocal(fs: FS, fs': FS, p: Path, v: Value)
    requires SameUnder(fs, fs', p) && Clean(fs, p, v)
    ensures Clean(fs', p, v)
    decreases v
  {
    match v
    case Present(x) => CleanLocal(fs, fs', p, x);
    case Newtype(x) => CleanLocal(fs, fs', p, x);
    case Map(en) =>
      forall n | n in Children(fs', p)
        ensures n in Children(fs, p)
      {
        ChildrenSpec(fs', p, n);
        ChildrenSpec(fs, p, n);
        assert p <= p + [n];
      }
      forall j | 0 <= j < |en| && en[j].0.Str?
        ensures Clean(fs', p + [en[j].0.s], en[j].1)
      {
        var e := en[j];
        assert e.1 < e;
        SameUnderNarrow(fs, fs', p, p + [e.0.s]);
        CleanLocal(fs, fs', p + [e.0.s], e.1);
      }
    case Struct(fv) => FieldsLocal(fs, fs', p, v, fv);
    case StructVariant(_, fv) => FieldsLocal(fs, fs', p, v, fv);
    case _ =>
  }

  /** The fields of a struct (or struct variant) `v` in two trees alike under `p`. */
  lemma {:induction false} FieldsLocal(fs: FS, fs': FS, p: Path, v: Value, fv: seq<(Name, Value)>)
    requires SameUnder(fs, fs', p) && (v.Struct? || v.StructVariant?) && fv == v.fields
    requires forall j | 0 <= j < |fv| :: Clean(fs, p + [fv[j].0], fv[j].1)
    ensures forall j | 0 <= j < |fv| :: Clean(fs', p + [fv[j].0], fv[j].1)
    decreases v, 0
  {
    forall j | 0 <= j < |fv|
      ensures Clean(fs', p + [fv[j].0], fv[j].1)
    {
      var f := fv[j];
      assert f.1 < f;
      SameUnderNarrow(fs, fs', p, p + [f.0]);
      CleanLocal(fs, fs', p + [f.0], f.1);
    }
  }

  /** Writing inside `p/n` keeps a write of `v` at the sibling `p/m` clean. */
  lemma CleanSibling(fs: FS, fs': FS, p: Path, n: Name, m: Name, v: Value)
    requires Frame(fs, fs', p + [n]) && n != m && Clean(fs, p + [m], v)
    ensures Clean(fs', p + [m], v)
  {
    assert (p + [n])[|p|] == n && (p + [m])[|p|] == m;
    FrameDisjoint(fs, fs', p + [n], p + [m]);
    CleanLocal(fs, fs', p + [m], v);
  }

  /** Preparing the directory of a map or struct keeps the subtree of every entry. */
  lemma SetupKeeps(fs: FS, p: Path, n: Name)
    requires Valid(fs) && |p| > 0 && !Blocked(fs, p)
    ensures SameUnder(fs, Encoder.MapSetup(fs, p).value, p + [n])
  {
  }

  /** `Decode(Encode(v)) == v`: the value written at `p` is read back unchanged. */
  lemma {:induction false} RoundTrip(fs: FS, p: Path, v: Value, s: Shape)
    requires Valid(fs) && |p| > 0 && !Blocked(fs, p)
    requires HasShape(v, s) && Representable(v) && Clean(fs, p, v)
    ensures Encoder.Encode(fs, p, v).Ok?
    ensures Decoder.Decode(Encoder.Encode(fs, p, v).value, p, s) == Ok(v)
    decreases v, 2
  {
    match v
    case Absent => RoundTripAbsent(fs, p, v, s.inner);
    case Present(_) => RoundTripPresent(fs, p, v, s.inner);
    case Newtype(_) => RoundTripNewtype(fs, p, v, s.inner);
    case Seq(_) => RoundTripSeq(fs, p, v, s.elem);
    case Tuple(es) => RoundTripTuple(fs, p, es, s.elems);
    case Map(en) => RoundTripMap(fs, p, en, s.value);
    case Struct(_) => RoundTripStruct(fs, p, v, s.fields);
    case UnitVariant(_) => RoundTripUnitVariant(fs, p, v, s.variants);
    case NewtypeVariant(_, _) => RoundTripNewtypeVariant(fs, p, v, s.variants);
    case TupleVariant(_, _) => RoundTripTupleVariant(fs, p, v, s.variants);
    case StructVariant(_, _) => RoundTripStructVariant(fs, p, v, s.variants);
    case _ => RoundTripScalar(fs, p, v, s);
  }

  /** `None` removes whatever is at `p`, so it is read back as absent. */
  lemma RoundTripAbsent(fs: FS, p: Path, v: Value, t: Shape)
    requires Valid(fs) && |p| > 0 && v.Absent?
    ensures Encoder.Encode(fs, p, v) == Ok(Remove(fs, p))
    ensures Decoder.Decode(Remove(fs, p), p, OptionS(t)) == Ok(v)
  {
    assert !Exists(Remove(fs, p), p);
  }

  /** `Some(x)` is written as `x`, which materializes, so it is read back as present. */
  lemma RoundTripPresent(fs: FS, p: Path, v: Value, t: Shape)
    requires Valid(fs) && |p| > 0 && !Blocked(fs, p) && v.Present?
    requires HasShape(v, OptionS(t)) && Representable(v) && Clean(fs, p, v)
    ensures Encoder.Encode(fs, p, v).Ok?
    ensures Decoder.Decode(Encoder.Encode(fs, p, v).value, p, OptionS(t)) == Ok(v)
    decreases v, 1
  {
    RoundTrip(fs, p, v.inner, t);
    var r := Encoder.Encode(fs, p, v.inner).value;
    assert Encoder.Encode(fs, p, v) == Ok(r);
    assert KindAt(r, p) == Layout(v.inner);
    assert Exists(r, p);
  }

  /** A newtype is written as its content and read back around it. */
  lemma RoundTripNewtype(fs: FS, p: Path, v: Value, t: Shape)
    requires Valid(fs) && |p| > 0 && !Blocked(fs, p) && v.Newtype?
    requires HasShape(v, NewtypeS(t)) && Representable(v) && Clean(fs, p, v)
    ensures Encoder.Encode(fs, p, v).Ok?
    ensures Decoder.Decode(Encoder.Encode(fs, p, v).value, p, NewtypeS(t)) == Ok(v)
    decreases v, 1
  {
    RoundTrip(fs, p, v.inner, t);
    assert Encoder.Encode(fs, p, v) == Encoder.Encode(fs, p, v.inner);
  }

  /** A scalar is written as its text and parsed back from it. */
  lemma RoundTripScalar(fs: FS, p: Path, v: Value, s: Shape)
    requires Valid(fs) && |p| > 0 && !Blocked(fs, p)
    requires Encoder.IsScalar(v) && !v.UnitVariant? && HasShape(v, s) && Representable(v)
    ensures Encoder.Encode(fs, p, v).Ok?
    ensures Decoder.Decode(Encoder.Encode(fs, p, v).value, p, s) == Ok(v)
  {
    Encoder.ScalarUnfold(fs, p, v);
    var r := Encoder.Write(fs, p, Encoder.ScalarText(v)).value;
    assert Encoder.EncodeScalar(fs, p, v) == Ok(r);
    ScalarTextRead(r, p, v, s);
  }

  /** The text of a scalar, found in the file at `p`, is read back as the scalar. */
  lemma ScalarTextRead(r: FS, p: Path, v: Value, s: Shape)
    requires Encoder.IsScalar(v) && !v.UnitVariant? && HasShape(v, s) && Representable(v)
    requires |p| > 0 && p in r && r[p] == File(Encoder.ScalarText(v))
    ensures Decoder.Decode(r, p, s) == Ok(v)
  {
    match v
    case Bool(b) => BoolRead(r, p, b);
    case Int(n) => IntRead(r, p, n, s.kind);
    case Char(c) => CharRead(r, p, c);
    case Str(_) =>
    case ByteBuf(_) =>
    case Unit =>
  }

  lemma BoolRead(r: FS, p: Path, b: bool)
    requires |p| > 0 && p in r && r[p] == File(if b then TRUE_TEXT else FALSE_TEXT)
    ensures Decoder.Decode(r, p, BoolS) == Ok(Bool(b))
  {
    var text := if b then TRUE_TEXT else FALSE_TEXT;
    BoolTextClean(b);
    BoolTextParsed(b);
    TextRead(r, p, text, b);
  }

  /** A file whose text is UTF-8, has nothing to trim and parses as `b` is read as `b`. */
  lemma TextRead(r: FS, p: Path, text: Bytes, b: bool)
    requires |p| > 0 && p in r && r[p] == File(text) && ValidUtf8(text) && Trim(text) == text
    requires Decoder.ParseBool(text) == Some(b)
    ensures Decoder.Decode(r, p, BoolS) == Ok(Bool(b))
  {
  }

  /** Each boolean word parses as its boolean. */
  lemma BoolTextParsed(b: bool)
    ensures Decoder.ParseBool(if b then TRUE_TEXT else FALSE_TEXT) == Some(b)
  {
  }

  /** The boolean words are UTF-8 and have no whitespace to trim. */
  lemma BoolTextClean(b: bool)
    ensures var text := if b then TRUE_TEXT else FALSE_TEXT;
            ValidUtf8(text) && Trim(text) == text
  {
    var text := if b then TRUE_TEXT else FALSE_TEXT;
    ScalarTextsAscii(0);
    AsciiIsUtf8(text);
    TrimKeeps(text);
  }

  lemma IntRead(r: FS, p: Path, n: int, k: IntKind)
    requires |p| > 0 && p in r && r[p] == File(IntText(n)) && k.InRange(n)
    ensures Decoder.Decode(r, p, IntS(k)) == Ok(Int(n))
  {
    ScalarTextsAscii(n);
    AsciiIsUtf8(IntText(n));
    TrimIntText(n);
    ParseIntText(n, k);
  }

  lemma CharRead(r: FS, p: Path, c: char)
    requires |p| > 0 && p in r && r[p] == File(Utf8(c)) && c as int < 0x80
    ensures Decoder.Decode(r, p, CharS) == Ok(Char(c))
  {
  }

  /** After the preparation of a sequence directory no index entry up to `n` is left. */
  lemma NoIndexEntries(fs: FS, p: Path, n: nat)
    requires Valid(fs) && |p| > 0 && !Blocked(fs, p) && n <= USIZE.Max()
    ensures forall j | 0 <= j <= n :: p + [Decimal(j)] !in Encoder.SeqSetup(fs, p).value
  {
    forall j | 0 <= j <= n
      ensures p + [Decimal(j)] !in Encoder.SeqSetup(fs, p).value
    {
      DecimalIsIndexName(j);
      assert (p + [Decimal(j)])[|p|] == Decimal(j);
    }
  }

  /** Writing inside `p/n` adds no entry `p/m` for another name `m`. */
  lemma SiblingStaysAbsent(fs: FS, fs': FS, p: Path, n: Name, m: Name)
    requires Frame(fs, fs', p + [n]) && n != m && p + [m] !in fs
    ensures p + [m] !in fs'
  {
    var q := p + [m];
    assert |q| == |p + [n]| && q[|p|] != (p + [n])[|p|];
  }

  /** Writing inside `p/n` keeps the entry `p/m` for another name `m`. */
  lemma SiblingKept(fs: FS, fs': FS, p: Path, n: Name, m: Name)
    requires Frame(fs, fs', p + [n]) && n != m && p + [m] in fs
    ensures p + [m] in fs' && fs'[p + [m]] == fs[p + [m]]
  {
    var q := p + [m];
    assert |q| == |p + [n]| && q[|p|] != (p + [n])[|p|];
  }

  /** The entry name of an index is all digits, so it is never the `variant` marker. */
  lemma DecimalNotVariant(j: nat)
    ensures Decimal(j) != VARIANT
  {
    DecimalDigits(j);
    assert !IsDigit(VARIANT[0]);
  }

  // ---------------------------------------------------------------------------------------
  // Sequences and tuples
  // ---------------------------------------------------------------------------------------

  lemma RoundTripSeq(fs: FS, p: Path, v: Value, t: Shape)
    requires Valid(fs) && |p| > 0 && !Blocked(fs, p) && v.Seq?
    requires HasShape(v, SeqS(t)) && Representable(v)
    ensures Encoder.Encode(fs, p, v).Ok?
    ensures Decoder.Decode(Encoder.Encode(fs, p, v).value, p, SeqS(t)) == Ok(v)
    decreases v, 1
  {
    var es := v.elems;
    var fs1 := Encoder.SeqSetup(fs, p).value;
    NoIndexEntries(fs, p, |es|);
    RoundTripSeqElems(fs1, p, es, t, 0);
    EncodeSequenceIs(fs, p, v);
    assert es[0..] == es;
  }

  /** A sequence or tuple is written by preparing its directory and writing its elements. */
  lemma EncodeSequenceIs(fs: FS, p: Path, v: Value)
    requires Valid(fs) && |p| > 0 && !Blocked(fs, p) && (v.Seq? || v.Tuple?)
    requires Encoder.EncodeElems(Encoder.SeqSetup(fs, p).value, p, v.elems, 0).Ok?
    ensures Encoder.Encode(fs, p, v) == Encoder.EncodeElems(Encoder.SeqSetup(fs, p).value, p, v.elems, 0)
  {
  }

  /** The elements `es[i..]` written at `p/i`, ... are read back by the length-less
      sequence reader, which stops at the absent `p/|es|`. */
  lemma {:induction false} RoundTripSeqElems(fs: FS, p: Path, es: seq<Value>, t: Shape, i: nat)
    requires Valid(fs) && |p| > 0 && IsDir(fs, p) && i <= |es|
    requires forall j | i <= j < |es| :: HasShape(es[j], t) && Materializes(es[j]) && Representable(es[j])
    requires forall j | i <= j <= |es| :: p + [Decimal(j)] !in fs
    ensures Encoder.EncodeElems(fs, p, es, i).Ok?
    ensures Decoder.DecodeSeqFrom(Encoder.EncodeElems(fs, p, es, i).value, p, t, i) == Ok(es[i..])
    decreases es, |es| - i
  {
    if i == |es| {
      assert Encoder.EncodeElems(fs, p, es, i) == Ok(fs);
      SeqEnd(fs, p, t, i);
      assert es[i..] == [];
    } else {
      var c := p + [Decimal(i)];
      ChildNotBlocked(fs, p, Decimal(i));
      CleanAbsent(fs, c, es[i]);
      RoundTrip(fs, c, es[i], t);
      var fs1 := Encoder.Encode(fs, c, es[i]).value;
      ElemStep(fs, p, es, i, fs1);
      LaterAbsent(fs, fs1, p, i, |es|);
      RoundTripSeqElems(fs1, p, es, t, i + 1);
      var r := Encoder.EncodeElems(fs1, p, es, i + 1).value;
      ElemKept(fs1, r, p, es, i, t);
      SeqStep(r, p, t, i, es[i]);
      SliceCons(es, i);
    }
  }

  lemma SliceCons<T>(s: seq<T>, i: nat)
    requires i < |s|
    ensures s[i..] == [s[i]] + s[i + 1..]
  {
  }

  /** The sequence reader stops at a missing index. */
  lemma SeqEnd(r: FS, p: Path, t: Shape, i: nat)
    requires p + [Decimal(i)] !in r
    ensures Decoder.DecodeSeqFrom(r, p, t, i) == Ok([])
  {
  }

  /** The sequence reader takes the element at an existing index and goes on. */
  lemma SeqStep(r: FS, p: Path, t: Shape, i: nat, x: Value)
    requires Exists(r, p + [Decimal(i)]) && Decoder.Decode(r, p + [Decimal(i)], t) == Ok(x)
    requires Decoder.DecodeSeqFrom(r, p, t, i + 1).Ok?
    ensures Decoder.DecodeSeqFrom(r, p, t, i) == Ok([x] + Decoder.DecodeSeqFrom(r, p, t, i + 1).value)
  {
  }

  /** Writing the element `es[i]` is the first step of writing `es[i..]`; it leaves `p` a
      directory and creates the entry `p/i`. */
  lemma ElemStep(fs: FS, p: Path, es: seq<Value>, i: nat, fs1: FS)
    requires Valid(fs) && |p| > 0 && IsDir(fs, p) && i < |es| && Materializes(es[i])
    requires Encoder.Encode(fs, p + [Decimal(i)], es[i]) == Ok(fs1)
    ensures Valid(fs1) && IsDir(fs1, p) && Frame(fs, fs1, p + [Decimal(i)])
    ensures Exists(fs1, p + [Decimal(i)])
    ensures Encoder.EncodeElems(fs, p, es, i) == Encoder.EncodeElems(fs1, p, es, i + 1)
  {
    ChildNotBlocked(fs, p, Decimal(i));
    Encoder.ChildFrame(fs, fs1, p, Decimal(i));
  }

  /** Writing inside `p/i` adds none of the index entries `p/(i+1)`, ..., `p/n`. */
  lemma LaterAbsent(fs: FS, fs1: FS, p: Path, i: nat, n: nat)
    requires Frame(fs, fs1, p + [Decimal(i)])
    requires forall j | i < j <= n :: p + [Decimal(j)] !in fs
    ensures forall j | i < j <= n :: p + [Decimal(j)] !in fs1
  {
    forall j | i < j <= n
      ensures p + [Decimal(j)] !in fs1
    {
      DecimalInjective(i, j);
      SiblingStaysAbsent(fs, fs1, p, Decimal(i), Decimal(j));
    }
  }

  /** The element at `p/i` reads back the same after the later elements are written. */
  lemma ElemKept(fs1: FS, r: FS, p: Path, es: seq<Value>, i: nat, t: Shape)
    requires Valid(fs1) && |p| > 0 && IsDir(fs1, p) && i < |es|
    requires Encoder.EncodeElems(fs1, p, es, i + 1) == Ok(r)
    ensures Exists(r, p + [Decimal(i)]) <==> Exists(fs1, p + [Decimal(i)])
    ensures Decoder.Decode(r, p + [Decimal(i)], t) == Decoder.Decode(fs1, p + [Decimal(i)], t)
  {
    Encoder.ElemsConfined(fs1, p, es, i + 1);
    Encoder.IndexNamesSpec(i + 1, |es|, i);
    EntryKept(fs1, r, p, Decimal(i), Encoder.IndexNames(i + 1, |es|), t);
  }

  /** An entry `p/n` written before the entries `names` (which do not include `n`) reads
      back the same once they are written. */
  lemma EntryKept(fs1: FS, r: FS, p: Path, n: Name, names: set<Name>, t: Shape)
    requires Valid(fs1) && Valid(r) && IsDir(fs1, p) && IsDir(r, p)
    requires Confined(fs1, r, p, names) && n !in names
    ensures Exists(r, p + [n]) <==> Exists(fs1, p + [n])
    ensures Decoder.Decode(r, p + [n], t) == Decoder.Decode(fs1, p + [n], t)
  {
    ConfinedSame(fs1, r, p, names, n);
    ChildNotBlocked(fs1, p, n);
    ChildNotBlocked(r, p, n);
    Decoder.SameView(fs1, r, p + [n]);
    Decoder.DecodeLocal(fs1, r, p + [n], t);
  }

  lemma RoundTripTuple(fs: FS, p: Path, es: seq<Value>, ts: seq<Shape>)
    requires Valid(fs) && |p| > 0 && !Blocked(fs, p)
    requires ElemsShaped(es, ts, 0) && Representable(Tuple(es))
    ensures Encoder.Encode(fs, p, Tuple(es)).Ok?
    ensures Decoder.Decode(Encoder.Encode(fs, p, Tuple(es)).value, p, TupleS(ts)) == Ok(Tuple(es))
    decreases Tuple(es), 1
  {
    var r := TupleWritten(fs, p, es, ts);
    DecodeTupleIs(r, p, ts);
  }

  /** The tree a tuple is written to, from which its elements are read back. */
  lemma TupleWritten(fs: FS, p: Path, es: seq<Value>, ts: seq<Shape>) returns (r: FS)
    requires Valid(fs) && |p| > 0 && !Blocked(fs, p)
    requires ElemsShaped(es, ts, 0) && Representable(Tuple(es))
    ensures Encoder.Encode(fs, p, Tuple(es)) == Ok(r)
    ensures Decoder.DecodeTupleFrom(r, p, ts, 0) == Ok(es)
    decreases Tuple(es), 0
  {
    var fs1 := Encoder.SeqSetup(fs, p).value;
    NoIndexEntries(fs, p, |es|);
    assert es[0..] == es;
    RoundTripTupleElems(fs1, p, es, ts, 0);
    EncodeSequenceIs(fs, p, Tuple(es));
    r := Encoder.EncodeElems(fs1, p, es, 0).value;
  }

  lemma DecodeTupleIs(r: FS, p: Path, ts: seq<Shape>)
    ensures Decoder.Decode(r, p, TupleS(ts)) == Decoder.WrapElems(Decoder.DecodeTupleFrom(r, p, ts, 0), Decoder.InTuple)
  {
  }

  /** The elements `es[i..]` written at `p/i`, ... are read back by the tuple reader. */
  lemma {:induction false} RoundTripTupleElems(fs: FS, p: Path, es: seq<Value>, ts: seq<Shape>, i: nat)
    requires Valid(fs) && |p| > 0 && IsDir(fs, p) && i <= |es| && i <= |ts|
    requires ElemsShaped(es[i..], ts, i)
    requires forall j | i <= j < |es| :: Materializes(es[j]) && Representable(es[j])
    requires forall j | i <= j <= |es| :: p + [Decimal(j)] !in fs
    ensures Encoder.EncodeElems(fs, p, es, i).Ok?
    ensures Decoder.DecodeTupleFrom(Encoder.EncodeElems(fs, p, es, i).value, p, ts, i) == Ok(es[i..])
    decreases es, |es| - i
  {
    ShapedStep(es, ts, i);
    if i == |es| {
      assert Encoder.EncodeElems(fs, p, es, i) == Ok(fs);
      assert es[i..] == [];
    } else {
      var c := p + [Decimal(i)];
      ChildNotBlocked(fs, p, Decimal(i));
      CleanAbsent(fs, c, es[i]);
      RoundTrip(fs, c, es[i], ts[i]);
      var fs1 := Encoder.Encode(fs, c, es[i]).value;
      ElemStep(fs, p, es, i, fs1);
      LaterAbsent(fs, fs1, p, i, |es|);
      RoundTripTupleElems(fs1, p, es, ts, i + 1);
      var r := Encoder.EncodeElems(fs1, p, es, i + 1).value;
      ElemKept(fs1, r, p, es, i, ts[i]);
      TupleStep(r, p, ts, i, es[i]);
      SliceCons(es, i);
    }
  }

  /** Unfolding `ElemsShaped` once: the element counts agree, and the first element and
      the rest have their shapes. */
  lemma ShapedStep(es: seq<Value>, ts: seq<Shape>, i: nat)
    requires i <= |es| && i <= |ts| && ElemsShaped(es[i..], ts, i)
    ensures |es| == |ts|
    ensures i < |es| ==> HasShape(es[i], ts[i]) && ElemsShaped(es[i + 1..], ts, i + 1)
  {
    if i < |es| {
      assert es[i..][0] == es[i] && es[i..][1..] == es[i + 1..];
    }
  }

  /** The tuple reader takes the element at an existing index and goes on. */
  lemma TupleStep(r: FS, p: Path, ts: seq<Shape>, i: nat, x: Value)
    requires i < |ts| && Exists(r, p + [Decimal(i)]) && Decoder.Decode(r, p + [Decimal(i)], ts[i]) == Ok(x)
    requires Decoder.DecodeTupleFrom(r, p, ts, i + 1).Ok?
    ensures Decoder.DecodeTupleFrom(r, p, ts, i) == Ok([x] + Decoder.DecodeTupleFrom(r, p, ts, i + 1).value)
  {
  }

  // ---------------------------------------------------------------------------------------
  // Maps and structs
  // ---------------------------------------------------------------------------------------

  lemma RoundTripMap(fs: FS, p: Path, en: seq<(Value, Value)>, t: Shape)
    requires Valid(fs) && |p| > 0 && !Blocked(fs, p) && Clean(fs, p, Map(en))
    requires HasShape(Map(en), MapS(t)) && Representable(Map(en))
    ensures Encoder.Encode(fs, p, Map(en)).Ok?
    ensures Decoder.Decode(Encoder.Encode(fs, p, Map(en)).value, p, MapS(t)) == Ok(Map(en))
    decreases Map(en), 1
  {
    var r := MapWritten(fs, p, en, t);
    AscendingUnique(SortedNames(Children(r, p)), KeySeq(en));
    DecodeMapIs(r, p, t);
  }

  /** A map written over an earlier map whose keys it covers (`{a: 1}` then `{a: 2}`)
      is read back as the later map, as long as its values are scalars. */
  lemma MapRewrite(fs: FS, p: Path, en1: seq<(Value, Value)>, t1: Shape, en2: seq<(Value, Value)>, t2: Shape)
    requires Valid(fs) && |p| > 0 && !Blocked(fs, p)
    requires HasShape(Map(en1), MapS(t1)) && Representable(Map(en1)) && Clean(fs, p, Map(en1))
    requires HasShape(Map(en2), MapS(t2)) && Representable(Map(en2))
    requires forall j | 0 <= j < |en2| :: Encoder.IsScalar(en2[j].1)
    requires forall i | 0 <= i < |en1| :: exists j | 0 <= j < |en2| :: en2[j].0 == en1[i].0
    ensures Encoder.Encode(fs, p, Map(en1)).Ok?
    ensures var r1 := Encoder.Encode(fs, p, Map(en1)).value;
            && Encoder.Encode(r1, p, Map(en2)).Ok?
            && Decoder.Decode(Encoder.Encode(r1, p, Map(en2)).value, p, MapS(t2)) == Ok(Map(en2))
  {
    var r1 := MapWritten(fs, p, en1, t1);
    NotBlockedIfPresent(r1, p);
    RewriteClean(r1, p, en1, en2);
    RoundTripMap(r1, p, en2, t2);
  }

  /** A directory holding exactly the keys of `en1` is clean for a map of scalars whose
      keys cover them. */
  lemma RewriteClean(r1: FS, p: Path, en1: seq<(Value, Value)>, en2: seq<(Value, Value)>)
    requires forall j | 0 <= j < |en1| :: en1[j].0.Str?
    requires forall n :: n in Children(r1, p) <==> n in KeySeq(en1)
    requires forall j | 0 <= j < |en2| :: Encoder.IsScalar(en2[j].1)
    requires forall i | 0 <= i < |en1| :: exists j | 0 <= j < |en2| :: en2[j].0 == en1[i].0
    ensures Clean(r1, p, Map(en2))
  {
    forall n | n in Children(r1, p)
      ensures exists j | 0 <= j < |en2| :: en2[j].0 == Str(n)
    {
      var i :| 0 <= i < |en1| && KeySeq(en1)[i] == n;
      assert en1[i].0 == Str(n);
    }
    forall j | 0 <= j < |en2| && en2[j].0.Str?
      ensures Clean(r1, p + [en2[j].0.s], en2[j].1)
    {
      assert Encoder.IsScalar(en2[j].1);
    }
  }

  lemma DecodeMapIs(r: FS, p: Path, t: Shape)
    requires IsDir(r, p)
    ensures Decoder.Decode(r, p, MapS(t)) ==
              var en := Decoder.DecodeEntries(r, p, t, SortedNames(Children(r, p)), 0);
              if en.Err? then Err(en.error) else Ok(Map(en.value))
  {
  }

  /** The tree a map is written to: `p` is a directory whose entries are exactly the keys,
      and the entries read back in key order. */
  lemma MapWritten(fs: FS, p: Path, en: seq<(Value, Value)>, t: Shape) returns (r: FS)
    requires Valid(fs) && |p| > 0 && !Blocked(fs, p) && Clean(fs, p, Map(en))
    requires HasShape(Map(en), MapS(t)) && Representable(Map(en))
    ensures Encoder.Encode(fs, p, Map(en)) == Ok(r) && IsDir(r, p)
    ensures forall n :: n in Children(r, p) <==> n in KeySeq(en)
    ensures Ascending(KeySeq(en))
    ensures Decoder.DecodeEntries(r, p, t, KeySeq(en), 0) == Ok(en)
    decreases Map(en), 0
  {
    var names := KeySeq(en);
    var fs1 := Encoder.MapSetup(fs, p).value;
    MapSetupKeeps(fs, p, en, names);
    AscendingFresh(names, 0);
    r := RoundTripEntries(fs1, p, en, names, t, 0);
    EncodeMapIs(fs, p, en);
    MapChildren(fs1, r, p, en, names);
    assert en[0..] == en;
  }

  /** Preparing the directory of a map keeps only entries named by its keys, and each
      entry's value can still be written cleanly there. */
  lemma MapSetupKeeps(fs: FS, p: Path, en: seq<(Value, Value)>, names: seq<Name>)
    requires Valid(fs) && |p| > 0 && !Blocked(fs, p) && Clean(fs, p, Map(en))
    requires |names| == |en| && forall j | 0 <= j < |en| :: en[j].0 == Str(names[j])
    ensures var fs1 := Encoder.MapSetup(fs, p).value;
            && (forall n | n in Children(fs1, p) :: n in names)
            && (forall j | 0 <= j < |en| :: Clean(fs1, p + [names[j]], en[j].1))
  {
    var fs1 := Encoder.MapSetup(fs, p).value;
    forall n | n in Children(fs1, p)
      ensures n in names
    {
      ChildrenSpec(fs1, p, n);
      ChildrenSpec(fs, p, n);
      assert p < p + [n];
      var j :| 0 <= j < |en| && en[j].0 == Str(n);
      assert names[j] == n;
    }
    forall j | 0 <= j < |en|
      ensures Clean(fs1, p + [names[j]], en[j].1)
    {
      assert en[j].0.Str? && en[j].0.s == names[j];
      SetupKeeps(fs, p, names[j]);
      CleanLocal(fs, fs1, p + [names[j]], en[j].1);
    }
  }

  /** A map is written by preparing its directory and writing its entries. */
  lemma EncodeMapIs(fs: FS, p: Path, en: seq<(Value, Value)>)
    requires Valid(fs) && |p| > 0 && !Blocked(fs, p)
    requires Encoder.EncodeEntries(Encoder.MapSetup(fs, p).value, p, en, 0).Ok?
    ensures Encoder.Encode(fs, p, Map(en)) == Encoder.EncodeEntries(Encoder.MapSetup(fs, p).value, p, en, 0)
  {
    var fs1 := Encoder.MapSetup(fs, p).value;
    var r := Encoder.EncodeEntries(fs1, p, en, 0).value;
    Encoder.MapUnfold(fs, p, Map(en));
    assert Encoder.EncodeMap(fs, p, Map(en)) == Ok(r);
  }

  /** Written into an empty directory, the entries of the map are exactly its keys. */
  lemma MapChildren(fs1: FS, r: FS, p: Path, en: seq<(Value, Value)>, names: seq<Name>)
    requires Valid(fs1) && |p| > 0 && IsDir(fs1, p)
    requires |en| == |names| && forall j | 0 <= j < |en| :: en[j].0 == Str(names[j])
    requires forall n | n in Children(fs1, p) :: n in names
    requires Encoder.EncodeEntries(fs1, p, en, 0) == Ok(r)
    requires forall j | 0 <= j < |en| :: Exists(r, p + [names[j]])
    ensures forall n :: n in Children(r, p) <==> n in names
  {
    Encoder.EntriesConfined(fs1, p, en, 0);
    forall n
      ensures n in Children(r, p) <==> n in names
    {
      ChildrenSpec(r, p, n);
      ChildrenSpec(fs1, p, n);
      Encoder.KeyNamesSpec(en, 0, n);
      if n in names {
        var j :| 0 <= j < |names| && names[j] == n;
        assert Exists(r, p + [names[j]]);
      }
    }
  }

  /** No name of `names[i..]` comes back later in the list. */
  predicate FreshFrom(names: seq<Name>, i: nat)
    requires i <= |names|
    decreases |names| - i
  {
    i < |names| ==> names[i] !in names[i + 1..] && FreshFrom(names, i + 1)
  }

  lemma {:induction false} AscendingFresh(names: seq<Name>, i: nat)
    requires Ascending(names) && i <= |names|
    ensures FreshFrom(names, i)
    decreases |names| - i
  {
    if i < |names| {
      if names[i] in names[i + 1..] {
        var k :| 0 <= k < |names[i + 1..]| && names[i + 1..][k] == names[i];
        assert names[i + 1 + k] == names[i];
        LexLessIrreflexive(names[i]);
      }
      AscendingFresh(names, i + 1);
    }
  }

  /** The name `names[i]` differs from every later one. */
  lemma NameNotLater(names: seq<Name>, i: nat, j: nat)
    requires i < j < |names| && FreshFrom(names, i)
    ensures names[j] != names[i]
  {
    assert names[i + 1..][j - i - 1] == names[j];
  }

  /** The entries `en[i..]`, keyed by `names[i..]`, written at their keys all exist and
      are read back in order. */
  lemma {:induction false} RoundTripEntries(fs: FS, p: Path, en: seq<(Value, Value)>, names: seq<Name>, t: Shape, i: nat)
      returns (r: FS)
    requires Valid(fs) && |p| > 0 && IsDir(fs, p) && i <= |en| == |names| && FreshFrom(names, i)
    requires forall j | i <= j < |en| ::
               en[j].0 == Str(names[j]) && HasShape(en[j].1, t) && Materializes(en[j].1) && Representable(en[j].1)
    requires forall j | i <= j < |en| :: Clean(fs, p + [names[j]], en[j].1)
    ensures Encoder.EncodeEntries(fs, p, en, i) == Ok(r)
    ensures forall j | i <= j < |en| :: Exists(r, p + [names[j]])
    ensures Decoder.DecodeEntries(r, p, t, names, i) == Ok(en[i..])
    decreases en, |en| - i, 2
  {
    if i == |en| {
      r := fs;
      assert Encoder.EncodeEntries(fs, p, en, i) == Ok(fs);
      assert en[i..] == [];
    } else {
      r := EntriesFrom(fs, p, en, names, t, i);
    }
  }

  /** The step of `RoundTripEntries`: the entry `en[i]` first, then the later ones. */
  lemma EntriesFrom(fs: FS, p: Path, en: seq<(Value, Value)>, names: seq<Name>, t: Shape, i: nat)
      returns (r: FS)
    requires Valid(fs) && |p| > 0 && IsDir(fs, p) && i < |en| == |names| && FreshFrom(names, i)
    requires forall j | i <= j < |en| ::
               en[j].0 == Str(names[j]) && HasShape(en[j].1, t) && Materializes(en[j].1) && Representable(en[j].1)
    requires forall j | i <= j < |en| :: Clean(fs, p + [names[j]], en[j].1)
    ensures Encoder.EncodeEntries(fs, p, en, i) == Ok(r)
    ensures forall j | i <= j < |en| :: Exists(r, p + [names[j]])
    ensures Decoder.DecodeEntries(r, p, t, names, i) == Ok(en[i..])
    decreases en, |en| - i, 1
  {
    assert en[i].0 == Str(names[i]) && HasShape(en[i].1, t) && Materializes(en[i].1) && Representable(en[i].1);
    assert Clean(fs, p + [names[i]], en[i].1);
    var fs1 := EntryRoundTrip(fs, p, en, names, t, i);
    LaterKeysClean(fs, fs1, p, en, names, i);
    r := RoundTripEntries(fs1, p, en, names, t, i + 1);
    EntriesJoin(fs, fs1, r, p, en, names, t, i);
  }

  /** The entry `en[i]`, written first and read back, joins the later entries written
      after it. */
  lemma EntriesJoin(fs: FS, fs1: FS, r: FS, p: Path, en: seq<(Value, Value)>, names: seq<Name>, t: Shape, i: nat)
    requires Valid(fs) && Valid(fs1) && |p| > 0 && IsDir(fs, p) && IsDir(fs1, p)
    requires i < |en| == |names| && FreshFrom(names, i)
    requires forall j | i <= j < |en| :: en[j].0 == Str(names[j])
    requires Exists(fs1, p + [names[i]]) && Decoder.Decode(fs1, p + [names[i]], t) == Ok(en[i].1)
    requires Encoder.EncodeEntries(fs, p, en, i) == Encoder.EncodeEntries(fs1, p, en, i + 1)
    requires Encoder.EncodeEntries(fs1, p, en, i + 1) == Ok(r)
    requires forall j | i + 1 <= j < |en| :: Exists(r, p + [names[j]])
    requires Decoder.DecodeEntries(r, p, t, names, i + 1) == Ok(en[i + 1..])
    ensures Encoder.EncodeEntries(fs, p, en, i) == Ok(r)
    ensures forall j | i <= j < |en| :: Exists(r, p + [names[j]])
    ensures Decoder.DecodeEntries(r, p, t, names, i) == Ok(en[i..])
  {
    KeyKept(fs1, r, p, en, names, i, t);
    EntriesStep(r, p, t, names, i, en[i].1);
    SliceCons(en, i);
  }

  /** The value of `en[i]` written at its key, the first step of writing `en[i..]`, is
      read back from there. */
  lemma EntryRoundTrip(fs: FS, p: Path, en: seq<(Value, Value)>, names: seq<Name>, t: Shape, i: nat)
      returns (fs1: FS)
    requires Valid(fs) && |p| > 0 && IsDir(fs, p) && i < |en| == |names| && en[i].0 == Str(names[i])
    requires HasShape(en[i].1, t) && Materializes(en[i].1) && Representable(en[i].1)
    requires Clean(fs, p + [names[i]], en[i].1)
    ensures Valid(fs1) && IsDir(fs1, p) && Frame(fs, fs1, p + [names[i]])
    ensures Exists(fs1, p + [names[i]]) && Decoder.Decode(fs1, p + [names[i]], t) == Ok(en[i].1)
    ensures Encoder.EncodeEntries(fs, p, en, i) == Encoder.EncodeEntries(fs1, p, en, i + 1)
    decreases en, |en| - i, 0
  {
    var e := en[i];
    assert e.1 < e;
    ChildNotBlocked(fs, p, names[i]);
    RoundTrip(fs, p + [names[i]], e.1, t);
    fs1 := Encoder.Encode(fs, p + [names[i]], e.1).value;
    EntryStep(fs, p, en, i, fs1);
  }

  /** Writing the value of `en[i]` is the first step of writing `en[i..]`; it leaves `p` a
      directory and creates the entry of the key. */
  lemma EntryStep(fs: FS, p: Path, en: seq<(Value, Value)>, i: nat, fs1: FS)
    requires Valid(fs) && |p| > 0 && IsDir(fs, p) && i < |en| && en[i].0.Str? && Materializes(en[i].1)
    requires Encoder.Encode(fs, p + [en[i].0.s], en[i].1) == Ok(fs1)
    ensures Valid(fs1) && IsDir(fs1, p) && Frame(fs, fs1, p + [en[i].0.s])
    ensures Exists(fs1, p + [en[i].0.s])
    ensures Encoder.EncodeEntries(fs, p, en, i) == Encoder.EncodeEntries(fs1, p, en, i + 1)
  {
    ChildNotBlocked(fs, p, en[i].0.s);
    Encoder.ChildFrame(fs, fs1, p, en[i].0.s);
  }

  /** Writing inside the entry of one key keeps the entries of the later keys clean. */
  lemma LaterKeysClean(fs: FS, fs1: FS, p: Path, en: seq<(Value, Value)>, names: seq<Name>, i: nat)
    requires i < |en| == |names| && FreshFrom(names, i) && Frame(fs, fs1, p + [names[i]])
    requires forall j | i < j < |en| :: Clean(fs, p + [names[j]], en[j].1)
    ensures forall j | i < j < |en| :: Clean(fs1, p + [names[j]], en[j].1)
  {
    forall j | i < j < |en|
      ensures Clean(fs1, p + [names[j]], en[j].1)
    {
      NameNotLater(names, i, j);
      CleanSibling(fs, fs1, p, names[i], names[j], en[j].1);
    }
  }

  /** The entry of `en[i]` reads back the same after the later entries are written. */
  lemma KeyKept(fs1: FS, r: FS, p: Path, en: seq<(Value, Value)>, names: seq<Name>, i: nat, t: Shape)
    requires Valid(fs1) && |p| > 0 && IsDir(fs1, p) && i < |en| == |names| && FreshFrom(names, i)
    requires forall j | i <= j < |en| :: en[j].0 == Str(names[j])
    requires Encoder.EncodeEntries(fs1, p, en, i + 1) == Ok(r)
    ensures Exists(r, p + [names[i]]) <==> Exists(fs1, p + [names[i]])
    ensures Decoder.Decode(r, p + [names[i]], t) == Decoder.Decode(fs1, p + [names[i]], t)
  {
    Encoder.EntriesConfined(fs1, p, en, i + 1);
    Encoder.KeyNamesSpec(en, i + 1, names[i]);
    forall j | i + 1 <= j < |en|
      ensures en[j].0 != Str(names[i])
    {
      NameNotLater(names, i, j);
    }
    EntryKept(fs1, r, p, names[i], Encoder.KeyNames(en, i + 1), t);
  }

  /** The entry reader takes the value at the next name and goes on. */
  lemma EntriesStep(r: FS, p: Path, t: Shape, names: seq<Name>, i: nat, x: Value)
    requires i < |names| && Decoder.Decode(r, p + [names[i]], t) == Ok(x)
    requires Decoder.DecodeEntries(r, p, t, names, i + 1).Ok?
    ensures Decoder.DecodeEntries(r, p, t, names, i) == Ok([(Str(names[i]), x)] + Decoder.DecodeEntries(r, p, t, names, i + 1).value)
  {
  }

  lemma RoundTripStruct(fs: FS, p: Path, v: Value, fields: seq<(Name, Shape)>)
    requires Valid(fs) && |p| > 0 && !Blocked(fs, p) && v.Struct?
    requires HasShape(v, StructS(fields)) && Representable(v) && Clean(fs, p, v)
    ensures Encoder.Encode(fs, p, v).Ok?
    ensures Decoder.Decode(Encoder.Encode(fs, p, v).value, p, StructS(fields)) == Ok(v)
    decreases v, 1
  {
    var r := StructWritten(fs, p, v, fields);
    assert Decoder.Decode(r, p, StructS(fields)) == Decoder.WrapFields(Decoder.DecodeFields(r, p, fields, 0), None);
  }

  /** The tree a struct is written to, from which its declared fields are read back. */
  lemma StructWritten(fs: FS, p: Path, v: Value, fields: seq<(Name, Shape)>) returns (r: FS)
    requires Valid(fs) && |p| > 0 && !Blocked(fs, p) && v.Struct?
    requires FieldsShaped(v.fields, fields, 0) && Representable(v) && Clean(fs, p, v)
    ensures Encoder.Encode(fs, p, v) == Ok(r)
    ensures Decoder.DecodeFields(r, p, fields, 0) == Ok(v.fields)
    decreases v, 0
  {
    var fv := v.fields;
    var fs1 := Encoder.MapSetup(fs, p).value;
    FieldsShapedAt(fv, fields, 0);
    FieldsStartClean(fs, fs1, p, fv);
    r := RoundTripFields(fs1, p, fv, fields, 0);
    assert fv[0..] == fv;
    EncodeStructIs(fs, p, v, fs1, r);
  }

  /** A struct is written by preparing `p` and writing each field to `p/name`. */
  lemma EncodeStructIs(fs: FS, p: Path, v: Value, fs1: FS, r: FS)
    requires Valid(fs) && |p| > 0 && v.Struct?
    requires Encoder.MapSetup(fs, p) == Ok(fs1) && IsDir(fs1, p)
    requires Encoder.EncodeFields(fs1, p, v.fields, 0) == Ok(r)
    ensures Encoder.Encode(fs, p, v) == Ok(r)
  {
    assert Encoder.EncodeStruct(fs, p, v) == Ok(r);
    Encoder.StructUnfold(fs, p, v);
  }

  /** Preparing the directory of a struct keeps every field's write clean. */
  lemma FieldsStartClean(fs: FS, fs1: FS, p: Path, fv: seq<(Name, Value)>)
    requires Valid(fs) && |p| > 0 && !Blocked(fs, p) && fs1 == Encoder.MapSetup(fs, p).value
    requires forall j | 0 <= j < |fv| :: Clean(fs, p + [fv[j].0], fv[j].1)
    ensures forall j | 0 <= j < |fv| :: Clean(fs1, p + [fv[j].0], fv[j].1)
  {
    forall j | 0 <= j < |fv|
      ensures Clean(fs1, p + [fv[j].0], fv[j].1)
    {
      SetupKeeps(fs, p, fv[j].0);
      CleanLocal(fs, fs1, p + [fv[j].0], fv[j].1);
    }
  }

  /** Unfolding `FieldsShaped`: the fields carry the declared names and shapes, one for
      one. */
  lemma {:induction false} FieldsShapedAt(fv: seq<(Name, Value)>, fields: seq<(Name, Shape)>, i: nat)
    requires i <= |fields| && FieldsShaped(fv, fields, i)
    ensures |fv| == |fields| - i
    ensures forall j | 0 <= j < |fv| :: fv[j].0 == fields[i + j].0 && HasShape(fv[j].1, fields[i + j].1)
    decreases |fields| - i
  {
    if i < |fields| {
      FieldsShapedAt(fv[1..], fields, i + 1);
      forall j | 1 <= j < |fv|
        ensures fv[j].0 == fields[i + j].0 && HasShape(fv[j].1, fields[i + j].1)
      {
        assert fv[j] == fv[1..][j - 1];
      }
    }
  }

  /** The fields `fv[i..]` written at their names are read back by the declared fields. */
  lemma {:induction false} RoundTripFields(fs: FS, p: Path, fv: seq<(Name, Value)>, fields: seq<(Name, Shape)>, i: nat)
      returns (r: FS)
    requires Valid(fs) && |p| > 0 && IsDir(fs, p) && i <= |fv| == |fields| && DistinctNames(fv)
    requires forall j | i <= j < |fv| ::
               fv[j].0 == fields[j].0 && HasShape(fv[j].1, fields[j].1) && Representable(fv[j].1)
    requires forall j | i <= j < |fv| :: Clean(fs, p + [fv[j].0], fv[j].1)
    ensures Encoder.EncodeFields(fs, p, fv, i) == Ok(r)
    ensures Decoder.DecodeFields(r, p, fields, i) == Ok(fv[i..])
    decreases fv, |fv| - i, 2
  {
    if i == |fv| {
      r := fs;
      assert Encoder.EncodeFields(fs, p, fv, i) == Ok(fs);
      assert fv[i..] == [];
    } else {
      r := FieldsFrom(fs, p, fv, fields, i);
    }
  }

  /** The step of `RoundTripFields`: the field `fv[i]` first, then the later ones. */
  lemma FieldsFrom(fs: FS, p: Path, fv: seq<(Name, Value)>, fields: seq<(Name, Shape)>, i: nat)
      returns (r: FS)
    requires Valid(fs) && |p| > 0 && IsDir(fs, p) && i < |fv| == |fields| && DistinctNames(fv)
    requires forall j | i <= j < |fv| ::
               fv[j].0 == fields[j].0 && HasShape(fv[j].1, fields[j].1) && Representable(fv[j].1)
    requires forall j | i <= j < |fv| :: Clean(fs, p + [fv[j].0], fv[j].1)
    ensures Encoder.EncodeFields(fs, p, fv, i) == Ok(r)
    ensures Decoder.DecodeFields(r, p, fields, i) == Ok(fv[i..])
    decreases fv, |fv| - i, 1
  {
    var fs1 := FieldRoundTrip(fs, p, fv, fields, i);
    LaterFieldsClean(fs, fs1, p, fv, i);
    r := RoundTripFields(fs1, p, fv, fields, i + 1);
    FieldsJoin(fs, fs1, r, p, fv, fields, i);
  }

  /** The value of the field `fv[i]` written at its name, the first step of writing
      `fv[i..]`, is read back from there. */
  lemma FieldRoundTrip(fs: FS, p: Path, fv: seq<(Name, Value)>, fields: seq<(Name, Shape)>, i: nat)
      returns (fs1: FS)
    requires Valid(fs) && |p| > 0 && IsDir(fs, p) && i < |fv| == |fields|
    requires HasShape(fv[i].1, fields[i].1) && Representable(fv[i].1) && Clean(fs, p + [fv[i].0], fv[i].1)
    ensures Valid(fs1) && IsDir(fs1, p) && Frame(fs, fs1, p + [fv[i].0])
    ensures Decoder.Decode(fs1, p + [fv[i].0], fields[i].1) == Ok(fv[i].1)
    ensures Encoder.EncodeFields(fs, p, fv, i) == Encoder.EncodeFields(fs1, p, fv, i + 1)
    decreases fv, |fv| - i, 0
  {
    var f := fv[i];
    assert f.1 < f;
    ChildNotBlocked(fs, p, f.0);
    RoundTrip(fs, p + [f.0], f.1, fields[i].1);
    fs1 := Encoder.Encode(fs, p + [f.0], f.1).value;
    FieldStep(fs, p, fv, i, fs1);
  }

  /** Writing the value of `fv[i]` is the first step of writing `fv[i..]`. */
  lemma FieldStep(fs: FS, p: Path, fv: seq<(Name, Value)>, i: nat, fs1: FS)
    requires Valid(fs) && |p| > 0 && IsDir(fs, p) && i < |fv|
    requires Encoder.Encode(fs, p + [fv[i].0], fv[i].1) == Ok(fs1)
    ensures Valid(fs1) && IsDir(fs1, p) && Frame(fs, fs1, p + [fv[i].0])
    ensures Encoder.EncodeFields(fs, p, fv, i) == Encoder.EncodeFields(fs1, p, fv, i + 1)
  {
    ChildNotBlocked(fs, p, fv[i].0);
    Encoder.ChildFrame(fs, fs1, p, fv[i].0);
  }

  /** Writing inside the entry of one field leaves the entries of the later fields as
      they were. */
  lemma LaterFieldsClean(fs: FS, fs1: FS, p: Path, fv: seq<(Name, Value)>, i: nat)
    requires i < |fv| && DistinctNames(fv) && Frame(fs, fs1, p + [fv[i].0])
    requires forall j | i < j < |fv| :: Clean(fs, p + [fv[j].0], fv[j].1)
    ensures forall j | i < j < |fv| :: Clean(fs1, p + [fv[j].0], fv[j].1)
  {
    forall j | i < j < |fv|
      ensures Clean(fs1, p + [fv[j].0], fv[j].1)
    {
      CleanSibling(fs, fs1, p, fv[i].0, fv[j].0, fv[j].1);
    }
  }

  /** The field `fv[i]`, written first and read back, joins the later fields written
      after it. */
  lemma FieldsJoin(fs: FS, fs1: FS, r: FS, p: Path, fv: seq<(Name, Value)>, fields: seq<(Name, Shape)>, i: nat)
    requires Valid(fs) && Valid(fs1) && |p| > 0 && IsDir(fs, p) && IsDir(fs1, p)
    requires i < |fv| == |fields| && DistinctNames(fv) && fields[i].0 == fv[i].0
    requires Decoder.Decode(fs1, p + [fv[i].0], fields[i].1) == Ok(fv[i].1)
    requires Encoder.EncodeFields(fs, p, fv, i) == Encoder.EncodeFields(fs1, p, fv, i + 1)
    requires Encoder.EncodeFields(fs1, p, fv, i + 1) == Ok(r)
    requires Decoder.DecodeFields(r, p, fields, i + 1) == Ok(fv[i + 1..])
    ensures Encoder.EncodeFields(fs, p, fv, i) == Ok(r)
    ensures Decoder.DecodeFields(r, p, fields, i) == Ok(fv[i..])
  {
    FieldKept(fs1, r, p, fv, i, fields[i].1);
    FieldsStep(r, p, fields, i, fv[i].1);
    SliceCons(fv, i);
  }

  /** The entry of `fv[i]` reads back the same after the later fields are written. */
  lemma FieldKept(fs1: FS, r: FS, p: Path, fv: seq<(Name, Value)>, i: nat, t: Shape)
    requires Valid(fs1) && |p| > 0 && IsDir(fs1, p) && i < |fv| && DistinctNames(fv)
    requires Encoder.EncodeFields(fs1, p, fv, i + 1) == Ok(r)
    ensures Decoder.Decode(r, p + [fv[i].0], t) == Decoder.Decode(fs1, p + [fv[i].0], t)
  {
    Encoder.FieldsConfined(fs1, p, fv, i + 1);
    Encoder.FieldNamesSpec(fv, i + 1, fv[i].0);
    EntryKept(fs1, r, p, fv[i].0, Encoder.FieldNames(fv, i + 1), t);
  }

  /** The field reader takes the value at the next declared name and goes on. */
  lemma FieldsStep(r: FS, p: Path, fields: seq<(Name, Shape)>, i: nat, x: Value)
    requires i < |fields| && Decoder.Decode(r, p + [fields[i].0], fields[i].1) == Ok(x)
    requires Decoder.DecodeFields(r, p, fields, i + 1).Ok?
    ensures Decoder.DecodeFields(r, p, fields, i) == Ok([(fields[i].0, x)] + Decoder.DecodeFields(r, p, fields, i + 1).value)
  {
  }

  // ---------------------------------------------------------------------------------------
  // Enums
  // ---------------------------------------------------------------------------------------

  /** The variant `v` names is declared, with a shape `v` has. */
  lemma VariantDeclared(v: Value, variants: seq<(Name, VariantShape)>)
    requires (v.UnitVariant? || v.NewtypeVariant? || v.TupleVariant? || v.StructVariant?)
    requires HasShape(v, EnumS(variants))
    ensures FindVariant(variants, v.variant) < |variants|
    ensures HasVariantShape(v, variants[FindVariant(variants, v.variant)].1)
  {
  }

  lemma RoundTripUnitVariant(fs: FS, p: Path, v: Value, variants: seq<(Name, VariantShape)>)
    requires Valid(fs) && |p| > 0 && !Blocked(fs, p) && v.UnitVariant?
    requires HasShape(v, EnumS(variants)) && Representable(v)
    ensures Encoder.Encode(fs, p, v).Ok?
    ensures Decoder.Decode(Encoder.Encode(fs, p, v).value, p, EnumS(variants)) == Ok(v)
  {
    var r := Encoder.Write(fs, p, v.variant).value;
    assert Encoder.Encode(fs, p, v) == Ok(r);
    VariantDeclared(v, variants);
    UnitVariantRead(r, p, variants, v, FindVariant(variants, v.variant));
  }

  /** A file holding the name of a unit variant is read as that variant. */
  lemma UnitVariantRead(r: FS, p: Path, variants: seq<(Name, VariantShape)>, v: Value, k: nat)
    requires v.UnitVariant? && |p| > 0 && p in r && r[p] == File(v.variant) && ValidUtf8(v.variant)
    requires k == FindVariant(variants, v.variant) && k < |variants| && variants[k].1.UnitV?
    ensures Decoder.Decode(r, p, EnumS(variants)) == Ok(v)
  {
    assert !IsDir(r, p);
    assert Decoder.ReadString(r, p) == Ok(v.variant);
  }

  lemma RoundTripNewtypeVariant(fs: FS, p: Path, v: Value, variants: seq<(Name, VariantShape)>)
    requires Valid(fs) && |p| > 0 && !Blocked(fs, p) && v.NewtypeVariant?
    requires HasShape(v, EnumS(variants)) && Representable(v)
    ensures Encoder.Encode(fs, p, v).Ok?
    ensures Decoder.Decode(Encoder.Encode(fs, p, v).value, p, EnumS(variants)) == Ok(v)
    decreases v, 1
  {
    VariantDeclared(v, variants);
    var k := FindVariant(variants, v.variant);
    var r := NewtypeVariantWritten(fs, p, v, variants[k].1.payload);
    NewtypeVariantRead(r, p, variants, v, k);
  }

  /** The tree a newtype variant is written to: its name in `p/variant` and its payload
      read back from `p/value`. */
  lemma NewtypeVariantWritten(fs: FS, p: Path, v: Value, t: Shape) returns (r: FS)
    requires Valid(fs) && |p| > 0 && !Blocked(fs, p) && v.NewtypeVariant? && ValidUtf8(v.variant)
    requires HasShape(v.payload, t) && Representable(v.payload)
    ensures Encoder.Encode(fs, p, v) == Ok(r)
    ensures IsDir(r, p) && p + [VARIANT] in r && r[p + [VARIANT]] == File(v.variant)
    ensures Decoder.Decode(r, p + [VALUE], t) == Ok(v.payload)
    decreases v, 0
  {
    var fs1 := Encoder.NewtypeSetup(fs, p).value;
    ChildNotBlocked(fs1, p, VARIANT);
    var fs2 := Encoder.Write(fs1, p + [VARIANT], v.variant).value;
    Encoder.ChildFrame(fs1, fs2, p, VARIANT);
    SiblingStaysAbsent(fs1, fs2, p, VARIANT, VALUE);
    ChildNotBlocked(fs2, p, VALUE);
    CleanAbsent(fs2, p + [VALUE], v.payload);
    RoundTrip(fs2, p + [VALUE], v.payload, t);
    r := Encoder.Encode(fs2, p + [VALUE], v.payload).value;
    Encoder.ChildFrame(fs2, r, p, VALUE);
    SiblingKept(fs2, r, p, VALUE, VARIANT);
    EncodeNewtypeVariantIs(fs, p, v, fs1, fs2, r);
  }

  /** A newtype variant is written by preparing `p`, writing the name to `p/variant` and
      the payload to `p/value`. */
  lemma EncodeNewtypeVariantIs(fs: FS, p: Path, v: Value, fs1: FS, fs2: FS, r: FS)
    requires Valid(fs) && |p| > 0 && v.NewtypeVariant?
    requires Encoder.NewtypeSetup(fs, p) == Ok(fs1)
    requires Encoder.Write(fs1, p + [VARIANT], v.variant) == Ok(fs2)
    requires Encoder.Encode(fs2, p + [VALUE], v.payload) == Ok(r)
    ensures Encoder.Encode(fs, p, v) == Ok(r)
  {
    assert Encoder.FillNewtypeVariant(fs1, p, v) == Ok(r);
    assert Encoder.EncodeNewtypeVariant(fs, p, v) == Ok(r);
    Encoder.NewtypeVariantUnfold(fs, p, v);
  }

  /** A directory holding the name of a newtype variant in `p/variant` and its payload at
      `p/value` is read as that variant. */
  lemma NewtypeVariantRead(r: FS, p: Path, variants: seq<(Name, VariantShape)>, v: Value, k: nat)
    requires v.NewtypeVariant? && IsDir(r, p) && p + [VARIANT] in r && r[p + [VARIANT]] == File(v.variant)
    requires ValidUtf8(v.variant)
    requires k == FindVariant(variants, v.variant) && k < |variants| && variants[k].1.NewtypeV?
    requires Decoder.Decode(r, p + [VALUE], variants[k].1.payload) == Ok(v.payload)
    ensures Decoder.Decode(r, p, EnumS(variants)) == Ok(v)
  {
    assert Decoder.DecodePayload(r, p, v.variant, variants[k].1) == Ok(v);
    VariantDirRead(r, p, variants, v.variant, k);
  }

  lemma RoundTripTupleVariant(fs: FS, p: Path, v: Value, variants: seq<(Name, VariantShape)>)
    requires Valid(fs) && |p| > 0 && !Blocked(fs, p) && v.TupleVariant?
    requires HasShape(v, EnumS(variants)) && Representable(v)
    ensures Encoder.Encode(fs, p, v).Ok?
    ensures Decoder.Decode(Encoder.Encode(fs, p, v).value, p, EnumS(variants)) == Ok(v)
    decreases v, 1
  {
    VariantDeclared(v, variants);
    var k := FindVariant(variants, v.variant);
    var r := TupleVariantWritten(fs, p, v, variants[k].1.elems);
    TupleVariantRead(r, p, variants, v, k);
  }

  /** The tree a tuple variant is written to: its name in `p/variant` and its elements
      read back from `p/0`, `p/1`, ... */
  lemma TupleVariantWritten(fs: FS, p: Path, v: Value, ts: seq<Shape>) returns (r: FS)
    requires Valid(fs) && |p| > 0 && !Blocked(fs, p) && v.TupleVariant?
    requires ElemsShaped(v.elems, ts, 0) && Representable(v)
    ensures Encoder.Encode(fs, p, v) == Ok(r)
    ensures IsDir(r, p) && p + [VARIANT] in r && r[p + [VARIANT]] == File(v.variant)
    ensures Decoder.DecodeTupleFrom(r, p, ts, 0) == Ok(v.elems)
    decreases v, 0
  {
    var fs1, fs2 := TupleVariantMarked(fs, p, v);
    r := MarkedElemsWritten(fs2, p, v, ts);
    EncodeTupleVariantIs(fs, p, v, fs1, fs2, r);
  }

  /** Preparing `p` for a tuple variant and writing its name leaves no index entry. */
  lemma TupleVariantMarked(fs: FS, p: Path, v: Value) returns (fs1: FS, fs2: FS)
    requires Valid(fs) && |p| > 0 && !Blocked(fs, p) && v.TupleVariant? && Representable(v)
    ensures Encoder.SeqSetup(fs, p) == Ok(fs1)
    ensures Encoder.Write(fs1, p + [VARIANT], v.variant) == Ok(fs2)
    ensures Valid(fs2) && IsDir(fs2, p) && p + [VARIANT] in fs2 && fs2[p + [VARIANT]] == File(v.variant)
    ensures forall j | 0 <= j <= |v.elems| :: p + [Decimal(j)] !in fs2
  {
    fs1 := Encoder.SeqSetup(fs, p).value;
    NoIndexEntries(fs, p, |v.elems|);
    ChildNotBlocked(fs1, p, VARIANT);
    fs2 := Encoder.Write(fs1, p + [VARIANT], v.variant).value;
    Encoder.ChildFrame(fs1, fs2, p, VARIANT);
    IndicesStayAbsent(fs1, fs2, p, |v.elems|);
  }

  /** The elements of a tuple variant written after its name are read back, and the name
      stays. */
  lemma MarkedElemsWritten(fs2: FS, p: Path, v: Value, ts: seq<Shape>) returns (r: FS)
    requires v.TupleVariant? && ElemsShaped(v.elems, ts, 0) && Representable(v)
    requires Valid(fs2) && |p| > 0 && IsDir(fs2, p) && p + [VARIANT] in fs2 && fs2[p + [VARIANT]] == File(v.variant)
    requires forall j | 0 <= j <= |v.elems| :: p + [Decimal(j)] !in fs2
    ensures Encoder.EncodeElems(fs2, p, v.elems, 0) == Ok(r)
    ensures IsDir(r, p) && p + [VARIANT] in r && r[p + [VARIANT]] == File(v.variant)
    ensures Decoder.DecodeTupleFrom(r, p, ts, 0) == Ok(v.elems)
    decreases v.elems, |v.elems| + 1
  {
    var es := v.elems;
    assert es[0..] == es;
    RoundTripTupleElems(fs2, p, es, ts, 0);
    r := Encoder.EncodeElems(fs2, p, es, 0).value;
    Encoder.ElemsConfined(fs2, p, es, 0);
    VariantNotIndex(0, |es|);
    ConfinedSame(fs2, r, p, Encoder.IndexNames(0, |es|), VARIANT);
  }

  /** A tuple variant is written by preparing `p`, writing the name to `p/variant` and the
      elements to `p/0`, `p/1`, ... */
  lemma EncodeTupleVariantIs(fs: FS, p: Path, v: Value, fs1: FS, fs2: FS, r: FS)
    requires Valid(fs) && |p| > 0 && v.TupleVariant?
    requires Encoder.SeqSetup(fs, p) == Ok(fs1)
    requires Encoder.Write(fs1, p + [VARIANT], v.variant) == Ok(fs2) && IsDir(fs2, p)
    requires Encoder.EncodeElems(fs2, p, v.elems, 0) == Ok(r)
    ensures Encoder.Encode(fs, p, v) == Ok(r)
  {
    assert Encoder.FillTupleVariant(fs1, p, v) == Ok(r);
    assert Encoder.EncodeTupleVariant(fs, p, v) == Ok(r);
  }

  /** Writing the `variant` marker adds no index entry. */
  lemma IndicesStayAbsent(fs1: FS, fs2: FS, p: Path, n: nat)
    requires Frame(fs1, fs2, p + [VARIANT])
    requires forall j | 0 <= j <= n :: p + [Decimal(j)] !in fs1
    ensures forall j | 0 <= j <= n :: p + [Decimal(j)] !in fs2
  {
    forall j | 0 <= j <= n
      ensures p + [Decimal(j)] !in fs2
    {
      DecimalNotVariant(j);
      SiblingStaysAbsent(fs1, fs2, p, VARIANT, Decimal(j));
    }
  }

  /** The `variant` marker is not the entry name of any index. */
  lemma {:induction false} VariantNotIndex(i: nat, n: nat)
    ensures VARIANT !in Encoder.IndexNames(i, n)
    decreases n - i
  {
    if i < n {
      VariantNotIndex(i + 1, n);
      DecimalNotVariant(i);
    }
  }

  /** A directory holding the name of a tuple variant in `p/variant` and its elements at
      `p/0`, `p/1`, ... is read as that variant. */
  lemma TupleVariantRead(r: FS, p: Path, variants: seq<(Name, VariantShape)>, v: Value, k: nat)
    requires v.TupleVariant? && IsDir(r, p) && p + [VARIANT] in r && r[p + [VARIANT]] == File(v.variant)
    requires ValidUtf8(v.variant)
    requires k == FindVariant(variants, v.variant) && k < |variants| && variants[k].1.TupleV?
    requires Decoder.DecodeTupleFrom(r, p, variants[k].1.elems, 0) == Ok(v.elems)
    ensures Decoder.Decode(r, p, EnumS(variants)) == Ok(v)
  {
    assert Decoder.DecodePayload(r, p, v.variant, variants[k].1) == Ok(v);
    VariantDirRead(r, p, variants, v.variant, k);
  }

  lemma RoundTripStructVariant(fs: FS, p: Path, v: Value, variants: seq<(Name, VariantShape)>)
    requires Valid(fs) && |p| > 0 && !Blocked(fs, p) && v.StructVariant?
    requires HasShape(v, EnumS(variants)) && Representable(v) && Clean(fs, p, v)
    ensures Encoder.Encode(fs, p, v).Ok?
    ensures Decoder.Decode(Encoder.Encode(fs, p, v).value, p, EnumS(variants)) == Ok(v)
    decreases v, 1
  {
    VariantDeclared(v, variants);
    var k := FindVariant(variants, v.variant);
    var r := StructVariantWritten(fs, p, v, variants[k].1.fields);
    StructVariantRead(r, p, variants, v, k);
  }

  /** The tree a struct variant is written to: its name in `p/variant` and its fields
      read back from their names. */
  lemma StructVariantWritten(fs: FS, p: Path, v: Value, fields: seq<(Name, Shape)>) returns (r: FS)
    requires Valid(fs) && |p| > 0 && !Blocked(fs, p) && v.StructVariant?
    requires FieldsShaped(v.fields, fields, 0) && Representable(v) && Clean(fs, p, v)
    ensures Encoder.Encode(fs, p, v) == Ok(r)
    ensures IsDir(r, p) && p + [VARIANT] in r && r[p + [VARIANT]] == File(v.variant)
    ensures Decoder.DecodeFields(r, p, fields, 0) == Ok(v.fields)
    decreases v, 0
  {
    var fs1, fs2 := StructVariantMarked(fs, p, v);
    r := MarkedFieldsWritten(fs2, p, v, fields);
    EncodeStructVariantIs(fs, p, v, fs1, fs2, r);
  }

  /** Preparing `p` for a struct variant and writing its name keeps every field entry
      clean. */
  lemma StructVariantMarked(fs: FS, p: Path, v: Value) returns (fs1: FS, fs2: FS)
    requires Valid(fs) && |p| > 0 && !Blocked(fs, p) && v.StructVariant?
    requires Representable(v) && Clean(fs, p, v)
    ensures Encoder.MapSetup(fs, p) == Ok(fs1)
    ensures Encoder.Write(fs1, p + [VARIANT], v.variant) == Ok(fs2)
    ensures Valid(fs2) && IsDir(fs2, p) && p + [VARIANT] in fs2 && fs2[p + [VARIANT]] == File(v.variant)
    ensures forall j | 0 <= j < |v.fields| :: Clean(fs2, p + [v.fields[j].0], v.fields[j].1)
  {
    var fv := v.fields;
    fs1 := Encoder.MapSetup(fs, p).value;
    FieldsStartClean(fs, fs1, p, fv);
    ChildNotBlocked(fs1, p, VARIANT);
    fs2 := Encoder.Write(fs1, p + [VARIANT], v.variant).value;
    Encoder.ChildFrame(fs1, fs2, p, VARIANT);
    FieldsStayClean(fs1, fs2, p, fv);
  }

  /** The fields of a struct variant written after its name are read back, and the name
      stays. */
  lemma MarkedFieldsWritten(fs2: FS, p: Path, v: Value, fields: seq<(Name, Shape)>) returns (r: FS)
    requires v.StructVariant? && FieldsShaped(v.fields, fields, 0) && Representable(v)
    requires Valid(fs2) && |p| > 0 && IsDir(fs2, p) && p + [VARIANT] in fs2 && fs2[p + [VARIANT]] == File(v.variant)
    requires forall j | 0 <= j < |v.fields| :: Clean(fs2, p + [v.fields[j].0], v.fields[j].1)
    ensures Encoder.EncodeFields(fs2, p, v.fields, 0) == Ok(r)
    ensures IsDir(r, p) && p + [VARIANT] in r && r[p + [VARIANT]] == File(v.variant)
    ensures Decoder.DecodeFields(r, p, fields, 0) == Ok(v.fields)
    decreases v.fields, |v.fields| + 1
  {
    var fv := v.fields;
    FieldsShapedAt(fv, fields, 0);
    r := RoundTripFields(fs2, p, fv, fields, 0);
    assert fv[0..] == fv;
    Encoder.FieldsConfined(fs2, p, fv, 0);
    Encoder.FieldNamesSpec(fv, 0, VARIANT);
    ConfinedSame(fs2, r, p, Encoder.FieldNames(fv, 0), VARIANT);
  }

  /** A struct variant is written by preparing `p`, writing the name to `p/variant` and
      each field to `p/name`. */
  lemma EncodeStructVariantIs(fs: FS, p: Path, v: Value, fs1: FS, fs2: FS, r: FS)
    requires Valid(fs) && |p| > 0 && v.StructVariant?
    requires Encoder.MapSetup(fs, p) == Ok(fs1)
    requires Encoder.Write(fs1, p + [VARIANT], v.variant) == Ok(fs2) && IsDir(fs2, p)
    requires Encoder.EncodeFields(fs2, p, v.fields, 0) == Ok(r)
    ensures Encoder.Encode(fs, p, v) == Ok(r)
  {
    assert Encoder.FillStructVariant(fs1, p, v) == Ok(r);
    assert Encoder.EncodeStructVariant(fs, p, v) == Ok(r);
  }

  /** Writing the `variant` marker keeps every field entry as it was. */
  lemma FieldsStayClean(fs1: FS, fs2: FS, p: Path, fv: seq<(Name, Value)>)
    requires Frame(fs1, fs2, p + [VARIANT]) && forall j | 0 <= j < |fv| :: fv[j].0 != VARIANT
    requires forall j | 0 <= j < |fv| :: Clean(fs1, p + [fv[j].0], fv[j].1)
    ensures forall j | 0 <= j < |fv| :: Clean(fs2, p + [fv[j].0], fv[j].1)
  {
    forall j | 0 <= j < |fv|
      ensures Clean(fs2, p + [fv[j].0], fv[j].1)
    {
      CleanSibling(fs1, fs2, p, VARIANT, fv[j].0, fv[j].1);
    }
  }

  /** A directory holding the name of a struct variant in `p/variant` and its fields at
      their names is read as that variant. */
  lemma StructVariantRead(r: FS, p: Path, variants: seq<(Name, VariantShape)>, v: Value, k: nat)
    requires v.StructVariant? && IsDir(r, p) && p + [VARIANT] in r && r[p + [VARIANT]] == File(v.variant)
    requires ValidUtf8(v.variant)
    requires k == FindVariant(variants, v.variant) && k < |variants| && variants[k].1.StructV?
    requires Decoder.DecodeFields(r, p, variants[k].1.fields, 0) == Ok(v.fields)
    ensures Decoder.Decode(r, p, EnumS(variants)) == Ok(v)
  {
    assert Decoder.DecodePayload(r, p, v.variant, variants[k].1) == Ok(v);
    VariantDirRead(r, p, variants, v.variant, k);
  }

  /** A directory naming a declared variant in `p/variant` is read as that variant's
      payload. */
  lemma VariantDirRead(r: FS, p: Path, variants: seq<(Name, VariantShape)>, name: Name, k: nat)
    requires IsDir(r, p) && p + [VARIANT] in r && r[p + [VARIANT]] == File(name) && ValidUtf8(name)
    requires k == FindVariant(variants, name) && k < |variants|
    ensures Decoder.Decode(r, p, EnumS(variants)) == Decoder.DecodePayload(r, p, name, variants[k].1)
  {
    assert Decoder.ReadString(r, p + [VARIANT]) == Ok(name);
  }
}
