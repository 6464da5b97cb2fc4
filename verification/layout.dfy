/** What the encoder leaves in the tree, kind by kind: scalars replace whatever was at
    their path, `None` removes it, sequences reconcile their index entries, maps and structs
    only add or overwrite their own entries. */
module Layout {

  import opened Wrappers
  import opened Text
  import opened FileSystem
  import opened Values
  import opened Encoder

  // ---------------------------------------------------------------------------------------
  // Scalars, `None` and the transparent wrappers
  // ---------------------------------------------------------------------------------------

  /** A scalar replaces whatever was at `p`, a file or a whole subtree, with one file
      holding exactly its text; missing ancestors become directories. */
  lemma ScalarReplaces(fs: FS, p: Path, v: Value)
    requires Valid(fs) && |p| > 0 && !Blocked(fs, p) && IsScalar(v)
    ensures Encode(fs, p, v).Ok?
    ensures var r := Encode(fs, p, v).value;
            && p in r && r[p] == File(ScalarText(v))
            && (forall q | q in r :: !(p < q))
            && Frame(fs, r, p)
  {
    ScalarUnfold(fs, p, v);
  }

  /** Writing `true` and then `false` at the same path leaves the text `false`. */
  lemma OverwriteBool(fs: FS, p: Path)
    requires Valid(fs) && |p| > 0 && !Blocked(fs, p)
    ensures Encode(fs, p, Bool(true)).Ok?
    ensures var r1 := Encode(fs, p, Bool(true)).value;
            Encode(r1, p, Bool(false)).Ok? && Encode(r1, p, Bool(false)).value[p] == File(FALSE_TEXT)
  {
    ScalarReplaces(fs, p, Bool(true));
    var r1 := Encode(fs, p, Bool(true)).value;
    NotBlockedIfPresent(r1, p);
    ScalarReplaces(r1, p, Bool(false));
  }

  /** `None` removes `p` with everything below it, and nothing else. */
  lemma AbsentRemoves(fs: FS, p: Path)
    requires Valid(fs) && |p| > 0
    ensures Encode(fs, p, Absent).Ok?
    ensures var r := Encode(fs, p, Absent).value;
            && (forall q :: q in r <==> q in fs && !(p <= q))
            && (forall q | q in r :: r[q] == fs[q])
  {
    assert Encode(fs, p, Absent) == Ok(Remove(fs, p));
  }

  /** `Some(x)` and a newtype around `x` leave exactly the tree `x` leaves. */
  lemma WrappersTransparent(fs: FS, p: Path, v: Value)
    requires Valid(fs) && |p| > 0 && (v.Present? || v.Newtype?)
    ensures Encode(fs, p, v) == Encode(fs, p, v.inner)
  {
  }

  // ---------------------------------------------------------------------------------------
  // Sequences
  // ---------------------------------------------------------------------------------------

  /** A sequence leaves a directory at `p` whose index-named entries are exactly its own
      elements' entries: every index-named entry is named by an element, and every element
      other than a `None` has its entry. Every entry whose name is not an index is kept as
      it was. */
  lemma SequenceReconciles(fs: FS, p: Path, v: Value)
    requires Valid(fs) && |p| > 0 && (v.Seq? || v.Tuple?) && |v.elems| <= USIZE.Max()
    requires Encode(fs, p, v).Ok?
    ensures var r := Encode(fs, p, v).value;
            && IsDir(r, p)
            && (forall q | q in r && p < q && IsIndexName(q[|p|]) :: q[|p|] in IndexNames(0, |v.elems|))
            && (forall j | 0 <= j < |v.elems| && Materializes(v.elems[j]) :: p + [Decimal(j)] in r)
            && (forall q | q in fs && p < q && !IsIndexName(q[|p|]) :: q in r && r[q] == fs[q])
  {
    var fs1, r := SequenceSteps(fs, p, v);
    ElemsConfined(fs1, p, v.elems, 0);
    IndexNamesOwned(0, |v.elems|);
    forall j | 0 <= j < |v.elems| && Materializes(v.elems[j])
      ensures p + [Decimal(j)] in r
    {
      ElementStays(fs1, p, v.elems, 0, j);
    }
  }

  /** Once the elements from `i` on are written, each one's entry holds what its value
      leaves: the later elements do not disturb it. */
  lemma {:induction false} ElementStays(fs: FS, p: Path, es: seq<Value>, i: nat, j: nat)
    requires Valid(fs) && |p| > 0 && IsDir(fs, p) && i <= j < |es|
    requires EncodeElems(fs, p, es, i).Ok?
    ensures KindAt(EncodeElems(fs, p, es, i).value, p + [Decimal(j)]) == Layout(es[j])
    decreases |es| - i
  {
    ChildNotBlocked(fs, p, Decimal(i));
    var fs1 := Encode(fs, p + [Decimal(i)], es[i]).value;
    ChildFrame(fs, fs1, p, Decimal(i));
    var r := EncodeElems(fs1, p, es, i + 1).value;
    assert EncodeElems(fs, p, es, i) == Ok(r);
    if j == i {
      ElemsConfined(fs1, p, es, i + 1);
      IndexNamesSpec(i + 1, |es|, i);
      ConfinedSame(fs1, r, p, IndexNames(i + 1, |es|), Decimal(i));
      assert KindAt(r, p + [Decimal(i)]) == KindAt(fs1, p + [Decimal(i)]);
    } else {
      ElementStays(fs1, p, es, i + 1, j);
    }
  }

  /** A sequence is written by preparing its directory, then writing its elements. */
  lemma SequenceSteps(fs: FS, p: Path, v: Value) returns (fs1: FS, r: FS)
    requires Valid(fs) && |p| > 0 && (v.Seq? || v.Tuple?) && Encode(fs, p, v).Ok?
    ensures SeqSetup(fs, p) == Ok(fs1) && Valid(fs1) && IsDir(fs1, p)
    ensures EncodeElems(fs1, p, v.elems, 0) == Ok(r) && Encode(fs, p, v) == Ok(r)
  {
    SequenceUnfold(fs, p, v);
    fs1 := SeqSetup(fs, p).value;
    r := EncodeElems(fs1, p, v.elems, 0).value;
  }

  /** The element names of a sequence that fits a `usize` counter are all index names. */
  lemma {:induction false} IndexNamesOwned(i: nat, n: nat)
    requires n <= USIZE.Max() + 1
    ensures forall name | name in IndexNames(i, n) :: IsIndexName(name)
    decreases n - i
  {
    if i < n {
      IndexNamesOwned(i + 1, n);
      DecimalIsIndexName(i);
    }
  }

  /** Writing a sequence over a longer one leaves no entry past its last element. */
  lemma NoStaleIndices(fs: FS, p: Path, v: Value, j: nat)
    requires Valid(fs) && |p| > 0 && (v.Seq? || v.Tuple?) && |v.elems| <= j <= USIZE.Max()
    requires Encode(fs, p, v).Ok?
    ensures p + [Decimal(j)] !in Encode(fs, p, v).value
  {
    SequenceReconciles(fs, p, v);
    DecimalIsIndexName(j);
    IndexNamesSpec(0, |v.elems|, j);
    assert (p + [Decimal(j)])[|p|] == Decimal(j);
  }

  // ---------------------------------------------------------------------------------------
  // Maps and structs: no reconciliation
  // ---------------------------------------------------------------------------------------

  /** A map only writes the entries named by its keys: every other entry below `p`,
      including the keys of an earlier, larger map, stays as it was. */
  lemma MapKeepsOthers(fs: FS, p: Path, v: Value)
    requires Valid(fs) && |p| > 0 && v.Map? && Encode(fs, p, v).Ok?
    ensures var r := Encode(fs, p, v).value;
            && IsDir(r, p)
            && forall q | q in fs && p < q && q[|p|] !in KeyNames(v.entries, 0) :: q in r && r[q] == fs[q]
  {
    MapUnfold(fs, p, v);
    var fs1 := MapSetup(fs, p).value;
    var r := EncodeEntries(fs1, p, v.entries, 0).value;
    assert Encode(fs, p, v) == Ok(r);
    EntriesConfined(fs1, p, v.entries, 0);
  }

  /** A struct only writes its fields: every other entry below `p` stays as it was. */
  lemma StructKeepsOthers(fs: FS, p: Path, v: Value)
    requires Valid(fs) && |p| > 0 && v.Struct? && Encode(fs, p, v).Ok?
    ensures var r := Encode(fs, p, v).value;
            && IsDir(r, p)
            && forall q | q in fs && p < q && q[|p|] !in FieldNames(v.fields, 0) :: q in r && r[q] == fs[q]
  {
    StructUnfold(fs, p, v);
    var fs1 := MapSetup(fs, p).value;
    var r := EncodeFields(fs1, p, v.fields, 0).value;
    assert Encode(fs, p, v) == Ok(r);
    FieldsConfined(fs1, p, v.fields, 0);
  }

  /** A map with a key that is not a string fails with `KeyMustBeAString`, whatever
      the other entries hold. */
  lemma MapKeyRule(fs: FS, p: Path, v: Value, j: nat)
    requires Valid(fs) && |p| > 0 && !Blocked(fs, p) && v.Map? && j < |v.entries| && !v.entries[j].0.Str?
    ensures Encode(fs, p, v) == Err(KeyMustBeAString)
  {
    MapUnfold(fs, p, v);
    var fs1 := MapSetup(fs, p).value;
    EntriesRejectKey(fs1, p, v.entries, 0, j);
  }

  /** Writing the entries from `i` on fails once the entry `j` has a key that is not a
      string: the key is turned into a name before its value is written. */
  lemma {:induction false} EntriesRejectKey(fs: FS, p: Path, en: seq<(Value, Value)>, i: nat, j: nat)
    requires Valid(fs) && |p| > 0 && IsDir(fs, p) && i <= j < |en| && !en[j].0.Str?
    ensures EncodeEntries(fs, p, en, i) == Err(KeyMustBeAString)
    decreases j - i
  {
    if i < j && en[i].0.Str? {
      var key := en[i].0.s;
      ChildNotBlocked(fs, p, key);
      var r1 := Encode(fs, p + [key], en[i].1);
      if r1.Ok? {
        ChildFrame(fs, r1.value, p, key);
        EntriesRejectKey(r1.value, p, en, i + 1, j);
      }
    }
  }

  // ---------------------------------------------------------------------------------------
  // Rewriting a sequence of compound elements
  // ---------------------------------------------------------------------------------------

  /** The first element of a sequence stays at `p/0` while the later ones are written. */
  lemma FirstElementStays(fs: FS, p: Path, es: seq<Value>)
    requires Valid(fs) && |p| > 0 && IsDir(fs, p) && |es| > 0
    requires EncodeElems(fs, p, es, 0).Ok?
    ensures KindAt(EncodeElems(fs, p, es, 0).value, p + [Decimal(0)]) == Layout(es[0])
  {
    ChildNotBlocked(fs, p, Decimal(0));
    var fs1 := Encode(fs, p + [Decimal(0)], es[0]).value;
    ChildFrame(fs, fs1, p, Decimal(0));
    var r := EncodeElems(fs1, p, es, 1).value;
    assert EncodeElems(fs, p, es, 0) == Ok(r);
    ElemsConfined(fs1, p, es, 1);
    IndexNamesSpec(1, |es|, 0);
    ConfinedSame(fs1, r, p, IndexNames(1, |es|), Decimal(0));
    assert KindAt(r, p + [Decimal(0)]) == KindAt(fs1, p + [Decimal(0)]);
  }

  /** Once a sequence whose first element is itself a directory (a nested sequence, a
      struct, a map) has been written, the sequence preparation as written refuses to
      write any sequence there again, since it removes `p/0` as a file; the corrected
      preparation succeeds. */
  lemma NestedSequenceRewrite(fs: FS, p: Path, v: Value)
    requires Valid(fs) && |p| > 0 && v.Seq? && |v.elems| > 0 && Layout(v.elems[0]) == DirKind
    requires Encode(fs, p, v).Ok?
    ensures var r := Encode(fs, p, v).value;
            && SeqSetupAsWritten(r, p) == Err(IsADirectory) && SeqSetup(r, p).Ok?
            && EncodeSequenceAsWritten(r, p, v) == Err(Io(IsADirectory))
  {
    var fs1, r := SequenceSteps(fs, p, v);
    ElementsRewrite(fs1, p, v.elems);
  }

  /** The same, once the sequence's directory has been prepared. */
  lemma ElementsRewrite(fs: FS, p: Path, es: seq<Value>)
    requires Valid(fs) && |p| > 0 && IsDir(fs, p) && |es| > 0 && Layout(es[0]) == DirKind
    requires EncodeElems(fs, p, es, 0).Ok?
    ensures var r := EncodeElems(fs, p, es, 0).value;
            SeqSetupAsWritten(r, p) == Err(IsADirectory) && SeqSetup(r, p).Ok?
  {
    var r := FirstElementDir(fs, p, es);
    RewriteRefused(r, p);
  }

  /** After the elements are written, `p/0` is a directory inside the directory `p`. */
  lemma FirstElementDir(fs: FS, p: Path, es: seq<Value>) returns (r: FS)
    requires Valid(fs) && |p| > 0 && IsDir(fs, p) && |es| > 0 && Layout(es[0]) == DirKind
    requires EncodeElems(fs, p, es, 0).Ok?
    ensures EncodeElems(fs, p, es, 0) == Ok(r)
    ensures Valid(r) && IsDir(r, p) && IsDir(r, p + [Decimal(0)])
  {
    r := EncodeElems(fs, p, es, 0).value;
    FirstElementStays(fs, p, es);
  }

  /** A directory whose entry `0` is a directory: the preparation as written fails there,
      the corrected one does not. */
  lemma RewriteRefused(r: FS, p: Path)
    requires Valid(r) && |p| > 0 && IsDir(r, p) && IsDir(r, p + [Decimal(0)])
    ensures SeqSetupAsWritten(r, p) == Err(IsADirectory) && SeqSetup(r, p).Ok?
  {
    ZeroIsIndexName();
    IndexDirRefused(r, p, Decimal(0));
    NotBlockedIfPresent(r, p);
  }

  /** The sequence preparation as written refuses a directory holding a directory named
      by an index. */
  lemma IndexDirRefused(r: FS, p: Path, n: Name)
    requires Valid(r) && |p| > 0 && IsDir(r, p) && IsIndexName(n) && IsDir(r, p + [n])
    ensures HoldsIndexDir(r, p) && SeqSetupAsWritten(r, p) == Err(IsADirectory)
  {
    ChildrenSpec(r, p, n);
    assert n in Children(r, p);
  }

  /** A tuple variant is written by preparing `p`, writing its name to `p/variant`, then
      writing its elements into the directory. */
  lemma TupleVariantSteps(fs: FS, p: Path, v: Value) returns (fs2: FS, r: FS)
    requires Valid(fs) && |p| > 0 && v.TupleVariant? && Encode(fs, p, v).Ok?
    ensures Valid(fs2) && IsDir(fs2, p)
    ensures EncodeElems(fs2, p, v.elems, 0) == Ok(r) && Encode(fs, p, v) == Ok(r)
  {
    assert Encode(fs, p, v) == EncodeTupleVariant(fs, p, v);
    var fs1 := SeqSetup(fs, p).value;
    ChildNotBlocked(fs1, p, VARIANT);
    fs2 := Write(fs1, p + [VARIANT], v.variant).value;
    ChildFrame(fs1, fs2, p, VARIANT);
    assert FillTupleVariant(fs1, p, v) == EncodeElems(fs2, p, v.elems, 0);
    r := EncodeElems(fs2, p, v.elems, 0).value;
  }

  /** `serialize_tuple_variant` prepares its directory with the same sequence preparation,
      so once a tuple variant whose first element is a directory has been written, the
      encoder as written refuses to write a tuple variant there again; the corrected one
      succeeds. */
  lemma TupleVariantRewrite(fs: FS, p: Path, v: Value)
    requires Valid(fs) && |p| > 0 && v.TupleVariant? && |v.elems| > 0 && Layout(v.elems[0]) == DirKind
    requires StringKeys(v) && Encode(fs, p, v).Ok?
    ensures var r := Encode(fs, p, v).value;
            && EncodeTupleVariantAsWritten(r, p, v) == Err(Io(IsADirectory))
            && Encode(r, p, v).Ok?
  {
    var fs2, r := TupleVariantSteps(fs, p, v);
    var r' := FirstElementDir(fs2, p, v.elems);
    RewriteRefused(r, p);
    NotBlockedIfPresent(r, p);
  }

  /** The smallest such tuple variant: `A([])`, a variant `A` holding one empty sequence,
      written anywhere reachable and then written again. */
  lemma NestedTupleVariant(fs: FS, p: Path)
    requires Valid(fs) && |p| > 0 && !Blocked(fs, p)
    ensures Encode(fs, p, TupleVariant([65], [Seq([])])).Ok?
    ensures var v := TupleVariant([65], [Seq([])]);
            var r := Encode(fs, p, v).value;
            && EncodeTupleVariantAsWritten(r, p, v) == Err(Io(IsADirectory))
            && Encode(r, p, v).Ok?
  {
    var v := TupleVariant([65], [Seq([])]);
    assert StringKeys(v.elems[0]);
    assert StringKeys(v);
    assert Layout(v.elems[0]) == DirKind;
    TupleVariantRewrite(fs, p, v);
  }

  /** The smallest such input: `[[]]` written anywhere reachable. */
  lemma NestedEmptySequence(fs: FS, p: Path)
    requires Valid(fs) && |p| > 0 && !Blocked(fs, p)
    ensures Encode(fs, p, Seq([Seq([])])).Ok?
    ensures var r := Encode(fs, p, Seq([Seq([])])).value;
            && SeqSetupAsWritten(r, p) == Err(IsADirectory)
            && EncodeSequenceAsWritten(r, p, Seq([Seq([])])) == Err(Io(IsADirectory))
            && Encode(r, p, Seq([Seq([])])).Ok?
  {
    var v := Seq([Seq([])]);
    assert StringKeys(v);
    assert Layout(v.elems[0]) == DirKind;
    NestedSequenceRewrite(fs, p, v);
  }
}
