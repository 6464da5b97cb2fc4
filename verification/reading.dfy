/** What the decoder reports for each kind of input, the error paths included: a scalar
    needs a file, text must be UTF-8 and must parse after trimming, a unit only looks at
    whether `p` is a file, an option at whether `p` exists, a sequence stops at its first
    missing index, a tuple insists on all of them, a struct reads only its declared fields
    and an enum only its declared variant names. */
module Reading {

  import opened Wrappers
  import opened Text
  import opened FileSystem
  import opened Values
  import opened Decoder

  // ---------------------------------------------------------------------------------------
  // Scalars
  // ---------------------------------------------------------------------------------------

  /** A shape read from the content of a file: everything scalar but the unit. */
  predicate ReadsContent(s: Shape) {
    s.BoolS? || s.IntS? || s.CharS? || s.StrS? || s.BytesS?
  }

  /** A scalar is read from a file only: a missing path is `NotFound` (or `NotADirectory`
      when a file stands above it) and a directory is `IsADirectory`. */
  lemma ScalarNeedsFile(fs: FS, p: Path, s: Shape)
    requires ReadsContent(s)
    ensures !Exists(fs, p) && !Blocked(fs, p) ==> Decode(fs, p, s) == Err(Io(NotFound))
    ensures !Exists(fs, p) && Blocked(fs, p) ==> Decode(fs, p, s) == Err(Io(NotADirectory))
    ensures IsDir(fs, p) ==> Decode(fs, p, s) == Err(Io(IsADirectory))
  {
    assert Decode(fs, p, s) == DecodeScalar(fs, p, s);
  }

  /** An integer of type `k` is read exactly when the file holds UTF-8 text that parses,
      once trimmed, as a `k`; text that does not parse is `ParseIntError`, bytes that are
      not UTF-8 are an I/O error. */
  lemma IntReadRule(fs: FS, p: Path, k: IntKind)
    requires IsFile(fs, p)
    ensures var t := fs[p].content;
            && (Decode(fs, p, IntS(k)) == Err(ParseIntError) <==> ValidUtf8(t) && ParseInt(Trim(t), k).None?)
            && (Decode(fs, p, IntS(k)) == Err(Io(InvalidData)) <==> !ValidUtf8(t))
            && (forall n :: Decode(fs, p, IntS(k)) == Ok(Int(n)) <==> ValidUtf8(t) && ParseInt(Trim(t), k) == Some(n))
  {
    assert Decode(fs, p, IntS(k)) == DecodeScalar(fs, p, IntS(k));
  }

  /** A word is not a number: a file holding `hello` read as a `u8` is `ParseIntError`. */
  lemma WordIsNotInt(fs: FS, p: Path)
    requires IsFile(fs, p) && fs[p].content == [104, 101, 108, 108, 111]
    ensures Decode(fs, p, IntS(U8)) == Err(ParseIntError)
  {
    var t := fs[p].content;
    AsciiIsUtf8(t);
    TrimKeeps(t);
    assert !IsDigit(t[0]);
    IntReadRule(fs, p, U8);
  }

  /** Trimming is Unicode-aware: a no-break space (U+00A0, bytes C2 A0) before `1` is
      dropped, and the file reads as the `u8` 1. */
  lemma NoBreakSpaceIsTrimmed(fs: FS, p: Path)
    requires IsFile(fs, p) && fs[p].content == [0xC2, 0xA0, 0x31]
    ensures Decode(fs, p, IntS(U8)) == Ok(Int(1))
  {
    var t := fs[p].content;
    assert SpaceAt(t, 0) == 2 && SpaceAt(t, 2) == 0;
    assert TrimStartAt(t, 0) == 2;
    assert SpaceBefore(t, 3) == 0;
    assert Trim(t) == [0x31];
    assert DigitsValue([0x31]) == 1;
    assert ValidUtf8(t);
    IntReadRule(fs, p, U8);
  }

  /** A boolean is read exactly when the file holds UTF-8 text that is, once trimmed,
      `true` or `false`; anything else is `ParseBoolError`. */
  lemma BoolReadRule(fs: FS, p: Path)
    requires IsFile(fs, p)
    ensures var t := fs[p].content;
            && (Decode(fs, p, BoolS) == Err(ParseBoolError) <==> ValidUtf8(t) && Trim(t) != TRUE_TEXT && Trim(t) != FALSE_TEXT)
            && (Decode(fs, p, BoolS) == Ok(Bool(true)) <==> ValidUtf8(t) && Trim(t) == TRUE_TEXT)
            && (Decode(fs, p, BoolS) == Ok(Bool(false)) <==> ValidUtf8(t) && Trim(t) == FALSE_TEXT)
  {
    assert Decode(fs, p, BoolS) == DecodeScalar(fs, p, BoolS);
  }

  /** A unit only asks whether `p` is a file, whatever the file holds. */
  lemma UnitReadRule(fs: FS, p: Path)
    ensures Decode(fs, p, UnitS) == (if IsFile(fs, p) then Ok(Unit) else Err(FileNotFound))
  {
    assert Decode(fs, p, UnitS) == DecodeScalar(fs, p, UnitS);
  }

  /** A character is the first byte of the file, taken as a code point; an empty file is
      `Empty`. */
  lemma CharReadRule(fs: FS, p: Path)
    requires IsFile(fs, p)
    ensures var b := fs[p].content;
            && (|b| == 0 <==> Decode(fs, p, CharS) == Err(Empty))
            && (|b| > 0 ==> Decode(fs, p, CharS) == Ok(Char(b[0] as char)))
  {
    assert Decode(fs, p, CharS) == DecodeScalar(fs, p, CharS);
  }

  /** The first byte of the UTF-8 form of a character is the character itself exactly for
      ASCII and for U+00C3, whose form starts with the byte 0xC3. */
  lemma Utf8LeadIsChar(c: char)
    ensures Utf8(c)[0] == c as int <==> c as int < 0x80 || c as int == 0xC3
  {
    var cp := c as int;
    if 0x80 <= cp < 0x800 {
      var q := cp / 0x40;
      assert Utf8(c)[0] == 0xC0 + q && 2 <= q < 32;
      if cp < 0xC0 {
        assert 0xC0 + q > cp;
      } else if cp < 0x100 {
        assert q == 3;
      } else {
        assert 0xC0 + q < cp;
      }
    } else if cp >= 0x800 {
      assert Utf8(c)[0] < 0x100;
    }
  }

  /** A character read back from a file holding its UTF-8 form is the same character
      exactly for ASCII and for U+00C3: the decoder reads one byte. */
  lemma CharRoundTripRule(fs: FS, p: Path, c: char)
    requires IsFile(fs, p) && fs[p].content == Utf8(c)
    ensures Decode(fs, p, CharS) == Ok(Char(c)) <==> c as int < 0x80 || c as int == 0xC3
  {
    CharReadRule(fs, p);
    Utf8LeadIsChar(c);
    var b := Utf8(c)[0];
    assert Decode(fs, p, CharS) == Ok(Char(b as char));
    assert (b as char == c) <==> (b == c as int);
  }

  /** A string is the file's bytes when they are UTF-8, untrimmed; a byte buffer is the
      file's bytes, whatever they are. */
  lemma TextReadRule(fs: FS, p: Path)
    requires IsFile(fs, p)
    ensures var t := fs[p].content;
            && (Decode(fs, p, StrS) == Ok(Str(t)) <==> ValidUtf8(t))
            && (!ValidUtf8(t) ==> Decode(fs, p, StrS) == Err(Io(InvalidData)))
            && Decode(fs, p, BytesS) == Ok(ByteBuf(t))
  {
    assert Decode(fs, p, StrS) == DecodeScalar(fs, p, StrS);
    assert Decode(fs, p, BytesS) == DecodeScalar(fs, p, BytesS);
  }

  // ---------------------------------------------------------------------------------------
  // Options
  // ---------------------------------------------------------------------------------------

  /** An option is `None` exactly when nothing is at `p`; otherwise it is `Some` of what
      is read there, and fails when that fails. */
  lemma OptionReadRule(fs: FS, p: Path, t: Shape)
    ensures Decode(fs, p, OptionS(t)) == Ok(Absent) <==> !Exists(fs, p)
    ensures Exists(fs, p) ==>
              && (Decode(fs, p, OptionS(t)).Ok? <==> Decode(fs, p, t).Ok?)
              && (Decode(fs, p, t).Ok? ==> Decode(fs, p, OptionS(t)).value == Present(Decode(fs, p, t).value))
              && (Decode(fs, p, t).Err? ==> Decode(fs, p, OptionS(t)).error == Decode(fs, p, t).error)
  {
  }

  // ---------------------------------------------------------------------------------------
  // Sequences and tuples
  // ---------------------------------------------------------------------------------------

  /** The index entry `p/n` exists and reads as `v`. */
  predicate ReadsAs(fs: FS, p: Path, t: Shape, n: nat, v: Value) {
    Exists(fs, p + [Decimal(n)]) && Decode(fs, p + [Decimal(n)], t) == Ok(v)
  }

  /** Whether the index entry `n` exists and reads as a given value, as one term. */
  function ReadAt(fs: FS, p: Path, t: Shape): (r: (nat, Value) -> bool)
    ensures forall n: nat, v :: r(n, v) == ReadsAs(fs, p, t, n, v)
  {
    (n: nat, v: Value) => ReadsAs(fs, p, t, n, v)
  }

  /** Whether the index entry `n` is missing, as one term. */
  function GapAt(fs: FS, p: Path): (r: nat -> bool)
    ensures forall n: nat :: r(n) == !Exists(fs, p + [Decimal(n)])
  {
    (n: nat) => !Exists(fs, p + [Decimal(n)])
  }

  /** `es` satisfies `read` at the indices `i`, `i+1`, ..., and `gap` holds right after. */
  predicate RunOf(read: (nat, Value) -> bool, gap: nat -> bool, i: nat, es: seq<Value>)
    decreases |es|
  {
    if |es| == 0 then gap(i) else read(i, es[0]) && RunOf(read, gap, i + 1, es[1..])
  }

  /** Element `j` of a run from `i` on satisfies `read` at `i+j`. */
  lemma {:induction false} RunElement(read: (nat, Value) -> bool, gap: nat -> bool, i: nat, es: seq<Value>, j: nat)
    requires RunOf(read, gap, i, es) && j < |es|
    ensures read(i + j, es[j])
    decreases j
  {
    if j > 0 {
      RunElement(read, gap, i + 1, es[1..], j - 1);
      assert es[1..][j - 1] == es[j] && (i + 1) + (j - 1) == i + j;
    }
  }

  /** `gap` holds at the index right after a run from `i` on. */
  lemma {:induction false} RunEnd(read: (nat, Value) -> bool, gap: nat -> bool, i: nat, es: seq<Value>)
    requires RunOf(read, gap, i, es)
    ensures gap(i + |es|)
    decreases |es|
  {
    if |es| > 0 {
      RunEnd(read, gap, i + 1, es[1..]);
      assert (i + 1) + |es[1..]| == i + |es|;
    }
  }

  /** A sequence read from `p/i` on has one element per index up to the first missing
      one, each read from its own index entry. */
  lemma {:induction false} SeqStopsAtGap(fs: FS, p: Path, t: Shape, i: nat)
    requires DecodeSeqFrom(fs, p, t, i).Ok?
    ensures RunOf(ReadAt(fs, p, t), GapAt(fs, p), i, DecodeSeqFrom(fs, p, t, i).value)
    decreases fs.Keys - IndexPaths(p, i)
  {
    var c := p + [Decimal(i)];
    if Exists(fs, c) {
      var first := Decode(fs, c, t);
      var rest := DecodeSeqFrom(fs, p, t, i + 1);
      assert DecodeSeqFrom(fs, p, t, i) == Cons(first, rest);
      SeqProgress(fs, p, i);
      SeqStopsAtGap(fs, p, t, i + 1);
      assert ReadAt(fs, p, t)(i, first.value);
      var es := [first.value] + rest.value;
      assert es[1..] == rest.value;
    } else {
      assert DecodeSeqFrom(fs, p, t, i) == Ok([]);
      assert GapAt(fs, p)(i);
    }
  }

  /** A sequence is as long as the run of index entries `0`, `1`, ... at `p`, each
      element is what its entry reads as, and the entry after the last is missing. */
  lemma SeqReadRule(fs: FS, p: Path, t: Shape)
    requires Decode(fs, p, SeqS(t)).Ok?
    ensures Decode(fs, p, SeqS(t)).value.Seq?
    ensures var es := Decode(fs, p, SeqS(t)).value.elems;
            && !Exists(fs, p + [Decimal(|es|)])
            && forall j | 0 <= j < |es| :: ReadsAs(fs, p, t, j, es[j])
  {
    var r := DecodeSeqFrom(fs, p, t, 0);
    assert Decode(fs, p, SeqS(t)) == WrapElems(r, InSeq);
    SeqStopsAtGap(fs, p, t, 0);
    RunEnd(ReadAt(fs, p, t), GapAt(fs, p), 0, r.value);
    forall j | 0 <= j < |r.value|
      ensures ReadsAs(fs, p, t, j, r.value[j])
    {
      RunElement(ReadAt(fs, p, t), GapAt(fs, p), 0, r.value, j);
    }
  }

  /** A tuple of `|ts|` elements whose index entry `j` is the first one missing, with the
      ones before it read, fails with `InvalidLen(|ts|, j)`. */
  lemma TupleArityRule(fs: FS, p: Path, ts: seq<Shape>, j: nat)
    requires j < |ts| && !Exists(fs, p + [Decimal(j)])
    requires forall k | 0 <= k < j :: Exists(fs, p + [Decimal(k)]) && Decode(fs, p + [Decimal(k)], ts[k]).Ok?
    ensures Decode(fs, p, TupleS(ts)) == Err(InvalidLen(|ts|, j))
  {
    TupleNeedsAll(fs, p, ts, 0, j);
    assert Decode(fs, p, TupleS(ts)) == WrapElems(DecodeTupleFrom(fs, p, ts, 0), InTuple);
  }

  // ---------------------------------------------------------------------------------------
  // Maps and structs
  // ---------------------------------------------------------------------------------------

  /** A map needs a directory at `p`; its keys are the names of the directory's entries,
      in the order the directory is listed. */
  lemma MapReadRule(fs: FS, p: Path, t: Shape)
    ensures !IsDir(fs, p) ==> Decode(fs, p, MapS(t)).Err? && Decode(fs, p, MapS(t)).error.Io?
    ensures Decode(fs, p, MapS(t)).Ok? ==>
              var names := SortedNames(Children(fs, p));
              var en := Decode(fs, p, MapS(t)).value.entries;
              |en| == |names| && forall j | 0 <= j < |en| :: en[j].0 == Str(names[j])
  {
    assert Decode(fs, p, MapS(t)) == DecodeMap(fs, p, MapS(t));
    if Decode(fs, p, MapS(t)).Ok? {
      EntriesNamed(fs, p, t, SortedNames(Children(fs, p)), 0);
    }
  }

  /** Two trees that agree below each declared field of a struct read the struct alike:
      entries that are not declared fields are never looked at. */
  lemma StructIgnoresOthers(a: FS, b: FS, p: Path, fields: seq<(Name, Shape)>)
    requires forall j | 0 <= j < |fields| ::
               SameUnder(a, b, p + [fields[j].0]) && (Blocked(a, p + [fields[j].0]) <==> Blocked(b, p + [fields[j].0]))
    ensures Decode(a, p, StructS(fields)) == Decode(b, p, StructS(fields))
  {
    FieldsAlike(a, b, p, fields, 0);
    assert Decode(a, p, StructS(fields)) == WrapFields(DecodeFields(a, p, fields, 0), None);
    assert Decode(b, p, StructS(fields)) == WrapFields(DecodeFields(b, p, fields, 0), None);
  }

  lemma {:induction false} FieldsAlike(a: FS, b: FS, p: Path, fields: seq<(Name, Shape)>, i: nat)
    requires i <= |fields|
    requires forall j | i <= j < |fields| ::
               SameUnder(a, b, p + [fields[j].0]) && (Blocked(a, p + [fields[j].0]) <==> Blocked(b, p + [fields[j].0]))
    ensures DecodeFields(a, p, fields, i) == DecodeFields(b, p, fields, i)
    decreases |fields| - i
  {
    if i < |fields| {
      var f := fields[i];
      DecodeLocal(a, b, p + [f.0], f.1);
      FieldsAlike(a, b, p, fields, i + 1);
    }
  }

  // ---------------------------------------------------------------------------------------
  // Enums
  // ---------------------------------------------------------------------------------------

  /** Where an enum's variant name is read from: `p/variant` in a directory, `p` itself
      otherwise. */
  function NamePath(fs: FS, p: Path): Path {
    if IsDir(fs, p) then p + [VARIANT] else p
  }

  /** The variant name is compared as read, untrimmed: a name no variant is declared with
      is `InvalidEnum` carrying that name. A unit variant is a file, so a file naming a
      variant of any other kind is an error. */
  lemma EnumReadRule(fs: FS, p: Path, vs: seq<(Name, VariantShape)>, name: Name)
    requires ReadString(fs, NamePath(fs, p)) == Ok(name)
    ensures FindVariant(vs, name) == |vs| ==> Decode(fs, p, EnumS(vs)) == Err(InvalidEnum(name))
    ensures !IsDir(fs, p) ==>
              && (Decode(fs, p, EnumS(vs)) == Err(InvalidEnum(name)) <==> FindVariant(vs, name) == |vs|)
              && (Decode(fs, p, EnumS(vs)) == Ok(UnitVariant(name)) <==>
                    FindVariant(vs, name) < |vs| && vs[FindVariant(vs, name)].1.UnitV?)
    ensures Decode(fs, p, EnumS(vs)).Ok? ==>
              FindVariant(vs, name) < |vs| && Decode(fs, p, EnumS(vs)).value.variant == name
  {
    assert Decode(fs, p, EnumS(vs)) == DecodeEnum(fs, p, EnumS(vs));
  }
}
