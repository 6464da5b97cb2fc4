/** File contents and names as bytes, and the fixed text forms the codec reads and writes:
    the boolean words, decimal integers (rendering and Rust's `str::parse` for each integer
    width), whitespace trimming and the UTF-8 form of a character. */
module Text {

  import opened Wrappers

  type Byte = b: int | 0 <= b < 256
  type Bytes = seq<Byte>

  /** "true" */
  const TRUE_TEXT: Bytes := [116, 114, 117, 101]
  /** "false" */
  const FALSE_TEXT: Bytes := [102, 97, 108, 115, 101]
  /** "variant": the discriminant marker file of a compound enum variant. */
  const VARIANT: Bytes := [118, 97, 114, 105, 97, 110, 116]
  /** "value": the payload entry of a newtype variant. */
  const VALUE: Bytes := [118, 97, 108, 117, 101]

  const PLUS: Byte := 43
  const MINUS: Byte := 45

  predicate IsDigit(b: Byte) {
    48 <= b <= 57
  }

  /** The single-byte characters with the Unicode White_Space property (tab, line feed,
      vertical tab, form feed, carriage return, space). */
  predicate IsAsciiSpace(b: Byte) {
    (9 <= b <= 13) || b == 32
  }

  /** The two-byte UTF-8 forms of White_Space characters: U+0085 and U+00A0. */
  predicate IsSpacePair(a: Byte, b: Byte) {
    a == 0xC2 && (b == 0x85 || b == 0xA0)
  }

  /** The three-byte UTF-8 forms of White_Space characters: U+1680, U+2000 to U+200A,
      U+2028, U+2029, U+202F, U+205F and U+3000. */
  predicate IsSpaceTriple(a: Byte, b: Byte, c: Byte) {
    || (a == 0xE1 && b == 0x9A && c == 0x80)
    || (a == 0xE2 && b == 0x80 && (0x80 <= c <= 0x8A || c == 0xA8 || c == 0xA9 || c == 0xAF))
    || (a == 0xE2 && b == 0x81 && c == 0x9F)
    || (a == 0xE3 && b == 0x80 && c == 0x80)
  }

  // ---------------------------------------------------------------------------------------
  // Trimming (`str::trim`). The text trimmed is always well-formed UTF-8, where a
  // White_Space character found at either end by its bytes is a whole character.
  // ---------------------------------------------------------------------------------------

  /** The length of the White_Space character that starts at `i` in `t`, or 0 when none
      does. */
  function SpaceAt(t: Bytes, i: nat): (n: nat)
    requires i <= |t|
    ensures n <= 3 && i + n <= |t|
  {
    if i + 1 <= |t| && IsAsciiSpace(t[i]) then 1
    else if i + 2 <= |t| && IsSpacePair(t[i], t[i + 1]) then 2
    else if i + 3 <= |t| && IsSpaceTriple(t[i], t[i + 1], t[i + 2]) then 3
    else 0
  }

  /** The length of the White_Space character that ends at `j` in `t`, or 0 when none
      does. */
  function SpaceBefore(t: Bytes, j: nat): (n: nat)
    requires j <= |t|
    ensures n <= 3 && n <= j
  {
    if j >= 1 && IsAsciiSpace(t[j - 1]) then 1
    else if j >= 2 && IsSpacePair(t[j - 2], t[j - 1]) then 2
    else if j >= 3 && IsSpaceTriple(t[j - 3], t[j - 2], t[j - 1]) then 3
    else 0
  }

  /** `t[i..j]` is a run of White_Space characters, possibly empty. */
  predicate SpacesIn(t: Bytes, i: nat, j: nat)
    requires i <= j <= |t|
    decreases j - i
  {
    i == j || (0 < SpaceAt(t, i) <= j - i && SpacesIn(t, i + SpaceAt(t, i), j))
  }

  /** The White_Space character that ends at `j` is also found from where it starts. */
  lemma SpaceBeforeIsAt(t: Bytes, j: nat)
    requires j <= |t| && SpaceBefore(t, j) > 0
    ensures SpaceAt(t, j - SpaceBefore(t, j)) == SpaceBefore(t, j)
  {
  }

  /** A run of White_Space followed by one more White_Space character is a run. */
  lemma {:induction false} SpacesInAppend(t: Bytes, i: nat, m: nat, j: nat)
    requires i <= m < j <= |t| && SpacesIn(t, i, m) && SpaceBefore(t, j) == j - m
    ensures SpacesIn(t, i, j)
    decreases m - i
  {
    if i == m {
      SpaceBeforeIsAt(t, j);
      assert SpacesIn(t, j, j);
    } else {
      SpacesInAppend(t, i + SpaceAt(t, i), m, j);
    }
  }

  /** Where the text from `i` on starts once `str::trim_start` has dropped its leading
      White_Space: everything skipped is White_Space and no White_Space character starts
      where it stops. */
  function TrimStartAt(t: Bytes, i: nat): (k: nat)
    requires i <= |t|
    ensures i <= k <= |t| && SpacesIn(t, i, k) && SpaceAt(t, k) == 0
    decreases |t| - i
  {
    var n := SpaceAt(t, i);
    if n > 0 then TrimStartAt(t, i + n) else i
  }

  /** Where the text `t[lo..j]` ends once `str::trim_end` has dropped its trailing
      White_Space: everything skipped is White_Space and no White_Space character inside
      `t[lo..k]` ends at the stop. */
  function TrimEndAt(t: Bytes, lo: nat, j: nat): (k: nat)
    requires lo <= j <= |t|
    ensures lo <= k <= j && SpacesIn(t, k, j)
    ensures SpaceBefore(t, k) == 0 || SpaceBefore(t, k) > k - lo
    decreases j
  {
    var n := SpaceBefore(t, j);
    if n > 0 && j - n >= lo then
      var k := TrimEndAt(t, lo, j - n);
      SpacesInAppend(t, k, j - n, j);
      k
    else
      j
  }

  /** `str::trim`: the text between its leading and its trailing White_Space. */
  function Trim(t: Bytes): (r: Bytes)
    ensures |r| <= |t|
    ensures |r| > 0 ==> SpaceAt(r, 0) == 0 && SpaceBefore(r, |r|) == 0
    ensures SpaceAt(t, 0) == 0 && SpaceBefore(t, |t|) == 0 ==> r == t
  {
    var a := TrimStartAt(t, 0);
    var b := TrimEndAt(t, a, |t|);
    TrimmedEnds(t, a, b);
    t[a..b]
  }

  /** The text kept between `a` and `b` neither starts nor ends with White_Space. */
  lemma TrimmedEnds(t: Bytes, a: nat, b: nat)
    requires a <= b <= |t| && SpaceAt(t, a) == 0
    requires SpaceBefore(t, b) == 0 || SpaceBefore(t, b) > b - a
    ensures var r := t[a..b]; |r| > 0 ==> SpaceAt(r, 0) == 0 && SpaceBefore(r, |r|) == 0
  {
  }

  /** `Trim` keeps a middle part of the text, and what it removes on either side is
      White_Space. */
  lemma TrimDropsSpaces(t: Bytes) returns (i: nat, j: nat)
    ensures i <= j <= |t| && Trim(t) == t[i..j] && SpacesIn(t, 0, i) && SpacesIn(t, j, |t|)
  {
    i := TrimStartAt(t, 0);
    j := TrimEndAt(t, i, |t|);
  }

  /** A text that starts and ends with an ASCII byte other than whitespace has nothing to
      trim. */
  lemma TrimKeeps(t: Bytes)
    requires |t| > 0 && t[0] < 0x80 && !IsAsciiSpace(t[0])
    requires t[|t| - 1] < 0x80 && !IsAsciiSpace(t[|t| - 1])
    ensures Trim(t) == t
  {
  }

  // ---------------------------------------------------------------------------------------
  // Integers
  // ---------------------------------------------------------------------------------------

  /** The Rust integer types a value can be read as. */
  datatype IntKind = I8 | I16 | I32 | I64 | U8 | U16 | U32 | U64 {

    predicate Signed() {
      this in {I8, I16, I32, I64}
    }

    function Min(): int {
      match this
      case I8 => -0x80
      case I16 => -0x8000
      case I32 => -0x8000_0000
      case I64 => -0x8000_0000_0000_0000
      case _ => 0
    }

    function Max(): int {
      match this
      case I8 => 0x7F
      case I16 => 0x7FFF
      case I32 => 0x7FFF_FFFF
      case I64 => 0x7FFF_FFFF_FFFF_FFFF
      case U8 => 0xFF
      case U16 => 0xFFFF
      case U32 => 0xFFFF_FFFF
      case U64 => 0xFFFF_FFFF_FFFF_FFFF
    }

    predicate InRange(n: int) {
      Min() <= n <= Max()
    }
  }

  /** `usize` on a 64-bit target. */
  const USIZE: IntKind := U64

  /** Base-10 digits of `n`, most significant first, without leading zeros. */
  function Decimal(n: nat): (r: Bytes)
    decreases n
  {
    if n < 10 then [48 + n] else Decimal(n / 10) + [48 + n % 10]
  }

  /** `format!("{}", n)` for an integer: a leading `-` when negative. */
  function IntText(n: int): Bytes {
    if n < 0 then [MINUS] + Decimal(-n) else Decimal(n)
  }

  predicate AllDigits(s: Bytes) {
    |s| > 0 && forall i :: 0 <= i < |s| ==> IsDigit(s[i])
  }

  /** The number a string of decimal digits denotes. */
  function DigitsValue(s: Bytes): nat
    requires forall i :: 0 <= i < |s| ==> IsDigit(s[i])
  {
    if |s| == 0 then 0
    else
      assert IsDigit(s[|s| - 1]);
      DigitsValue(s[..|s| - 1]) * 10 + (s[|s| - 1] - 48)
  }

  /** `str::parse` for the integer type `k`: an optional `+` (or `-` for signed types),
      then at least one decimal digit, and the value must fit `k`. A lone sign, an empty
      string, any other byte or an out-of-range value is an error. */
  function ParseInt(t: Bytes, k: IntKind): (r: Option<int>)
    ensures r.Some? ==> k.InRange(r.value)
    ensures r.Some? ==> |t| > 0 && (IsDigit(t[0]) || t[0] == PLUS || (t[0] == MINUS && k.Signed()))
  {
    if |t| == 0 then None
    else if |t| == 1 && (t[0] == PLUS || t[0] == MINUS) then None
    else
      var negative := t[0] == MINUS && k.Signed();
      var digits := if t[0] == PLUS || negative then t[1..] else t;
      if !AllDigits(digits) then None
      else
        var v: int := DigitsValue(digits);
        var n := if negative then -v else v;
        if k.InRange(n) then Some(n) else None
  }

  /** A directory entry name the sequence encoder treats as one of its indices:
      it parses as a `usize`. */
  predicate IsIndexName(name: Bytes) {
    ParseInt(name, USIZE).Some?
  }

  lemma {:induction false} DecimalDigits(n: nat)
    ensures AllDigits(Decimal(n))
    ensures DigitsValue(Decimal(n)) == n
    decreases n
  {
    if n >= 10 {
      DecimalDigits(n / 10);
      var d := Decimal(n);
      assert d[..|d| - 1] == Decimal(n / 10);
    }
  }

  /** Decimal rendering is injective: distinct indices give distinct entry names. */
  lemma DecimalInjective(m: nat, n: nat)
    ensures Decimal(m) == Decimal(n) <==> m == n
  {
    DecimalDigits(m);
    DecimalDigits(n);
  }

  /** Parsing a rendered integer gives it back exactly when it fits the target type. */
  lemma ParseIntText(n: int, k: IntKind)
    ensures ParseInt(IntText(n), k) == (if k.InRange(n) then Some(n) else None)
  {
    var t := IntText(n);
    if n < 0 {
      DecimalDigits(-n);
      assert t[1..] == Decimal(-n);
      if !k.Signed() {
        assert !k.InRange(n);
      }
    } else {
      DecimalDigits(n);
    }
  }

  /** Every index `0 <= n <= usize::MAX` is rendered as a name the sequence encoder owns. */
  lemma DecimalIsIndexName(n: nat)
    requires n <= USIZE.Max()
    ensures IsIndexName(Decimal(n))
  {
    ParseIntText(n, USIZE);
  }

  /** `0`, the name of the first element of every sequence, is an index name. */
  lemma ZeroIsIndexName()
    ensures IsIndexName(Decimal(0))
  {
    DecimalIsIndexName(0);
  }

  /** A rendered integer has no surrounding whitespace, so trimming keeps it. */
  lemma TrimIntText(n: int)
    ensures Trim(IntText(n)) == IntText(n)
  {
    var t := IntText(n);
    if n < 0 {
      DecimalDigits(-n);
      assert t[|t| - 1] == Decimal(-n)[|Decimal(-n)| - 1];
    } else {
      DecimalDigits(n);
    }
    TrimKeeps(t);
  }

  // ---------------------------------------------------------------------------------------
  // Name order
  // ---------------------------------------------------------------------------------------

  /** Strict byte-wise lexicographic order: a proper prefix comes first. */
  predicate LexLess(a: Bytes, b: Bytes) {
    |b| > 0 && (|a| == 0 || a[0] < b[0] || (a[0] == b[0] && LexLess(a[1..], b[1..])))
  }

  lemma {:induction false} LexLessIrreflexive(a: Bytes)
    ensures !LexLess(a, a)
  {
    if |a| > 0 {
      LexLessIrreflexive(a[1..]);
    }
  }

  lemma {:induction false} LexLessTransitive(a: Bytes, b: Bytes, c: Bytes)
    requires LexLess(a, b) && LexLess(b, c)
    ensures LexLess(a, c)
  {
    if |a| > 0 && a[0] == b[0] && b[0] == c[0] {
      LexLessTransitive(a[1..], b[1..], c[1..]);
    }
  }

  lemma {:induction false} LexLessTotal(a: Bytes, b: Bytes)
    ensures a == b || LexLess(a, b) || LexLess(b, a)
  {
    if |a| > 0 && |b| > 0 && a[0] == b[0] {
      LexLessTotal(a[1..], b[1..]);
      if a[1..] == b[1..] {
        assert a == [a[0]] + a[1..] && b == [b[0]] + b[1..];
      }
    }
  }

  lemma LexLessAsymmetric(a: Bytes, b: Bytes)
    ensures !(LexLess(a, b) && LexLess(b, a))
  {
    if LexLess(a, b) && LexLess(b, a) {
      LexLessTransitive(a, b, a);
      LexLessIrreflexive(a);
    }
  }

  predicate IsLeast(m: Bytes, s: set<Bytes>) {
    m in s && forall n | n in s && n != m :: LexLess(m, n)
  }

  /** The least name of a non-empty set. */
  function Least(s: set<Bytes>): (m: Bytes)
    requires s != {}
    ensures IsLeast(m, s)
  {
    LeastExists(s);
    forall a, b
      ensures !(LexLess(a, b) && LexLess(b, a))
    {
      LexLessAsymmetric(a, b);
    }
    var m :| IsLeast(m, s);
    m
  }

  lemma {:induction false} LeastExists(s: set<Bytes>)
    requires s != {}
    ensures exists m :: IsLeast(m, s)
    decreases |s|
  {
    var x :| x in s;
    var rest := s - {x};
    if rest == {} {
      forall n | n in s
        ensures n == x
      {
        assert n in rest || n == x;
      }
      assert IsLeast(x, s);
    } else {
      LeastExists(rest);
      var m :| IsLeast(m, rest);
      LexLessTotal(x, m);
      if LexLess(x, m) {
        forall n | n in s && n != x
          ensures LexLess(x, n)
        {
          if n != m {
            assert n in rest;
            LexLessTransitive(x, m, n);
          }
        }
        assert IsLeast(x, s);
      } else {
        assert IsLeast(m, s);
      }
    }
  }

  predicate Ascending(names: seq<Bytes>) {
    forall i, j | 0 <= i < j < |names| :: LexLess(names[i], names[j])
  }

  /** The names of a set in ascending order: the order in which the model enumerates
      a directory. */
  function SortedNames(s: set<Bytes>): (r: seq<Bytes>)
    ensures forall n :: n in r <==> n in s
    ensures Ascending(r)
    decreases |s|
  {
    if s == {} then []
    else
      var m := Least(s);
      [m] + SortedNames(s - {m})
  }

  /** An ascending listing of a set is unique: it is the sorted one. */
  lemma {:induction false} AscendingUnique(a: seq<Bytes>, b: seq<Bytes>)
    requires Ascending(a) && Ascending(b)
    requires forall n :: n in a <==> n in b
    ensures a == b
    decreases |a|
  {
    if |a| > 0 {
      assert a[0] in b;
    }
    if |b| > 0 {
      assert b[0] in a;
    }
    if |a| > 0 {
      if a[0] != b[0] {
        var i :| 0 <= i < |a| && a[i] == b[0];
        var j :| 0 <= j < |b| && b[j] == a[0];
        LexLessAsymmetric(a[0], b[0]);
      }
      LexLessIrreflexive(a[0]);
      assert forall n :: n in a[1..] <==> n in a && n != a[0];
      assert forall n :: n in b[1..] <==> n in b && n != b[0];
      AscendingUnique(a[1..], b[1..]);
      assert a == [a[0]] + a[1..] && b == [b[0]] + b[1..];
    }
  }

  // ---------------------------------------------------------------------------------------
  // Characters
  // ---------------------------------------------------------------------------------------

  predicate IsContinuation(b: Byte) {
    0x80 <= b <= 0xBF
  }

  /** The length of the well-formed UTF-8 byte sequence `s` starts with, following
      Table 3-7 of the Unicode Standard, or 0 when it starts with none. */
  function Utf8SeqLen(s: Bytes): (n: nat)
    ensures n <= |s|
    ensures |s| > 0 && s[0] < 0x80 ==> n == 1
    ensures n > 1 ==> s[0] >= 0xC2 && forall i | 1 <= i < n :: IsContinuation(s[i])
  {
    if |s| == 0 then 0
    else
      var b := s[0];
      if b < 0x80 then 1
      else if 0xC2 <= b <= 0xDF then
        if |s| >= 2 && IsContinuation(s[1]) then 2 else 0
      else if 0xE0 <= b <= 0xEF then
        var lo := if b == 0xE0 then 0xA0 else 0x80;
        var hi := if b == 0xED then 0x9F else 0xBF;
        if |s| >= 3 && lo <= s[1] <= hi && IsContinuation(s[2]) then 3 else 0
      else if 0xF0 <= b <= 0xF4 then
        var lo := if b == 0xF0 then 0x90 else 0x80;
        var hi := if b == 0xF4 then 0x8F else 0xBF;
        if |s| >= 4 && lo <= s[1] <= hi && IsContinuation(s[2]) && IsContinuation(s[3]) then 4 else 0
      else 0
  }

  /** `s` is well-formed UTF-8: what `read_to_string` accepts. */
  predicate ValidUtf8(s: Bytes)
    decreases |s|
  {
    |s| == 0 || (Utf8SeqLen(s) > 0 && ValidUtf8(s[Utf8SeqLen(s)..]))
  }

  predicate IsAscii(s: Bytes) {
    forall i | 0 <= i < |s| :: s[i] < 0x80
  }

  lemma {:induction false} AsciiIsUtf8(s: Bytes)
    requires IsAscii(s)
    ensures ValidUtf8(s)
    decreases |s|
  {
    if |s| > 0 {
      AsciiIsUtf8(s[1..]);
    }
  }

  /** The texts the encoder writes for booleans and integers are ASCII. */
  lemma ScalarTextsAscii(n: int)
    ensures IsAscii(TRUE_TEXT) && IsAscii(FALSE_TEXT) && IsAscii(IntText(n))
  {
    if n < 0 {
      DecimalDigits(-n);
    } else {
      DecimalDigits(n);
    }
  }

  /** The UTF-8 encoding of a character, as `format!("{}", c)` writes it. */
  function Utf8(c: char): (r: Bytes)
    ensures 1 <= |r| <= 4
    ensures c as int < 0x80 <==> |r| == 1
    ensures |r| == 1 ==> r[0] == c as int
    ensures |r| > 1 ==> r[0] >= 0xC0 && forall i :: 1 <= i < |r| ==> 0x80 <= r[i] < 0xC0
  {
    var cp := c as int;
    if cp < 0x80 then [cp]
    else if cp < 0x800 then [0xC0 + cp / 0x40, 0x80 + cp % 0x40]
    else if cp < 0x1_0000 then [0xE0 + cp / 0x1000, 0x80 + (cp / 0x40) % 0x40, 0x80 + cp % 0x40]
    else [0xF0 + cp / 0x4_0000, 0x80 + (cp / 0x1000) % 0x40, 0x80 + (cp / 0x40) % 0x40, 0x80 + cp % 0x40]
  }
}
