/** What the literal encoder of LiteralExtensions.cs guarantees: integer
    tokens read back as their value, enums name exactly their flags, arrays
    consume their element stream in row-major order under one brace level per
    inner dimension, containers keep one entry per entry, and encoding fails
    exactly on values that contain something without a literal form. */
module LiteralProperties {

  import opened Wrappers
  import opened Strings
  import opened Exceptions
  import opened Literals

  // ---------------------------------------------------------------- integers

  lemma IntTextEndsInDigit(n: int)
    ensures |IntText(n)| >= 1 && IsDigit(IntText(n)[|IntText(n)| - 1])
  {
    if n < 0 {
      var t := NatText(-n);
      assert IntText(n)[|IntText(n)| - 1] == t[|t| - 1];
    }
  }

  /** Digits ending in a digit, then a suffix: the reader finds that suffix. */
  lemma ReadSuffixAfterDigit(digits: string, sfx: Suffix)
    requires |digits| >= 1 && IsDigit(digits[|digits| - 1])
    ensures ReadSuffix(digits + SuffixText(sfx)) == sfx
  {
    var t := digits + SuffixText(sfx);
    var last := digits[|digits| - 1];
    match sfx
    case NoSuffix =>
      assert t == digits;
      if |t| >= 2 {
        assert t[|t| - 2..][1] == last;
      }
    case U =>
      assert t[|t| - 1] == 'U';
      assert t[|t| - 2..][0] == last;
    case L =>
      assert t[|t| - 1] == 'L';
      assert t[|t| - 2..][0] == last;
    case UL =>
      assert t[|t| - 2..] == "UL";
  }

  /** A suffixed integer token reads back as its value and its suffix. */
  lemma IntegerTokenRoundTrip(n: int, sfx: Suffix)
    ensures ReadIntegerToken(IntText(n) + SuffixText(sfx)) == Some((n, sfx))
  {
    var digits := IntText(n);
    var t := digits + SuffixText(sfx);
    IntTextEndsInDigit(n);
    ReadSuffixAfterDigit(digits, sfx);
    IntTextRoundTrip(n);
    assert t[..|t| - |SuffixText(sfx)|] == digits;
  }

  /** The C# type the reader gives the emitted token: the kind itself for
      `uint`, `long` and `ulong`, and `int` for every narrower kind. */
  lemma LiteralKindOfSuffix(k: IntKind, n: int)
    requires InRange(k, n)
    ensures IsNarrow(k) || k == Int32 ==> SuffixOf(k) == NoSuffix && LiteralKind(n, NoSuffix) == Some(Int32)
    ensures !IsNarrow(k) ==> LiteralKind(n, SuffixOf(k)) == Some(k)
  {
  }

  /** Every integral value is printed as decimal digits plus the suffix of its
      kind, and a reader recovers the same number and suffix from the text.
      Kinds narrower than `int` (and `int` itself) get no suffix, so the
      literal is an `int` constant; since the value lies in the kind's range,
      the implicit constant conversion back to the kind is exact. `uint`,
      `long` and `ulong` get the suffix that makes the literal exactly that
      kind. */
  lemma IntegralRoundTrip(k: IntKind, n: int, fmt: Formatter)
    requires InRange(k, n)
    ensures GetLiteral(Integral(k, n), fmt).Success?
    ensures ReadIntegerToken(GetLiteral(Integral(k, n), fmt).value) == Some((n, SuffixOf(k)))
    ensures IsNarrow(k) || k == Int32 ==> SuffixOf(k) == NoSuffix && LiteralKind(n, NoSuffix) == Some(Int32)
    ensures !IsNarrow(k) ==> LiteralKind(n, SuffixOf(k)) == Some(k)
  {
    assert Encode(Integral(k, n)) == Success(IntegerLit(n, SuffixOf(k)));
    assert GetLiteral(Integral(k, n), fmt) == Success(IntText(n) + SuffixText(SuffixOf(k)));
    IntegerTokenRoundTrip(n, SuffixOf(k));
    LiteralKindOfSuffix(k, n);
  }

  // ------------------------------------------------------------------- enums

  /** An enum literal has one `FullName.flag` term per comma-separated
      component of the enum's `ToString()` text. */
  lemma EnumTermPerComponent(ty: ClrType, text: string)
    ensures Encode(EnumValue(ty, text)).Success?
    ensures var l := Encode(EnumValue(ty, text)).value;
      l.FlagsLit? && l.enumName == ty.fullName && |l.flags| == Occurrences(text, ',') + 1
  {
  }

  function SpacedTail(flags: seq<string>): seq<string>
    requires |flags| >= 1
  {
    seq(|flags| - 1, i requires 0 <= i < |flags| - 1 => " " + flags[i + 1])
  }

  /** The `ToString()` of a flags value lists its flags separated by ", ";
      `Join(flags, ", ")` is the same text as the flags joined by "," with a
      space before every flag but the first. */
  lemma {:induction false} CommaSpaceJoin(flags: seq<string>)
    requires |flags| >= 1
    ensures Join(flags, ", ") == Join([flags[0]] + SpacedTail(flags), ",")
    decreases |flags|
  {
    if |flags| > 1 {
      var rest := flags[1..];
      CommaSpaceJoin(rest);
      var t := SpacedTail(rest);
      assert SpacedTail(flags) == [" " + flags[1]] + t;
      var parts := [flags[0]] + SpacedTail(flags);
      assert parts[1..] == SpacedTail(flags);
      if |t| == 0 {
        assert Join([" " + flags[1]] + t, ",") == " " + flags[1];
        assert Join([flags[1]] + t, ",") == flags[1];
      } else {
        assert ([" " + flags[1]] + t)[1..] == t;
        assert ([flags[1]] + t)[1..] == t;
      }
    }
  }

  /** A flag name as the runtime prints it: a non-empty identifier without
      commas and without surrounding white space. */
  predicate FlagName(f: string)
  {
    |f| >= 1 && Trimmed(f) && ',' !in f
  }

  /** The comma-separated parts of `Join(flags, ", ")`: the first flag, then
      each further flag behind one space. */
  lemma SplitFlagsText(flags: seq<string>)
    requires |flags| >= 1
    requires forall i :: 0 <= i < |flags| ==> ',' !in flags[i]
    ensures Split(Join(flags, ", "), ',') == [flags[0]] + SpacedTail(flags)
  {
    var parts := [flags[0]] + SpacedTail(flags);
    CommaSpaceJoin(flags);
    forall i | 0 <= i < |parts|
      ensures ',' !in parts[i]
    {
      if i > 0 {
        assert parts[i] == " " + flags[i];
      }
    }
    SplitJoin(parts, ',');
  }

  lemma TrimSpacedParts(flags: seq<string>)
    requires |flags| >= 1
    requires forall i :: 0 <= i < |flags| ==> Trimmed(flags[i])
    ensures var parts := [flags[0]] + SpacedTail(flags);
      forall i :: 0 <= i < |parts| ==> Trim(parts[i]) == flags[i]
  {
    var parts := [flags[0]] + SpacedTail(flags);
    forall i | 0 <= i < |parts|
      ensures Trim(parts[i]) == flags[i]
    {
      if i == 0 {
        TrimTrimmed(flags[0]);
      } else {
        assert parts[i] == " " + flags[i];
        TrimLeadingSpace(flags[i]);
      }
    }
  }

  lemma TrimEach(parts: seq<string>, flags: seq<string>)
    requires |parts| == |flags|
    requires forall i :: 0 <= i < |parts| ==> Trim(parts[i]) == flags[i]
    ensures seq(|parts|, i requires 0 <= i < |parts| => Trim(parts[i])) == flags
  {
  }

  lemma FlagNamesJoin(flags: seq<string>)
    requires |flags| >= 1
    requires forall i :: 0 <= i < |flags| ==> FlagName(flags[i])
    ensures FlagNames(Join(flags, ", ")) == flags
  {
    var parts := [flags[0]] + SpacedTail(flags);
    SplitFlagsText(flags);
    TrimSpacedParts(flags);
    TrimEach(parts, flags);
  }

  /** The enum literal names exactly the flags of the value, in the order
      `ToString()` lists them. */
  lemma EnumFlagsRoundTrip(ty: ClrType, flags: seq<string>)
    requires |flags| >= 1
    requires forall i :: 0 <= i < |flags| ==> FlagName(flags[i])
    ensures Encode(EnumValue(ty, Join(flags, ", "))) == Success(FlagsLit(ty.fullName, flags))
  {
    FlagNamesJoin(flags);
  }

  /** The `Type.FullName + "." + flag` terms of an enum literal. */
  function FlagTerms(enumName: string, flags: seq<string>): seq<string>
  {
    seq(|flags|, i requires 0 <= i < |flags| => enumName + "." + flags[i])
  }

  lemma FlagTermsBarFree(enumName: string, flags: seq<string>)
    requires '|' !in enumName
    requires forall i :: 0 <= i < |flags| ==> '|' !in flags[i]
    ensures forall i :: 0 <= i < |flags| ==> '|' !in FlagTerms(enumName, flags)[i]
  {
    forall i | 0 <= i < |flags|
      ensures '|' !in FlagTerms(enumName, flags)[i]
    {
      var term := FlagTerms(enumName, flags)[i];
      assert term == enumName + "." + flags[i];
      assert forall x :: x in term ==> x in enumName || x == '.' || x in flags[i];
    }
  }

  lemma RenderFlags(enumName: string, flags: seq<string>, fmt: Formatter)
    ensures Render(FlagsLit(enumName, flags), fmt) == Join(FlagTerms(enumName, flags), " | ")
  {
  }

  /** k terms without bars joined by `" | "` contain exactly k-1 bars. */
  lemma FlagTermsBars(enumName: string, flags: seq<string>)
    requires |flags| >= 1
    requires '|' !in enumName
    requires forall i :: 0 <= i < |flags| ==> '|' !in flags[i]
    ensures Occurrences(Join(FlagTerms(enumName, flags), " | "), '|') == |flags| - 1
  {
    var terms := FlagTerms(enumName, flags);
    FlagTermsBarFree(enumName, flags);
    OccurrencesInAllZero(terms, '|');
    JoinOccurrences(terms, " | ", '|');
  }

  /** An enum with k flags prints as k `FullName.flag` terms separated by k-1
      `" | "` operators (when no name contains a bar). */
  lemma EnumLiteralText(ty: ClrType, flags: seq<string>, fmt: Formatter)
    requires |flags| >= 1
    requires forall i :: 0 <= i < |flags| ==> FlagName(flags[i]) && '|' !in flags[i]
    requires '|' !in ty.fullName
    ensures var text := GetLiteral(EnumValue(ty, Join(flags, ", ")), fmt);
      text.Success?
      && text.value == Join(FlagTerms(ty.fullName, flags), " | ")
      && Occurrences(text.value, '|') == |flags| - 1
  {
    var o := EnumValue(ty, Join(flags, ", "));
    EnumFlagsRoundTrip(ty, flags);
    RenderFlags(ty.fullName, flags, fmt);
    assert GetLiteral(o, fmt) == Success(Render(FlagsLit(ty.fullName, flags), fmt));
    FlagTermsBars(ty.fullName, flags);
  }

  // ------------------------------------------------------------------ arrays

  function Product(s: seq<nat>): nat
  {
    if |s| == 0 then 1 else s[0] * Product(s[1..])
  }

  /** `l` is a brace nest of shape `lengths`: one brace level per length,
      `lengths[0]` entries at the top level, and so on inward. An empty shape
      is a single element literal. */
  predicate Nested(l: Literal, lengths: seq<nat>)
    decreases |lengths|
  {
    |lengths| == 0 ||
    (l.BracesLit? && |l.items| == lengths[0] &&
     forall i :: 0 <= i < |l.items| ==> Nested(l.items[i], lengths[1..]))
  }

  /** The element literals at brace depth `depth` below `l`, left to right. */
  function Leaves(l: Literal, depth: nat): seq<Literal>
    decreases depth, 0, 0
  {
    if depth == 0 then [l]
    else if l.BracesLit? then LeavesAll(l.items, depth - 1)
    else []
  }

  function LeavesAll(ls: seq<Literal>, depth: nat): seq<Literal>
    decreases depth, 1, |ls|
  {
    if |ls| == 0 then [] else Leaves(ls[0], depth) + LeavesAll(ls[1..], depth)
  }

  lemma LeavesAllCons(first: Literal, rest: seq<Literal>, depth: nat)
    ensures LeavesAll([first] + rest, depth) == Leaves(first, depth) + LeavesAll(rest, depth)
  {
    assert ([first] + rest)[1..] == rest;
  }

  lemma {:induction false} LeavesAllFlat(ls: seq<Literal>)
    ensures LeavesAll(ls, 0) == ls
    decreases |ls|
  {
    if |ls| > 0 {
      LeavesAllFlat(ls[1..]);
    }
  }

  /** `n` stream elements from position `pos` exist and each one encodes. */
  predicate StreamEncodes(a: Value, pos: nat, n: nat)
    requires a.ArrayValue?
  {
    pos + n <= |a.elements| && forall k :: pos <= k < pos + n ==> Encode(a.elements[k]).Success?
  }

  /** `leaves` are the literals of the stream elements from position `pos` on. */
  predicate EncodesStream(a: Value, pos: nat, leaves: seq<Literal>)
    requires a.ArrayValue?
  {
    pos + |leaves| <= |a.elements| &&
    forall k :: 0 <= k < |leaves| ==> Encode(a.elements[pos + k]) == Success(leaves[k])
  }

  lemma EncodesStreamAppend(a: Value, pos: nat, l1: seq<Literal>, l2: seq<Literal>)
    requires a.ArrayValue?
    requires EncodesStream(a, pos, l1) && EncodesStream(a, pos + |l1|, l2)
    ensures EncodesStream(a, pos, l1 + l2)
  {
    forall k | 0 <= k < |l1 + l2|
      ensures Encode(a.elements[pos + k]) == Success((l1 + l2)[k])
    {
      if k >= |l1| {
        assert a.elements[pos + k] == a.elements[(pos + |l1|) + (k - |l1|)];
      }
    }
  }

  /** One entry of dimension `dim` reads exactly `Product(lengths[dim+1..])`
      stream elements, succeeds exactly when they all exist and encode, and
      is a brace nest of the remaining dimensions whose leaves are those
      elements' literals in order. */
  lemma {:induction false} EntryShape(a: Value, dim: nat, pos: nat)
    requires a.ArrayValue? && dim < |a.lengths|
    requires pos <= |a.elements|
    ensures var n := Product(a.lengths[dim + 1..]);
      ArrayEntry(a, dim, pos).Success? <==> StreamEncodes(a, pos, n)
    ensures ArrayEntry(a, dim, pos).Success? ==>
      var (lit, next) := ArrayEntry(a, dim, pos).value;
      var leaves := Leaves(lit, |a.lengths| - 1 - dim);
      && next == pos + Product(a.lengths[dim + 1..])
      && Nested(lit, a.lengths[dim + 1..])
      && |leaves| == next - pos
      && EncodesStream(a, pos, leaves)
    decreases |a.lengths| - dim, 0
  {
    if dim == |a.lengths| - 1 {
      assert a.lengths[dim + 1..] == [];
    } else {
      LiteralsShape(a, dim + 1, pos);
      assert a.lengths[dim + 1..][1..] == a.lengths[dim + 2..];
    }
  }

  lemma StreamEncodesSplit(a: Value, pos: nat, p: nat, m: nat)
    requires a.ArrayValue?
    ensures StreamEncodes(a, pos, p + m) <==> StreamEncodes(a, pos, p) && StreamEncodes(a, pos + p, m)
  {
  }

  lemma MulSucc(count: nat, p: nat)
    requires count > 0
    ensures count * p == p + (count - 1) * p
  {
  }

  lemma NestedCons(lit: Literal, lits: seq<Literal>, shape: seq<nat>)
    requires Nested(lit, shape)
    requires forall i :: 0 <= i < |lits| ==> Nested(lits[i], shape)
    ensures forall i :: 0 <= i < |[lit] + lits| ==> Nested(([lit] + lits)[i], shape)
  {
    forall i | 0 <= i < |[lit] + lits|
      ensures Nested(([lit] + lits)[i], shape)
    {
      if i > 0 {
        assert ([lit] + lits)[i] == lits[i - 1];
      }
    }
  }

  /** One entry followed by `count - 1` entries has the shape of `count` entries. */
  lemma EntriesStep(a: Value, dim: nat, count: nat, pos: nat, lit: Literal, mid: nat, lits: seq<Literal>, next: nat)
    requires a.ArrayValue? && dim < |a.lengths| && count > 0
    requires var p := Product(a.lengths[dim + 1..]);
      var leaves := Leaves(lit, |a.lengths| - 1 - dim);
      && mid == pos + p
      && Nested(lit, a.lengths[dim + 1..])
      && |leaves| == mid - pos
      && EncodesStream(a, pos, leaves)
    requires var leaves := LeavesAll(lits, |a.lengths| - 1 - dim);
      && |lits| == count - 1
      && next == mid + (count - 1) * Product(a.lengths[dim + 1..])
      && (forall i :: 0 <= i < |lits| ==> Nested(lits[i], a.lengths[dim + 1..]))
      && |leaves| == next - mid
      && EncodesStream(a, mid, leaves)
    ensures var leaves := LeavesAll([lit] + lits, |a.lengths| - 1 - dim);
      && |[lit] + lits| == count
      && next == pos + count * Product(a.lengths[dim + 1..])
      && (forall i :: 0 <= i < |[lit] + lits| ==> Nested(([lit] + lits)[i], a.lengths[dim + 1..]))
      && |leaves| == next - pos
      && EncodesStream(a, pos, leaves)
  {
    var depth := |a.lengths| - 1 - dim;
    MulSucc(count, Product(a.lengths[dim + 1..]));
    LeavesAllCons(lit, lits, depth);
    EncodesStreamAppend(a, pos, Leaves(lit, depth), LeavesAll(lits, depth));
    NestedCons(lit, lits, a.lengths[dim + 1..]);
  }

  /** `count` entries succeed exactly when the first entry and the other
      `count - 1` do, that is when their shares of the stream all encode. */
  lemma EntriesIff(a: Value, dim: nat, count: nat, pos: nat)
    requires a.ArrayValue? && dim < |a.lengths| && count > 0
    requires var p := Product(a.lengths[dim + 1..]);
      && (ArrayEntry(a, dim, pos).Success? <==> StreamEncodes(a, pos, p))
      && (ArrayEntry(a, dim, pos).Success? ==>
            var mid := ArrayEntry(a, dim, pos).value.1;
            mid == pos + p && (ArrayEntries(a, dim, count - 1, mid).Success? <==> StreamEncodes(a, mid, (count - 1) * p)))
    ensures ArrayEntries(a, dim, count, pos).Success? <==> StreamEncodes(a, pos, count * Product(a.lengths[dim + 1..]))
  {
    var p := Product(a.lengths[dim + 1..]);
    MulSucc(count, p);
    StreamEncodesSplit(a, pos, p, (count - 1) * p);
  }

  /** `count` entries of dimension `dim` read `count` times an entry's share of
      the stream, in order. */
  lemma {:induction false} EntriesShape(a: Value, dim: nat, count: nat, pos: nat)
    requires a.ArrayValue? && dim < |a.lengths|
    requires pos <= |a.elements|
    ensures var n := count * Product(a.lengths[dim + 1..]);
      ArrayEntries(a, dim, count, pos).Success? <==> StreamEncodes(a, pos, n)
    ensures ArrayEntries(a, dim, count, pos).Success? ==>
      var (lits, next) := ArrayEntries(a, dim, count, pos).value;
      var leaves := LeavesAll(lits, |a.lengths| - 1 - dim);
      && |lits| == count
      && next == pos + count * Product(a.lengths[dim + 1..])
      && (forall i :: 0 <= i < |lits| ==> Nested(lits[i], a.lengths[dim + 1..]))
      && |leaves| == next - pos
      && EncodesStream(a, pos, leaves)
    decreases |a.lengths| - dim, count
  {
    if count > 0 {
      EntryShape(a, dim, pos);
      var first := ArrayEntry(a, dim, pos);
      if first.Success? {
        var (lit, mid) := first.value;
        EntriesShape(a, dim, count - 1, mid);
        EntriesIff(a, dim, count, pos);
        var rest := ArrayEntries(a, dim, count - 1, mid);
        if rest.Success? {
          var (lits, next) := rest.value;
          assert ArrayEntries(a, dim, count, pos) == Success(([lit] + lits, next));
          EntriesStep(a, dim, count, pos, lit, mid, lits, next);
        }
      } else {
        EntriesIff(a, dim, count, pos);
      }
    }
  }

  /** `GetArrayLiterals(array, enumerator, dim)` returns exactly
      `GetLength(dim)` entries, moves the enumerator exactly
      `Product(lengths[dim..])` times, and its leaves are the stream. */
  lemma {:induction false} LiteralsShape(a: Value, dim: nat, pos: nat)
    requires a.ArrayValue? && dim < |a.lengths|
    requires pos <= |a.elements|
    ensures ArrayLiterals(a, dim, pos).Success? <==> StreamEncodes(a, pos, Product(a.lengths[dim..]))
    ensures ArrayLiterals(a, dim, pos).Success? ==>
      var (lits, next) := ArrayLiterals(a, dim, pos).value;
      var leaves := LeavesAll(lits, |a.lengths| - 1 - dim);
      && |lits| == a.lengths[dim]
      && next == pos + Product(a.lengths[dim..])
      && (forall i :: 0 <= i < |lits| ==> Nested(lits[i], a.lengths[dim + 1..]))
      && |leaves| == next - pos
      && EncodesStream(a, pos, leaves)
    decreases |a.lengths| - dim, a.lengths[dim] + 1
  {
    assert a.lengths[dim..][1..] == a.lengths[dim + 1..];
    EntriesShape(a, dim, a.lengths[dim], pos);
  }

  /** The array literal: `new T {...}` with `GetLength(0)` top-level entries,
      each a brace nest of the remaining dimensions (rank-1 brace levels), and
      the leaves read left to right are the literals of the first
      `Product(lengths)` elements of the row-major element stream. */
  lemma ArrayEncoding(o: Value)
    requires o.ArrayValue? && Encode(o).Success?
    ensures var l := Encode(o).value;
      && l.NewLit?
      && GetName(o.ty) == Success(l.typeName)
      && |l.items| == o.lengths[0]
      && (forall i :: 0 <= i < |l.items| ==> Nested(l.items[i], o.lengths[1..]))
      && |LeavesAll(l.items, |o.lengths| - 1)| == Product(o.lengths)
      && EncodesStream(o, 0, LeavesAll(l.items, |o.lengths| - 1))
  {
    LiteralsShape(o, 0, 0);
    assert o.lengths[0..] == o.lengths;
  }

  /** A jagged array `T[][]` encodes every row as its own `new T[] {...}`: row
      i keeps its length and its elements, in order. */
  lemma JaggedRows(o: Value, i: nat)
    requires o.ArrayValue? && |o.lengths| == 1 && Encode(o).Success?
    requires i < o.lengths[0]
    requires i < |o.elements| && o.elements[i].ArrayValue? && |o.elements[i].lengths| == 1
    ensures var l := Encode(o).value;
      && l.NewLit? && i < |l.items|
      && var row := l.items[i];
      && row.NewLit?
      && Encode(o.elements[i]) == Success(row)
      && |row.items| == o.elements[i].lengths[0]
      && EncodesStream(o.elements[i], 0, row.items)
  {
    ArrayEncoding(o);
    var l := Encode(o).value;
    LeavesAllFlat(l.items);
    assert Encode(o.elements[0 + i]) == Success(l.items[i]);
    ArrayEncoding(o.elements[i]);
    LeavesAllFlat(l.items[i].items);
  }

  // ------------------------------------------------------------- collections

  lemma {:induction false} EntryLiteralsShape(d: Value, i: nat)
    requires d.DictionaryValue? && i <= |d.entries|
    ensures EntryLiterals(d, i).Success? <==>
      forall j :: i <= j < |d.entries| ==> Encode(d.entries[j].key).Success? && Encode(d.entries[j].value).Success?
    ensures EntryLiterals(d, i).Success? ==>
      var items := EntryLiterals(d, i).value;
      && |items| == |d.entries| - i
      && forall j :: i <= j < |d.entries| ==>
           items[j - i] == BracesLit([Encode(d.entries[j].key).value, Encode(d.entries[j].value).value])
    decreases |d.entries| - i
  {
    if i < |d.entries| {
      EntryLiteralsShape(d, i + 1);
    }
  }

  /** A dictionary encodes as `new T {...}` holding exactly one `{key, value}`
      entry per dictionary entry, in enumeration order. */
  lemma DictionaryEncoding(o: Value)
    requires o.DictionaryValue? && Encode(o).Success?
    ensures var l := Encode(o).value;
      && l.NewLit?
      && GetName(o.ty) == Success(l.typeName)
      && |l.items| == |o.entries|
      && forall j :: 0 <= j < |o.entries| ==>
           Encode(o.entries[j].key).Success? && Encode(o.entries[j].value).Success?
           && l.items[j] == BracesLit([Encode(o.entries[j].key).value, Encode(o.entries[j].value).value])
  {
    EntryLiteralsShape(o, 0);
  }

  lemma {:induction false} ItemLiteralsShape(c: Value, i: nat)
    requires c.SequenceValue? && i <= |c.items|
    ensures ItemLiterals(c, i).Success? <==> forall j :: i <= j < |c.items| ==> Encode(c.items[j]).Success?
    ensures ItemLiterals(c, i).Success? ==>
      var items := ItemLiterals(c, i).value;
      && |items| == |c.items| - i
      && forall j :: i <= j < |c.items| ==> Encode(c.items[j]) == Success(items[j - i])
    decreases |c.items| - i
  {
    if i < |c.items| {
      ItemLiteralsShape(c, i + 1);
    }
  }

  /** Any other encodable enumerable becomes `new T {...}` with one literal per
      enumerated item, in enumeration order. */
  lemma SequenceEncoding(o: Value)
    requires o.SequenceValue? && Encode(o).Success?
    ensures o.isCollection || o.addMethods == 1
    ensures var l := Encode(o).value;
      && l.NewLit?
      && GetName(o.ty) == Success(l.typeName)
      && |l.items| == |o.items|
      && forall j :: 0 <= j < |o.items| ==> Encode(o.items[j]) == Success(l.items[j])
  {
    ItemLiteralsShape(o, 0);
  }

  lemma {:induction false} ItemFailureAt(c: Value, i: nat, j: nat)
    requires c.SequenceValue? && i <= j < |c.items|
    requires forall k :: i <= k < j ==> Encode(c.items[k]).Success?
    requires Encode(c.items[j]).Failure?
    ensures ItemLiterals(c, i) == Failure(Encode(c.items[j]).error)
    decreases j - i
  {
    if i < j {
      ItemFailureAt(c, i + 1, j);
    }
  }

  /** The first item that cannot be encoded makes the whole enumerable fail
      with that item's error (for instance the `SerializationException` naming
      the item's type). */
  lemma NestedFailurePropagates(o: Value, j: nat)
    requires o.SequenceValue? && (o.isCollection || o.addMethods == 1)
    requires j < |o.items|
    requires forall k :: 0 <= k < j ==> Encode(o.items[k]).Success?
    requires Encode(o.items[j]).Failure?
    ensures Encode(o) == Failure(Encode(o.items[j]).error)
  {
    ItemFailureAt(o, 0, j);
  }

  lemma {:induction false} EntriesFailAt(a: Value, dim: nat, count: nat, pos: nat, j: nat)
    requires a.ArrayValue? && dim < |a.lengths|
    requires pos <= j < pos + count * Product(a.lengths[dim + 1..]) && j < |a.elements|
    requires forall k :: pos <= k < j ==> Encode(a.elements[k]).Success?
    requires Encode(a.elements[j]).Failure?
    ensures ArrayEntries(a, dim, count, pos) == Failure(Encode(a.elements[j]).error)
    decreases |a.lengths| - dim, count
  {
    var p := Product(a.lengths[dim + 1..]);
    assert count != 0;
    MulSucc(count, p);
    if j < pos + p {
      EntryFailAt(a, dim, pos, j);
    } else {
      EntryShape(a, dim, pos);
      assert StreamEncodes(a, pos, p);
      EntriesFailAt(a, dim, count - 1, pos + p, j);
    }
  }

  lemma {:induction false} EntryFailAt(a: Value, dim: nat, pos: nat, j: nat)
    requires a.ArrayValue? && dim < |a.lengths|
    requires pos <= j < pos + Product(a.lengths[dim + 1..]) && j < |a.elements|
    requires forall k :: pos <= k < j ==> Encode(a.elements[k]).Success?
    requires Encode(a.elements[j]).Failure?
    ensures ArrayEntry(a, dim, pos) == Failure(Encode(a.elements[j]).error)
    decreases |a.lengths| - dim, 0
  {
    if dim == |a.lengths| - 1 {
      assert a.lengths[dim + 1..] == [];
    } else {
      assert a.lengths[dim + 1..][1..] == a.lengths[dim + 2..];
      EntriesFailAt(a, dim + 1, a.lengths[dim + 1], pos, j);
    }
  }

  /** Arrays: the first element of the row-major stream that cannot be
      encoded, within the `Product(lengths)` elements the array reads, makes
      the whole array fail with that element's error. */
  lemma ArrayFailurePropagates(o: Value, j: nat)
    requires o.ArrayValue? && j < Product(o.lengths) && j < |o.elements|
    requires forall k :: 0 <= k < j ==> Encode(o.elements[k]).Success?
    requires Encode(o.elements[j]).Failure?
    ensures Encode(o) == Failure(Encode(o.elements[j]).error)
  {
    assert o.lengths[0..][1..] == o.lengths[1..];
    EntriesFailAt(o, 0, o.lengths[0], 0, j);
  }

  lemma {:induction false} EntryLiteralsFailAt(d: Value, i: nat, j: nat)
    requires d.DictionaryValue? && i <= j < |d.entries|
    requires forall k :: i <= k < j ==> Encode(d.entries[k].key).Success? && Encode(d.entries[k].value).Success?
    requires Encode(d.entries[j].key).Failure? || Encode(d.entries[j].value).Failure?
    ensures EntryLiterals(d, i) == Failure(
      if Encode(d.entries[j].key).Failure? then Encode(d.entries[j].key).error
      else Encode(d.entries[j].value).error)
    decreases j - i
  {
    if i < j {
      EntryLiteralsFailAt(d, i + 1, j);
    }
  }

  /** Dictionaries: the first entry whose key or value cannot be encoded
      makes the whole dictionary fail, with the key's error when the key
      fails and otherwise with the value's. */
  lemma DictionaryFailurePropagates(o: Value, j: nat)
    requires o.DictionaryValue? && j < |o.entries|
    requires forall k :: 0 <= k < j ==> Encode(o.entries[k].key).Success? && Encode(o.entries[k].value).Success?
    requires Encode(o.entries[j].key).Failure? || Encode(o.entries[j].value).Failure?
    ensures Encode(o) == Failure(
      if Encode(o.entries[j].key).Failure? then Encode(o.entries[j].key).error
      else Encode(o.entries[j].value).error)
  {
    EntryLiteralsFailAt(o, 0, j);
  }

  // ------------------------------------------------------------------- names

  /** A type whose `GetName` does not hit a missing backtick. */
  predicate NameResolves(ty: ClrType)
    decreases ty
  {
    !ty.isGenericType ||
    ('`' in ty.fullName && forall i :: 0 <= i < |ty.genericArguments| ==> NameResolves(ty.genericArguments[i]))
  }

  /** Every non-generic `FullName` in the type is free of backticks. */
  predicate ArityFree(ty: ClrType)
    decreases ty
  {
    (!ty.isGenericType ==> '`' !in ty.fullName) &&
    forall i :: 0 <= i < |ty.genericArguments| ==> ArityFree(ty.genericArguments[i])
  }

  /** `GetName` raises exactly when some generic `FullName` has no backtick;
      otherwise it spells every generic type as `Name<Args>`, so no arity
      marker survives into the C# name. */
  lemma {:induction false} GetNameFacts(ty: ClrType)
    ensures GetName(ty).Success? <==> NameResolves(ty)
    ensures GetName(ty).Failure? ==> GetName(ty).error == Crash(ArgumentOutOfRange)
    ensures GetName(ty).Success? && ArityFree(ty) ==> '`' !in GetName(ty).value
    decreases ty, 1
  {
    if ty.isGenericType {
      var tick := IndexOf(ty.fullName, '`');
      if tick >= 0 {
        GetArgumentNamesFacts(ty, 0);
        var r := GetName(ty);
        if r.Success? && ArityFree(ty) {
          var prefix := ty.fullName[..tick];
          OccurrencesZero(prefix, '`');
          GenericNameTickFree(prefix, GetArgumentNames(ty, 0).value);
        }
      }
    }
  }

  /** `Prefix<A, B, ...>` has no backtick when neither the prefix nor any
      argument name has one. */
  lemma GenericNameTickFree(prefix: string, names: seq<string>)
    requires '`' !in prefix
    requires forall j :: 0 <= j < |names| ==> '`' !in names[j]
    ensures '`' !in prefix + "<" + Join(names, ", ") + ">"
  {
    OccurrencesZero(prefix, '`');
    if |names| == 0 {
      OccurrencesZero(Join(names, ", "), '`');
    } else {
      OccurrencesInAllZero(names, '`');
      JoinOccurrences(names, ", ", '`');
      OccurrencesZero(Join(names, ", "), '`');
    }
    OccurrencesAppend(prefix, "<", '`');
    OccurrencesAppend(prefix + "<", Join(names, ", "), '`');
    OccurrencesAppend(prefix + "<" + Join(names, ", "), ">", '`');
    OccurrencesZero(prefix + "<" + Join(names, ", ") + ">", '`');
  }

  lemma {:induction false} GetArgumentNamesFacts(ty: ClrType, i: nat)
    requires i <= |ty.genericArguments|
    ensures GetArgumentNames(ty, i).Success? <==>
      forall j :: i <= j < |ty.genericArguments| ==> NameResolves(ty.genericArguments[j])
    ensures GetArgumentNames(ty, i).Failure? ==> GetArgumentNames(ty, i).error == Crash(ArgumentOutOfRange)
    ensures GetArgumentNames(ty, i).Success? ==>
      |GetArgumentNames(ty, i).value| == |ty.genericArguments| - i
    ensures GetArgumentNames(ty, i).Success? && ArityFree(ty) ==>
      forall j :: 0 <= j < |GetArgumentNames(ty, i).value| ==> '`' !in GetArgumentNames(ty, i).value[j]
    decreases ty, 0, |ty.genericArguments| - i
  {
    if i < |ty.genericArguments| {
      GetNameFacts(ty.genericArguments[i]);
      GetArgumentNamesFacts(ty, i + 1);
    }
  }

  // ------------------------------------------------------------ encodability

  /** An independent description of the values `GetLiteral` accepts: no null,
      no object outside the recognised shapes, no enumerable that is neither an
      `ICollection` nor has a single `Add`, enough elements for every array's
      shape, and resolvable container type names. */
  predicate Encodable(o: Value)
    decreases o
  {
    match o
    case Null => false
    case OpaqueValue(_) => false
    case ArrayValue(ty, lengths, elements) =>
      && Product(lengths) <= |elements|
      && (forall k :: 0 <= k < Product(lengths) && k < |elements| ==> Encodable(elements[k]))
      && NameResolves(ty)
    case DictionaryValue(ty, entries) =>
      && (forall j :: 0 <= j < |entries| ==> Encodable(entries[j].key) && Encodable(entries[j].value))
      && NameResolves(ty)
    case SequenceValue(ty, isCollection, addMethods, items) =>
      && (isCollection || addMethods == 1)
      && (forall j :: 0 <= j < |items| ==> Encodable(items[j]))
      && NameResolves(ty)
    case _ => true
  }

  /** `GetLiteral` succeeds exactly on the encodable values. */
  lemma {:induction false} EncodeSucceedsIff(o: Value)
    ensures Encode(o).Success? <==> Encodable(o)
    decreases o
  {
    match o
    case ArrayValue(ty, lengths, elements) =>
      LiteralsShape(o, 0, 0);
      assert lengths[0..] == lengths;
      GetNameFacts(ty);
      forall k | 0 <= k < |elements|
        ensures Encode(elements[k]).Success? <==> Encodable(elements[k])
      {
        EncodeSucceedsIff(elements[k]);
      }
    case DictionaryValue(ty, entries) =>
      EntryLiteralsShape(o, 0);
      GetNameFacts(ty);
      forall j | 0 <= j < |entries|
        ensures Encode(entries[j].key).Success? <==> Encodable(entries[j].key)
        ensures Encode(entries[j].value).Success? <==> Encodable(entries[j].value)
      {
        EncodeSucceedsIff(entries[j].key);
        EncodeSucceedsIff(entries[j].value);
      }
    case SequenceValue(ty, isCollection, addMethods, items) =>
      ItemLiteralsShape(o, 0);
      GetNameFacts(ty);
      forall j | 0 <= j < |items|
        ensures Encode(items[j]).Success? <==> Encodable(items[j])
      {
        EncodeSucceedsIff(items[j]);
      }
    case _ =>
  }

  /** The errors an `Encode` call can raise. */
  predicate EncodeKind(e: EncodeError)
  {
    e.NotLiteral? || (e.Crash? && e.fault in {NullReference, InvalidOperation, ArgumentOutOfRange, AmbiguousMatch("Add")})
  }

  /** A failed encoding is either the `SerializationException` the generator
      reports ("Can't convert object of type ..."), or one of the exceptions
      that escape it: a null somewhere in the value, an array enumerator run
      dry, an ambiguous `Add`, or a generic name without backtick. Encoding
      never raises the serialization errors that belong to the deserializer. */
  lemma {:induction false} EncodeErrorKinds(o: Value)
    ensures Encode(o).Failure? ==> EncodeKind(Encode(o).error)
    decreases o, 2, 0, 0
  {
    match o
    case ArrayValue(ty, _, _) =>
      EntriesErrorKinds(o, 0, o.lengths[0], 0);
      GetNameFacts(ty);
    case DictionaryValue(ty, _) =>
      DictionaryErrorKinds(o, 0);
      GetNameFacts(ty);
    case SequenceValue(ty, _, _, _) =>
      ItemErrorKinds(o, 0);
      GetNameFacts(ty);
    case _ =>
  }

  lemma {:induction false} EntriesErrorKinds(a: Value, dim: nat, count: nat, pos: nat)
    requires a.ArrayValue? && dim < |a.lengths|
    ensures ArrayEntries(a, dim, count, pos).Failure? ==> EncodeKind(ArrayEntries(a, dim, count, pos).error)
    decreases a, 1, |a.lengths| - dim, count
  {
    if count > 0 {
      EntryErrorKinds(a, dim, pos);
      var first := ArrayEntry(a, dim, pos);
      if first.Success? {
        EntriesErrorKinds(a, dim, count - 1, first.value.1);
      }
    }
  }

  lemma {:induction false} EntryErrorKinds(a: Value, dim: nat, pos: nat)
    requires a.ArrayValue? && dim < |a.lengths|
    ensures ArrayEntry(a, dim, pos).Failure? ==> EncodeKind(ArrayEntry(a, dim, pos).error)
    decreases a, 1, |a.lengths| - dim, 0
  {
    if dim == |a.lengths| - 1 {
      if pos < |a.elements| {
        EncodeErrorKinds(a.elements[pos]);
      }
    } else {
      EntriesErrorKinds(a, dim + 1, a.lengths[dim + 1], pos);
    }
  }

  lemma {:induction false} DictionaryErrorKinds(d: Value, i: nat)
    requires d.DictionaryValue? && i <= |d.entries|
    ensures EntryLiterals(d, i).Failure? ==> EncodeKind(EntryLiterals(d, i).error)
    decreases d, 1, 0, |d.entries| - i
  {
    if i < |d.entries| {
      EncodeErrorKinds(d.entries[i].key);
      EncodeErrorKinds(d.entries[i].value);
      DictionaryErrorKinds(d, i + 1);
    }
  }

  lemma {:induction false} ItemErrorKinds(c: Value, i: nat)
    requires c.SequenceValue? && i <= |c.items|
    ensures ItemLiterals(c, i).Failure? ==> EncodeKind(ItemLiterals(c, i).error)
    decreases c, 1, 0, |c.items| - i
  {
    if i < |c.items| {
      EncodeErrorKinds(c.items[i]);
      ItemErrorKinds(c, i + 1);
    }
  }

  // ------------------------------------------------------------ deserializer

  /** Reads the bytes back out of the items of a `byte[]` literal: every item
      must be an unsuffixed integer token in 0..255. */
  function LiteralBytes(items: seq<Literal>): Option<seq<bv8>>
  {
    if |items| == 0 then Some([])
    else if items[0].IntegerLit? && items[0].suffix == NoSuffix && 0 <= items[0].n < 256 then
      match LiteralBytes(items[1..])
      case Some(rest) => Some([items[0].n as bv8] + rest)
      case None => None
    else None
  }

  lemma {:induction false} LiteralBytesOf(items: seq<Literal>, bytes: seq<bv8>)
    requires |items| == |bytes|
    requires forall i :: 0 <= i < |items| ==> items[i] == IntegerLit(bytes[i] as int, NoSuffix)
    ensures LiteralBytes(items) == Some(bytes)
    decreases |items|
  {
    if |items| > 0 {
      LiteralBytesOf(items[1..], bytes[1..]);
      assert [items[0].n as bv8] + bytes[1..] == bytes;
    }
  }

  /** The serialized blob is embedded as `new System.Byte[] {...}` whose items
      are the bytes, in order: reading the items back gives the blob. */
  lemma ByteArrayRoundTrip(bytes: seq<bv8>)
    ensures Encode(ByteArray(bytes)).Success?
    ensures var l := Encode(ByteArray(bytes)).value;
      && l.NewLit?
      && l.typeName == "System.Byte[]"
      && LiteralBytes(l.items) == Some(bytes)
  {
    var o := ByteArray(bytes);
    assert Product(o.lengths) == |bytes| by {
      assert o.lengths[1..] == [];
    }
    forall k | 0 <= k < |bytes|
      ensures Encodable(o.elements[k])
    {
    }
    EncodeSucceedsIff(o);
    ArrayEncoding(o);
    var l := Encode(o).value;
    LeavesAllFlat(l.items);
    assert o.lengths[0] == |bytes|;
    forall i | 0 <= i < |l.items|
      ensures l.items[i] == IntegerLit(bytes[i] as int, NoSuffix)
    {
      assert Encode(o.elements[0 + i]) == Success(l.items[i]);
    }
    LiteralBytesOf(l.items, bytes);
  }

  /** `GetDeserializer` fails, in this order, on a null value (an escaping
      `NullReferenceException`), on a value whose runtime type is not
      serializable, on a formatter error, and on a return type whose name does
      not resolve; otherwise it emits the deserializing block around a
      `byte[]` literal from which the serialized bytes read back, cast to the
      declared return type's C# name. */
  lemma DeserializerOutcome(o: Value, returnType: ClrType, serialized: Result<seq<bv8>, string>, fmt: Formatter)
    ensures o.Null? ==> GetDeserializer(o, returnType, serialized, fmt) == Failure(Crash(NullReference))
    ensures !o.Null? && !TypeOf(o).isSerializable ==>
      GetDeserializer(o, returnType, serialized, fmt) == Failure(NotSerializable(TypeOf(o)))
      && GetDeserializer(o, returnType, serialized, fmt).error.Message()
         == "Can't serialize object of type " + TypeOf(o).display + "!"
    ensures !o.Null? && TypeOf(o).isSerializable && serialized.Failure? ==>
      GetDeserializer(o, returnType, serialized, fmt) == Failure(FormatterFailed(serialized.error))
    ensures !o.Null? && TypeOf(o).isSerializable && serialized.Success? ==>
      (GetDeserializer(o, returnType, serialized, fmt).Success? <==> NameResolves(returnType))
    ensures GetDeserializer(o, returnType, serialized, fmt).Success? ==>
      && serialized.Success?
      && Encode(ByteArray(serialized.value)).Success? && GetName(returnType).Success?
      && var l := Encode(ByteArray(serialized.value)).value;
      && l.NewLit? && l.typeName == "System.Byte[]"
      && LiteralBytes(l.items) == Some(serialized.value)
      && GetDeserializer(o, returnType, serialized, fmt).value
         == DeserializerText(Render(l, fmt), GetName(returnType).value)
  {
    GetNameFacts(returnType);
    if serialized.Success? {
      ByteArrayRoundTrip(serialized.value);
    }
  }
}
