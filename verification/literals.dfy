/** The value encoder of LiteralExtensions.cs: a runtime value returned by a
    designated member becomes either a C# literal expression that rebuilds it
    (`GetLiteral`) or a block that deserializes an embedded byte blob
    (`GetDeserializer`).

    The encoder is split in two steps: `Encode` builds the syntax of the
    literal (a `Literal` tree) and `Render` prints that tree exactly as the
    source's string interpolation does. `GetLiteral` is the composition. */
module Literals {

  import opened Wrappers
  import opened Strings
  import opened Exceptions

  /** A runtime `System.Type`, reduced to what the encoder asks of it. */
  datatype ClrType = ClrType(
    /** `Type.FullName`; for a generic type it carries the arity marker, as in "System.Collections.Generic.List`1[...]" */
    fullName: string,
    /** `Type.ToString()`, the text used in exception messages */
    display: string,
    /** `Type.IsGenericType` */
    isGenericType: bool,
    /** `Type.GetGenericArguments()` */
    genericArguments: seq<ClrType>,
    /** `Type.IsSerializable` */
    isSerializable: bool)

  /** The integral primitive types the encoder recognises. */
  datatype IntKind = SByte | Byte | Int16 | UInt16 | Int32 | UInt32 | Int64 | UInt64

  datatype FloatKind = Single | Double

  function MinOf(k: IntKind): int
  {
    match k
    case SByte => -0x80
    case Byte => 0
    case Int16 => -0x8000
    case UInt16 => 0
    case Int32 => -0x8000_0000
    case UInt32 => 0
    case Int64 => -0x8000_0000_0000_0000
    case UInt64 => 0
  }

  function MaxOf(k: IntKind): int
  {
    match k
    case SByte => 0x7F
    case Byte => 0xFF
    case Int16 => 0x7FFF
    case UInt16 => 0xFFFF
    case Int32 => 0x7FFF_FFFF
    case UInt32 => 0xFFFF_FFFF
    case Int64 => 0x7FFF_FFFF_FFFF_FFFF
    case UInt64 => 0xFFFF_FFFF_FFFF_FFFF
  }

  predicate InRange(k: IntKind, n: int)
  {
    MinOf(k) <= n <= MaxOf(k)
  }

  /** The kinds narrower than `int` that the encoder widens to `int`. */
  predicate IsNarrow(k: IntKind)
  {
    k == SByte || k == Byte || k == Int16 || k == UInt16
  }

  /** The lengths of an array's dimensions, outermost first; every .NET array
      has rank at least 1. */
  type Lengths = s: seq<nat> | |s| >= 1 witness [0]

  /** A runtime object, classified by the shapes `GetLiteral` tells apart. */
  datatype Value =
    | Null
    | Integral(kind: IntKind, n: int)
    /** `float` or `double`, kept as its IEEE bit pattern */
    | Floating(fkind: FloatKind, bits: nat)
    | Character(c: char)
    | Text(s: string)
    | Boolean(b: bool)
    /** an enum value and the text of its `ToString()`, e.g. "Static, Public" */
    | EnumValue(ty: ClrType, text: string)
    /** an array of any rank; `elements` is the order its enumerator yields (row-major) */
    | ArrayValue(ty: ClrType, lengths: Lengths, elements: seq<Value>)
    /** an `IDictionary`, entries in enumeration order */
    | DictionaryValue(ty: ClrType, entries: seq<Entry>)
    /** any other `IEnumerable`: whether it is an `ICollection`, how many public
        methods named `Add` its type has, and its items in enumeration order */
    | SequenceValue(ty: ClrType, isCollection: bool, addMethods: nat, items: seq<Value>)
    /** any object that is none of the above (a struct, a tuple, a class) */
    | OpaqueValue(ty: ClrType)

  datatype Entry = Entry(key: Value, value: Value)

  function PrimitiveType(fullName: string): ClrType
  {
    ClrType(fullName, fullName, false, [], true)
  }

  function IntegralType(k: IntKind): ClrType
  {
    PrimitiveType(
      match k
      case SByte => "System.SByte"
      case Byte => "System.Byte"
      case Int16 => "System.Int16"
      case UInt16 => "System.UInt16"
      case Int32 => "System.Int32"
      case UInt32 => "System.UInt32"
      case Int64 => "System.Int64"
      case UInt64 => "System.UInt64")
  }

  const VoidType: ClrType := PrimitiveType("System.Void")
  const ByteArrayType: ClrType := PrimitiveType("System.Byte[]")

  /** `o.GetType()`; it raises on null, so it is only asked of other values. */
  function TypeOf(o: Value): ClrType
    requires !o.Null?
  {
    match o
    case Integral(k, _) => IntegralType(k)
    case Floating(k, _) => PrimitiveType(if k == Single then "System.Single" else "System.Double")
    case Character(_) => PrimitiveType("System.Char")
    case Text(_) => PrimitiveType("System.String")
    case Boolean(_) => PrimitiveType("System.Boolean")
    case EnumValue(ty, _) => ty
    case ArrayValue(ty, _, _) => ty
    case DictionaryValue(ty, _) => ty
    case SequenceValue(ty, _, _, _) => ty
    case OpaqueValue(ty) => ty
  }

  /** The type suffix Roslyn writes after an integer literal. */
  datatype Suffix = NoSuffix | U | L | UL

  /** The syntax of an emitted literal expression. */
  datatype Literal =
    /** an integer token: decimal digits, then the suffix */
    | IntegerLit(n: int, suffix: Suffix)
    | FloatingLit(fkind: FloatKind, bits: nat)
    | CharLit(c: char)
    | StringLit(s: string)
    | BoolLit(b: bool)
    /** `T.a | T.b | ...` */
    | FlagsLit(enumName: string, flags: seq<string>)
    /** `{a, b, ...}`: one array row, or one dictionary entry `{key, value}` */
    | BracesLit(items: seq<Literal>)
    /** `new T {a, b, ...}` */
    | NewLit(typeName: string, items: seq<Literal>)

  /** Roslyn's token text for the primitives whose spelling the model does not
      reproduce: escaped `char` and `string` tokens, and round-trip `float` and
      `double` tokens. */
  datatype Formatter = Formatter(
    charToken: char -> string,
    stringToken: string -> string,
    floatingToken: (FloatKind, nat) -> string)

  /** What encoding can raise. The first three are `SerializationException`s,
      which the generator catches and reports; a `Crash` is any other
      exception and escapes the generator. */
  datatype EncodeError =
    | NotLiteral(ty: ClrType)
    | NotSerializable(ty: ClrType)
    | FormatterFailed(message: string)
    | Crash(fault: Fault)
  {
    predicate IsSerializationException()
    {
      !Crash?
    }

    function Message(): string
      requires IsSerializationException()
    {
      match this
      case NotLiteral(ty) => "Can't convert object of type " + ty.display + " to a literal!"
      case NotSerializable(ty) => "Can't serialize object of type " + ty.display + "!"
      case FormatterFailed(message) => message
    }
  }

  /** `LiteralExtensions.GetName`: a type's C# spelling. A generic type's
      `FullName` is cut at its first backtick and its arguments follow in
      angle brackets; `Substring` raises when there is no backtick. */
  function GetName(ty: ClrType): Result<string, EncodeError>
    decreases ty, 1
  {
    if !ty.isGenericType then Success(ty.fullName)
    else
      var tick := IndexOf(ty.fullName, '`');
      if tick < 0 then Failure(Crash(ArgumentOutOfRange))
      else
        var arguments :- GetArgumentNames(ty, 0);
        Success(ty.fullName[..tick] + "<" + Join(arguments, ", ") + ">")
  }

  /** The names of `ty`'s generic arguments from position `i` on. */
  function GetArgumentNames(ty: ClrType, i: nat): Result<seq<string>, EncodeError>
    requires i <= |ty.genericArguments|
    decreases ty, 0, |ty.genericArguments| - i
  {
    if i == |ty.genericArguments| then Success([])
    else
      var first :- GetName(ty.genericArguments[i]);
      var rest :- GetArgumentNames(ty, i + 1);
      Success([first] + rest)
  }

  function SuffixOf(k: IntKind): Suffix
  {
    match k
    case UInt32 => U
    case Int64 => L
    case UInt64 => UL
    case _ => NoSuffix
  }

  /** The components of an enum's `ToString()` text: split at commas, trimmed. */
  function FlagNames(text: string): seq<string>
  {
    var parts := Split(text, ',');
    seq(|parts|, i requires 0 <= i < |parts| => Trim(parts[i]))
  }

  /** `LiteralExtensions.GetLiteral`, as a syntax tree. */
  function Encode(o: Value): Result<Literal, EncodeError>
    decreases o, 2, 0, 0
  {
    match o
    case Null => Failure(Crash(NullReference))
    case Integral(k, n) => Success(IntegerLit(n, SuffixOf(k)))
    case Floating(k, bits) => Success(FloatingLit(k, bits))
    case Character(c) => Success(CharLit(c))
    case Text(s) => Success(StringLit(s))
    case Boolean(b) => Success(BoolLit(b))
    case EnumValue(ty, text) => Success(FlagsLit(ty.fullName, FlagNames(text)))
    case ArrayValue(ty, _, _) =>
      var rows :- ArrayLiterals(o, 0, 0);
      var name :- GetName(ty);
      Success(NewLit(name, rows.0))
    case DictionaryValue(ty, _) =>
      var entries :- EntryLiterals(o, 0);
      var name :- GetName(ty);
      Success(NewLit(name, entries))
    case SequenceValue(ty, isCollection, addMethods, _) =>
      if !isCollection && addMethods > 1 then Failure(Crash(AmbiguousMatch("Add")))
      else if !isCollection && addMethods == 0 then Failure(NotLiteral(ty))
      else
        var items :- ItemLiterals(o, 0);
        var name :- GetName(ty);
        Success(NewLit(name, items))
    case OpaqueValue(ty) => Failure(NotLiteral(ty))
  }

  /** `GetArrayLiterals(array, enumerator, dim)`: the `lengths[dim]` entries of
      dimension `dim`, reading the element stream from position `pos`.
      Returns the entries and the stream position after the last element read. */
  function ArrayLiterals(a: Value, dim: nat, pos: nat): Result<(seq<Literal>, nat), EncodeError>
    requires a.ArrayValue? && dim < |a.lengths|
    decreases a, 1, |a.lengths| - dim, a.lengths[dim] + 1
  {
    ArrayEntries(a, dim, a.lengths[dim], pos)
  }

  /** The loop of `GetArrayLiterals`: `count` consecutive entries of dimension `dim`. */
  function ArrayEntries(a: Value, dim: nat, count: nat, pos: nat): Result<(seq<Literal>, nat), EncodeError>
    requires a.ArrayValue? && dim < |a.lengths|
    decreases a, 1, |a.lengths| - dim, count
  {
    if count == 0 then Success(([], pos))
    else
      var first :- ArrayEntry(a, dim, pos);
      var rest :- ArrayEntries(a, dim, count - 1, first.1);
      Success(([first.0] + rest.0, rest.1))
  }

  /** One entry of dimension `dim`: in the last dimension the next element of
      the stream (`MoveNext`, then `Current`), otherwise a braced row of the
      next dimension. */
  function ArrayEntry(a: Value, dim: nat, pos: nat): Result<(Literal, nat), EncodeError>
    requires a.ArrayValue? && dim < |a.lengths|
    decreases a, 1, |a.lengths| - dim, 0
  {
    if dim == |a.lengths| - 1 then
      if pos < |a.elements| then
        var element :- Encode(a.elements[pos]);
        Success((element, pos + 1))
      else
        Failure(Crash(InvalidOperation))
    else
      var inner :- ArrayLiterals(a, dim + 1, pos);
      Success((BracesLit(inner.0), inner.1))
  }

  /** The `{key, value}` entries of a dictionary from position `i` on. */
  function EntryLiterals(d: Value, i: nat): Result<seq<Literal>, EncodeError>
    requires d.DictionaryValue? && i <= |d.entries|
    decreases d, 1, 0, |d.entries| - i
  {
    if i == |d.entries| then Success([])
    else
      var key :- Encode(d.entries[i].key);
      var value :- Encode(d.entries[i].value);
      var rest :- EntryLiterals(d, i + 1);
      Success([BracesLit([key, value])] + rest)
  }

  /** The literals of an enumerable's items from position `i` on. */
  function ItemLiterals(c: Value, i: nat): Result<seq<Literal>, EncodeError>
    requires c.SequenceValue? && i <= |c.items|
    decreases c, 1, 0, |c.items| - i
  {
    if i == |c.items| then Success([])
    else
      var first :- Encode(c.items[i]);
      var rest :- ItemLiterals(c, i + 1);
      Success([first] + rest)
  }

  function SuffixText(s: Suffix): string
  {
    match s
    case NoSuffix => ""
    case U => "U"
    case L => "L"
    case UL => "UL"
  }

  /** The printed form of a literal, as the source's interpolated strings build it. */
  function Render(l: Literal, fmt: Formatter): string
    decreases l
  {
    match l
    case IntegerLit(n, s) => IntText(n) + SuffixText(s)
    case FloatingLit(k, bits) => fmt.floatingToken(k, bits)
    case CharLit(c) => fmt.charToken(c)
    case StringLit(s) => fmt.stringToken(s)
    case BoolLit(b) => if b then "true" else "false"
    case FlagsLit(e, flags) =>
      Join(seq(|flags|, i requires 0 <= i < |flags| => e + "." + flags[i]), " | ")
    case BracesLit(items) =>
      "{" + Join(seq(|items|, i requires 0 <= i < |items| => Render(items[i], fmt)), ", ") + "}"
    case NewLit(t, items) =>
      "new " + t + " {" + Join(seq(|items|, i requires 0 <= i < |items| => Render(items[i], fmt)), ", ") + "}"
  }

  /** `LiteralExtensions.GetLiteral`: the literal text of a value. */
  function GetLiteral(o: Value, fmt: Formatter): Result<string, EncodeError>
  {
    var l :- Encode(o);
    Success(Render(l, fmt))
  }

  /** The suffix a token ends in, the longest one first. */
  function ReadSuffix(t: string): Suffix
  {
    if |t| >= 2 && t[|t| - 2..] == "UL" then UL
    else if |t| >= 1 && t[|t| - 1] == 'U' then U
    else if |t| >= 1 && t[|t| - 1] == 'L' then L
    else NoSuffix
  }

  /** How a C# reader takes an integer token: decimal digits with an optional
      sign, then an optional `U`, `L` or `UL` suffix. */
  function ReadIntegerToken(t: string): Option<(int, Suffix)>
  {
    var suffix := ReadSuffix(t);
    var digits := t[..|t| - |SuffixText(suffix)|];
    match ReadInt(digits)
    case Some(n) => Some((n, suffix))
    case None => None
  }

  /** The C# type of an integer literal of value `n`: the first type of the
      suffix's list that holds `n`. */
  function LiteralKind(n: int, s: Suffix): Option<IntKind>
  {
    var candidates :=
      match s
      case NoSuffix => [Int32, UInt32, Int64, UInt64]
      case U => [UInt32, UInt64]
      case L => [Int64, UInt64]
      case UL => [UInt64];
    FirstHolding(candidates, n)
  }

  function FirstHolding(kinds: seq<IntKind>, n: int): Option<IntKind>
  {
    if |kinds| == 0 then None
    else if InRange(kinds[0], n) then Some(kinds[0])
    else FirstHolding(kinds[1..], n)
  }

  /** The `byte[]` the formatter produced, as a runtime array value. */
  function ByteArray(bytes: seq<bv8>): Value
  {
    ArrayValue(ByteArrayType, [|bytes|], seq(|bytes|, i requires 0 <= i < |bytes| => Integral(Byte, bytes[i] as int)))
  }

  /** The block `GetDeserializer` emits around the byte-array literal and the
      cast to the declared return type. */
  function DeserializerText(bytesLiteral: string, typeName: string): string
  {
    "{\n            using(var ms = new System.IO.MemoryStream(" + bytesLiteral + "))\n            {\n"
    + "                return (" + typeName
    + ")(new System.Runtime.Serialization.Formatters.Binary.BinaryFormatter().Deserialize(ms));\n"
    + "            }\n        }"
  }

  /** `LiteralExtensions.GetDeserializer`. `serialized` is what
      `BinaryFormatter.Serialize` produced for `o`: its bytes, or the message of
      the `SerializationException` it raised. */
  function GetDeserializer(o: Value, returnType: ClrType, serialized: Result<seq<bv8>, string>, fmt: Formatter)
    : Result<string, EncodeError>
  {
    if o.Null? then Failure(Crash(NullReference))
    else if !TypeOf(o).isSerializable then Failure(NotSerializable(TypeOf(o)))
    else if serialized.Failure? then Failure(FormatterFailed(serialized.error))
    else
      var bytesLiteral :- GetLiteral(ByteArray(serialized.value), fmt);
      var name :- GetName(returnType);
      Success(DeserializerText(bytesLiteral, name))
  }
}
