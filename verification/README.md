# CompileTimeExecution, modelled in Dafny

CompileTimeExecution is a Roslyn source generator. It runs members marked
`[CompileTimeExecution]` while the project builds and bakes their results
into the program. First it rebuilds the project with the preprocessor
symbol `CompileTimeExecution` defined, and loads that secondary build. Then
it walks the syntax trees for attributed methods and properties, in
document order. Each such member is:

1. bound to its runtime counterpart by reflection;
2. checked: it must be static, have no parameters and not be generic;
3. invoked once;
4. turned into a replacement declaration. Its body is either a C# literal
   that rebuilds the returned value (`=> literal;`), or a block that
   deserializes an embedded `BinaryFormatter` byte array
   (`Deserialize = true`).

The declaration is reopened in its containing partial classes and its
namespace, then added as a new source. Failures are reported as
diagnostics CTE0000 through CTE0006. Any exception other than
`SerializationException` ends the pass.

The model consists of these modules:

- `Wrappers` and `Exceptions`: `Option`, `Result` and the .NET exceptions
  that can escape the generator (`Fault`).
- `Strings`: the .NET string operations the generator relies on. These are
  `string.Join`, `Split`, `Trim` and invariant-culture integer text.
- `Literals`: the value encoder of LiteralExtensions.cs. It builds a
  literal syntax tree (`Encode`) and prints it (`Render`); `GetName`,
  `GetDeserializer` and the error messages live here too.
- `LiteralProperties`: round trips and shape theorems for the encoder.
- `Symbols`: declared symbols, and their full and runtime names, binding
  flags and accessibility keywords (SymbolExtensions.cs).
- `Reflection`: the loaded assembly and `GetMember`.
- `Syntax`: attribute name syntax and `GetLocalName` (SyntaxExtensions.cs).
- `Walker`: `IsAttributed` and the walk (AttributedMemberWalker.cs), with
  the marker-name test as the code writes it.
- `Generator`: `Execute`, `ProcessMember`, the body builders and the file
  text (Generator.cs).
- `GeneratorProperties`: the check cascade, the invocation discipline,
  body modes, scope nesting and failure isolation.
- `Scenarios`: the repository's side-effect and nested-type tests, worked
  through the model.

Roslyn and the runtime are parameters of the model:

- re-parsing and emitting the secondary build (`Host.reparse`, `Host.emit`);
- invoking user code, as a function over a world state `S`;
- `BinaryFormatter.Serialize`;
- Roslyn's display strings (`Display`);
- Roslyn's token text for `char`, `string`, `float` and `double`
  (`Formatter`).

## Model

| member | source | states |
|---|---|---|
| LiteralProperties.IntegralRoundTrip | CompileTimeExecution/LiteralExtensions.cs:49-60 | every in-range integral value prints as digits plus its kind's suffix; a reader recovers exactly the value and suffix; the token's C# type is the kind itself for uint/long/ulong and int for int and narrower kinds |
| LiteralProperties.IntegerTokenRoundTrip | CompileTimeExecution/LiteralExtensions.cs:53-60 | decimal text plus any suffix reads back as the same number and suffix |
| LiteralProperties.LiteralKindOfSuffix | CompileTimeExecution/LiteralExtensions.cs:49-60 | narrow kinds are emitted as unsuffixed int constants; uint, long and ulong carry the suffix that gives their own type |
| LiteralProperties.EnumTermPerComponent | CompileTimeExecution/LiteralExtensions.cs:71-72 | an enum literal has one `FullName.flag` term per comma-separated component of the enum's text |
| LiteralProperties.FlagNamesJoin | CompileTimeExecution/LiteralExtensions.cs:72 | splitting ", "-joined flag names at commas and trimming gives back exactly the flags |
| LiteralProperties.EnumFlagsRoundTrip | CompileTimeExecution/LiteralExtensions.cs:71-72 | the enum literal names exactly the value's flags, in the order the enum's text lists them |
| LiteralProperties.EnumLiteralText | CompileTimeExecution/LiteralExtensions.cs:71-72 | k flags print as k `FullName.flag` terms joined by `" \| "`, with exactly k-1 bars |
| LiteralProperties.EntryShape | CompileTimeExecution/LiteralExtensions.cs:28-39 | one entry of a dimension consumes the product of the inner lengths from the element stream, succeeds exactly when those elements encode, and nests one brace level per inner dimension |
| LiteralProperties.EntriesShape | CompileTimeExecution/LiteralExtensions.cs:28-40 | `count` entries consume `count` times an entry's share of the stream, in order |
| LiteralProperties.LiteralsShape | CompileTimeExecution/LiteralExtensions.cs:23-42 | GetArrayLiterals returns GetLength(dim) entries, moves the enumerator through the product of the remaining lengths, and its leaves are that stream's literals |
| LiteralProperties.ArrayEncoding | CompileTimeExecution/LiteralExtensions.cs:75-96 | an array prints as `new T {...}` with GetLength(0) entries, rank-1 brace levels, and leaves that are the row-major elements in order |
| LiteralProperties.JaggedRows | CompileTimeExecution/LiteralExtensions.cs:30-34 | each row of a jagged array is its own `new T[] {...}` with that row's elements in order |
| LiteralProperties.EntryLiteralsShape | CompileTimeExecution/LiteralExtensions.cs:83-88 | dictionary entries encode exactly when every key and value does, one `{key, value}` pair per entry in order |
| LiteralProperties.DictionaryEncoding | CompileTimeExecution/LiteralExtensions.cs:83-96 | a dictionary prints as `new T {...}` with one `{key, value}` per entry, in enumeration order |
| LiteralProperties.ItemLiteralsShape | CompileTimeExecution/LiteralExtensions.cs:89-94 | enumerable items encode exactly when each item does, one literal per item in order |
| LiteralProperties.SequenceEncoding | CompileTimeExecution/LiteralExtensions.cs:75-96 | another enumerable is encoded only if it is a collection or has exactly one Add, and prints as `new T {...}` with one literal per item |
| LiteralProperties.ItemFailureAt | CompileTimeExecution/LiteralExtensions.cs:90-93 | the first item that fails to encode decides the error of the whole item list |
| LiteralProperties.NestedFailurePropagates | CompileTimeExecution/LiteralExtensions.cs:89-98 | an enumerable whose first unencodable item is j fails with item j's error |
| LiteralProperties.ArrayFailurePropagates | CompileTimeExecution/LiteralExtensions.cs:23-42 | an array whose first unencodable element in row-major order is j, within the elements it reads, fails with element j's error |
| LiteralProperties.DictionaryFailurePropagates | CompileTimeExecution/LiteralExtensions.cs:83-88 | a dictionary whose first unencodable entry is j fails with that entry's key error, or its value error when the key encodes |
| LiteralProperties.GetNameFacts | CompileTimeExecution/LiteralExtensions.cs:13-21 | GetName fails exactly when a generic FullName lacks a backtick, and then with ArgumentOutOfRange; otherwise no arity marker survives in the C# name |
| LiteralProperties.GetArgumentNamesFacts | CompileTimeExecution/LiteralExtensions.cs:19-20 | the generic argument names resolve exactly when every argument's name does, one name per argument |
| LiteralProperties.EncodeSucceedsIff | CompileTimeExecution/LiteralExtensions.cs:44-99 | GetLiteral succeeds exactly on values with no null, no opaque object, complete arrays, resolvable type names, and every other enumerable a collection or with exactly one Add |
| LiteralProperties.EncodeErrorKinds | CompileTimeExecution/LiteralExtensions.cs:44-99 | a failed encoding is the "Can't convert" SerializationException, or an escaping null reference, exhausted enumerator, ambiguous Add or missing backtick |
| LiteralProperties.ByteArrayRoundTrip | CompileTimeExecution/LiteralExtensions.cs:111-113 | the serialized bytes print as `new System.Byte[] {...}` whose items read back as exactly those bytes |
| LiteralProperties.DeserializerOutcome | CompileTimeExecution/LiteralExtensions.cs:102-121 | null raises NullReference; a non-serializable type raises "Can't serialize object of type T!"; a formatter error passes through; otherwise it succeeds exactly when the return type's name resolves, embedding bytes that read back |
| Strings.Split | CompileTimeExecution/LiteralExtensions.cs:72 | the parts contain no separator, number one more than the separators, and join back to the text |
| Strings.IntTextRoundTrip | CompileTimeExecution/LiteralExtensions.cs:54 | invariant-culture integer text reads back as the integer |
| Symbols.NamespaceFullNamePath | CompileTimeExecution/SymbolExtensions.cs:10-18 | a namespace's full name is its path from the global namespace joined by dots |
| Symbols.NamespaceFullNameSplit | CompileTimeExecution/SymbolExtensions.cs:15-16 | splitting a well-named namespace's full name at dots recovers its path |
| Symbols.NamespaceFullNameInjective | CompileTimeExecution/SymbolExtensions.cs:10-18 | distinct well-named namespaces have distinct full names |
| Symbols.NamedFullNamePath | CompileTimeExecution/SymbolExtensions.cs:10-18 | a non-generic type's full name is its namespace path plus its name, joined by dots |
| Symbols.ReflectionNameNesting | CompileTimeExecution/SymbolExtensions.cs:45-50 | the runtime name is the outermost type's full name followed by each nested type's name, joined by `+` |
| Symbols.ReflectionNameSplit | CompileTimeExecution/SymbolExtensions.cs:45-50 | splitting the runtime name at `+` recovers the outermost full name and the nesting chain; there is one `+` per nesting level |
| Symbols.BindingFlagsSelect | CompileTimeExecution/SymbolExtensions.cs:20-26 | the flags of a declaration select a runtime member exactly when its publicness and staticness agree with the declaration's |
| Symbols.AccessibilityRoundTrip | CompileTimeExecution/SymbolExtensions.cs:28-43 | exactly the four single-keyword accessibilities have a keyword, which reads back as the same accessibility; every other raises |
| Symbols.AccessibilityKeywords | CompileTimeExecution/SymbolExtensions.cs:28-43 | every keyword a C# reader accepts is the one emitted for the accessibility it reads as |
| Reflection.CandidatesMembers | CompileTimeExecution/SymbolExtensions.cs:58-61 | a member is a lookup candidate exactly when it is declared on the type, has the name and the kind, and the binding flags select it |
| Reflection.CandidatesAreMatches | CompileTimeExecution/SymbolExtensions.cs:51-65 | the candidates of a method or property symbol are exactly the members that stand for it, in declaration order |
| Reflection.GetMemberBinds | CompileTimeExecution/SymbolExtensions.cs:51-65 | not found when the type is missing or nothing matches; the member when exactly one matches; AmbiguousMatch when several do |
| Reflection.BoundMemberMatches | CompileTimeExecution/SymbolExtensions.cs:53-61 | a bound member is declared on the type and has the symbol's name, kind, publicness and staticness |
| Reflection.BoundMemberReturnType | CompileTimeExecution/SymbolExtensions.cs:51-78 | a member `GetMember` binds is a method or a property, so `GetReturnType` gives its return or property type and never raises |
| Reflection.GetMemberOtherKind | CompileTimeExecution/SymbolExtensions.cs:53-64 | a symbol that is neither a method nor a property raises when its type is found and is "not found" otherwise |
| Syntax.LocalNameSuffix | CompileTimeExecution/SyntaxExtensions.cs:14-21 | the local name is a suffix of the name's text |
| Syntax.LocalNameIsLastComponent | CompileTimeExecution/SyntaxExtensions.cs:14-21 | for a dotted name, splitting its text at dots gives its parts, and the local name is the last part |
| Walker.IsAttributed | CompileTimeExecution/AttributedMemberWalker.cs:15-28 | the result is true exactly when some attribute of some list passes the name test as written: its local name plus `Attribute` is `CompileTimeExecutionAttribute`, so the short spelling only |
| Walker.ScanIsMarkedDeclarations | CompileTimeExecution/AttributedMemberWalker.cs:29-39 | the walk hands on exactly the method and property declarations of a tree that carry the short-spelling marker, each once, in document order |
| Walker.ScanAllIsMarked | CompileTimeExecution/Generator.cs:36-40 | over all trees, the walk hands on the declarations carrying the short-spelling marker, tree after tree |
| Walker.MarkedMembersAttributed | CompileTimeExecution/AttributedMemberWalker.cs:29-39 | every member handed on comes from a declaration some attribute of which passes the short-spelling test |
| Walker.LongSpellingMissed | CompileTimeExecution/AttributedMemberWalker.cs:21 | the name test as written rejects `[CompileTimeExecutionAttribute]`, which the intended test accepts |
| Walker.LongSpellingSkipped | CompileTimeExecution/AttributedMemberWalker.cs:15-39 | a method or property marked only `[CompileTimeExecutionAttribute]` is skipped by the walk, so it is never baked |
| Walker.AttributedShortSpelling | CompileTimeExecution/AttributedMemberWalker.cs:15-28 | the walker's test over a declaration holds exactly when some attribute's local name is `CompileTimeExecution`; whatever it accepts the intended test accepts |
| Walker.NamesMarkerSpellings | CompileTimeExecution/AttributedMemberWalker.cs:21 | the intended test accepts exactly the two spellings; the written test accepts only the short one, and anything it accepts the intended test accepts |
| Generator.SecondaryPreprocessorSymbols | CompileTimeExecution/Generator.cs:106 | the secondary build keeps the host's preprocessor symbols, in order, and appends `CompileTimeExecution` as the last symbol, even when the host already defines it |
| GeneratorProperties.ProcessMemberChecks | CompileTimeExecution/Generator.cs:43-68 | CTE0001 when nothing binds, CTE0002 for an instance member, CTE0003 for parameters, CTE0004 for a generic method, each exactly when the earlier checks passed; binding exceptions end the pass |
| GeneratorProperties.ProcessMemberState | CompileTimeExecution/Generator.cs:54-70 | user code runs once for a member that binds and passes every check, and not at all otherwise |
| GeneratorProperties.ProcessMemberThrows | CompileTimeExecution/Generator.cs:70 | an invocation that throws ends the pass with that exception |
| GeneratorProperties.SkippedIffVoid | CompileTimeExecution/Generator.cs:70-72 | a member is skipped without output exactly when its invoked method returns void |
| GeneratorProperties.BakeReports | CompileTimeExecution/Generator.cs:74-81 | the body builders report only CTE0005 in literal mode and CTE0006 in deserializer mode |
| GeneratorProperties.ProcessMemberCodes | CompileTimeExecution/Generator.cs:43-81 | every diagnostic reported for a member is one of CTE0001..CTE0006 |
| GeneratorProperties.LiteralFailedHint | CompileTimeExecution/Generator.cs:134-139 | in literal mode a value refused with a `SerializationException` is reported as CTE0005, whose message ends with the deserializer hint exactly when the value's type is serializable |
| GeneratorProperties.LiteralMode | CompileTimeExecution/Generator.cs:128-140 | in literal mode the serializer is never consulted; an encodable value gives the declaration with `=> literal;`; a refused value gives CTE0005; other exceptions end the pass |
| GeneratorProperties.DeserializerMode | CompileTimeExecution/Generator.cs:142-156 | in deserializer mode a null value ends the pass; a non-serializable type or formatter error gives CTE0006 with the exception's message; an unnameable return type ends the pass |
| GeneratorProperties.DeserializerSource | CompileTimeExecution/Generator.cs:142-156 | in deserializer mode, for a serializable value with a nameable return type, the serialized bytes get a `byte[]` literal that reads back as exactly those bytes |
| GeneratorProperties.DeserializerFile | CompileTimeExecution/Generator.cs:142-156 | in deserializer mode the body is the deserializing block around the bytes' literal, cast to the return type's name, inside `{ get ... }` for a property, and the declaration is generated exactly when it can be reopened |
| GeneratorProperties.WrapInTypesNests | CompileTimeExecution/Generator.cs:84-93 | the inside-out loop over containing types equals nesting in those types outermost first, and fails exactly when one lacks an accessibility keyword |
| GeneratorProperties.TypeScopeNames | CompileTimeExecution/Generator.cs:84-93 | the type scopes name the outermost type, then each nested type, the chain the runtime name is built from |
| GeneratorProperties.FileTextNests | CompileTimeExecution/Generator.cs:83-99 | the file is the declaration nested in every scope, outermost first, and exists exactly when the declaration and every scope can be written |
| GeneratorProperties.ScopesNamespace | CompileTimeExecution/Generator.cs:94-99 | the namespace wrapper appears exactly for a non-global namespace, with its dotted path |
| GeneratorProperties.ProcessAllSplit | CompileTimeExecution/Generator.cs:36-40 | processing a+b is processing a, then b from where a left off, unless a member of a ended the pass |
| GeneratorProperties.ProcessAllAppends | CompileTimeExecution/Generator.cs:36-40 | earlier diagnostics and sources are kept, each member adds at most one, and added diagnostics are per-member codes |
| GeneratorProperties.InvocationLog | CompileTimeExecution/Generator.cs:36-40 | in a pass no exception ends, every member that binds and passes the checks is invoked exactly once, in walk order, and no other |
| GeneratorProperties.ExecuteBuild | CompileTimeExecution/Generator.cs:23-41 | build diagnostics are forwarded first; a failed build adds CTE0000 and generates and invokes nothing; CTE0000 appears exactly when the build failed |
| GeneratorProperties.ExecuteInvokes | CompileTimeExecution/Generator.cs:35-40 | in a pass no exception ends, the invoked members are those of the declarations carrying the short-spelling marker, in document order, that bind and pass the checks |
| Scenarios.SideEffectsInWalkOrder | CompileTimeExecutionTests/SideEffectsTest.cs:12-23 | two counter properties are invoked once each in walk order and baked as `=> 1;` and `=> 2;`, with nothing reported |
| Scenarios.NestedRuntimeName | CompileTimeExecutionTests/NestedTest.cs:13-27 | a property three types deep binds through `Ns.NestedTest+Nested1+Nested2` |
| Scenarios.NestedScopes | CompileTimeExecutionTests/NestedTest.cs:13-27 | that property is regenerated in the dotted namespace and three partial classes with their own accessibilities |
| Scenarios.GlobalScopes | CompileTimeExecutionTests/NestedTest.cs:6-11 | a type in the global namespace is regenerated without a namespace wrapper |

## Left out

- Roslyn itself is a parameter and is not modelled: re-parsing
  (`ReParse`), semantic models, `Emit`, `Assembly.Load` and
  `AddSource`. Only the emit result's diagnostics, its success and the
  loaded types are modelled.
- `MethodInfo.Invoke` is a parameter over an abstract world state; what
  user code computes is an input.
- `BinaryFormatter` is a parameter: the model does not reproduce its byte
  format, only the bytes it returns or the `SerializationException`
  message it raises.
- Token text for `char`, `string`, `float` and `double` (`SyntaxFactory.Literal`)
  is a parameter (`Formatter`). Integer and boolean tokens are modelled
  exactly.
- Roslyn's display strings are parameters (`Display`). These are the type
  in the CTE0001 message, the fully qualified return type, and the hint
  name. Hint-name validity and duplicate hint names are not modelled.
- A diagnostic's category, severity and location are not modelled; its id
  and message are.
- Reflection lookups see only the members declared on the type. Inherited
  members and `GetMethod`'s overload resolution beyond name and flags are
  not modelled.
- Roslyn drops the output of a generator that throws. The model records
  the fault and the sources added before it, and leaves the dropping to
  the host.
- `Strings.IsWhiteSpace`: `Trim` uses a fixed set of ASCII and Latin-1
  white-space characters, not the full Unicode set.
- The generated text uses `\n` line ends and the template's
  indentation. Byte-for-byte equality with the source's verbatim strings
  (which carry the file's line ends) is not claimed.
- The attribute class (CompileTimeExecutionAttribute.cs) is not modelled
  beyond its `Deserialize` flag, which defaults to `false`. A runtime
  member with no attribute instance gives a null-reference fault.
- ContextExtensions.cs is not part of this model. It only formats
  `ReportDiagnostic` calls.
- GeneratorProperties.InvocationLog: states the invoked members only for
  a pass that no exception ends. A pass that ends early is described by
  `ProcessAllSplit`.
- The binding of members of generic containing types: the runtime type
  name used for binding is built from `GetFullName`
  (SymbolExtensions.cs:10-18, 45-50 and 53), which for a generic
  containing type gives `Name<T>`, not the runtime's `` Name`1 ``. The
  model keeps that name, so such a member is reported as CTE0001.

## Findings

| source | as written | input that shows it | evidently intended | confidence | as-written member | corrected member |
|---|---|---|---|---|---|---|
| CompileTimeExecution/AttributedMemberWalker.cs:21 | an attribute is the marker only when its local name plus `Attribute` equals `CompileTimeExecutionAttribute` | `[CompileTimeExecutionAttribute] static int X => 1;`, the long spelling C# binds to the same attribute, is not found by the walker, so `X` is never baked | accept the local name `CompileTimeExecution` or `CompileTimeExecutionAttribute` | medium, not executed | Walker.LongSpellingSkipped | Walker.NamesMarkerSpellings |

The walk, and with it `Execute`, keeps the test as written (`Walker.Attributed`),
so the generator's behaviour is the code's: a member marked only with the
long spelling is skipped. The intended test is `Walker.AttributedIntended`;
`Walker.NamesMarkerSpellings` proves that it accepts both spellings, and
`Walker.AttributedShortSpelling` that it accepts everything the written
test does.
