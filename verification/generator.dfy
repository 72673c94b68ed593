/** Generator.cs: one generator pass. The project is rebuilt with the
    `CompileTimeExecution` preprocessor symbol defined; if that build fails the
    pass stops with CTE0000. Otherwise every marked member of the rebuilt
    syntax trees is bound to its runtime counterpart, checked, invoked, and
    its return value baked into a generated partial declaration, or reported
    with one of CTE0001..CTE0006.

    Roslyn and the runtime are parameters: re-parsing and emitting the
    secondary build, invoking user code (over a world state `S` its side
    effects act on), `BinaryFormatter` serialization, Roslyn's display
    strings, and Roslyn's token text for characters, strings and floating
    point numbers. */
module Generator {

  import opened Wrappers
  import opened Strings
  import opened Exceptions
  import opened Literals
  import opened Symbols
  import opened Reflection
  import opened Walker

  /** A diagnostic: its id and message. Category, severity and location are
      not modelled. */
  datatype Diagnostic = Diagnostic(id: string, message: string)

  /** One `context.AddSource(hintName, text)` call. */
  datatype GeneratedSource = GeneratedSource(hintName: string, text: string)

  /** What invoking the designated member did: returned a value or threw. */
  datatype Invocation = Returned(value: Value) | Threw(message: string)

  /** Roslyn's display strings, which the model does not reproduce. */
  datatype Display = Display(
    /** `INamedTypeSymbol.ToString()`, used in the CTE0001 message */
    typeText: NamedType -> string,
    /** `ToDisplayString(SymbolDisplayFormat.FullyQualifiedFormat)` */
    fullyQualified: TypeSymbol -> string,
    /** `ISymbol.ToString()`, used as the generated file's hint name */
    memberText: MemberSymbol -> string)

  /** What the pass sees of the loaded secondary assembly and of the runtime. */
  datatype Runtime<!S> = Runtime(
    assembly: Assembly,
    /** `MethodInfo.Invoke(null, [])` on the member's method or getter */
    invoke: (S, RuntimeMember) -> (S, Invocation),
    /** `BinaryFormatter.Serialize`: the bytes, or the message of the
        `SerializationException` it raised */
    serialize: Value -> Result<seq<bv8>, string>,
    display: Display,
    tokens: Formatter)

  /** The result of the secondary build's `Emit`: its diagnostics, whether it
      succeeded, and the loaded assembly. */
  datatype Build = Build(diagnostics: seq<Diagnostic>, success: bool, assembly: Assembly)

  /** The host compilation and the Roslyn services the pass calls. */
  datatype Host<!S> = Host(
    /** the host's `ParseOptions.PreprocessorSymbolNames` */
    preprocessorSymbols: seq<string>,
    /** re-parsing every syntax tree with the given preprocessor symbols */
    reparse: seq<string> -> seq<Node<MemberSymbol>>,
    /** emitting and loading the secondary build */
    emit: seq<Node<MemberSymbol>> -> Build,
    invoke: (S, RuntimeMember) -> (S, Invocation),
    serialize: Value -> Result<seq<bv8>, string>,
    display: Display,
    tokens: Formatter)

  /** What processing one member ended with. */
  datatype Outcome =
    /** a diagnostic was reported and nothing generated */
    | Reported(diagnostic: Diagnostic)
    /** a source was added */
    | Generated(source: GeneratedSource)
    /** the method returns `void`: nothing to bake */
    | Skipped
    /** an exception other than `SerializationException` escaped: the pass ends */
    | Aborted(fault: Fault)

  /** The state after processing one member, with its outcome. */
  datatype Step<S> = Step(state: S, outcome: Outcome)

  /** The generator pass's visible effects: the diagnostics reported and the
      sources added, in order; the fault that ended it early, if any; and
      the world state after the invoked members ran. */
  datatype Output<S> = Output(
    diagnostics: seq<Diagnostic>,
    sources: seq<GeneratedSource>,
    fault: Option<Fault>,
    state: S)

  /** The preprocessor symbol the secondary build defines. */
  const CompileTimeSymbol: string := "CompileTimeExecution"

  const BuildFailed: Diagnostic := Diagnostic("CTE0000", "Failed to compile!")
  const NotStatic: Diagnostic := Diagnostic("CTE0002", "Method or property must be static!")
  const HasParameters: Diagnostic := Diagnostic("CTE0003", "Method or property can't have parameters!")
  const IsGeneric: Diagnostic := Diagnostic("CTE0004", "Method can't be generic!")

  function NotFound(typeText: string): Diagnostic
  {
    Diagnostic("CTE0001", "Couldn't find matching type '" + typeText + "'!")
  }

  const DeserializeHint: string :=
    "Specify CompileTimeExecutionAttribute.Deserialize = true to use deserializer instead."

  function LiteralFailed(message: string, extraInfo: string): Diagnostic
  {
    Diagnostic("CTE0005", "Failed to convert return value into a literal! " + message + " " + extraInfo)
  }

  function DeserializerFailed(message: string): Diagnostic
  {
    Diagnostic("CTE0006", "Failed to create deserializer! " + message)
  }

  /** `CreateCTECompilation`: the secondary build's preprocessor symbols are
      the host's, followed by `CompileTimeExecution`. */
  function SecondaryPreprocessorSymbols(symbols: seq<string>): (r: seq<string>)
    ensures |r| == |symbols| + 1
    ensures r[..|symbols|] == symbols
    ensures r[|symbols|] == CompileTimeSymbol
    ensures CompileTimeSymbol in r
    ensures forall x :: x in r <==> x in symbols || x == CompileTimeSymbol
  {
    symbols + [CompileTimeSymbol]
  }

  /** What a member body builder ended with. */
  datatype Body = Body(text: string) | BodyFailed(diagnostic: Diagnostic)

  /** `GetMemberBodyLiteral`: an expression body `=> literal;`. A
      `SerializationException` becomes CTE0005, whose message suggests the
      deserializer when the value's runtime type is serializable; any other
      exception escapes. */
  function MemberBodyLiteral(retVal: Value, tokens: Formatter): Result<Body, Fault>
  {
    match GetLiteral(retVal, tokens)
    case Success(literal) => Success(Body("=> " + literal + ";"))
    case Failure(Crash(fault)) => Failure(fault)
    case Failure(e) =>
      var extraInfo := if TypeOf(retVal).isSerializable then DeserializeHint else "";
      Success(BodyFailed(LiteralFailed(e.Message(), extraInfo)))
  }

  /** `GetMemberBodyDeserializer`: the deserializing block, wrapped in
      `{ get ... }` for a property. A `SerializationException` becomes CTE0006;
      any other exception escapes. */
  function MemberBodyDeserializer(isProperty: bool, retVal: Value, returnType: ClrType, serialized: Result<seq<bv8>, string>, tokens: Formatter)
    : Result<Body, Fault>
  {
    match GetDeserializer(retVal, returnType, serialized, tokens)
    case Success(block) => Success(Body(if isProperty then "{ get " + block + " }" else block))
    case Failure(Crash(fault)) => Failure(fault)
    case Failure(e) => Success(BodyFailed(DeserializerFailed(e.Message())))
  }

  /** `property.GetMethod` for a property (null without getter), the method
      itself otherwise. */
  function MethodOf(m: RuntimeMember): Result<RuntimeMethod, Fault>
  {
    match m.kind
    case RuntimeMethodKind(info) => Success(info)
    case RuntimePropertyKind(None) => Failure(NullReference)
    case RuntimePropertyKind(Some(getter)) => Success(getter)
  }

  /** `method.ReturnType == typeof(void)`. */
  predicate IsVoid(t: ClrType)
  {
    t.fullName == "System.Void" && !t.isGenericType
  }

  /** The generated member declaration:
      `acc static ReturnType Name() body` for a method, without `()` for a
      property. */
  function MemberDeclaration(m: MemberSymbol, display: Display, body: string): Result<string, Fault>
  {
    var access :- GetAccessibility(m.access);
    var returnType :- GetReturnType(m);
    Success(access + " static " + display.fullyQualified(returnType) + " " + m.name
            + (if m.kind.MethodSymbol? then "()" else "") + " " + body)
  }

  /** One level of type wrapping: the text reopened inside `partial class`. */
  function TypeWrapper(access: string, name: string, text: string): string
  {
    "\n    " + access + " partial class " + name + " {\n        " + text + "\n    }\n    "
  }

  function NamespaceWrapper(fullName: string, text: string): string
  {
    "\nnamespace " + fullName + " {\n    " + text + "\n}\n"
  }

  /** The `while (containingType != null)` loop: wraps the text in the
      containing type, then in that type's containing type, outward. */
  function WrapInTypes(t: NamedType, text: string): Result<string, Fault>
    decreases t
  {
    var access :- GetAccessibility(t.access);
    var wrapped := TypeWrapper(access, t.name, text);
    match t.container
    case InType(outer) => WrapInTypes(outer, wrapped)
    case InNamespace(_) => Success(wrapped)
  }

  /** The generated file: the declaration inside its containing types, inside
      the namespace unless that is the global one. */
  function FileText(m: MemberSymbol, display: Display, body: string): Result<string, Fault>
  {
    var declaration :- MemberDeclaration(m, display, body);
    var inTypes :- WrapInTypes(m.containingType, declaration);
    var ns := ContainingNamespace(m.containingType);
    Success(if ns.Global? then inTypes else NamespaceWrapper(NamespaceFullName(ns), inTypes))
  }

  /** `ProcessMember` after the invocation returned `retVal`. */
  function Bake<S>(rt: Runtime<S>, m: MemberSymbol, member: RuntimeMember, info: RuntimeMethod, retVal: Value): Result<Outcome, Fault>
  {
    if IsVoid(info.returnType) then Success(Skipped)
    else if member.marker.None? then Failure(NullReference)
    else
      var body :-
        if member.marker.value then
          MemberBodyDeserializer(m.kind.PropertySymbol?, retVal, info.returnType, rt.serialize(retVal), rt.tokens)
        else MemberBodyLiteral(retVal, rt.tokens);
      match body
      case BodyFailed(d) => Success(Reported(d))
      case Body(text) =>
        var file :- FileText(m, rt.display, text);
        Success(Generated(GeneratedSource(rt.display.memberText(m), file)))
  }

  /** `ProcessMember`: bind, check static / no parameters / not generic (in
      that order, reporting the first that fails), invoke, and bake. */
  function ProcessMember<S>(rt: Runtime<S>, state: S, m: MemberSymbol): Step<S>
  {
    match GetMember(m, rt.assembly)
    case Failure(fault) => Step(state, Aborted(fault))
    case Success(None) => Step(state, Reported(NotFound(rt.display.typeText(m.containingType))))
    case Success(Some(member)) =>
      match MethodOf(member)
      case Failure(fault) => Step(state, Aborted(fault))
      case Success(info) =>
        if !info.isStatic then Step(state, Reported(NotStatic))
        else if info.parameterCount > 0 then Step(state, Reported(HasParameters))
        else if info.isGenericMethod then Step(state, Reported(IsGeneric))
        else
          var (after, invocation) := rt.invoke(state, member);
          match invocation
          case Threw(message) => Step(after, Aborted(Invocation(message)))
          case Returned(retVal) =>
            match Bake(rt, m, member, info, retVal)
            case Failure(fault) => Step(after, Aborted(fault))
            case Success(outcome) => Step(after, outcome)
  }

  /** The walker's callbacks, member after member, until one aborts: `step`
      processes one member from a world state. */
  function Walk<S>(step: (S, MemberSymbol) -> Step<S>, state: S, members: seq<MemberSymbol>, out: Output<S>): Output<S>
    decreases |members|
  {
    if |members| == 0 then out.(state := state)
    else
      var next := step(state, members[0]);
      match next.outcome
      case Aborted(fault) => out.(fault := Some(fault), state := next.state)
      case Reported(d) => Walk(step, next.state, members[1..], out.(diagnostics := out.diagnostics + [d]))
      case Generated(src) => Walk(step, next.state, members[1..], out.(sources := out.sources + [src]))
      case Skipped => Walk(step, next.state, members[1..], out)
  }

  /** `ProcessMember` as the walker's callback. */
  function StepOf<S>(rt: Runtime<S>): (S, MemberSymbol) -> Step<S>
  {
    (state, m) => ProcessMember(rt, state, m)
  }

  /** Every marked member in walk order, `ProcessMember` on each. */
  function ProcessAll<S>(rt: Runtime<S>, state: S, members: seq<MemberSymbol>, out: Output<S>): Output<S>
  {
    Walk(StepOf(rt), state, members, out)
  }

  function RuntimeOf<S>(host: Host<S>, assembly: Assembly): Runtime<S>
  {
    Runtime(assembly, host.invoke, host.serialize, host.display, host.tokens)
  }

  /** `Generator.Execute`: the secondary build's diagnostics are forwarded
      whether or not it succeeds; a failed build adds CTE0000 and ends the
      pass; otherwise every marked member is processed in walk order. */
  function Execute<S>(host: Host<S>, state: S): Output<S>
  {
    var trees := host.reparse(SecondaryPreprocessorSymbols(host.preprocessorSymbols));
    var build := host.emit(trees);
    if !build.success then Output(build.diagnostics + [BuildFailed], [], None, state)
    else ProcessAll(RuntimeOf(host, build.assembly), state, ScanAll(trees), Output(build.diagnostics, [], None, state))
  }
}
