/** Properties of a generator pass: which check reports which diagnostic,
    which members are invoked and in what order, how the member body is
    chosen, how the generated text nests the declaration in its scopes, and
    how a failed member leaves the others alone. */
module GeneratorProperties {

  import opened Wrappers
  import opened Strings
  import opened Exceptions
  import opened Literals
  import opened LiteralProperties
  import opened Symbols
  import opened Reflection
  import opened Walker
  import opened Generator

  /** The ids of the diagnostics reported for a single member. */
  const MemberCodes: set<string> := {"CTE0001", "CTE0002", "CTE0003", "CTE0004", "CTE0005", "CTE0006"}

  /** What a member symbol binds to at runtime: the member, and the method
      that would be invoked (the method itself, or the property's getter). */
  datatype Target = Target(member: RuntimeMember, info: RuntimeMethod)

  function Bound(assembly: Assembly, m: MemberSymbol): Option<Target>
  {
    match GetMember(m, assembly)
    case Success(Some(member)) =>
      (match MethodOf(member)
       case Success(info) => Some(Target(member, info))
       case Failure(_) => None)
    case _ => None
  }

  /** The three checks before invocation: static, no parameters, not generic. */
  predicate Invocable(t: Target)
  {
    t.info.isStatic && t.info.parameterCount == 0 && !t.info.isGenericMethod
  }

  /** The runtime member invoked for `m`, when it binds and passes the checks. */
  function InvokedFor(assembly: Assembly, m: MemberSymbol): Option<RuntimeMember>
  {
    match Bound(assembly, m)
    case Some(t) => if Invocable(t) then Some(t.member) else None
    case None => None
  }

  /** The runtime members invoked for `members`, in order. */
  function InvokedMembers(assembly: Assembly, members: seq<MemberSymbol>): seq<RuntimeMember>
  {
    if |members| == 0 then []
    else
      (match InvokedFor(assembly, members[0]) case Some(r) => [r] case None => [])
      + InvokedMembers(assembly, members[1..])
  }

  // ------------------------------------------------------------ one member

  /** The body builders only report CTE0005 (literal) and CTE0006 (deserializer). */
  lemma BakeReports<S>(rt: Runtime<S>, m: MemberSymbol, member: RuntimeMember, info: RuntimeMethod, v: Value)
    ensures Bake(rt, m, member, info, v).Success? && Bake(rt, m, member, info, v).value.Reported? ==>
      && member.marker.Some?
      && Bake(rt, m, member, info, v).value.diagnostic.id == (if member.marker.value then "CTE0006" else "CTE0005")
  {
  }

  /** Each check reports its own diagnostic, and exactly when the earlier
      checks passed and it fails: CTE0001 when no type or member binds,
      CTE0002 for an instance member, CTE0003 for one with parameters, CTE0004
      for a generic method. An exception while binding ends the pass. */
  lemma ProcessMemberChecks<S>(rt: Runtime<S>, state: S, m: MemberSymbol)
    ensures var step := ProcessMember(rt, state, m);
      var bound := Bound(rt.assembly, m);
      && (step.outcome == Reported(NotFound(rt.display.typeText(m.containingType)))
          <==> GetMember(m, rt.assembly) == Success(None))
      && (step.outcome == Reported(NotStatic) <==> bound.Some? && !bound.value.info.isStatic)
      && (step.outcome == Reported(HasParameters)
          <==> bound.Some? && bound.value.info.isStatic && bound.value.info.parameterCount > 0)
      && (step.outcome == Reported(IsGeneric)
          <==> bound.Some? && bound.value.info.isStatic && bound.value.info.parameterCount == 0
               && bound.value.info.isGenericMethod)
      && (GetMember(m, rt.assembly).Failure? ==> step.outcome == Aborted(GetMember(m, rt.assembly).error))
      && (GetMember(m, rt.assembly).Success? && GetMember(m, rt.assembly).value.Some? && bound.None? ==>
            step.outcome == Aborted(NullReference))
  {
    match GetMember(m, rt.assembly)
    case Failure(_) =>
    case Success(None) =>
    case Success(Some(member)) =>
      match MethodOf(member)
      case Failure(_) =>
      case Success(info) =>
        if info.isStatic && info.parameterCount == 0 && !info.isGenericMethod {
          var (after, invocation) := rt.invoke(state, member);
          if invocation.Returned? {
            BakeReports(rt, m, member, info, invocation.value);
          }
        }
  }

  /** User code runs only for a member that binds and passes every check,
      and then exactly once: otherwise the state is left as it was. */
  lemma ProcessMemberState<S>(rt: Runtime<S>, state: S, m: MemberSymbol)
    ensures InvokedFor(rt.assembly, m).None? ==> ProcessMember(rt, state, m).state == state
    ensures InvokedFor(rt.assembly, m).Some? ==>
      ProcessMember(rt, state, m).state == rt.invoke(state, InvokedFor(rt.assembly, m).value).0
  {
  }

  /** A member whose invocation throws ends the pass with that exception. */
  lemma ProcessMemberThrows<S>(rt: Runtime<S>, state: S, m: MemberSymbol)
    requires InvokedFor(rt.assembly, m).Some?
    ensures var invocation := rt.invoke(state, InvokedFor(rt.assembly, m).value).1;
      invocation.Threw? ==> ProcessMember(rt, state, m).outcome == Aborted(Invocation(invocation.message))
  {
  }

  /** Nothing is baked for a `void` method, and nothing else is skipped: the
      outcome is "skipped" exactly when the invoked method returns `void`,
      whatever its attribute says. */
  lemma SkippedIffVoid<S>(rt: Runtime<S>, state: S, m: MemberSymbol)
    ensures ProcessMember(rt, state, m).outcome == Skipped <==>
      && InvokedFor(rt.assembly, m).Some?
      && rt.invoke(state, InvokedFor(rt.assembly, m).value).1.Returned?
      && IsVoid(Bound(rt.assembly, m).value.info.returnType)
  {
  }

  /** A diagnostic reported for a member is one of CTE0001..CTE0006. */
  lemma ProcessMemberCodes<S>(rt: Runtime<S>, state: S, m: MemberSymbol)
    ensures ProcessMember(rt, state, m).outcome.Reported? ==>
      ProcessMember(rt, state, m).outcome.diagnostic.id in MemberCodes
  {
    ProcessMemberChecks(rt, state, m);
    match GetMember(m, rt.assembly)
    case Failure(_) =>
    case Success(None) =>
    case Success(Some(member)) =>
      match MethodOf(member)
      case Failure(_) =>
      case Success(info) =>
        if info.isStatic && info.parameterCount == 0 && !info.isGenericMethod {
          var (after, invocation) := rt.invoke(state, member);
          if invocation.Returned? {
            BakeReports(rt, m, member, info, invocation.value);
          }
        }
  }

  // ------------------------------------------------------------ body modes

  /** `text` ends with the deserializer hint. */
  predicate EndsWithHint(text: string)
  {
    |text| >= |DeserializeHint| && text[|text| - |DeserializeHint|..] == DeserializeHint
  }

  /** With `Deserialize = false` and a value the encoder refuses with a
      `SerializationException`, the member is reported as CTE0005, and the
      message ends with the deserializer hint exactly when the value's
      runtime type is serializable. */
  lemma LiteralFailedHint<S>(rt: Runtime<S>, m: MemberSymbol, member: RuntimeMember, info: RuntimeMethod, v: Value)
    requires member.marker == Some(false) && !IsVoid(info.returnType)
    requires !v.Null? && Encode(v).Failure? && Encode(v).error.IsSerializationException()
    ensures Bake(rt, m, member, info, v).Success? && Bake(rt, m, member, info, v).value.Reported?
    ensures var d := Bake(rt, m, member, info, v).value.diagnostic;
      d.id == "CTE0005" && (EndsWithHint(d.message) <==> TypeOf(v).isSerializable)
  {
    LiteralMode(rt, m, member, info, v, rt.serialize);
    var message := Encode(v).error.Message();
    var prefix := "Failed to convert return value into a literal! " + message + " ";
    if TypeOf(v).isSerializable {
      assert LiteralFailed(message, DeserializeHint).message == prefix + DeserializeHint;
    } else {
      var text := LiteralFailed(message, "").message;
      assert text == prefix;
      assert text[|text| - 1] == ' ';
      assert DeserializeHint[|DeserializeHint| - 1] == '.';
    }
  }

  /** With `Deserialize = false` the value is baked as a literal: the
      serializer is never consulted; an encodable value yields the
      declaration with the body `=> literal;`; a value the encoder refuses is
      reported as CTE0005 (with the hint when its type is serializable); an
      exception raised while encoding ends the pass. */
  lemma LiteralMode<S>(rt: Runtime<S>, m: MemberSymbol, member: RuntimeMember, info: RuntimeMethod, v: Value,
                       serialize: Value -> Result<seq<bv8>, string>)
    requires member.marker == Some(false) && !IsVoid(info.returnType)
    ensures Bake(rt, m, member, info, v) == Bake(rt.(serialize := serialize), m, member, info, v)
    ensures Encode(v).Success? ==>
      var file := FileText(m, rt.display, "=> " + Render(Encode(v).value, rt.tokens) + ";");
      && (file.Success? ==> Bake(rt, m, member, info, v) == Success(Generated(GeneratedSource(rt.display.memberText(m), file.value))))
      && (file.Failure? ==> Bake(rt, m, member, info, v) == Failure(file.error))
    ensures !v.Null? && Encode(v).Failure? && Encode(v).error.IsSerializationException() ==>
      Bake(rt, m, member, info, v)
        == Success(Reported(LiteralFailed(Encode(v).error.Message(), if TypeOf(v).isSerializable then DeserializeHint else "")))
    ensures Encode(v).Failure? && Encode(v).error.Crash? ==> Bake(rt, m, member, info, v) == Failure(Encode(v).error.fault)
  {
  }

  /** With `Deserialize = true`, the ways baking can fail: a null value ends
      the pass, a non-serializable type or a formatter error is reported as
      CTE0006 with the exception's message, and a return type whose C# name
      cannot be formed ends the pass. */
  lemma DeserializerMode<S>(rt: Runtime<S>, m: MemberSymbol, member: RuntimeMember, info: RuntimeMethod, v: Value)
    requires member.marker == Some(true) && !IsVoid(info.returnType)
    ensures v.Null? ==> Bake(rt, m, member, info, v) == Failure(NullReference)
    ensures !v.Null? && !TypeOf(v).isSerializable ==>
      Bake(rt, m, member, info, v) == Success(Reported(DeserializerFailed("Can't serialize object of type " + TypeOf(v).display + "!")))
    ensures !v.Null? && TypeOf(v).isSerializable && rt.serialize(v).Failure? ==>
      Bake(rt, m, member, info, v) == Success(Reported(DeserializerFailed(rt.serialize(v).error)))
    ensures !v.Null? && TypeOf(v).isSerializable && rt.serialize(v).Success? && !NameResolves(info.returnType) ==>
      Bake(rt, m, member, info, v) == Failure(ArgumentOutOfRange)
  {
    DeserializerOutcome(v, info.returnType, rt.serialize(v), rt.tokens);
    if rt.serialize(v).Success? {
      ByteArrayRoundTrip(rt.serialize(v).value);
      GetNameFacts(info.returnType);
    }
  }

  /** With `Deserialize = true` and a value the formatter serializes, the
      serialized bytes have a `byte[]` literal that reads back as exactly
      those bytes, and the declared return type has a C# name. */
  lemma DeserializerSource<S>(rt: Runtime<S>, m: MemberSymbol, member: RuntimeMember, info: RuntimeMethod, v: Value)
    requires member.marker == Some(true) && !IsVoid(info.returnType)
    requires !v.Null? && TypeOf(v).isSerializable && rt.serialize(v).Success? && NameResolves(info.returnType)
    ensures Encode(ByteArray(rt.serialize(v).value)).Success? && GetName(info.returnType).Success?
    ensures LiteralBytes(Encode(ByteArray(rt.serialize(v).value)).value.items) == Some(rt.serialize(v).value)
  {
    ByteArrayRoundTrip(rt.serialize(v).value);
    GetNameFacts(info.returnType);
  }

  /** With `Deserialize = true`, the declaration embeds the bytes' literal in
      the deserializing block, cast to the return type's C# name; a
      property's block is wrapped in `{ get ... }`. It is generated exactly
      when it can be reopened in its types and namespace. */
  lemma DeserializerFile<S>(rt: Runtime<S>, m: MemberSymbol, member: RuntimeMember, info: RuntimeMethod, v: Value,
                            bytes: Literal, name: string)
    requires member.marker == Some(true) && !IsVoid(info.returnType)
    requires !v.Null? && TypeOf(v).isSerializable && rt.serialize(v).Success?
    requires Encode(ByteArray(rt.serialize(v).value)) == Success(bytes) && GetName(info.returnType) == Success(name)
    ensures var block := DeserializerText(Render(bytes, rt.tokens), name);
      var file := FileText(m, rt.display, if m.kind.PropertySymbol? then "{ get " + block + " }" else block);
      && (file.Success? ==> Bake(rt, m, member, info, v) == Success(Generated(GeneratedSource(rt.display.memberText(m), file.value))))
      && (file.Failure? ==> Bake(rt, m, member, info, v) == Failure(file.error))
  {
    var block := DeserializerText(Render(bytes, rt.tokens), name);
    assert GetLiteral(ByteArray(rt.serialize(v).value), rt.tokens) == Success(Render(bytes, rt.tokens));
    assert GetDeserializer(v, info.returnType, rt.serialize(v), rt.tokens) == Success(block);
    assert MemberBodyDeserializer(m.kind.PropertySymbol?, v, info.returnType, rt.serialize(v), rt.tokens)
        == Success(Body(if m.kind.PropertySymbol? then "{ get " + block + " }" else block));
  }

  // ------------------------------------------------------------ generated text

  /** A scope the declaration is reopened in. */
  datatype Scope = NamespaceScope(fullName: string) | TypeScope(access: string, name: string)

  function Enclose(scope: Scope, text: string): string
  {
    match scope
    case NamespaceScope(fullName) => NamespaceWrapper(fullName, text)
    case TypeScope(access, name) => TypeWrapper(access, name, text)
  }

  /** `text` reopened in `scopes`, the first scope outermost. */
  function Nest(scopes: seq<Scope>, text: string): string
  {
    if |scopes| == 0 then text else Enclose(scopes[0], Nest(scopes[1..], text))
  }

  /** The containing types of a declaration in `t`, outermost first. */
  function TypeScopes(t: NamedType): Result<seq<Scope>, Fault>
    decreases t
  {
    var access :- GetAccessibility(t.access);
    match t.container
    case InType(outer) =>
      var outerScopes :- TypeScopes(outer);
      Success(outerScopes + [TypeScope(access, t.name)])
    case InNamespace(_) => Success([TypeScope(access, t.name)])
  }

  /** Every scope of the generated file, outermost first: the namespace
      unless it is the global one, then the containing types. */
  function Scopes(m: MemberSymbol): Result<seq<Scope>, Fault>
  {
    var types :- TypeScopes(m.containingType);
    var ns := ContainingNamespace(m.containingType);
    Success((if ns.Global? then [] else [NamespaceScope(NamespaceFullName(ns))]) + types)
  }

  lemma {:induction false} NestSnoc(scopes: seq<Scope>, s: Scope, text: string)
    ensures Nest(scopes + [s], text) == Nest(scopes, Enclose(s, text))
    decreases |scopes|
  {
    if |scopes| > 0 {
      assert (scopes + [s])[1..] == scopes[1..] + [s];
      NestSnoc(scopes[1..], s, text);
    } else {
      assert [s][1..] == [];
    }
  }

  /** The inside-out wrapping loop nests the text in the containing types
      from the outermost down to the declaring one. */
  lemma {:induction false} WrapInTypesNests(t: NamedType, text: string)
    ensures WrapInTypes(t, text).Success? <==> TypeScopes(t).Success?
    ensures WrapInTypes(t, text).Success? ==> WrapInTypes(t, text).value == Nest(TypeScopes(t).value, text)
    decreases t
  {
    match GetAccessibility(t.access)
    case Failure(_) =>
    case Success(access) =>
      match t.container
      case InType(outer) =>
        WrapInTypesNests(outer, TypeWrapper(access, t.name, text));
        if TypeScopes(outer).Success? {
          NestSnoc(TypeScopes(outer).value, TypeScope(access, t.name), text);
        }
      case InNamespace(_) =>
        assert Nest([TypeScope(access, t.name)], text) == Enclose(TypeScope(access, t.name), Nest([], text));
  }

  /** The type scopes name the outermost type and then each nested type
      down to the declaring one: the same chain, in the same order, as the
      `+`-separated runtime name the member is bound through. */
  lemma {:induction false} TypeScopeNames(t: NamedType)
    requires TypeScopes(t).Success?
    ensures |TypeScopes(t).value| == |NestingNames(t)| + 1
    ensures forall i :: 0 <= i < |TypeScopes(t).value| ==> TypeScopes(t).value[i].TypeScope?
    ensures TypeScopes(t).value[0].name == Outermost(t).name
    ensures forall i :: 0 <= i < |NestingNames(t)| ==> TypeScopes(t).value[i + 1].name == NestingNames(t)[i]
    decreases t
  {
    match t.container
    case InType(outer) => TypeScopeNames(outer);
    case InNamespace(_) =>
  }

  /** The generated file is the declaration reopened in every scope of the
      member, outermost first; it exists exactly when the member's and every
      containing type's accessibility is a single keyword. */
  lemma FileTextNests(m: MemberSymbol, display: Display, body: string)
    ensures FileText(m, display, body).Success? <==> MemberDeclaration(m, display, body).Success? && Scopes(m).Success?
    ensures FileText(m, display, body).Success? ==>
      FileText(m, display, body).value == Nest(Scopes(m).value, MemberDeclaration(m, display, body).value)
  {
    if MemberDeclaration(m, display, body).Success? {
      var decl := MemberDeclaration(m, display, body).value;
      WrapInTypesNests(m.containingType, decl);
      var ns := ContainingNamespace(m.containingType);
      if TypeScopes(m.containingType).Success? {
        var types := TypeScopes(m.containingType).value;
        var inTypes := WrapInTypes(m.containingType, decl).value;
        assert inTypes == Nest(types, decl);
        if ns.Global? {
          assert Scopes(m).value == types;
        } else {
          var scopes := [NamespaceScope(NamespaceFullName(ns))] + types;
          assert Scopes(m).value == scopes;
          assert scopes[1..] == types;
          assert Nest(scopes, decl) == NamespaceWrapper(NamespaceFullName(ns), inTypes);
        }
      }
    }
  }

  /** The file is wrapped in a namespace exactly when the member's namespace
      is not the global one, and then in its dotted full name. */
  lemma ScopesNamespace(m: MemberSymbol)
    requires Scopes(m).Success?
    ensures var ns := ContainingNamespace(m.containingType);
      && (Scopes(m).value[0].NamespaceScope? <==> !ns.Global?)
      && (!ns.Global? ==> Scopes(m).value[0].fullName == Join(NamespacePath(ns), "."))
  {
    NamespaceFullNamePath(ContainingNamespace(m.containingType));
    TypeScopeNames(m.containingType);
  }

  // ------------------------------------------------------------ the pass

  /** The output after recording one outcome that did not end the pass. */
  function Recorded<S>(out: Output<S>, outcome: Outcome): Output<S>
  {
    match outcome
    case Reported(d) => out.(diagnostics := out.diagnostics + [d])
    case Generated(src) => out.(sources := out.sources + [src])
    case _ => out
  }

  /** The state a walk starts its output with is replaced by the state it ends in. */
  lemma {:induction false} WalkOutState<S>(step: (S, MemberSymbol) -> Step<S>, state: S, members: seq<MemberSymbol>, out: Output<S>, other: S)
    ensures Walk(step, state, members, out) == Walk(step, state, members, out.(state := other))
    decreases |members|
  {
    if |members| > 0 {
      var next := step(state, members[0]);
      if !next.outcome.Aborted? {
        WalkOutState(step, next.state, members[1..], Recorded(out, next.outcome), other);
        assert Recorded(out, next.outcome).(state := other) == Recorded(out.(state := other), next.outcome);
      }
    }
  }

  /** A member whose step does not end the pass records its outcome and
      hands its state to the rest of the walk. */
  lemma WalkCons<S>(step: (S, MemberSymbol) -> Step<S>, state: S, members: seq<MemberSymbol>, out: Output<S>)
    requires |members| > 0 && !step(state, members[0]).outcome.Aborted?
    ensures Walk(step, state, members, out)
         == Walk(step, step(state, members[0]).state, members[1..], Recorded(out, step(state, members[0]).outcome))
  {
  }

  /** Walking `a + b` is walking `a`, then `b` from where `a` left off,
      unless a member of `a` ended the pass. */
  lemma {:induction false} WalkSplit<S>(step: (S, MemberSymbol) -> Step<S>, state: S, a: seq<MemberSymbol>, b: seq<MemberSymbol>, out: Output<S>)
    requires out.fault.None?
    ensures var mid := Walk(step, state, a, out);
      && (mid.fault.None? ==> Walk(step, state, a + b, out) == Walk(step, mid.state, b, mid))
      && (mid.fault.Some? ==> Walk(step, state, a + b, out) == mid)
    decreases |a|
  {
    if |a| == 0 {
      assert a + b == b;
      WalkOutState(step, state, b, out, state);
    } else {
      assert (a + b)[0] == a[0];
      assert (a + b)[1..] == a[1..] + b;
      var next := step(state, a[0]);
      if !next.outcome.Aborted? {
        WalkSplit(step, next.state, a[1..], b, Recorded(out, next.outcome));
      }
    }
  }

  /** A walk only appends: earlier diagnostics and sources are kept, each
      member adds at most one of them, and the diagnostics added are ones
      the steps report. */
  lemma {:induction false} WalkAppends<S>(step: (S, MemberSymbol) -> Step<S>, state: S, members: seq<MemberSymbol>, out: Output<S>)
    requires forall s, m :: step(s, m).outcome.Reported? ==> step(s, m).outcome.diagnostic.id in MemberCodes
    ensures var r := Walk(step, state, members, out);
      && |out.diagnostics| <= |r.diagnostics| && r.diagnostics[..|out.diagnostics|] == out.diagnostics
      && |out.sources| <= |r.sources| && r.sources[..|out.sources|] == out.sources
      && (|r.diagnostics| - |out.diagnostics|) + (|r.sources| - |out.sources|) <= |members|
      && (forall i :: |out.diagnostics| <= i < |r.diagnostics| ==> r.diagnostics[i].id in MemberCodes)
    decreases |members|
  {
    if |members| > 0 {
      var next := step(state, members[0]);
      if !next.outcome.Aborted? {
        var recorded := Recorded(out, next.outcome);
        WalkAppends(step, next.state, members[1..], recorded);
        var r := Walk(step, next.state, members[1..], recorded);
        assert r.diagnostics[..|out.diagnostics|] == recorded.diagnostics[..|out.diagnostics|];
        assert r.sources[..|out.sources|] == recorded.sources[..|out.sources|];
      }
    }
  }

  lemma {:induction false} InvokedMembersAppend(assembly: Assembly, a: seq<MemberSymbol>, b: seq<MemberSymbol>)
    ensures InvokedMembers(assembly, a + b) == InvokedMembers(assembly, a) + InvokedMembers(assembly, b)
    decreases |a|
  {
    if |a| > 0 {
      assert (a + b)[1..] == a[1..] + b;
      InvokedMembersAppend(assembly, a[1..], b);
    } else {
      assert a + b == b;
    }
  }

  lemma InvokedMembersCons(assembly: Assembly, members: seq<MemberSymbol>)
    requires |members| > 0
    ensures InvokedMembers(assembly, members) == InvokedMembers(assembly, [members[0]]) + InvokedMembers(assembly, members[1..])
  {
    assert [members[0]] + members[1..] == members;
    InvokedMembersAppend(assembly, [members[0]], members[1..]);
  }

  /** Steps whose only effect on a log is to append the member invoked, if any. */
  ghost predicate LogsInvocations(step: (seq<RuntimeMember>, MemberSymbol) -> Step<seq<RuntimeMember>>, assembly: Assembly)
  {
    forall log, m :: step(log, m).state == log + InvokedMembers(assembly, [m])
  }

  /** With logging steps, a walk that no step ends logs the invoked members
      of every member, in order. */
  lemma {:induction false} WalkLog(step: (seq<RuntimeMember>, MemberSymbol) -> Step<seq<RuntimeMember>>, assembly: Assembly,
                                   log: seq<RuntimeMember>, members: seq<MemberSymbol>, out: Output<seq<RuntimeMember>>)
    requires LogsInvocations(step, assembly)
    ensures var r := Walk(step, log, members, out);
      r.fault.None? ==> r.state == log + InvokedMembers(assembly, members)
    decreases |members|
  {
    if |members| > 0 {
      var next := step(log, members[0]);
      if !next.outcome.Aborted? {
        WalkLog(step, assembly, next.state, members[1..], Recorded(out, next.outcome));
        InvokedMembersCons(assembly, members);
      }
    }
  }

  /** Processing `a + b` is processing `a`, then `b` from where `a` left off,
      unless a member of `a` ended the pass. */
  lemma ProcessAllSplit<S>(rt: Runtime<S>, state: S, a: seq<MemberSymbol>, b: seq<MemberSymbol>, out: Output<S>)
    requires out.fault.None?
    ensures var mid := ProcessAll(rt, state, a, out);
      && (mid.fault.None? ==> ProcessAll(rt, state, a + b, out) == ProcessAll(rt, mid.state, b, mid))
      && (mid.fault.Some? ==> ProcessAll(rt, state, a + b, out) == mid)
  {
    WalkSplit(StepOf(rt), state, a, b, out);
  }

  /** The pass goes on past every member that does not end it. */
  lemma ProcessAllCons<S>(rt: Runtime<S>, state: S, members: seq<MemberSymbol>, out: Output<S>)
    requires |members| > 0 && !ProcessMember(rt, state, members[0]).outcome.Aborted?
    ensures var next := ProcessMember(rt, state, members[0]);
      ProcessAll(rt, state, members, out) == ProcessAll(rt, next.state, members[1..], Recorded(out, next.outcome))
  {
    WalkCons(StepOf(rt), state, members, out);
  }

  /** The pass only appends: earlier diagnostics and sources are kept, each
      member adds at most one of them, and the diagnostics it adds are the
      per-member ones. */
  lemma ProcessAllAppends<S>(rt: Runtime<S>, state: S, members: seq<MemberSymbol>, out: Output<S>)
    ensures var r := ProcessAll(rt, state, members, out);
      && |out.diagnostics| <= |r.diagnostics| && r.diagnostics[..|out.diagnostics|] == out.diagnostics
      && |out.sources| <= |r.sources| && r.sources[..|out.sources|] == out.sources
      && (|r.diagnostics| - |out.diagnostics|) + (|r.sources| - |out.sources|) <= |members|
      && (forall i :: |out.diagnostics| <= i < |r.diagnostics| ==> r.diagnostics[i].id in MemberCodes)
  {
    forall s, m ensures StepOf(rt)(s, m).outcome.Reported? ==> StepOf(rt)(s, m).outcome.diagnostic.id in MemberCodes {
      ProcessMemberCodes(rt, s, m);
    }
    WalkAppends(StepOf(rt), state, members, out);
  }

  /** A runtime whose only side effect is to log the members it invokes. */
  ghost predicate Logs(rt: Runtime<seq<RuntimeMember>>)
  {
    forall log, member :: rt.invoke(log, member).0 == log + [member]
  }

  /** With a logging runtime, processing one member logs the member invoked for it, if any. */
  lemma LoggedStep(rt: Runtime<seq<RuntimeMember>>, log: seq<RuntimeMember>, m: MemberSymbol)
    requires Logs(rt)
    ensures ProcessMember(rt, log, m).state == log + InvokedMembers(rt.assembly, [m])
  {
    ProcessMemberState(rt, log, m);
    assert [m][1..] == [];
  }

  /** A member that fails a check or reports a diagnostic does not stop the
      others: when no exception ends the pass, every member that binds and
      passes the checks is invoked exactly once, in walk order, and no other. */
  lemma InvocationLog(rt: Runtime<seq<RuntimeMember>>, log: seq<RuntimeMember>, members: seq<MemberSymbol>, out: Output<seq<RuntimeMember>>)
    requires Logs(rt)
    ensures var r := ProcessAll(rt, log, members, out);
      r.fault.None? ==> r.state == log + InvokedMembers(rt.assembly, members)
  {
    forall s, m ensures StepOf(rt)(s, m).state == s + InvokedMembers(rt.assembly, [m]) {
      LoggedStep(rt, s, m);
    }
    WalkLog(StepOf(rt), rt.assembly, log, members, out);
  }

  /** A pass whose secondary build fails forwards the build's diagnostics,
      adds CTE0000, generates nothing and runs no user code. A pass whose
      build succeeds forwards the same diagnostics and adds only per-member
      ones, so CTE0000 means exactly that the build failed. The build is
      compiled with the host's preprocessor symbols plus `CompileTimeExecution`. */
  lemma ExecuteBuild<S>(host: Host<S>, state: S)
    ensures var symbols := SecondaryPreprocessorSymbols(host.preprocessorSymbols);
      var build := host.emit(host.reparse(symbols));
      var r := Execute(host, state);
      && CompileTimeSymbol in symbols
      && |build.diagnostics| <= |r.diagnostics|
      && r.diagnostics[..|build.diagnostics|] == build.diagnostics
      && (!build.success ==>
            r.sources == [] && r.state == state && r.fault.None?
            && r.diagnostics[|build.diagnostics|..] == [BuildFailed])
      && (build.success ==>
            forall i :: |build.diagnostics| <= i < |r.diagnostics| ==> r.diagnostics[i].id in MemberCodes)
      && ((exists i :: |build.diagnostics| <= i < |r.diagnostics| && r.diagnostics[i].id == "CTE0000") <==> !build.success)
  {
    var symbols := SecondaryPreprocessorSymbols(host.preprocessorSymbols);
    var trees := host.reparse(symbols);
    var build := host.emit(trees);
    var r := Execute(host, state);
    if build.success {
      ProcessAllAppends(RuntimeOf(host, build.assembly), state, ScanAll(trees), Output(build.diagnostics, [], None, state));
      assert "CTE0000" !in MemberCodes;
    } else {
      assert r.diagnostics[|build.diagnostics|] == BuildFailed;
    }
  }

  /** Over a whole pass with a logging runtime and no exception: the members
      invoked are those of the attributed declarations, in document order,
      that bind and pass the checks. */
  lemma ExecuteInvokes(host: Host<seq<RuntimeMember>>, log: seq<RuntimeMember>)
    requires forall l, member :: host.invoke(l, member).0 == l + [member]
    ensures var trees := host.reparse(SecondaryPreprocessorSymbols(host.preprocessorSymbols));
      var build := host.emit(trees);
      var r := Execute(host, log);
      build.success && r.fault.None? ==>
        r.state == log + InvokedMembers(build.assembly, MarkedMembers(AllDeclarations(trees)))
  {
    var trees := host.reparse(SecondaryPreprocessorSymbols(host.preprocessorSymbols));
    var build := host.emit(trees);
    if build.success {
      ScanAllIsMarked(trees);
      var rt := RuntimeOf(host, build.assembly);
      assert Logs(rt);
      InvocationLog(rt, log, ScanAll(trees), Output(build.diagnostics, [], None, log));
    }
  }
}
