/** A worked pass over two members with a shared side effect: two private
    static `int` properties `Id1` and `Id2` of `CompileTimeExecutionTests.SideEffectsTest`,
    each marked with the attribute and each incrementing one static counter. */
module Scenarios {

  import opened Wrappers
  import opened Strings
  import opened Literals
  import opened Symbols
  import opened Reflection
  import opened Generator
  import opened GeneratorProperties

  const TestClass: NamedType :=
    NamedType("SideEffectsTest", InNamespace(Child(Global, "CompileTimeExecutionTests")), Public, false, [])

  /** `static int Name => ++counter;` as declared. */
  function CounterProperty(name: string): MemberSymbol
  {
    MemberSymbol(PropertySymbol(OtherType("Int32", Some(Child(Global, "System")))), name, TestClass, Private, true)
  }

  /** The same property in the loaded assembly: non-public, static, with a
      getter, marked with the default `Deserialize = false`. */
  function CounterMember(name: string): RuntimeMember
  {
    RuntimeMember(name, RuntimePropertyKind(Some(RuntimeMethod(true, 0, false, IntegralType(Int32)))), false, true, Some(false))
  }

  const TestAssembly: Assembly :=
    Assembly(map["CompileTimeExecutionTests.SideEffectsTest" := [CounterMember("Id1"), CounterMember("Id2")]])

  /** Either getter increments the counter and returns its new value. */
  function Increment(counter: int, member: RuntimeMember): (int, Invocation)
  {
    (counter + 1, Returned(Integral(Int32, counter + 1)))
  }

  /** Both counters bind, through the runtime name of their class and the
      non-public static binding flags, to their own runtime property. */
  lemma CounterBinds(name: string)
    requires name in {"Id1", "Id2"}
    ensures GetMember(CounterProperty(name), TestAssembly) == Success(Some(CounterMember(name)))
  {
    var typeName := "CompileTimeExecutionTests.SideEffectsTest";
    assert ReflectionName(TestClass) == typeName;
    assert Selects(GetBindingFlags(Private, true), false, true);
    assert Candidates(TestAssembly.types[typeName], name, GetBindingFlags(Private, true), false) == [CounterMember(name)];
  }

  /** The counter values 1 and 2 become the bodies `=> 1;` and `=> 2;`. */
  lemma CounterBodies(tokens: Formatter)
    ensures MemberBodyLiteral(Integral(Int32, 1), tokens) == Success(Body("=> 1;"))
    ensures MemberBodyLiteral(Integral(Int32, 2), tokens) == Success(Body("=> 2;"))
  {
    assert DigitChar(1) == '1' && DigitChar(2) == '2';
    assert IntText(1) == "1" && IntText(2) == "2";
    assert Encode(Integral(Int32, 1)) == Success(IntegerLit(1, NoSuffix));
    assert Encode(Integral(Int32, 2)) == Success(IntegerLit(2, NoSuffix));
    assert Render(IntegerLit(1, NoSuffix), tokens) == "1";
    assert Render(IntegerLit(2, NoSuffix), tokens) == "2";
    assert "=> " + "1" + ";" == "=> 1;" && "=> " + "2" + ";" == "=> 2;";
  }

  /** The declaration of a counter can be reopened in its class and namespace. */
  lemma CounterFile(name: string, display: Display, body: string)
    ensures FileText(CounterProperty(name), display, body).Success?
  {
  }

  /** Processing a counter when the counter stood at `c` invokes its getter
      once and bakes the returned `c + 1`. */
  lemma CounterStep(rt: Runtime<int>, c: int, name: string, body: string)
    requires rt.assembly == TestAssembly && rt.invoke == Increment && name in {"Id1", "Id2"}
    requires MemberBodyLiteral(Integral(Int32, c + 1), rt.tokens) == Success(Body(body))
    ensures FileText(CounterProperty(name), rt.display, body).Success?
    ensures ProcessMember(rt, c, CounterProperty(name))
      == Step(c + 1, Generated(GeneratedSource(rt.display.memberText(CounterProperty(name)),
                                               FileText(CounterProperty(name), rt.display, body).value)))
  {
    CounterBinds(name);
    CounterFile(name, rt.display, body);
    assert !IsVoid(IntegralType(Int32));
  }

  /** Two members that each generate a source are walked in order. */
  lemma WalkGeneratesTwo<S>(step: (S, MemberSymbol) -> Step<S>, state: S, a: MemberSymbol, b: MemberSymbol, out: Output<S>)
    requires step(state, a).outcome.Generated? && step(step(state, a).state, b).outcome.Generated?
    ensures var first := step(state, a);
      var second := step(first.state, b);
      Walk(step, state, [a, b], out)
        == out.(state := second.state, sources := out.sources + [first.outcome.source, second.outcome.source])
  {
    var first := step(state, a);
    var second := step(first.state, b);
    var out1 := out.(sources := out.sources + [first.outcome.source]);
    var out2 := out1.(sources := out1.sources + [second.outcome.source]);
    assert [a, b][1..] == [b];
    assert Walk(step, state, [a, b], out) == Walk(step, first.state, [b], out1);
    assert Walk(step, first.state, [b], out1) == Walk(step, second.state, [], out2);
    assert out2.sources == out.sources + [first.outcome.source, second.outcome.source];
  }

  /** The pass over the two counters, given what processing each yields. */
  lemma CountersWalk(rt: Runtime<int>, src1: GeneratedSource, src2: GeneratedSource)
    requires ProcessMember(rt, 0, CounterProperty("Id1")) == Step(1, Generated(src1))
    requires ProcessMember(rt, 1, CounterProperty("Id2")) == Step(2, Generated(src2))
    ensures ProcessAll(rt, 0, [CounterProperty("Id1"), CounterProperty("Id2")], Output([], [], None, 0))
         == Output([], [src1, src2], None, 2)
  {
    WalkGeneratesTwo(StepOf(rt), 0, CounterProperty("Id1"), CounterProperty("Id2"), Output([], [], None, 0));
  }

  /** Both members bind and pass the checks; each is invoked once, in walk
      order, so `Id1` is baked as `1` and `Id2` as `2`, and nothing is
      reported. */
  lemma SideEffectsInWalkOrder(rt: Runtime<int>)
    requires rt.assembly == TestAssembly && rt.invoke == Increment
    ensures FileText(CounterProperty("Id1"), rt.display, "=> 1;").Success?
    ensures FileText(CounterProperty("Id2"), rt.display, "=> 2;").Success?
    ensures ProcessAll(rt, 0, [CounterProperty("Id1"), CounterProperty("Id2")], Output([], [], None, 0))
         == Output([], [GeneratedSource(rt.display.memberText(CounterProperty("Id1")), FileText(CounterProperty("Id1"), rt.display, "=> 1;").value),
                        GeneratedSource(rt.display.memberText(CounterProperty("Id2")), FileText(CounterProperty("Id2"), rt.display, "=> 2;").value)],
                   None, 2)
  {
    CounterBodies(rt.tokens);
    CounterStep(rt, 0, "Id1", "=> 1;");
    CounterStep(rt, 1, "Id2", "=> 2;");
    CountersWalk(rt, GeneratedSource(rt.display.memberText(CounterProperty("Id1")), FileText(CounterProperty("Id1"), rt.display, "=> 1;").value),
                     GeneratedSource(rt.display.memberText(CounterProperty("Id2")), FileText(CounterProperty("Id2"), rt.display, "=> 2;").value));
  }

  // ------------------------------------------------------------ nesting

  const NestedNamespace: Namespace :=
    Child(Child(Child(Child(Global, "CompileTimeExecutionTests"), "Nested1"), "Nested2"), "Nested3")

  /** `public partial class NestedTest { class Nested1 { public class Nested2 { ... } } }`. */
  const NestedTestClass: NamedType := NamedType("NestedTest", InNamespace(NestedNamespace), Public, false, [])
  const Nested1Class: NamedType := NamedType("Nested1", InType(NestedTestClass), Private, false, [])
  const Nested2Class: NamedType := NamedType("Nested2", InType(Nested1Class), Public, false, [])

  /** `public static bool OK => true;` inside `Nested2`. */
  const DeepOK: MemberSymbol :=
    MemberSymbol(PropertySymbol(OtherType("Boolean", Some(Child(Global, "System")))), "OK", Nested2Class, Public, true)

  /** `class Naked` in the global namespace. */
  const NakedOK: MemberSymbol :=
    MemberSymbol(PropertySymbol(OtherType("Boolean", Some(Child(Global, "System")))), "OK",
                 NamedType("Naked", InNamespace(Global), Internal, false, []), Public, true)

  /** A property three types deep is bound through the `+`-separated
      runtime name of its class. */
  lemma NestedRuntimeName()
    ensures ReflectionName(Nested2Class) == "CompileTimeExecutionTests.Nested1.Nested2.Nested3.NestedTest+Nested1+Nested2"
  {
    NestedNamespaceName();
    assert NamedFullName(NestedTestClass) == NamespaceFullName(NestedNamespace) + "." + "NestedTest";
    assert ReflectionName(Nested2Class) == NamedFullName(NestedTestClass) + "+" + "Nested1" + "+" + "Nested2";
    NestedNameText(NamespaceFullName(NestedNamespace));
  }

  lemma NestedNameText(ns: string)
    requires ns == "CompileTimeExecutionTests.Nested1.Nested2.Nested3"
    ensures ns + "." + "NestedTest" + "+" + "Nested1" + "+" + "Nested2"
         == "CompileTimeExecutionTests.Nested1.Nested2.Nested3.NestedTest+Nested1+Nested2"
  {
  }

  /** The dotted name of the nested namespace. */
  lemma NestedNamespaceName()
    ensures NamespaceFullName(NestedNamespace) == "CompileTimeExecutionTests.Nested1.Nested2.Nested3"
  {
    var ns1 := Child(Global, "CompileTimeExecutionTests");
    var ns2 := Child(ns1, "Nested1");
    var ns3 := Child(ns2, "Nested2");
    assert NamespaceFullName(ns1) == "CompileTimeExecutionTests";
    assert NamespaceFullName(ns2) == "CompileTimeExecutionTests" + "." + "Nested1";
    assert NamespaceFullName(ns3) == "CompileTimeExecutionTests.Nested1" + "." + "Nested2";
    assert NamespaceFullName(NestedNamespace) == "CompileTimeExecutionTests.Nested1.Nested2" + "." + "Nested3";
  }

  /** The containing types, outermost first, each with its own accessibility. */
  lemma NestedTypeScopes()
    ensures TypeScopes(Nested2Class)
         == Success([TypeScope("public", "NestedTest"), TypeScope("private", "Nested1"), TypeScope("public", "Nested2")])
  {
    var outer := TypeScope("public", "NestedTest");
    var middle := TypeScope("private", "Nested1");
    var inner := TypeScope("public", "Nested2");
    assert TypeScopes(NestedTestClass) == Success([outer]);
    assert [outer] + [middle] == [outer, middle];
    assert TypeScopes(Nested1Class) == Success([outer, middle]);
    assert [outer, middle] + [inner] == [outer, middle, inner];
  }

  /** The property is regenerated inside the dotted namespace and then the
      three partial classes. */
  lemma NestedScopes()
    ensures Scopes(DeepOK) == Success([
      NamespaceScope("CompileTimeExecutionTests.Nested1.Nested2.Nested3"),
      TypeScope("public", "NestedTest"),
      TypeScope("private", "Nested1"),
      TypeScope("public", "Nested2")])
  {
    NestedTypeScopes();
    NestedNamespaceName();
    var types := [TypeScope("public", "NestedTest"), TypeScope("private", "Nested1"), TypeScope("public", "Nested2")];
    var ns := NamespaceScope("CompileTimeExecutionTests.Nested1.Nested2.Nested3");
    assert ContainingNamespace(Nested2Class) == NestedNamespace;
    assert DeepOK.containingType == Nested2Class;
    assert TypeScopes(DeepOK.containingType) == Success(types);
    assert ContainingNamespace(DeepOK.containingType) == NestedNamespace;
    assert Scopes(DeepOK) == Success([NamespaceScope(NamespaceFullName(NestedNamespace))] + types);
    assert [ns] + types == [ns, types[0], types[1], types[2]];
  }

  /** A type in the global namespace is reopened without a namespace. */
  lemma GlobalScopes()
    ensures ReflectionName(NakedOK.containingType) == "Naked"
    ensures Scopes(NakedOK) == Success([TypeScope("internal", "Naked")])
  {
    assert ContainingNamespace(NakedOK.containingType) == Global;
    assert TypeScopes(NakedOK.containingType) == Success([TypeScope("internal", "Naked")]);
    assert [] + [TypeScope("internal", "Naked")] == [TypeScope("internal", "Naked")];
  }
}
