/** The compile-time symbols of SymbolExtensions.cs: namespaces, named types
    and the members the generator processes, with the names the generator
    derives from them (`GetFullName`, `GetReflectionName`), the binding flags
    it looks the member up with, and the accessibility keyword it re-emits. */
module Symbols {

  import opened Wrappers
  import opened Strings
  import opened Exceptions

  /** Roslyn's `Accessibility`. */
  datatype Accessibility =
    | NotApplicable
    | Private
    | ProtectedAndInternal
    | Protected
    | Internal
    | ProtectedOrInternal
    | Public

  /** A namespace symbol: the global namespace, or a named namespace inside
      its containing namespace. */
  datatype Namespace = Global | Child(parent: Namespace, name: string)

  /** A named type symbol (`INamedTypeSymbol`): a class, struct, interface,
      enum or delegate. `isGeneric` is `IsGenericType`; `typeArguments` are
      its type arguments. */
  datatype NamedType = NamedType(
    name: string,
    container: Container,
    access: Accessibility,
    isGeneric: bool,
    typeArguments: seq<TypeSymbol>)

  /** Where a named type is declared: directly in a namespace, or nested in
      another named type. */
  datatype Container = InNamespace(ns: Namespace) | InType(outer: NamedType)

  /** A type symbol. */
  datatype TypeSymbol =
    | Named(named: NamedType)
    /** a type parameter such as `T` */
    | TypeParameter(name: string)
    /** any other type symbol (an array, a pointer, ...) with its `Name` and
        its `ContainingNamespace`, which may be null */
    | OtherType(name: string, ns: Option<Namespace>)

  /** The kind of a declared member, with its declared type. */
  datatype MemberKind =
    | MethodSymbol(returnType: TypeSymbol)
    | PropertySymbol(propertyType: TypeSymbol)
    /** any other member symbol (a field, an event, ...) */
    | OtherMember

  /** A member declared in a named type. */
  datatype MemberSymbol = MemberSymbol(
    kind: MemberKind,
    name: string,
    containingType: NamedType,
    access: Accessibility,
    isStatic: bool)

  /** `ISymbol.ContainingNamespace` of a named type: a nested type lives in the
      namespace of its outermost containing type. */
  function ContainingNamespace(t: NamedType): Namespace
    decreases t
  {
    match t.container
    case InNamespace(ns) => ns
    case InType(outer) => ContainingNamespace(outer)
  }

  /** `GetFullName` on a namespace: the dotted path from the global namespace,
      whose own name is empty. */
  function NamespaceFullName(ns: Namespace): string
  {
    match ns
    case Global => ""
    case Child(Global, name) => name
    case Child(parent, name) => NamespaceFullName(parent) + "." + name
  }

  /** `GetFullName` with the namespace prefix rule: the namespace's full name
      and a dot in front, unless the namespace is missing or global. */
  function Qualify(ns: Option<Namespace>, name: string): string
  {
    if ns.Some? && ns.value.Child? then NamespaceFullName(ns.value) + "." + name else name
  }

  /** `GetFullName` on a named type: its name, its type arguments' full names
      in angle brackets when it is generic, and its namespace's full name in
      front. Containing types do not appear. */
  function NamedFullName(t: NamedType): string
    decreases t, 1
  {
    var name := if t.isGeneric then t.name + "<" + Join(ArgumentFullNames(t), ", ") + ">" else t.name;
    Qualify(Some(ContainingNamespace(t)), name)
  }

  function ArgumentFullNames(t: NamedType): seq<string>
    decreases t, 0
  {
    seq(|t.typeArguments|, i requires 0 <= i < |t.typeArguments| => TypeFullName(t.typeArguments[i]))
  }

  /** `GetFullName` on any type symbol; a type parameter is never qualified. */
  function TypeFullName(t: TypeSymbol): string
    decreases t
  {
    match t
    case Named(named) => NamedFullName(named)
    case TypeParameter(name) => name
    case OtherType(name, ns) => Qualify(ns, name)
  }

  /** `GetReflectionName`: the runtime name of a type, with `+` between a
      nested type and its containing type. */
  function ReflectionName(t: NamedType): string
    decreases t
  {
    match t.container
    case InType(outer) => ReflectionName(outer) + "+" + t.name
    case InNamespace(_) => NamedFullName(t)
  }

  /** `System.Reflection.BindingFlags`, with the values .NET assigns. */
  type BindingFlags = bv32

  const Default: BindingFlags := 0
  const Instance: BindingFlags := 4
  const Static: BindingFlags := 8
  const PublicFlag: BindingFlags := 16
  const NonPublic: BindingFlags := 32

  /** `GetBindingFlags`: `Public` or `NonPublic` after the declared
      accessibility, `Static` or `Instance` after the modifier. */
  function GetBindingFlags(access: Accessibility, isStatic: bool): BindingFlags
  {
    var flags := Default;
    var flags := flags | (if access == Public then PublicFlag else NonPublic);
    flags | (if isStatic then Static else Instance)
  }

  /** Whether a runtime member with the given publicness and staticness is
      selected by `flags`. */
  predicate Selects(flags: BindingFlags, isPublic: bool, isStatic: bool)
  {
    && (if isPublic then flags & PublicFlag != 0 else flags & NonPublic != 0)
    && (if isStatic then flags & Static != 0 else flags & Instance != 0)
  }

  /** `GetAccessibility`: the keyword for the four single-keyword
      accessibilities; every other accessibility raises. */
  function GetAccessibility(access: Accessibility): Result<string, Fault>
  {
    match access
    case Public => Success("public")
    case Protected => Success("protected")
    case Internal => Success("internal")
    case Private => Success("private")
    case _ => Failure(UnknownAccessibility)
  }

  /** What a C# reader makes of an accessibility keyword. */
  function ParseAccessibility(keyword: string): Option<Accessibility>
  {
    if keyword == "public" then Some(Public)
    else if keyword == "protected" then Some(Protected)
    else if keyword == "internal" then Some(Internal)
    else if keyword == "private" then Some(Private)
    else None
  }

  /** `GetReturnType`: a method's return type or a property's type. */
  function GetReturnType(m: MemberSymbol): Result<TypeSymbol, Fault>
  {
    match m.kind
    case MethodSymbol(t) => Success(t)
    case PropertySymbol(t) => Success(t)
    case OtherMember => Failure(InvalidSymbolKind)
  }

  // --------------------------------------------------------------- properties

  /** The names of the namespaces from the outermost one in. */
  function NamespacePath(ns: Namespace): seq<string>
  {
    match ns
    case Global => []
    case Child(parent, name) => NamespacePath(parent) + [name]
  }

  /** A namespace's full name is its path joined by dots. */
  lemma {:induction false} NamespaceFullNamePath(ns: Namespace)
    ensures NamespaceFullName(ns) == Join(NamespacePath(ns), ".")
  {
    match ns
    case Global =>
    case Child(Global, name) =>
    case Child(parent, name) =>
      NamespaceFullNamePath(parent);
      assert NamespacePath(parent) != [] by {
        assert parent.Child?;
        assert NamespacePath(parent) == NamespacePath(parent.parent) + [parent.name];
      }
      JoinSnoc(NamespacePath(parent), name, ".");
  }

  /** A name as C# writes it: non-empty, and without a dot. */
  predicate Identifier(name: string)
  {
    |name| >= 1 && '.' !in name
  }

  predicate WellNamed(ns: Namespace)
  {
    match ns
    case Global => true
    case Child(parent, name) => Identifier(name) && WellNamed(parent)
  }

  /** Splitting a namespace's full name at the dots gives back its path, so
      distinct namespaces have distinct full names. */
  lemma NamespaceFullNameSplit(ns: Namespace)
    requires WellNamed(ns) && ns != Global
    ensures Split(NamespaceFullName(ns), '.') == NamespacePath(ns)
  {
    NamespaceFullNamePath(ns);
    WellNamedPath(ns);
    SplitJoin(NamespacePath(ns), '.');
  }

  lemma {:induction false} WellNamedPath(ns: Namespace)
    requires WellNamed(ns)
    ensures |NamespacePath(ns)| >= 1 <==> ns != Global
    ensures forall i :: 0 <= i < |NamespacePath(ns)| ==> '.' !in NamespacePath(ns)[i]
  {
    if ns.Child? {
      WellNamedPath(ns.parent);
    }
  }

  lemma NamespaceFullNameInjective(a: Namespace, b: Namespace)
    requires WellNamed(a) && WellNamed(b) && a != Global && b != Global
    requires NamespaceFullName(a) == NamespaceFullName(b)
    ensures a == b
  {
    NamespaceFullNameSplit(a);
    NamespaceFullNameSplit(b);
    PathInjective(a, b);
  }

  lemma {:induction false} PathInjective(a: Namespace, b: Namespace)
    requires NamespacePath(a) == NamespacePath(b)
    ensures a == b
  {
    if a.Child? && b.Child? {
      var pa := NamespacePath(a.parent);
      var pb := NamespacePath(b.parent);
      assert pa + [a.name] == pb + [b.name];
      assert pa == (pa + [a.name])[..|pa|];
      assert pb == (pb + [b.name])[..|pb|];
      PathInjective(a.parent, b.parent);
    }
  }

  /** The full name of a non-generic type is its namespace path and its own
      name, joined by dots: nesting in other types is not part of it. */
  lemma NamedFullNamePath(t: NamedType)
    requires !t.isGeneric
    ensures NamedFullName(t) == Join(NamespacePath(ContainingNamespace(t)) + [t.name], ".")
  {
    var ns := ContainingNamespace(t);
    NamespaceFullNamePath(ns);
    if ns.Child? {
      assert NamespacePath(ns) != [] by {
        assert NamespacePath(ns) == NamespacePath(ns.parent) + [ns.name];
      }
      JoinSnoc(NamespacePath(ns), t.name, ".");
    }
  }

  /** The outermost type that contains `t` (or `t` itself). */
  function Outermost(t: NamedType): NamedType
    decreases t
  {
    match t.container
    case InType(outer) => Outermost(outer)
    case InNamespace(_) => t
  }

  /** The names of the types from just inside the outermost one down to `t`. */
  function NestingNames(t: NamedType): seq<string>
    decreases t
  {
    match t.container
    case InType(outer) => NestingNames(outer) + [t.name]
    case InNamespace(_) => []
  }

  /** The reflection name is the outermost type's full name followed by one
      `+Name` per level of nesting. */
  lemma {:induction false} ReflectionNameNesting(t: NamedType)
    ensures ReflectionName(t) == Join([NamedFullName(Outermost(t))] + NestingNames(t), "+")
    decreases t
  {
    if t.container.InType? {
      var outer := t.container.outer;
      ReflectionNameNesting(outer);
      var parts := [NamedFullName(Outermost(outer))] + NestingNames(outer);
      assert [NamedFullName(Outermost(t))] + NestingNames(t) == parts + [t.name];
      JoinSnoc(parts, t.name, "+");
    }
  }

  /** Splitting the reflection name at `+` recovers the outermost type's full
      name and the nested names, when none of them contains a `+`. */
  lemma ReflectionNameSplit(t: NamedType)
    requires '+' !in NamedFullName(Outermost(t))
    requires forall i :: 0 <= i < |NestingNames(t)| ==> '+' !in NestingNames(t)[i]
    ensures Split(ReflectionName(t), '+') == [NamedFullName(Outermost(t))] + NestingNames(t)
    ensures Occurrences(ReflectionName(t), '+') == |NestingNames(t)|
  {
    ReflectionNameNesting(t);
    var parts := [NamedFullName(Outermost(t))] + NestingNames(t);
    forall i | 0 <= i < |parts|
      ensures '+' !in parts[i]
    {
      if i > 0 {
        assert parts[i] == NestingNames(t)[i - 1];
      }
    }
    SplitJoin(parts, '+');
  }

  /** The binding flags name exactly one of `Public`/`NonPublic` and exactly
      one of `Static`/`Instance`; a runtime member is selected exactly when
      its publicness and staticness agree with the declaration. */
  lemma BindingFlagsSelect(access: Accessibility, isStatic: bool, memberPublic: bool, memberStatic: bool)
    ensures var flags := GetBindingFlags(access, isStatic);
      && (flags & PublicFlag != 0 <==> access == Public)
      && (flags & NonPublic != 0 <==> access != Public)
      && (flags & Static != 0 <==> isStatic)
      && (flags & Instance != 0 <==> !isStatic)
      && (Selects(flags, memberPublic, memberStatic) <==> memberPublic == (access == Public) && memberStatic == isStatic)
  {
  }

  /** The emitted keyword reads back as the declared accessibility, and only
      the four single-keyword accessibilities are emitted. */
  lemma AccessibilityRoundTrip(access: Accessibility)
    ensures GetAccessibility(access).Success? <==> access in {Public, Protected, Internal, Private}
    ensures GetAccessibility(access).Success? ==> ParseAccessibility(GetAccessibility(access).value) == Some(access)
    ensures GetAccessibility(access).Failure? ==> GetAccessibility(access).error == UnknownAccessibility
  {
  }

  /** Every keyword the reader accepts is the one emitted for what it reads. */
  lemma AccessibilityKeywords(keyword: string)
    requires ParseAccessibility(keyword).Some?
    ensures GetAccessibility(ParseAccessibility(keyword).value) == Success(keyword)
  {
  }
}
