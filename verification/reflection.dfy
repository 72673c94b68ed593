/** The runtime side of member binding: the loaded secondary assembly as the
    generator sees it through reflection, and `GetMember` from
    SymbolExtensions.cs, which finds the runtime member a declared member
    symbol stands for. */
module Reflection {

  import opened Wrappers
  import opened Exceptions
  import opened Literals
  import opened Symbols

  /** A runtime `MethodInfo`: a method, or a property's `get` accessor. */
  datatype RuntimeMethod = RuntimeMethod(
    isStatic: bool,
    /** `GetParameters().Length` */
    parameterCount: nat,
    isGenericMethod: bool,
    returnType: ClrType)

  datatype RuntimeKind =
    | RuntimeMethodKind(info: RuntimeMethod)
    /** a property and its `GetMethod`, which is null for a property without getter */
    | RuntimePropertyKind(getter: Option<RuntimeMethod>)

  /** A runtime `MemberInfo`. `isPublic` and `isStatic` are what binding flags
      test it against; `marker` is the `Deserialize` value of its
      `[CompileTimeExecution]` attribute, or `None` when it carries none. */
  datatype RuntimeMember = RuntimeMember(
    name: string,
    kind: RuntimeKind,
    isPublic: bool,
    isStatic: bool,
    marker: Option<bool>)

  /** The loaded assembly: its types by runtime name (`Type.FullName`, with
      `+` for nesting), each with the members declared on it. */
  datatype Assembly = Assembly(types: map<string, seq<RuntimeMember>>)

  /** The members of `members` that a `GetMethod` (`wantMethod`) or
      `GetProperty` lookup by `name` and `flags` matches, in declaration order. */
  function Candidates(members: seq<RuntimeMember>, name: string, flags: BindingFlags, wantMethod: bool): seq<RuntimeMember>
  {
    if |members| == 0 then []
    else
      var m := members[0];
      (if m.name == name && m.kind.RuntimeMethodKind? == wantMethod && Selects(flags, m.isPublic, m.isStatic) then [m] else [])
      + Candidates(members[1..], name, flags, wantMethod)
  }

  /** A member is a candidate exactly when it is declared on the type, has
      the name and the kind looked up, and the flags select it. */
  lemma {:induction false} CandidatesMembers(members: seq<RuntimeMember>, name: string, flags: BindingFlags, wantMethod: bool)
    ensures forall m :: m in Candidates(members, name, flags, wantMethod) <==>
      m in members && m.name == name && m.kind.RuntimeMethodKind? == wantMethod && Selects(flags, m.isPublic, m.isStatic)
    decreases |members|
  {
    if |members| > 0 {
      CandidatesMembers(members[1..], name, flags, wantMethod);
      assert members == [members[0]] + members[1..];
    }
  }

  /** `Type.GetMethod(name, flags)` / `Type.GetProperty(name, flags)`: null when
      nothing matches, the member when exactly one does, and an
      `AmbiguousMatchException` when several do. */
  function Lookup(members: seq<RuntimeMember>, name: string, flags: BindingFlags, wantMethod: bool): Result<Option<RuntimeMember>, Fault>
  {
    var found := Candidates(members, name, flags, wantMethod);
    if |found| == 0 then Success(None)
    else if |found| == 1 then Success(Some(found[0]))
    else Failure(AmbiguousMatch(name))
  }

  /** `SymbolExtensions.GetMember`: the containing type is looked up by its
      reflection name (null when the assembly has no such type), then the
      member by name and by the binding flags of its declaration; a symbol
      that is neither a method nor a property raises. */
  function GetMember(symbol: MemberSymbol, assembly: Assembly): Result<Option<RuntimeMember>, Fault>
  {
    var typeName := ReflectionName(symbol.containingType);
    if typeName !in assembly.types then Success(None)
    else
      var flags := GetBindingFlags(symbol.access, symbol.isStatic);
      match symbol.kind
      case MethodSymbol(_) => Lookup(assembly.types[typeName], symbol.name, flags, true)
      case PropertySymbol(_) => Lookup(assembly.types[typeName], symbol.name, flags, false)
      case OtherMember => Failure(InvalidSymbolKind)
  }

  // --------------------------------------------------------------- properties

  /** A runtime member that stands for `symbol`: same name, same kind
      (method or property), same publicness and same staticness. */
  predicate Matches(symbol: MemberSymbol, m: RuntimeMember)
  {
    && m.name == symbol.name
    && (symbol.kind.MethodSymbol? <==> m.kind.RuntimeMethodKind?)
    && m.isPublic == (symbol.access == Public)
    && m.isStatic == symbol.isStatic
  }

  /** The members that stand for `symbol`, in declaration order. */
  function MatchingMembers(symbol: MemberSymbol, members: seq<RuntimeMember>): seq<RuntimeMember>
  {
    if |members| == 0 then []
    else (if Matches(symbol, members[0]) then [members[0]] else []) + MatchingMembers(symbol, members[1..])
  }

  /** The lookup by name and binding flags selects exactly the members that
      stand for the symbol, in order. */
  lemma {:induction false} CandidatesAreMatches(symbol: MemberSymbol, members: seq<RuntimeMember>)
    requires !symbol.kind.OtherMember?
    ensures Candidates(members, symbol.name, GetBindingFlags(symbol.access, symbol.isStatic), symbol.kind.MethodSymbol?)
         == MatchingMembers(symbol, members)
    decreases |members|
  {
    if |members| > 0 {
      var m := members[0];
      BindingFlagsSelect(symbol.access, symbol.isStatic, m.isPublic, m.isStatic);
      CandidatesAreMatches(symbol, members[1..]);
    }
  }

  /** `GetMember` on a method or property symbol: "not found" when the
      containing type is missing or no member of it stands for the symbol;
      the member when exactly one does; an `AmbiguousMatchException` when
      several do (overloads of a method, for instance). */
  lemma GetMemberBinds(symbol: MemberSymbol, assembly: Assembly)
    requires !symbol.kind.OtherMember?
    ensures var typeName := ReflectionName(symbol.containingType);
      var matching := if typeName in assembly.types then MatchingMembers(symbol, assembly.types[typeName]) else [];
      && (GetMember(symbol, assembly) == Success(None) <==> |matching| == 0)
      && (forall m :: GetMember(symbol, assembly) == Success(Some(m)) <==> matching == [m])
      && (GetMember(symbol, assembly).Failure? <==> |matching| >= 2)
      && (GetMember(symbol, assembly).Failure? ==> GetMember(symbol, assembly).error == AmbiguousMatch(symbol.name))
  {
    var typeName := ReflectionName(symbol.containingType);
    if typeName in assembly.types {
      CandidatesAreMatches(symbol, assembly.types[typeName]);
    }
  }

  /** Whatever `GetMember` binds stands for the symbol and belongs to the
      symbol's containing type. */
  lemma {:induction false} BoundMemberMatches(symbol: MemberSymbol, members: seq<RuntimeMember>, m: RuntimeMember)
    requires m in MatchingMembers(symbol, members)
    ensures m in members && Matches(symbol, m)
    decreases |members|
  {
    if !(Matches(symbol, members[0]) && m == members[0]) {
      BoundMemberMatches(symbol, members[1..], m);
    }
  }

  /** `GetMember` raises on a symbol that is neither a method nor a property
      whose type is found, and reports "not found" before looking at the
      symbol's kind. */
  lemma GetMemberOtherKind(symbol: MemberSymbol, assembly: Assembly)
    requires symbol.kind.OtherMember?
    ensures ReflectionName(symbol.containingType) in assembly.types <==> GetMember(symbol, assembly) == Failure(InvalidSymbolKind)
    ensures ReflectionName(symbol.containingType) !in assembly.types <==> GetMember(symbol, assembly) == Success(None)
  {
  }

  /** A symbol `GetMember` binds is a method or a property, so `GetReturnType`
      on it gives the method's return type or the property's type and never
      raises: its `InvalidSymbolKind` case is unreachable after binding. */
  lemma BoundMemberReturnType(symbol: MemberSymbol, assembly: Assembly)
    requires GetMember(symbol, assembly).Success? && GetMember(symbol, assembly).value.Some?
    ensures GetReturnType(symbol).Success?
    ensures symbol.kind.MethodSymbol? ==> GetReturnType(symbol).value == symbol.kind.returnType
    ensures symbol.kind.PropertySymbol? ==> GetReturnType(symbol).value == symbol.kind.propertyType
  {
  }
}
