/** AttributedMemberWalker.cs: the syntax walk that finds the members marked
    `[CompileTimeExecution]` in the secondary build's syntax trees, in
    document order. */
module Walker {

  import opened Syntax

  /** One attribute of an attribute list: only its name matters. */
  datatype Attribute = Attribute(name: NameSyntax)

  /** `[A, B(...)]`: one attribute list of a declaration. */
  datatype AttributeList = AttributeList(attributes: seq<Attribute>)

  /** `typeof(CompileTimeExecutionAttribute).Name`. */
  const MarkerTypeName: string := "CompileTimeExecutionAttribute"

  /** The name test as the walker writes it, and as the walk below uses it:
      the local name with the `Attribute` suffix appended must be the
      marker's type name. Only the short spelling `[CompileTimeExecution]`
      passes; the long spelling `[CompileTimeExecutionAttribute]`, which C#
      binds to the same attribute, does not. */
  predicate NamesMarkerAsWritten(a: Attribute)
  {
    GetLocalName(a.name) + "Attribute" == MarkerTypeName
  }

  /** The name test the walker evidently intends: C# resolves an attribute
      written `X` to the type `X` or `XAttribute`, so both the short and the
      long spelling name the marker. */
  predicate NamesMarker(a: Attribute)
  {
    GetLocalName(a.name) + "Attribute" == MarkerTypeName || GetLocalName(a.name) == MarkerTypeName
  }

  /** Some attribute of some list passes the walker's name test. */
  predicate Attributed(lists: seq<AttributeList>)
  {
    exists i, j :: 0 <= i < |lists| && 0 <= j < |lists[i].attributes| && NamesMarkerAsWritten(lists[i].attributes[j])
  }

  /** Some attribute of some list names the marker under the intended test. */
  predicate AttributedIntended(lists: seq<AttributeList>)
  {
    exists i, j :: 0 <= i < |lists| && 0 <= j < |lists[i].attributes| && NamesMarker(lists[i].attributes[j])
  }

  /** `IsAttributed`: scans every attribute of every list and stops at the
      first that passes the name test. */
  method IsAttributed(lists: seq<AttributeList>) returns (found: bool)
    ensures found <==> Attributed(lists)
  {
    var i := 0;
    while i < |lists|
      invariant 0 <= i <= |lists|
      invariant forall i', j :: 0 <= i' < i && 0 <= j < |lists[i'].attributes| ==> !NamesMarkerAsWritten(lists[i'].attributes[j])
    {
      var attributes := lists[i].attributes;
      var j := 0;
      while j < |attributes|
        invariant 0 <= j <= |attributes|
        invariant forall j' :: 0 <= j' < j ==> !NamesMarkerAsWritten(attributes[j'])
      {
        if NamesMarkerAsWritten(attributes[j]) {
          return true;
        }
        j := j + 1;
      }
      i := i + 1;
    }
    return false;
  }

  /** A syntax node, with the declared symbol of each member declaration as
      its payload `M`. */
  datatype Node<M> =
    | MethodDeclaration(attributeLists: seq<AttributeList>, member: M)
    | PropertyDeclaration(attributeLists: seq<AttributeList>, member: M)
    /** any other node (compilation unit, namespace, type declaration, ...),
        with its children in document order */
    | OtherNode(children: seq<Node<M>>)

  /** The walk: a method or property declaration is handed on when it is
      attributed and is not descended into; every other node is descended
      into, children in order. */
  function Scan<M>(n: Node<M>): seq<M>
    decreases n, 1
  {
    match n
    case MethodDeclaration(lists, m) => if Attributed(lists) then [m] else []
    case PropertyDeclaration(lists, m) => if Attributed(lists) then [m] else []
    case OtherNode(children) => ScanChildren(n, 0)
  }

  function ScanChildren<M>(n: Node<M>, i: nat): seq<M>
    requires n.OtherNode? && i <= |n.children|
    decreases n, 0, |n.children| - i
  {
    if i == |n.children| then [] else Scan(n.children[i]) + ScanChildren(n, i + 1)
  }

  /** The walks of all syntax trees, tree after tree. */
  function ScanAll<M>(trees: seq<Node<M>>): seq<M>
  {
    if |trees| == 0 then [] else Scan(trees[0]) + ScanAll(trees[1..])
  }

  // --------------------------------------------------------------- properties

  /** A member declaration found in a tree. */
  datatype Declaration<M> = Declaration(attributeLists: seq<AttributeList>, member: M)

  /** Every method and property declaration of a tree, in document order. */
  function Declarations<M>(n: Node<M>): seq<Declaration<M>>
    decreases n, 1
  {
    match n
    case MethodDeclaration(lists, m) => [Declaration(lists, m)]
    case PropertyDeclaration(lists, m) => [Declaration(lists, m)]
    case OtherNode(children) => DeclarationsFrom(n, 0)
  }

  function DeclarationsFrom<M>(n: Node<M>, i: nat): seq<Declaration<M>>
    requires n.OtherNode? && i <= |n.children|
    decreases n, 0, |n.children| - i
  {
    if i == |n.children| then [] else Declarations(n.children[i]) + DeclarationsFrom(n, i + 1)
  }

  /** The members of the attributed declarations, in order. */
  function MarkedMembers<M>(ds: seq<Declaration<M>>): seq<M>
  {
    if |ds| == 0 then []
    else (if Attributed(ds[0].attributeLists) then [ds[0].member] else []) + MarkedMembers(ds[1..])
  }

  lemma {:induction false} MarkedMembersAppend<M>(a: seq<Declaration<M>>, b: seq<Declaration<M>>)
    ensures MarkedMembers(a + b) == MarkedMembers(a) + MarkedMembers(b)
    decreases |a|
  {
    if |a| > 0 {
      assert (a + b)[1..] == a[1..] + b;
      MarkedMembersAppend(a[1..], b);
    } else {
      assert a + b == b;
    }
  }

  /** The walk hands on exactly the attributed method and property
      declarations, each once, in document order. */
  lemma {:induction false} ScanIsMarkedDeclarations<M>(n: Node<M>)
    ensures Scan(n) == MarkedMembers(Declarations(n))
    decreases n, 1
  {
    if n.OtherNode? {
      ScanChildrenIsMarked(n, 0);
    }
  }

  lemma {:induction false} ScanChildrenIsMarked<M>(n: Node<M>, i: nat)
    requires n.OtherNode? && i <= |n.children|
    ensures ScanChildren(n, i) == MarkedMembers(DeclarationsFrom(n, i))
    decreases n, 0, |n.children| - i
  {
    if i < |n.children| {
      ScanIsMarkedDeclarations(n.children[i]);
      ScanChildrenIsMarked(n, i + 1);
      MarkedMembersAppend(Declarations(n.children[i]), DeclarationsFrom(n, i + 1));
    }
  }

  /** The declarations of all trees, tree after tree. */
  function AllDeclarations<M>(trees: seq<Node<M>>): seq<Declaration<M>>
  {
    if |trees| == 0 then [] else Declarations(trees[0]) + AllDeclarations(trees[1..])
  }

  /** Over all trees of the build, the walk hands on the attributed
      declarations, tree after tree, each in document order. */
  lemma {:induction false} ScanAllIsMarked<M>(trees: seq<Node<M>>)
    ensures ScanAll(trees) == MarkedMembers(AllDeclarations(trees))
    decreases |trees|
  {
    if |trees| > 0 {
      ScanIsMarkedDeclarations(trees[0]);
      ScanAllIsMarked(trees[1..]);
      MarkedMembersAppend(Declarations(trees[0]), AllDeclarations(trees[1..]));
    }
  }

  /** Each member the walk hands on comes from an attributed declaration. */
  lemma {:induction false} MarkedMembersAttributed<M>(ds: seq<Declaration<M>>, m: M)
    requires m in MarkedMembers(ds)
    ensures exists k :: 0 <= k < |ds| && ds[k].member == m && Attributed(ds[k].attributeLists)
    decreases |ds|
  {
    if !(Attributed(ds[0].attributeLists) && ds[0].member == m) {
      MarkedMembersAttributed(ds[1..], m);
      var k :| 0 <= k < |ds[1..]| && ds[1..][k].member == m && Attributed(ds[1..][k].attributeLists);
      assert ds[k + 1] == ds[1..][k];
    }
  }

  // ----------------------------------------------------------------- finding

  /** The long spelling of the marker. */
  const LongSpelling: seq<AttributeList> :=
    [AttributeList([Attribute(Simple(IdentifierName("CompileTimeExecutionAttribute")))])]

  /** As written, the walker does not recognise `[CompileTimeExecutionAttribute]`;
      the intended test does. */
  lemma LongSpellingMissed()
    ensures !Attributed(LongSpelling)
    ensures AttributedIntended(LongSpelling)
  {
    var a := LongSpelling[0].attributes[0];
    assert GetLocalName(a.name) == "CompileTimeExecutionAttribute";
    assert GetLocalName(a.name) + "Attribute" != MarkerTypeName by {
      assert |GetLocalName(a.name) + "Attribute"| != |MarkerTypeName|;
    }
    assert NamesMarker(LongSpelling[0].attributes[0]);
  }

  /** So a method or property marked only with the long spelling is not
      handed on: the walk skips it, and it is never baked. */
  lemma LongSpellingSkipped<M>(m: M)
    ensures Scan(MethodDeclaration(LongSpelling, m)) == []
    ensures Scan(PropertyDeclaration(LongSpelling, m)) == []
  {
    LongSpellingMissed();
  }

  /** The walker's test, over a whole declaration: some attribute's local
      name is exactly the short spelling `CompileTimeExecution`. */
  lemma AttributedShortSpelling(lists: seq<AttributeList>)
    ensures Attributed(lists) <==>
      exists i, j :: 0 <= i < |lists| && 0 <= j < |lists[i].attributes| && GetLocalName(lists[i].attributes[j].name) == "CompileTimeExecution"
    ensures Attributed(lists) ==> AttributedIntended(lists)
  {
    forall i, j | 0 <= i < |lists| && 0 <= j < |lists[i].attributes|
      ensures NamesMarkerAsWritten(lists[i].attributes[j]) <==> GetLocalName(lists[i].attributes[j].name) == "CompileTimeExecution"
      ensures NamesMarkerAsWritten(lists[i].attributes[j]) ==> NamesMarker(lists[i].attributes[j])
    {
      NamesMarkerSpellings(lists[i].attributes[j]);
    }
  }

  /** The intended test accepts exactly the short and the long spelling of
      the marker's local name, and everything the written test accepts. */
  lemma NamesMarkerSpellings(a: Attribute)
    ensures NamesMarker(a) <==> GetLocalName(a.name) in {"CompileTimeExecution", "CompileTimeExecutionAttribute"}
    ensures NamesMarkerAsWritten(a) <==> GetLocalName(a.name) == "CompileTimeExecution"
    ensures NamesMarkerAsWritten(a) ==> NamesMarker(a)
  {
    var local := GetLocalName(a.name);
    if local + "Attribute" == MarkerTypeName {
      assert |local| == 20;
      assert local == (local + "Attribute")[..20] == MarkerTypeName[..20] == "CompileTimeExecution";
    } else {
      assert "CompileTimeExecution" + "Attribute" == MarkerTypeName;
    }
  }
}
