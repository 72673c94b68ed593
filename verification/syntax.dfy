/** Name syntax as the attribute test of the member walker reads it, and
    `GetLocalName` from SyntaxExtensions.cs. */
module Syntax {

  import opened Strings

  /** A simple name: `Name` or `Name<Args>`. */
  datatype SimpleName =
    | IdentifierName(identifier: string)
    | GenericName(identifier: string, typeArguments: seq<string>)

  /** A name as written in source: simple, qualified (`Left.Right`), or
      alias-qualified (`alias::Name`, as in `global::Name`). */
  datatype NameSyntax =
    | Simple(simple: SimpleName)
    | Qualified(left: NameSyntax, right: SimpleName)
    | AliasQualified(alias: string, name: SimpleName)

  function SimpleText(n: SimpleName): string
  {
    match n
    case IdentifierName(id) => id
    case GenericName(id, args) => id + "<" + Join(args, ", ") + ">"
  }

  /** `NameSyntax.ToString()`: the name's source text. */
  function Text(n: NameSyntax): string
  {
    match n
    case Simple(s) => SimpleText(s)
    case Qualified(left, right) => Text(left) + "." + SimpleText(right)
    case AliasQualified(alias, name) => alias + "::" + SimpleText(name)
  }

  /** `GetLocalName`: the right-most part of a qualified name; any other name
      is returned as its whole text. */
  function GetLocalName(n: NameSyntax): string
    decreases if n.Qualified? then 1 else 0
  {
    match n
    case Qualified(_, right) => GetLocalName(Simple(right))
    case _ => Text(n)
  }

  // --------------------------------------------------------------- properties

  /** The dot-separated parts of a name without alias. */
  function Components(n: NameSyntax): seq<string>
    requires !n.AliasQualified?
  {
    match n
    case Simple(s) => [SimpleText(s)]
    case Qualified(left, right) =>
      if left.AliasQualified? then [SimpleText(right)]
      else Components(left) + [SimpleText(right)]
  }

  /** A name without alias, whose parts contain no dot. */
  predicate Dotless(n: NameSyntax)
  {
    match n
    case Simple(s) => '.' !in SimpleText(s)
    case Qualified(left, right) => !left.AliasQualified? && Dotless(left) && '.' !in SimpleText(right)
    case AliasQualified(_, _) => false
  }

  /** The local name is a suffix of the name's text. */
  lemma {:induction false} LocalNameSuffix(n: NameSyntax)
    ensures |GetLocalName(n)| <= |Text(n)|
    ensures Text(n)[|Text(n)| - |GetLocalName(n)|..] == GetLocalName(n)
  {
  }

  /** For a name whose parts contain no dot, splitting its text at the dots
      gives its parts, and the local name is the last of them. */
  lemma {:induction false} LocalNameIsLastComponent(n: NameSyntax)
    requires Dotless(n)
    ensures Split(Text(n), '.') == Components(n)
    ensures GetLocalName(n) == Components(n)[|Components(n)| - 1]
  {
    match n
    case Simple(s) =>
      SplitAbsent(SimpleText(s), '.');
    case Qualified(left, right) =>
      LocalNameIsLastComponent(left);
      var parts := Components(left);
      forall i | 0 <= i < |parts + [SimpleText(right)]|
        ensures '.' !in (parts + [SimpleText(right)])[i]
      {
        if i < |parts| {
          SplitPartsDotless(Text(left), i);
        }
      }
      assert |parts| >= 1 by {
        SplitNonEmpty(Text(left));
      }
      JoinSnoc(parts, SimpleText(right), ".");
      assert Join(parts, ".") == Text(left);
      SplitJoin(parts + [SimpleText(right)], '.');
  }

  lemma SplitPartsDotless(s: string, i: nat)
    requires i < |Split(s, '.')|
    ensures '.' !in Split(s, '.')[i]
  {
  }

  lemma SplitNonEmpty(s: string)
    ensures |Split(s, '.')| >= 1
  {
  }
}
