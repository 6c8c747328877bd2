/** What the generator reads from the compiler host: the declared members of a
    named type and the class names of its attributes. These records stand in
    for Roslyn's `INamedTypeSymbol`, `ISymbol` and `AttributeData`. */
module Symbols {

  datatype Option<T> = None | Some(value: T)

  /** The kinds of symbol `GetMembers()` returns; only `Property` is an
      `IPropertySymbol`. */
  datatype MemberKind = Property | Method | Field | Event | NestedType

  datatype MemberSymbol = MemberSymbol(name: string, kind: MemberKind, isStatic: bool)

  /** A named type as the host resolves it: `ContainingNamespace.ToDisplayString()`,
      `Name`, `GetMembers()` in declaration order, and, per entry of
      `GetAttributes()`, the name of its attribute class (`None` when
      `AttributeClass` is null; an attribute that fails to bind still has an
      error class named as written). */
  datatype NamedTypeSymbol = NamedTypeSymbol(
    containingNamespace: string,
    name: string,
    members: seq<MemberSymbol>,
    attributeClassNames: seq<Option<string>>)
}
