# RoodFluweel.ValueObjects — a Dafny model of the value-object generator

RoodFluweel.ValueObjects is a C# source generator. For every class marked
with `[ValueObject]`, it generates a partial class that implements structural
equality. The generated code contains a typed `Equals(T other)` that compares
every non-static property, an `Equals(object)` override, a `GetHashCode()` that
combines the properties, and the `==` and `!=` operators.

This project models the two core files of the generator.

* `ValueObjectCodeBuilder.GenerateValueObject` turns a type symbol into the
  generated text. It is pure code, so it is modelled with functions
  (`code_builder.dfy`). The member filter keeps the non-static properties in
  declaration order. The two `string.Join` renderings are modelled with
  `Text.Join`. The raw-string template is reconstructed character for
  character: the closing-delimiter indentation is removed, the leading blank
  line is kept, and lines end in `"\n"`. The template is cut into literal
  fragments and holes, so that every phrase the generated text must contain
  is a contiguous run of fragments at a known offset.
* `ValueObjectGenerator` has a syntax receiver that collects type
  declarations carrying attribute lists. Its `Execute` walks the collected
  candidates and emits one source for each candidate that resolves to a
  named type carrying an attribute class named `ValueObjectAttribute`.
  The receiver mutates a list, so it is a `class` with a `Candidates`
  sequence field and a method with a `modifies` clause. `Execute` is a
  method with a loop; it is proved against the specification function
  `EmitAll`. The host's `AddSource` calls are the method's output sequence.

The host's symbols (`INamedTypeSymbol`, `IPropertySymbol`, `AttributeData`)
are plain records in `symbols.dfy`. The string operations the generator
relies on are in `text.dfy`: `string.Join`, substring occurrence, and a
`Split` that inverts `Join`. `Split` is what reads the rendered member lists
back.

The model follows the code as written, including where it falls short of
what such a generator is usually expected to do. The code does not
deduplicate candidates that resolve to the same type. It does not match
fully qualified attribute names, and it keeps no cache between passes. `NoDeduplication` and `MarkerIsShortName`
state that behaviour as written.

## Model

| member | source | states |
|---|---|---|
| ValueObjectCodeBuilder.InstanceProperties | RoodFluweel.ValueObjects/ValueObjectCodeBuilder.cs:13-17 | the extracted list is no longer than the member list and holds only non-static properties |
| ValueObjectCodeBuilder.Comparisons | RoodFluweel.ValueObjects/ValueObjectCodeBuilder.cs:19 | the comparison text; `ComparisonsRoundTrip`, `SeparatorCounts` and `SeparatorOccurrences` state what it holds |
| ValueObjectCodeBuilder.HashValues | RoodFluweel.ValueObjects/ValueObjectCodeBuilder.cs:20 | the hash argument text; `HashValuesRoundTrip`, `SeparatorCounts` and `SeparatorOccurrences` state what it holds |
| Text.Join | RoodFluweel.ValueObjects/ValueObjectCodeBuilder.cs:19-20 | `string.Join`; `JoinLength`, `JoinSplit` and `SplitJoin` state its length and that `Split` inverts it |
| ValueObjectCodeBuilder.InstancePropertiesMembership | RoodFluweel.ValueObjects/ValueObjectCodeBuilder.cs:13-17 | a member is extracted iff it is declared and is a non-static property (methods, fields, events, nested types and static properties never are) |
| ValueObjectCodeBuilder.InstancePropertiesAppend | RoodFluweel.ValueObjects/ValueObjectCodeBuilder.cs:13-17 | extraction distributes over concatenation, so the kept members stay in declaration order |
| ValueObjectCodeBuilder.InstancePropertiesSubsequence | RoodFluweel.ValueObjects/ValueObjectCodeBuilder.cs:13-17 | the extracted list is a subsequence of the declared members (order preserved, nothing invented) |
| ValueObjectCodeBuilder.InstancePropertiesCount | RoodFluweel.ValueObjects/ValueObjectCodeBuilder.cs:13-17 | each non-static property is kept exactly as often as it is declared; every other member is kept zero times |
| ValueObjectCodeBuilder.InstancePropertiesIdempotent | RoodFluweel.ValueObjects/ValueObjectCodeBuilder.cs:13-17 | filtering an already filtered list changes nothing |
| ValueObjectCodeBuilder.ClauseRoundTrip | RoodFluweel.ValueObjects/ValueObjectCodeBuilder.cs:19 | the clause `Equals(N, other.N)` decodes back to `N` for every name, commas included |
| ValueObjectCodeBuilder.DecodeClausesRoundTrip | RoodFluweel.ValueObjects/ValueObjectCodeBuilder.cs:19 | the list of clauses decodes back to the member names, in order, for any names |
| ValueObjectCodeBuilder.ComparisonsRoundTrip | RoodFluweel.ValueObjects/ValueObjectCodeBuilder.cs:19 | for member names without an ampersand, splitting the comparison text at `" && "` and decoding each clause gives back exactly the member names in order; no members gives the empty text |
| ValueObjectCodeBuilder.HashValuesRoundTrip | RoodFluweel.ValueObjects/ValueObjectCodeBuilder.cs:20 | for non-empty member names without blanks, splitting the hash text at `", "` gives back exactly the member names in order; no members gives the empty text |
| ValueObjectCodeBuilder.ExplicitInterfaceName | RoodFluweel.ValueObjects/ValueObjectCodeBuilder.cs:13-20 | a property named after its interface, such as `I<A,B>.P`, reads back whole from both renderings |
| ValueObjectCodeBuilder.SeparatorCounts | RoodFluweel.ValueObjects/ValueObjectCodeBuilder.cs:19-20 | with n >= 1 members, the comparison text is as long as its clauses plus n - 1 four-character separators, and the hash text as long as the names plus n - 1 two-character separators |
| ValueObjectCodeBuilder.SeparatorOccurrences | RoodFluweel.ValueObjects/ValueObjectCodeBuilder.cs:19-20 | with n >= 1 members whose names hold no ampersand and no blank, each text splits at its separator into exactly n pieces, so it holds exactly n - 1 separators |
| Text.JoinLength | RoodFluweel.ValueObjects/ValueObjectCodeBuilder.cs:19-20 | `string.Join` of n >= 1 items has the items' total length plus n - 1 separators |
| Text.JoinSplit | RoodFluweel.ValueObjects/ValueObjectCodeBuilder.cs:19-20 | joining the parts of a split gives back any string |
| Text.SplitJoin | RoodFluweel.ValueObjects/ValueObjectCodeBuilder.cs:19-20 | splitting a join of at least one item gives back the items, when the separator has two or more characters, its first two differ, and no item contains its second character (both `" && "` and `", "` qualify) |
| ValueObjectCodeBuilder.Template | RoodFluweel.ValueObjects/ValueObjectCodeBuilder.cs:22-57 | the raw-string template with its two holes; `TemplateSignatures`, `TemplateIdentifiers`, `TemplateHoles` and `TemplateEqualsOrder` state what it contains and in which order |
| ValueObjectCodeBuilder.GenerateValueObject | RoodFluweel.ValueObjects/ValueObjectCodeBuilder.cs:8-58 | the generated text for a type symbol; the `Generated…` lemmas, `ZeroMembers`, `OnlyInstancePropertiesMatter` and `NonInstanceMemberIgnored` state its contents and what it depends on |
| ValueObjectCodeBuilder.TemplateSignatures | RoodFluweel.ValueObjects/ValueObjectCodeBuilder.cs:29-41 | whatever the holes hold, the template text contains `public bool Equals(T other)` and `public override int GetHashCode()` |
| ValueObjectCodeBuilder.TemplateIdentifiers | RoodFluweel.ValueObjects/ValueObjectCodeBuilder.cs:25-51 | the namespace and type name appear verbatim in the namespace declaration, the class header, the `obj as T` cast and both operator signatures |
| ValueObjectCodeBuilder.TemplateHoles | RoodFluweel.ValueObjects/ValueObjectCodeBuilder.cs:33-43 | the comparison text is the typed `Equals` return expression; the hash text is the argument list of `HashCode.Combine` |
| ValueObjectCodeBuilder.TemplateEqualsOrder | RoodFluweel.ValueObjects/ValueObjectCodeBuilder.cs:31-33 | in the typed `Equals`, the null check ends before the identity check starts, and the identity check ends before the member comparison |
| ValueObjectCodeBuilder.GeneratedSignatures | RoodFluweel.ValueObjects/ValueObjectCodeBuilder.cs:8-58 | the text generated for any type contains the typed `Equals` of its name and the `GetHashCode` override |
| ValueObjectCodeBuilder.GeneratedIdentifiers | RoodFluweel.ValueObjects/ValueObjectCodeBuilder.cs:10-27 | the type's namespace and name are copied verbatim into the generated text |
| ValueObjectCodeBuilder.GeneratedMemberText | RoodFluweel.ValueObjects/ValueObjectCodeBuilder.cs:19-43 | the generated `Equals` returns the conjunction over the extracted members, and `GetHashCode` combines their names |
| ValueObjectCodeBuilder.GeneratedEqualsOrder | RoodFluweel.ValueObjects/ValueObjectCodeBuilder.cs:31-33 | in the generated typed `Equals`: null check, then identity check, then member comparison |
| ValueObjectCodeBuilder.ZeroMembers | RoodFluweel.ValueObjects/ValueObjectCodeBuilder.cs:19-43 | without non-static properties both renderings are empty: the text holds `return ;` and `HashCode.Combine()` |
| ValueObjectCodeBuilder.OnlyInstancePropertiesMatter | RoodFluweel.ValueObjects/ValueObjectCodeBuilder.cs:13-20 | the generated text equals the text generated from the non-static properties alone |
| ValueObjectCodeBuilder.NonInstanceMemberIgnored | RoodFluweel.ValueObjects/ValueObjectCodeBuilder.cs:13-17 | inserting a static member or a non-property anywhere in the member list leaves the generated text unchanged |
| ValueObjectCodeBuilder.FooScenario | RoodFluweel.ValueObjects.Tests/ValueObjectCodeBuilderTests.cs:14-57 | for `Foo { X; Y; ctor }` in any namespace, the text contains `public bool Equals(Foo other)`, `Equals(X, other.X) && Equals(Y, other.Y)`, the `GetHashCode` signature and `HashCode.Combine(X, Y)` |
| ValueObjectCodeBuilder.BazScenario | RoodFluweel.ValueObjects.Tests/ValueObjectGeneratorTests.cs:157-193 | for `Baz` with `A`, static `SomeStaticProperty` and method `SomeMethod`, only `A` is equated, and the text equals the one for `A` alone |
| ValueObjectCodeBuilder.EmptyScenario | RoodFluweel.ValueObjects.Tests/ValueObjectCodeBuilderTests.cs:104-135 | for `Empty` without members, the text contains `public bool Equals(Empty other)`, the `GetHashCode` signature and `HashCode.Combine()` |
| ValueObjectGenerator.Collected | RoodFluweel.ValueObjects/ValueObjectGenerator.cs:53-59 | the collected candidates are visited type declarations with at least one attribute list, and there are no more of them than visited nodes |
| ValueObjectGenerator.CollectedAppend | RoodFluweel.ValueObjects/ValueObjectGenerator.cs:53-59 | visiting `a` then `b` collects `a`'s candidates followed by `b`'s, in visiting order |
| ValueObjectGenerator.CollectedMembership | RoodFluweel.ValueObjects/ValueObjectGenerator.cs:55 | a declaration is collected iff it was visited and has an attribute list |
| ValueObjectGenerator.ValueObjectReceiver.constructor | RoodFluweel.ValueObjects/ValueObjectGenerator.cs:51 | a new receiver starts with no candidates |
| ValueObjectGenerator.ValueObjectReceiver.OnVisitSyntaxNode | RoodFluweel.ValueObjects/ValueObjectGenerator.cs:53-59 | the candidate list grows by the node exactly when it is a type declaration with an attribute list; otherwise it is unchanged; every candidate has an attribute list |
| ValueObjectGenerator.HasMarker | RoodFluweel.ValueObjects/ValueObjectGenerator.cs:39 | the marker test; `HasMarkerIff` and `MarkerIsShortName` state when it holds |
| ValueObjectGenerator.HasMarkerIff | RoodFluweel.ValueObjects/ValueObjectGenerator.cs:39 | the marker test holds iff some attribute class is named exactly `ValueObjectAttribute`; a null attribute class never matches |
| ValueObjectGenerator.MarkerIsShortName | RoodFluweel.ValueObjects/ValueObjectGenerator.cs:39 | a fully qualified name, the name without `Attribute`, or a null attribute class does not match; a matching entry after a null one does |
| ValueObjectGenerator.Execute | RoodFluweel.ValueObjects/ValueObjectGenerator.cs:18-47 | with no receiver or a foreign receiver nothing is emitted; otherwise the emitted sources are exactly `EmitAll` of the receiver's candidates, in order |
| ValueObjectGenerator.EmitAll | RoodFluweel.ValueObjects/ValueObjectGenerator.cs:29-46 | what the loop emits for a candidate list; `EmitAllAppend`, `EmitOne`, `EmitAllCount` and `EmitAllMembership` state which sources it holds and in which order |
| ValueObjectGenerator.EmittedFromAttributedDeclaration | RoodFluweel.ValueObjects/ValueObjectGenerator.cs:29-59 | for a receiver in its valid state, every emitted source comes from a collected declaration with at least one attribute list |
| ValueObjectGenerator.EmitAllAppend | RoodFluweel.ValueObjects/ValueObjectGenerator.cs:29-46 | emission distributes over the candidate list: outputs follow candidate order and do not depend on neighbours |
| ValueObjectGenerator.EmitOne | RoodFluweel.ValueObjects/ValueObjectGenerator.cs:34-45 | one candidate yields its source (hint `Name_ValueObject.g.cs`, text `GenerateValueObject`) iff it resolves to a named type with the marker, else nothing |
| ValueObjectGenerator.SkippedCandidate | RoodFluweel.ValueObjects/ValueObjectGenerator.cs:34-42 | a skipped candidate contributes nothing and the candidates after it are still processed |
| ValueObjectGenerator.EmitAllCount | RoodFluweel.ValueObjects/ValueObjectGenerator.cs:29-46 | exactly one source per qualifying candidate, so no more sources than candidates |
| ValueObjectGenerator.EmitAllMembership | RoodFluweel.ValueObjects/ValueObjectGenerator.cs:29-46 | a source is emitted iff some candidate qualifies and the source is that candidate's hint name and generated text |
| ValueObjectGenerator.EmittedHasCandidate | RoodFluweel.ValueObjects/ValueObjectGenerator.cs:29-46 | every emitted source comes from a qualifying candidate |
| ValueObjectGenerator.CandidateIsEmitted | RoodFluweel.ValueObjects/ValueObjectGenerator.cs:29-46 | every qualifying candidate's source is emitted |
| ValueObjectGenerator.NoDeduplication | RoodFluweel.ValueObjects/ValueObjectGenerator.cs:44-45 | two candidates resolving to the same marked type emit two identical sources with the same hint name |
| ValueObjectGenerator.SameNameCollision | RoodFluweel.ValueObjects/ValueObjectGenerator.cs:44-45 | two marked types with the same short name, in any namespaces, emit two sources with the same hint name `Name_ValueObject.g.cs` |
| ValueObjectGenerator.SingleValueObject | RoodFluweel.ValueObjects.Tests/ValueObjectGeneratorTests.cs:17-66 | a compilation with one `[ValueObject]` class `Foo` yields exactly one source, named `Foo_ValueObject.g.cs`, holding the text generated for `Foo` |

## Left out

- The Roslyn host: `Initialize` and `RegisterForSyntaxNotifications` (ValueObjectGenerator.cs:13-16), the syntax walk that calls `OnVisitSyntaxNode`, `GetSemanticModel` and `GetDeclaredSymbol`. Resolution is an input of the model: each candidate carries the symbol it resolves to, or `None` when that is not a named type.
- `SourceText.From(source, Encoding.UTF8)` and the host's own handling of `AddSource`. The model emits the sequence of (hint name, text) pairs. The host rejects a repeated hint name, and that rejection is not modelled; The code triggers it in two ways: `NoDeduplication` (two declarations of one type) and `SameNameCollision` (two types of the same short name in different namespaces).
- Line endings: the raw string takes the line endings of the source file. The model uses `"\n"`.
- What the generated C# does at run time (the meaning of `Equals`, `HashCode.Combine` values, operator semantics) is not modelled. Only the text is.
- `ValueObjectAttribute.cs` is not part of this model. The marker test compares only the attribute class's short name.
- Candidate deduplication, fully qualified marker matching, incremental caching and cancellation are not modelled: the code has none of them.
- ValueObjectCodeBuilder.BazScenario: the tests check that the text does not contain `SomeStaticProperty` or `SomeMethod`. The model states instead that the text does not depend on those members. Substring absence would also depend on the namespace, which the model leaves arbitrary.
- ValueObjectCodeBuilder.ComparisonsRoundTrip: the round trip is proved for names without an ampersand. An ampersand in a name could be mistaken for part of the `" && "` separator. C# property names, including explicit interface implementations such as `I<A,B>.P`, hold none.
- ValueObjectCodeBuilder.HashValuesRoundTrip: the round trip is proved for non-empty names without blanks. A blank after a comma inside a name would read as a `", "` separator, and an empty single name renders as the empty text. The host writes explicit interface names without blanks (`I<A,B>.P`).
- ValueObjectCodeBuilder.InstanceProperties: the function's own contract says only that kept members are non-static properties. That kept members come from the input is stated by `InstancePropertiesMembership` and `InstancePropertiesSubsequence`.
- ValueObjectGenerator.Collected: the function's own contract gives only the length bound and that every collected declaration was visited and has an attribute list. The converse is stated by `CollectedMembership`, and the visiting order by `CollectedAppend`.
