/** `ValueObjectGenerator`: a syntax receiver collects every type declaration
    that carries attribute lists; `Execute` walks the collected declarations in
    order and emits one generated source for each that resolves to a named
    type carrying an attribute whose class is named `ValueObjectAttribute`. */
module ValueObjectGenerator {
  import opened Symbols
  import opened ValueObjectCodeBuilder

  /** A `TypeDeclarationSyntax`: how many attribute lists it has, and the
      symbol `GetDeclaredSymbol` resolves it to (`None` when that is not an
      `INamedTypeSymbol`). */
  datatype TypeDeclarationSyntax = TypeDeclarationSyntax(
    attributeListCount: nat,
    declaredSymbol: Option<NamedTypeSymbol>)

  /** A node handed to the receiver: a type declaration (class, struct,
      record, interface) or anything else. */
  datatype SyntaxNode = TypeDeclaration(declaration: TypeDeclarationSyntax) | OtherNode

  predicate IsCandidate(node: SyntaxNode)
  {
    node.TypeDeclaration? && node.declaration.attributeListCount > 0
  }

  /** The candidates a receiver collects from the nodes it is shown, in the
      order it is shown them. */
  function Collected(nodes: seq<SyntaxNode>): (candidates: seq<TypeDeclarationSyntax>)
    ensures |candidates| <= |nodes|
    ensures forall k :: 0 <= k < |candidates| ==>
      candidates[k].attributeListCount > 0 && TypeDeclaration(candidates[k]) in nodes
  {
    if nodes == [] then []
    else (if IsCandidate(nodes[0]) then [nodes[0].declaration] else []) + Collected(nodes[1..])
  }

  /** Visiting `a` and then `b` collects the candidates of `a` followed by
      those of `b`. */
  lemma {:induction false} CollectedAppend(a: seq<SyntaxNode>, b: seq<SyntaxNode>)
    ensures Collected(a + b) == Collected(a) + Collected(b)
  {
    if a == [] {
      assert a + b == b;
    } else {
      assert (a + b)[1..] == a[1..] + b;
      CollectedAppend(a[1..], b);
    }
  }

  /** A declaration is collected iff it was visited and has an attribute list. */
  lemma {:induction false} CollectedMembership(nodes: seq<SyntaxNode>, d: TypeDeclarationSyntax)
    ensures d in Collected(nodes) <==> TypeDeclaration(d) in nodes && d.attributeListCount > 0
  {
    if nodes != [] {
      CollectedMembership(nodes[1..], d);
      assert nodes == [nodes[0]] + nodes[1..];
    }
  }

  class ValueObjectReceiver {
    var Candidates: seq<TypeDeclarationSyntax>

    ghost predicate Valid()
      reads this
    {
      forall k :: 0 <= k < |Candidates| ==> Candidates[k].attributeListCount > 0
    }

    constructor ()
      ensures Valid() && Candidates == []
    {
      Candidates := [];
    }

    /** Appends the node when it is a type declaration with at least one
        attribute list; otherwise leaves the candidates unchanged. */
    method OnVisitSyntaxNode(syntaxNode: SyntaxNode)
      requires Valid()
      modifies this
      ensures Valid()
      ensures Candidates == old(Candidates) + Collected([syntaxNode])
    {
      assert [syntaxNode][1..] == [];
      if IsCandidate(syntaxNode) {
        Candidates := Candidates + [syntaxNode.declaration];
      }
    }
  }

  /** `context.SyntaxReceiver`: absent, a receiver of another class, or a
      `ValueObjectReceiver`. */
  datatype SyntaxReceiver = NullReceiver | ForeignReceiver | ValueObjectReceiverRef(receiver: ValueObjectReceiver)

  /** One `AddSource(hintName, text)` call. */
  datatype GeneratedSource = GeneratedSource(hintName: string, text: string)

  const MarkerName := "ValueObjectAttribute"
  const HintSuffix := "_ValueObject.g.cs"

  /** Some attribute's class is named `ValueObjectAttribute`. */
  function HasMarker(attributeClassNames: seq<Option<string>>): bool
  {
    attributeClassNames != [] &&
    (attributeClassNames[0] == Some(MarkerName) || HasMarker(attributeClassNames[1..]))
  }

  /** The marker test holds iff some attribute class is named exactly
      `ValueObjectAttribute`; a null attribute class never matches. */
  lemma {:induction false} HasMarkerIff(attributeClassNames: seq<Option<string>>)
    ensures HasMarker(attributeClassNames)
        <==> exists k :: 0 <= k < |attributeClassNames| && attributeClassNames[k] == Some(MarkerName)
  {
    if attributeClassNames != [] {
      var rest := attributeClassNames[1..];
      HasMarkerIff(rest);
      if exists k :: 0 <= k < |attributeClassNames| && attributeClassNames[k] == Some(MarkerName) {
        var k :| 0 <= k < |attributeClassNames| && attributeClassNames[k] == Some(MarkerName);
        if k > 0 {
          assert rest[k - 1] == Some(MarkerName);
        }
      }
      if HasMarker(rest) {
        var k :| 0 <= k < |rest| && rest[k] == Some(MarkerName);
        assert attributeClassNames[k + 1] == Some(MarkerName);
      }
    }
  }

  /** Only the short class name is compared: a qualified name, the name
      without the `Attribute` suffix, or a null attribute class does not match. */
  lemma MarkerIsShortName()
    ensures !HasMarker([Some("RoodFluweel.ValueObjects.ValueObjectAttribute")])
    ensures !HasMarker([Some("ValueObject")])
    ensures !HasMarker([None])
    ensures HasMarker([None, Some("ValueObjectAttribute")])
  {
    assert "RoodFluweel.ValueObjects.ValueObjectAttribute" != MarkerName;
    assert "ValueObject" != MarkerName;
  }

  /** A candidate is emitted iff it resolves to a named type with the marker. */
  predicate Qualifies(candidate: TypeDeclarationSyntax)
  {
    candidate.declaredSymbol.Some? && HasMarker(candidate.declaredSymbol.value.attributeClassNames)
  }

  function SourceFor(namedType: NamedTypeSymbol): GeneratedSource
  {
    GeneratedSource(namedType.name + HintSuffix, GenerateValueObject(namedType))
  }

  /** What `Execute` emits for a list of candidates. */
  function EmitAll(candidates: seq<TypeDeclarationSyntax>): seq<GeneratedSource>
  {
    if candidates == [] then []
    else (if Qualifies(candidates[0]) then [SourceFor(candidates[0].declaredSymbol.value)] else [])
         + EmitAll(candidates[1..])
  }

  /** Emission distributes over concatenation: outputs follow candidate
      order, and a candidate's output does not depend on its neighbours. */
  lemma {:induction false} EmitAllAppend(a: seq<TypeDeclarationSyntax>, b: seq<TypeDeclarationSyntax>)
    ensures EmitAll(a + b) == EmitAll(a) + EmitAll(b)
  {
    if a == [] {
      assert a + b == b;
    } else {
      assert (a + b)[1..] == a[1..] + b;
      EmitAllAppend(a[1..], b);
    }
  }

  lemma EmitOne(candidate: TypeDeclarationSyntax)
    ensures EmitAll([candidate])
         == if Qualifies(candidate) then [SourceFor(candidate.declaredSymbol.value)] else []
  {
    assert [candidate][1..] == [];
  }

  /** A skipped candidate (not resolving to a named type, or without the
      marker) contributes nothing, and the candidates after it are still
      processed. */
  lemma SkippedCandidate(before: seq<TypeDeclarationSyntax>, candidate: TypeDeclarationSyntax,
                         after: seq<TypeDeclarationSyntax>)
    requires !Qualifies(candidate)
    ensures EmitAll(before + [candidate] + after) == EmitAll(before) + EmitAll(after)
  {
    EmitAllAppend(before + [candidate], after);
    EmitAllAppend(before, [candidate]);
    EmitOne(candidate);
  }

  function CountQualifying(candidates: seq<TypeDeclarationSyntax>): nat
  {
    if candidates == [] then 0
    else (if Qualifies(candidates[0]) then 1 else 0) + CountQualifying(candidates[1..])
  }

  /** One source per qualifying candidate, so at most one per candidate. */
  lemma {:induction false} EmitAllCount(candidates: seq<TypeDeclarationSyntax>)
    ensures |EmitAll(candidates)| == CountQualifying(candidates) <= |candidates|
  {
    if candidates != [] {
      EmitAllCount(candidates[1..]);
    }
  }

  /** `source` is what `Execute` emits for `candidate`. */
  predicate EmitsSource(candidate: TypeDeclarationSyntax, source: GeneratedSource)
  {
    Qualifies(candidate) && source == SourceFor(candidate.declaredSymbol.value)
  }

  /** A source is emitted iff some qualifying candidate resolves to a type
      whose hint name is `Name + "_ValueObject.g.cs"` and whose text is
      `GenerateValueObject` of that type. */
  lemma {:induction false} EmitAllMembership(candidates: seq<TypeDeclarationSyntax>, source: GeneratedSource)
    ensures source in EmitAll(candidates)
        <==> exists k :: 0 <= k < |candidates| && EmitsSource(candidates[k], source)
  {
    if source in EmitAll(candidates) {
      EmittedHasCandidate(candidates, source);
    }
    if exists k :: 0 <= k < |candidates| && EmitsSource(candidates[k], source) {
      var k :| 0 <= k < |candidates| && EmitsSource(candidates[k], source);
      CandidateIsEmitted(candidates, k, source);
    }
  }

  lemma {:induction false} EmittedHasCandidate(candidates: seq<TypeDeclarationSyntax>, source: GeneratedSource)
    requires source in EmitAll(candidates)
    ensures exists k :: 0 <= k < |candidates| && EmitsSource(candidates[k], source)
  {
    var rest := candidates[1..];
    assert candidates == [candidates[0]] + rest;
    EmitAllAppend([candidates[0]], rest);
    EmitOne(candidates[0]);
    if source in EmitAll([candidates[0]]) {
      assert EmitsSource(candidates[0], source);
    } else {
      EmittedHasCandidate(rest, source);
      var k :| 0 <= k < |rest| && EmitsSource(rest[k], source);
      assert candidates[k + 1] == rest[k];
    }
  }

  lemma {:induction false} CandidateIsEmitted(candidates: seq<TypeDeclarationSyntax>, k: nat, source: GeneratedSource)
    requires k < |candidates| && EmitsSource(candidates[k], source)
    ensures source in EmitAll(candidates)
  {
    var rest := candidates[1..];
    assert candidates == [candidates[0]] + rest;
    EmitAllAppend([candidates[0]], rest);
    EmitOne(candidates[0]);
    if k > 0 {
      assert rest[k - 1] == candidates[k];
      CandidateIsEmitted(rest, k - 1, source);
    }
  }

  /** Every source emitted for a receiver's candidates comes from a
      collected declaration that carries at least one attribute list. */
  lemma EmittedFromAttributedDeclaration(receiver: ValueObjectReceiver, source: GeneratedSource)
    requires receiver.Valid() && source in EmitAll(receiver.Candidates)
    ensures exists k :: && 0 <= k < |receiver.Candidates|
                        && receiver.Candidates[k].attributeListCount > 0
                        && EmitsSource(receiver.Candidates[k], source)
  {
    EmittedHasCandidate(receiver.Candidates, source);
  }

  /** Hint names are built from the short type name alone: two marked types
      of the same name in different namespaces both emit
      `Name_ValueObject.g.cs`. */
  lemma SameNameCollision(first: TypeDeclarationSyntax, second: TypeDeclarationSyntax)
    requires Qualifies(first) && Qualifies(second)
    requires first.declaredSymbol.value.name == second.declaredSymbol.value.name
    ensures |EmitAll([first, second])| == 2
    ensures EmitAll([first, second])[0].hintName == EmitAll([first, second])[1].hintName
    ensures EmitAll([first, second])[0].hintName == first.declaredSymbol.value.name + HintSuffix
  {
    assert [first, second] == [first] + [second];
    EmitAllAppend([first], [second]);
    EmitOne(first);
    EmitOne(second);
  }

  /** There is no deduplication: two candidates resolving to the same marked
      type (two attributed partial declarations) emit the same hint name
      twice. */
  lemma NoDeduplication(first: TypeDeclarationSyntax, second: TypeDeclarationSyntax)
    requires Qualifies(first) && second.declaredSymbol == first.declaredSymbol
    ensures |EmitAll([first, second])| == 2
    ensures EmitAll([first, second])[0] == EmitAll([first, second])[1]
    ensures EmitAll([first, second])[0].hintName == first.declaredSymbol.value.name + HintSuffix
  {
    assert [first, second] == [first] + [second];
    EmitAllAppend([first], [second]);
    EmitOne(first);
    EmitOne(second);
  }

  /** `context.AddSource` calls, in order, that `Execute` makes. */
  method Execute(syntaxReceiver: SyntaxReceiver) returns (sources: seq<GeneratedSource>)
    ensures syntaxReceiver.ValueObjectReceiverRef? ==> sources == EmitAll(syntaxReceiver.receiver.Candidates)
    ensures !syntaxReceiver.ValueObjectReceiverRef? ==> sources == []
  {
    if syntaxReceiver.NullReceiver? {
      return [];
    }
    if !syntaxReceiver.ValueObjectReceiverRef? {
      return [];
    }
    var receiver := syntaxReceiver.receiver;
    var candidates := receiver.Candidates;
    sources := [];
    for i := 0 to |candidates|
      invariant sources == EmitAll(candidates[..i])
    {
      var candidate := candidates[i];
      assert candidates[..i + 1] == candidates[..i] + [candidate];
      EmitAllAppend(candidates[..i], [candidate]);
      EmitOne(candidate);
      var symbol := candidate.declaredSymbol;
      if !symbol.Some? {
        continue;
      }
      var namedType := symbol.value;
      if !HasMarker(namedType.attributeClassNames) {
        continue;
      }
      var source := GenerateValueObject(namedType);
      sources := sources + [GeneratedSource(namedType.name + HintSuffix, source)];
    }
    assert candidates[..|candidates|] == candidates;
  }

  /** A compilation whose only attributed type declaration is a
      `[ValueObject]` class yields exactly one generated source, named after
      the class. */
  lemma SingleValueObject(ns: string)
    ensures var nodes := [OtherNode, TypeDeclaration(TypeDeclarationSyntax(1, Some(Foo(ns)))), OtherNode];
      && EmitAll(Collected(nodes)) == [SourceFor(Foo(ns))]
      && SourceFor(Foo(ns)).hintName == "Foo_ValueObject.g.cs"
  {
    var declaration := TypeDeclarationSyntax(1, Some(Foo(ns)));
    CollectedAroundOne(declaration);
    FooQualifies(ns);
    EmitOne(declaration);
    FooHintName();
  }

  lemma CollectedAroundOne(declaration: TypeDeclarationSyntax)
    requires declaration.attributeListCount > 0
    ensures Collected([OtherNode, TypeDeclaration(declaration), OtherNode]) == [declaration]
  {
    var nodes := [OtherNode, TypeDeclaration(declaration), OtherNode];
    assert nodes == [OtherNode] + [TypeDeclaration(declaration)] + [OtherNode];
    CollectedAppend([OtherNode] + [TypeDeclaration(declaration)], [OtherNode]);
    CollectedAppend([OtherNode], [TypeDeclaration(declaration)]);
    assert [OtherNode][1..] == [] && [TypeDeclaration(declaration)][1..] == [];
  }

  lemma FooQualifies(ns: string)
    ensures Qualifies(TypeDeclarationSyntax(1, Some(Foo(ns))))
  {
    assert Foo(ns).attributeClassNames == [Some(MarkerName)];
  }

  lemma FooHintName()
    ensures "Foo" + HintSuffix == "Foo_ValueObject.g.cs"
  {
  }
}
