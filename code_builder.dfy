/** `ValueObjectCodeBuilder.GenerateValueObject`: from a named type, the C#
    source of its `IEquatable<T>` implementation. The member list is the
    type's non-static properties in declaration order; the typed `Equals`
    joins `Equals(m, other.m)` with `" && "`, `GetHashCode` passes the member
    names, joined with `", "`, to `HashCode.Combine`. */
module ValueObjectCodeBuilder {
  import opened Text
  import opened Symbols

  // ---------------------------------------------------------------------------
  // Member extraction: the non-static properties among the declared members,
  // in declaration order.

  predicate IsInstanceProperty(m: MemberSymbol)
  {
    m.kind == Property && !m.isStatic
  }

  function InstanceProperties(members: seq<MemberSymbol>): (props: seq<MemberSymbol>)
    ensures |props| <= |members|
    ensures forall k :: 0 <= k < |props| ==> IsInstanceProperty(props[k])
  {
    if members == [] then []
    else (if IsInstanceProperty(members[0]) then [members[0]] else []) + InstanceProperties(members[1..])
  }

  /** The extraction keeps exactly the non-static properties. */
  lemma {:induction false} InstancePropertiesMembership(members: seq<MemberSymbol>, m: MemberSymbol)
    ensures m in InstanceProperties(members) <==> m in members && IsInstanceProperty(m)
  {
    if members != [] {
      InstancePropertiesMembership(members[1..], m);
      assert members == [members[0]] + members[1..];
    }
  }

  /** Extraction distributes over concatenation: the relative order of the
      kept members is the declaration order. */
  lemma {:induction false} InstancePropertiesAppend(a: seq<MemberSymbol>, b: seq<MemberSymbol>)
    ensures InstanceProperties(a + b) == InstanceProperties(a) + InstanceProperties(b)
  {
    if a == [] {
      assert a + b == b;
    } else {
      assert (a + b)[1..] == a[1..] + b;
      InstancePropertiesAppend(a[1..], b);
    }
  }

  /** `a` can be obtained from `b` by deleting elements. */
  predicate IsSubsequence<T(==)>(a: seq<T>, b: seq<T>)
    decreases |b|
  {
    if a == [] then true
    else if b == [] then false
    else if a[0] == b[0] then IsSubsequence(a[1..], b[1..])
    else IsSubsequence(a, b[1..])
  }

  lemma {:induction false} InstancePropertiesSubsequence(members: seq<MemberSymbol>)
    ensures IsSubsequence(InstanceProperties(members), members)
  {
    if members != [] {
      InstancePropertiesSubsequence(members[1..]);
      var rest := InstanceProperties(members[1..]);
      if IsInstanceProperty(members[0]) {
        assert InstanceProperties(members) == [members[0]] + rest;
        assert ([members[0]] + rest)[1..] == rest;
      } else {
        assert InstanceProperties(members) == rest;
        if rest != [] {
          SkipHead(rest, members);
        }
      }
    }
  }

  /** A subsequence of the tail is a subsequence of the whole. */
  lemma {:induction false} SkipHead<T>(a: seq<T>, b: seq<T>)
    requires b != [] && IsSubsequence(a, b[1..])
    ensures IsSubsequence(a, b)
    decreases |b|, 0
  {
    if a != [] && a[0] == b[0] {
      DropFirst(a, b[1..]);
    }
  }

  /** Dropping the first element of a subsequence leaves a subsequence. */
  lemma {:induction false} DropFirst<T>(a: seq<T>, c: seq<T>)
    requires a != [] && IsSubsequence(a, c)
    ensures IsSubsequence(a[1..], c)
    decreases |c|, 1
  {
    if a[0] == c[0] {
      SkipHead(a[1..], c);
    } else {
      DropFirst(a, c[1..]);
      SkipHead(a[1..], c);
    }
  }

  /** Every non-static property is kept as often as it is declared, and
      nothing else is kept: the extracted list has exactly as many entries as
      the type has non-static properties. */
  lemma {:induction false} InstancePropertiesCount(members: seq<MemberSymbol>, m: MemberSymbol)
    ensures multiset(InstanceProperties(members))[m]
         == if IsInstanceProperty(m) then multiset(members)[m] else 0
  {
    if members != [] {
      var rest := members[1..];
      InstancePropertiesCount(rest, m);
      assert members == [members[0]] + rest;
      assert multiset(members) == multiset([members[0]]) + multiset(rest);
      var head := if IsInstanceProperty(members[0]) then [members[0]] else [];
      assert InstanceProperties(members) == head + InstanceProperties(rest);
      assert multiset(InstanceProperties(members)) == multiset(head) + multiset(InstanceProperties(rest));
    }
  }

  // ---------------------------------------------------------------------------
  // The two renderings

  function Names(props: seq<MemberSymbol>): seq<string>
  {
    seq(|props|, k requires 0 <= k < |props| => props[k].name)
  }

  function EqualsClause(name: string): string
  {
    "Equals(" + name + ", other." + name + ")"
  }

  function Clauses(props: seq<MemberSymbol>): seq<string>
  {
    seq(|props|, k requires 0 <= k < |props| => EqualsClause(props[k].name))
  }

  /** The clauses `Equals(m, other.m)`, one per member, joined with `" && "`. */
  function Comparisons(props: seq<MemberSymbol>): string
  {
    Join(" && ", Clauses(props))
  }

  /** The member names joined with `", "`. */
  function HashValues(props: seq<MemberSymbol>): string
  {
    Join(", ", Names(props))
  }

  /** No member name contains `c`. */
  predicate NamesAvoid(props: seq<MemberSymbol>, c: char)
  {
    forall k :: 0 <= k < |props| ==> Avoids(props[k].name, c)
  }

  predicate NamesNonEmpty(props: seq<MemberSymbol>)
  {
    forall k :: 0 <= k < |props| ==> |props[k].name| > 0
  }

  // Reading the renderings back: the inverse of the two joins.

  /** A clause for a name of length n is 16 + 2n characters long, so the
      name is read off by position; the clause must be exactly the one
      rendered for that name. */
  function DecodeClause(clause: string): Option<string>
  {
    if |clause| >= 16 && (|clause| - 16) % 2 == 0 then
      var name := clause[7..7 + (|clause| - 16) / 2];
      if clause == EqualsClause(name) then Some(name) else None
    else None
  }

  function DecodeClauses(clauses: seq<string>): Option<seq<string>>
  {
    if clauses == [] then Some([])
    else match (DecodeClause(clauses[0]), DecodeClauses(clauses[1..]))
      case (Some(name), Some(names)) => Some([name] + names)
      case _ => None
  }

  /** The member names a comparison text compares, in order. */
  function ParseComparisons(text: string): Option<seq<string>>
  {
    if text == "" then Some([]) else DecodeClauses(Split(text, " && "))
  }

  /** The member names a hash-values text lists, in order. */
  function ParseHashValues(text: string): seq<string>
  {
    if text == "" then [] else Split(text, ", ")
  }

  /** Every clause decodes back to its name, whatever characters the name
      holds (commas included, as in `I<A,B>.P`). */
  lemma ClauseRoundTrip(name: string)
    ensures DecodeClause(EqualsClause(name)) == Some(name)
  {
    var clause := EqualsClause(name);
    assert |clause| == 16 + 2 * |name|;
    assert clause[7..7 + |name|] == name;
  }

  lemma {:induction false} DecodeClausesRoundTrip(props: seq<MemberSymbol>)
    ensures DecodeClauses(Clauses(props)) == Some(Names(props))
  {
    var clauses := Clauses(props);
    if props == [] {
      assert clauses == [] && Names(props) == [];
    } else {
      assert clauses[0] == EqualsClause(props[0].name) && clauses[1..] == Clauses(props[1..]);
      assert Names(props) == [props[0].name] + Names(props[1..]);
      ClauseRoundTrip(props[0].name);
      DecodeClausesRoundTrip(props[1..]);
    }
  }

  lemma ClauseAvoidsAmpersand(name: string)
    requires Avoids(name, '&')
    ensures Avoids(EqualsClause(name), '&')
  {
    AvoidsAppend("Equals(", name, '&');
    AvoidsAppend("Equals(" + name, ", other.", '&');
    AvoidsAppend("Equals(" + name + ", other.", name, '&');
    AvoidsAppend("Equals(" + name + ", other." + name, ")", '&');
  }

  /** A join of non-empty items is non-empty. */
  lemma JoinNonEmpty(sep: string, xs: seq<string>)
    requires |xs| > 0 && |xs[0]| > 0
    ensures Join(sep, xs) != ""
  {
    JoinLength(sep, xs);
  }

  /** The comparison text compares exactly the members, in order: reading it
      back yields their names. Only an ampersand in a name could be mistaken
      for a separator; property names never hold one. */
  lemma ComparisonsRoundTrip(props: seq<MemberSymbol>)
    requires NamesAvoid(props, '&')
    ensures ParseComparisons(Comparisons(props)) == Some(Names(props))
  {
    if props != [] {
      var clauses := Clauses(props);
      forall k | 0 <= k < |clauses|
        ensures Avoids(clauses[k], " && "[1])
      {
        ClauseAvoidsAmpersand(props[k].name);
      }
      SplitJoin(" && ", clauses);
      JoinNonEmpty(" && ", clauses);
      DecodeClausesRoundTrip(props);
    } else {
      assert Clauses(props) == [] && Names(props) == [];
    }
  }

  /** The hash text lists exactly the member names, in order, for non-empty
      names without blanks (commas are fine: `I<A,B>.P` reads back whole). */
  lemma HashValuesRoundTrip(props: seq<MemberSymbol>)
    requires NamesNonEmpty(props) && NamesAvoid(props, ' ')
    ensures ParseHashValues(HashValues(props)) == Names(props)
  {
    if props != [] {
      var names := Names(props);
      assert forall k :: 0 <= k < |names| ==> Avoids(names[k], ", "[1]);
      SplitJoin(", ", names);
      JoinNonEmpty(", ", names);
    }
  }

  /** An explicit interface implementation is named after its interface, so
      its name can hold a comma; both renderings still read back whole. */
  lemma ExplicitInterfaceName()
    ensures ParseComparisons(Comparisons([Prop("I<A,B>.P")])) == Some(["I<A,B>.P"])
    ensures ParseHashValues(HashValues([Prop("I<A,B>.P")])) == ["I<A,B>.P"]
  {
    var props := [Prop("I<A,B>.P")];
    assert Names(props) == ["I<A,B>.P"];
    ComparisonsRoundTrip(props);
    HashValuesRoundTrip(props);
  }

  /** With n >= 1 members, the comparison text is as long as its clauses
      plus n - 1 separators of four characters, and the hash text as long as
      the names plus n - 1 separators of two characters. */
  lemma SeparatorCounts(props: seq<MemberSymbol>)
    requires |props| > 0
    ensures |Comparisons(props)| == TotalLength(Clauses(props)) + (|props| - 1) * 4
    ensures |HashValues(props)| == TotalLength(Names(props)) + (|props| - 1) * 2
  {
    JoinLength(" && ", Clauses(props));
    JoinLength(", ", Names(props));
  }

  /** With n >= 1 members whose names hold no ampersand and no blank, splitting the comparison text at
      `" && "` and the hash text at `", "` yields exactly n pieces, so each
      text holds exactly n - 1 separators. */
  lemma SeparatorOccurrences(props: seq<MemberSymbol>)
    requires |props| > 0 && NamesAvoid(props, '&') && NamesAvoid(props, ' ')
    ensures |Split(Comparisons(props), " && ")| == |props|
    ensures |Split(HashValues(props), ", ")| == |props|
  {
    var clauses := Clauses(props);
    forall k | 0 <= k < |clauses|
      ensures Avoids(clauses[k], " && "[1])
    {
      ClauseAvoidsAmpersand(props[k].name);
    }
    SplitJoin(" && ", clauses);
    var names := Names(props);
    assert forall k :: 0 <= k < |names| ==> Avoids(names[k], ", "[1]);
    SplitJoin(", ", names);
  }

  // ---------------------------------------------------------------------------
  // The template: the raw string literal with its closing-delimiter
  // indentation removed, cut into literal fragments and holes.

  const NullCheck := "if (ReferenceEquals(null, other)) return false;"
  const IdentityCheck := "if (ReferenceEquals(this, other)) return true;"
  const ObjectEqualsSignature := "public override bool Equals(object obj)"
  const HashCodeSignature := "public override int GetHashCode()"
  const Footer := "    }\n}"

  function HeaderPieces(ns: string, typeName: string): seq<string>
  {
    ["\nusing System;\n",
     "namespace ", ns,
     "\n{\n    ",
     "partial class ", typeName, " : IEquatable<", typeName, ">",
     "\n    {\n"]
  }

  function TypedEqualsPieces(typeName: string, comparisons: string): seq<string>
  {
    ["        ",
     "public bool Equals(", typeName, " other)",
     "\n        {\n            ",
     NullCheck,
     "\n            ",
     IdentityCheck,
     "\n            ",
     "return ", comparisons, ";",
     "\n        }\n\n"]
  }

  function ObjectEqualsPieces(typeName: string): seq<string>
  {
    ["        ",
     ObjectEqualsSignature,
     "\n        {\n            ",
     "return ", "Equals(obj as ", typeName, ")", ";",
     "\n        }\n\n"]
  }

  function HashCodePieces(hashValues: string): seq<string>
  {
    ["        ",
     HashCodeSignature,
     "\n        {\n            ",
     "return ", "HashCode.Combine(", hashValues, ")", ";",
     "\n        }\n\n"]
  }

  function EqualityOperatorPieces(typeName: string): seq<string>
  {
    ["        ",
     "public static bool ", "operator ==(", typeName, " left, ", typeName, " right)",
     "\n        {\n            ",
     "return Equals(left, right);",
     "\n        }\n\n"]
  }

  function InequalityOperatorPieces(typeName: string): seq<string>
  {
    ["        ",
     "public static bool ", "operator !=(", typeName, " left, ", typeName, " right)",
     "\n        {\n            ",
     "return !Equals(left, right);",
     "\n        }\n"]
  }

  function Sections(ns: string, typeName: string, comparisons: string, hashValues: string): seq<string>
  {
    [Concat(HeaderPieces(ns, typeName)),
     Concat(TypedEqualsPieces(typeName, comparisons)),
     Concat(ObjectEqualsPieces(typeName)),
     Concat(HashCodePieces(hashValues)),
     Concat(EqualityOperatorPieces(typeName)),
     Concat(InequalityOperatorPieces(typeName)),
     Footer]
  }

  function Template(ns: string, typeName: string, comparisons: string, hashValues: string): string
  {
    Concat(Sections(ns, typeName, comparisons, hashValues))
  }

  lemma Concat2(a: string, b: string)
    ensures Concat([a, b]) == a + b
  {
    assert [a, b][1..] == [b];
    ConcatSingle(b);
  }

  lemma Concat3(a: string, b: string, c: string)
    ensures Concat([a, b, c]) == a + b + c
  {
    assert [a, b, c][1..] == [b, c];
    Concat2(b, c);
  }

  /** The typed `Equals` signature and the `GetHashCode` signature are in
      the text whatever the holes hold. */
  lemma TemplateSignatures(ns: string, typeName: string, comparisons: string, hashValues: string)
    ensures Contains(Template(ns, typeName, comparisons, hashValues), "public bool Equals(" + typeName + " other)")
    ensures Contains(Template(ns, typeName, comparisons, hashValues), HashCodeSignature)
  {
    var sections := Sections(ns, typeName, comparisons, hashValues);
    var typed := TypedEqualsPieces(typeName, comparisons);
    assert typed[1..4] == ["public bool Equals(", typeName, " other)"];
    Concat3("public bool Equals(", typeName, " other)");
    NestedPiecesOccur(sections, 1, typed, 1, 4);
    var hash := HashCodePieces(hashValues);
    assert hash[1..2] == [HashCodeSignature];
    ConcatSingle(HashCodeSignature);
    NestedPiecesOccur(sections, 3, hash, 1, 2);
  }

  lemma Concat4(a: string, b: string, c: string, d: string)
    ensures Concat([a, b, c, d]) == a + b + c + d
  {
    assert [a, b, c, d][1..] == [b, c, d];
    Concat3(b, c, d);
  }

  lemma Concat5(a: string, b: string, c: string, d: string, e: string)
    ensures Concat([a, b, c, d, e]) == a + b + c + d + e
  {
    assert [a, b, c, d, e][1..] == [b, c, d, e];
    Concat4(b, c, d, e);
  }

  /** Namespace and type name stand verbatim in the namespace declaration,
      the class header, the object `Equals` cast and both operator
      signatures. */
  lemma TemplateIdentifiers(ns: string, typeName: string, comparisons: string, hashValues: string)
    ensures var source := Template(ns, typeName, comparisons, hashValues);
      && Contains(source, "namespace " + ns)
      && Contains(source, "partial class " + typeName + " : IEquatable<" + typeName + ">")
      && Contains(source, "Equals(obj as " + typeName + ")")
      && Contains(source, "operator ==(" + typeName + " left, " + typeName + " right)")
      && Contains(source, "operator !=(" + typeName + " left, " + typeName + " right)")
  {
    var sections := Sections(ns, typeName, comparisons, hashValues);
    var header := HeaderPieces(ns, typeName);
    assert header[1..3] == ["namespace ", ns];
    Concat2("namespace ", ns);
    NestedPiecesOccur(sections, 0, header, 1, 3);
    assert header[4..9] == ["partial class ", typeName, " : IEquatable<", typeName, ">"];
    Concat5("partial class ", typeName, " : IEquatable<", typeName, ">");
    NestedPiecesOccur(sections, 0, header, 4, 9);
    var objectEquals := ObjectEqualsPieces(typeName);
    assert objectEquals[4..7] == ["Equals(obj as ", typeName, ")"];
    Concat3("Equals(obj as ", typeName, ")");
    NestedPiecesOccur(sections, 2, objectEquals, 4, 7);
    var equality := EqualityOperatorPieces(typeName);
    assert equality[2..7] == ["operator ==(", typeName, " left, ", typeName, " right)"];
    Concat5("operator ==(", typeName, " left, ", typeName, " right)");
    NestedPiecesOccur(sections, 4, equality, 2, 7);
    var inequality := InequalityOperatorPieces(typeName);
    assert inequality[2..7] == ["operator !=(", typeName, " left, ", typeName, " right)"];
    Concat5("operator !=(", typeName, " left, ", typeName, " right)");
    NestedPiecesOccur(sections, 5, inequality, 2, 7);
  }

  /** The comparison text is the typed `Equals` return expression and the
      hash text the argument list of `HashCode.Combine`. */
  lemma TemplateHoles(ns: string, typeName: string, comparisons: string, hashValues: string)
    ensures Contains(Template(ns, typeName, comparisons, hashValues), "return " + comparisons + ";")
    ensures Contains(Template(ns, typeName, comparisons, hashValues), "HashCode.Combine(" + hashValues + ")")
  {
    var sections := Sections(ns, typeName, comparisons, hashValues);
    var typed := TypedEqualsPieces(typeName, comparisons);
    assert typed[9..12] == ["return ", comparisons, ";"];
    Concat3("return ", comparisons, ";");
    NestedPiecesOccur(sections, 1, typed, 9, 12);
    var hash := HashCodePieces(hashValues);
    assert hash[4..7] == ["HashCode.Combine(", hashValues, ")"];
    Concat3("HashCode.Combine(", hashValues, ")");
    NestedPiecesOccur(sections, 3, hash, 4, 7);
  }

  /** In the typed `Equals`, the null check comes first, the identity check
      second and the member conjunction last. */
  lemma TemplateEqualsOrder(ns: string, typeName: string, comparisons: string, hashValues: string)
    ensures var source := Template(ns, typeName, comparisons, hashValues);
      exists i, j, k ::
        && OccursAt(source, NullCheck, i)
        && OccursAt(source, IdentityCheck, j)
        && OccursAt(source, "return " + comparisons + ";", k)
        && i + |NullCheck| <= j
        && j + |IdentityCheck| <= k
  {
    var sections := Sections(ns, typeName, comparisons, hashValues);
    var typed := TypedEqualsPieces(typeName, comparisons);
    var base := |Concat(sections[..1])|;
    assert typed[5..6] == [NullCheck];
    ConcatSingle(NullCheck);
    NestedPiecesOccur(sections, 1, typed, 5, 6);
    assert typed[7..8] == [IdentityCheck];
    ConcatSingle(IdentityCheck);
    NestedPiecesOccur(sections, 1, typed, 7, 8);
    assert typed[9..12] == ["return ", comparisons, ";"];
    Concat3("return ", comparisons, ";");
    NestedPiecesOccur(sections, 1, typed, 9, 12);
    PieceOffsets(typed, 5, 7);
    assert typed[5..7] == [NullCheck, "\n            "];
    Concat2(NullCheck, "\n            ");
    PieceOffsets(typed, 7, 9);
    assert typed[7..9] == [IdentityCheck, "\n            "];
    Concat2(IdentityCheck, "\n            ");
    var i := |Concat(typed[..5])| + base;
    var j := |Concat(typed[..7])| + base;
    var k := |Concat(typed[..9])| + base;
    assert OccursAt(Template(ns, typeName, comparisons, hashValues), NullCheck, i);
    assert OccursAt(Template(ns, typeName, comparisons, hashValues), IdentityCheck, j);
    assert OccursAt(Template(ns, typeName, comparisons, hashValues), "return " + comparisons + ";", k);
  }

  // ---------------------------------------------------------------------------
  // GenerateValueObject

  function GenerateValueObject(typeSymbol: NamedTypeSymbol): string
  {
    var ns := typeSymbol.containingNamespace;
    var typeName := typeSymbol.name;
    var members := EquatedMembers(typeSymbol);
    var comparisons := Comparisons(members);
    var hashValues := HashValues(members);
    Template(ns, typeName, comparisons, hashValues)
  }

  /** Whatever the members, including none, the text declares the typed
      `Equals(T other)` and overrides `GetHashCode()`. */
  lemma GeneratedSignatures(typeSymbol: NamedTypeSymbol)
    ensures Contains(GenerateValueObject(typeSymbol), "public bool Equals(" + typeSymbol.name + " other)")
    ensures Contains(GenerateValueObject(typeSymbol), HashCodeSignature)
  {
    var props := EquatedMembers(typeSymbol);
    TemplateSignatures(typeSymbol.containingNamespace, typeSymbol.name, Comparisons(props), HashValues(props));
  }

  /** The members of the type that reach the generated text. */
  function EquatedMembers(typeSymbol: NamedTypeSymbol): seq<MemberSymbol>
  {
    InstanceProperties(typeSymbol.members)
  }

  /** The namespace and the type name are copied verbatim into the namespace
      declaration, the partial class header, the cast in the object `Equals`
      and both operator signatures. */
  lemma GeneratedIdentifiers(typeSymbol: NamedTypeSymbol)
    ensures var source := GenerateValueObject(typeSymbol);
      var typeName := typeSymbol.name;
      && Contains(source, "namespace " + typeSymbol.containingNamespace)
      && Contains(source, "partial class " + typeName + " : IEquatable<" + typeName + ">")
      && Contains(source, "Equals(obj as " + typeName + ")")
      && Contains(source, "operator ==(" + typeName + " left, " + typeName + " right)")
      && Contains(source, "operator !=(" + typeName + " left, " + typeName + " right)")
  {
    var props := EquatedMembers(typeSymbol);
    TemplateIdentifiers(typeSymbol.containingNamespace, typeSymbol.name, Comparisons(props), HashValues(props));
  }

  /** The typed `Equals` returns the conjunction of the member comparisons,
      and `GetHashCode` combines the member names. */
  lemma GeneratedMemberText(typeSymbol: NamedTypeSymbol)
    ensures var props := EquatedMembers(typeSymbol);
      && Contains(GenerateValueObject(typeSymbol), "return " + Comparisons(props) + ";")
      && Contains(GenerateValueObject(typeSymbol), "HashCode.Combine(" + HashValues(props) + ")")
  {
    var props := EquatedMembers(typeSymbol);
    TemplateHoles(typeSymbol.containingNamespace, typeSymbol.name, Comparisons(props), HashValues(props));
  }

  /** In the generated typed `Equals`, the null check (returning false)
      precedes the reference-identity check (returning true), which precedes
      the member conjunction. */
  lemma GeneratedEqualsOrder(typeSymbol: NamedTypeSymbol)
    ensures var source := GenerateValueObject(typeSymbol);
      exists i, j, k ::
        && OccursAt(source, NullCheck, i)
        && OccursAt(source, IdentityCheck, j)
        && OccursAt(source, "return " + Comparisons(EquatedMembers(typeSymbol)) + ";", k)
        && i + |NullCheck| <= j
        && j + |IdentityCheck| <= k
  {
    var props := EquatedMembers(typeSymbol);
    assert GenerateValueObject(typeSymbol)
        == Template(typeSymbol.containingNamespace, typeSymbol.name, Comparisons(props), HashValues(props));
    TemplateEqualsOrder(typeSymbol.containingNamespace, typeSymbol.name, Comparisons(props), HashValues(props));
  }

  /** A type without non-static properties gets empty renderings: the typed
      `Equals` ends in `return ;`, the hash is `HashCode.Combine()`, and the
      text depends on nothing but the namespace and the type name. */
  lemma ZeroMembers(typeSymbol: NamedTypeSymbol)
    requires EquatedMembers(typeSymbol) == []
    ensures Comparisons(EquatedMembers(typeSymbol)) == "" && HashValues(EquatedMembers(typeSymbol)) == ""
    ensures GenerateValueObject(typeSymbol) == Template(typeSymbol.containingNamespace, typeSymbol.name, "", "")
    ensures Contains(GenerateValueObject(typeSymbol), "return ;")
    ensures Contains(GenerateValueObject(typeSymbol), "HashCode.Combine()")
  {
    var props := EquatedMembers(typeSymbol);
    assert Clauses(props) == [] && Names(props) == [];
    TemplateHoles(typeSymbol.containingNamespace, typeSymbol.name, "", "");
    assert "return " + "" + ";" == "return ;";
    assert "HashCode.Combine(" + "" + ")" == "HashCode.Combine()";
  }

  lemma {:induction false} InstancePropertiesIdempotent(members: seq<MemberSymbol>)
    ensures InstanceProperties(InstanceProperties(members)) == InstanceProperties(members)
  {
    if members != [] {
      var rest := InstanceProperties(members[1..]);
      InstancePropertiesIdempotent(members[1..]);
      if IsInstanceProperty(members[0]) {
        assert InstanceProperties(members) == [members[0]] + rest;
        InstancePropertiesAppend([members[0]], rest);
        KeptSingleton(members[0]);
      } else {
        assert InstanceProperties(members) == [] + rest;
        assert [] + rest == rest;
      }
    }
  }

  lemma KeptSingleton(m: MemberSymbol)
    ensures InstanceProperties([m]) == if IsInstanceProperty(m) then [m] else []
  {
    assert [m][1..] == [];
  }

  /** Static members and members that are not properties do not influence
      the generated text: dropping them leaves it unchanged. */
  lemma OnlyInstancePropertiesMatter(typeSymbol: NamedTypeSymbol)
    ensures GenerateValueObject(typeSymbol)
         == GenerateValueObject(typeSymbol.(members := InstanceProperties(typeSymbol.members)))
  {
    InstancePropertiesIdempotent(typeSymbol.members);
  }

  /** Adding a static member, a method, a field, an event or a nested type
      anywhere in the member list leaves the generated text unchanged. */
  lemma NonInstanceMemberIgnored(typeSymbol: NamedTypeSymbol, before: seq<MemberSymbol>,
                                 m: MemberSymbol, after: seq<MemberSymbol>)
    requires !IsInstanceProperty(m)
    ensures GenerateValueObject(typeSymbol.(members := before + [m] + after))
         == GenerateValueObject(typeSymbol.(members := before + after))
  {
    InstancePropertiesAppend(before + [m], after);
    InstancePropertiesAppend(before, [m]);
    InstancePropertiesAppend(before, after);
    KeptSingleton(m);
    assert InstanceProperties(before + [m] + after) == InstanceProperties(before + after);
  }

  // ---------------------------------------------------------------------------
  // The scenarios of the unit tests

  function Prop(name: string): MemberSymbol { MemberSymbol(name, Property, false) }

  /** `Foo`, in any namespace, with properties `X`, `Y`, their getters and a constructor. */
  function Foo(ns: string): NamedTypeSymbol
  {
    NamedTypeSymbol(ns, "Foo",
      [Prop("X"), MemberSymbol("get_X", Method, false),
       Prop("Y"), MemberSymbol("get_Y", Method, false),
       MemberSymbol(".ctor", Method, false)],
      [Some("ValueObjectAttribute")])
  }

  lemma FooRenderings()
    ensures Comparisons([Prop("X"), Prop("Y")]) == "Equals(X, other.X)" + " && " + "Equals(Y, other.Y)"
    ensures HashValues([Prop("X"), Prop("Y")]) == "X" + ", " + "Y"
  {
    var props := [Prop("X"), Prop("Y")];
    assert Clauses(props) == [EqualsClause("X"), EqualsClause("Y")];
    assert EqualsClause("X") == "Equals(X, other.X)";
    assert EqualsClause("Y") == "Equals(Y, other.Y)";
    assert Names(props) == ["X", "Y"];
  }

  lemma FooLiterals()
    ensures "Equals(X, other.X)" + " && " + "Equals(Y, other.Y)" == "Equals(X, other.X) && Equals(Y, other.Y)"
    ensures "HashCode.Combine(" + ("X" + ", " + "Y") + ")" == "HashCode.Combine(X, Y)"
    ensures "public bool Equals(" + "Foo" + " other)" == "public bool Equals(Foo other)"
  {
  }

  lemma FooScenario(ns: string)
    ensures var source := GenerateValueObject(Foo(ns));
      && Contains(source, "public bool Equals(Foo other)")
      && Contains(source, "Equals(X, other.X) && Equals(Y, other.Y)")
      && Contains(source, "public override int GetHashCode()")
      && Contains(source, "HashCode.Combine(X, Y)")
  {
    var foo := Foo(ns);
    var source, props := GenerateValueObject(foo), EquatedMembers(foo);
    assert props == [Prop("X"), Prop("Y")] by {
      FooMembers(ns);
    }
    var cmp, hash := Comparisons(props), HashValues(props);
    assert cmp == "Equals(X, other.X) && Equals(Y, other.Y)" by {
      FooRenderings();
      FooLiterals();
    }
    assert Contains(source, "return " + cmp + ";") && Contains(source, "HashCode.Combine(" + hash + ")") by {
      GeneratedMemberText(foo);
    }
    assert Contains(source, "public bool Equals(Foo other)") && Contains(source, HashCodeSignature) by {
      GeneratedSignatures(foo);
      FooLiterals();
    }
    assert "HashCode.Combine(" + hash + ")" == "HashCode.Combine(X, Y)" by {
      FooRenderings();
      FooLiterals();
    }
    ContainsMiddle("return ", cmp, ";");
    ContainsTransitive(cmp, "return " + cmp + ";", source);
  }

  lemma FooMembers(ns: string)
    ensures EquatedMembers(Foo(ns)) == [Prop("X"), Prop("Y")]
  {
  }

  /** `Baz`, in any namespace, with instance property `A`, a static property and a method. */
  function Baz(ns: string): NamedTypeSymbol
  {
    NamedTypeSymbol(ns, "Baz",
      [Prop("A"), MemberSymbol("SomeStaticProperty", Property, true),
       MemberSymbol("SomeMethod", Method, false)],
      [Some("ValueObjectAttribute")])
  }

  lemma BazScenario(ns: string)
    ensures Names(EquatedMembers(Baz(ns))) == ["A"]
    ensures GenerateValueObject(Baz(ns)) == GenerateValueObject(Baz(ns).(members := [Prop("A")]))
  {
    var baz := Baz(ns);
    BazMembers(ns);
    OnlyInstancePropertiesMatter(baz);
    assert baz.(members := InstanceProperties(baz.members)) == baz.(members := [Prop("A")]);
  }

  lemma BazMembers(ns: string)
    ensures EquatedMembers(Baz(ns)) == [Prop("A")]
    ensures Names([Prop("A")]) == ["A"]
  {
    var rest := [MemberSymbol("SomeStaticProperty", Property, true), MemberSymbol("SomeMethod", Method, false)];
    assert Baz(ns).members == [Prop("A")] + rest;
    InstancePropertiesAppend([Prop("A")], rest);
    KeptSingleton(Prop("A"));
    InstancePropertiesAppend([rest[0]], [rest[1]]);
    assert rest == [rest[0]] + [rest[1]];
    KeptSingleton(rest[0]);
    KeptSingleton(rest[1]);
  }

  /** `Empty`, in any namespace, without members. */
  function Empty(ns: string): NamedTypeSymbol
  {
    NamedTypeSymbol(ns, "Empty", [], [Some("ValueObjectAttribute")])
  }

  lemma EmptyScenario(ns: string)
    ensures var source := GenerateValueObject(Empty(ns));
      && Contains(source, "public bool Equals(Empty other)")
      && Contains(source, "public override int GetHashCode()")
      && Contains(source, "HashCode.Combine()")
  {
    ZeroMembers(Empty(ns));
    GeneratedSignatures(Empty(ns));
    EmptyLiterals();
  }

  lemma EmptyLiterals()
    ensures "public bool Equals(" + "Empty" + " other)" == "public bool Equals(Empty other)"
  {
  }
}
