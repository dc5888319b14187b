/** The syntax-API generator: a class qualifies when one of its attributes is
    spelled exactly like the marker; namespace and public properties are read
    from the declaration's syntax alone, and the output holds no state. */
module ToStringGeneratorV1 {

  import opened Wrappers
  import opened Seqs
  import opened Text
  import opened Roslyn
  import opened GeneratedFiles

  const GENERATOR_NAMESPACE := "Demo.Generators.CustomGenerators.SyntaxApi"
  const ATTRIBUTE_MARKER := "GenerateToStringV1Attribute"
  /** The marker's name without the `Attribute` suffix, as C# lets it be written. */
  const SHORT_MARKER := "GenerateToStringV1"
  const NO_NAMESPACE := "No namespace"

  const SEPARATOR := "; "
  const FOOTER := "\"; } // Closes the generated `ToString` method.\n}\n"

  // ---------------------------------------------------------------- filter

  /** The cheap structural test run on every syntax node. */
  predicate IsSyntaxTarget(node: SyntaxNode)
  {
    node.ClassNode? && |node.declaration.attributeLists| > 0
  }

  // ------------------------------------------------------ target resolution

  /** One of the two accepted spellings of the marker's name. */
  predicate IsMarkerName(attributeName: string)
  {
    attributeName == SHORT_MARKER || attributeName == ATTRIBUTE_MARKER
  }

  /** Some attribute, in some attribute list, is spelled like the marker. */
  predicate HasMarkerAttribute(attributeLists: seq<seq<string>>)
  {
    exists i, j :: 0 <= i < |attributeLists| && 0 <= j < |attributeLists[i]| && IsMarkerName(attributeLists[i][j])
  }

  method GetSemanticTarget(context: GeneratorSyntaxContext) returns (target: Option<ClassDeclaration>)
    requires context.node.ClassNode?
    ensures target.Some? <==> HasMarkerAttribute(context.node.declaration.attributeLists)
    ensures target.Some? ==> target.value == context.node.declaration
  {
    var classDeclarationSyntax := context.node.declaration;
    var attributeLists := classDeclarationSyntax.attributeLists;
    for i := 0 to |attributeLists|
      invariant forall i', j :: 0 <= i' < i && 0 <= j < |attributeLists[i']| ==> !IsMarkerName(attributeLists[i'][j])
    {
      var attributeListSyntax := attributeLists[i];
      for j := 0 to |attributeListSyntax|
        invariant forall j' :: 0 <= j' < j ==> !IsMarkerName(attributeListSyntax[j'])
      {
        var attributeName := attributeListSyntax[j];
        if attributeName == SHORT_MARKER || attributeName == ATTRIBUTE_MARKER {
          return Some(classDeclarationSyntax);
        }
      }
    }
    return None;
  }

  /** The structural filter never drops a class the name match would accept. */
  lemma MarkedClassPassesFilter(declaration: ClassDeclaration)
    requires HasMarkerAttribute(declaration.attributeLists)
    ensures IsSyntaxTarget(ClassNode(declaration))
  {
    var i, j :| 0 <= i < |declaration.attributeLists| && 0 <= j < |declaration.attributeLists[i]|
                && IsMarkerName(declaration.attributeLists[i][j]);
  }

  /** The two accepted spellings are exactly the marker's own name and the
      name that C# completes to it by appending `Attribute`. */
  lemma MarkerNameSpellings(attributeName: string)
    ensures IsMarkerName(attributeName)
        <==> attributeName == ATTRIBUTE_MARKER || attributeName + "Attribute" == ATTRIBUTE_MARKER
  {
    assert SHORT_MARKER + "Attribute" == ATTRIBUTE_MARKER;
    if attributeName + "Attribute" == ATTRIBUTE_MARKER {
      assert attributeName == (attributeName + "Attribute")[..|SHORT_MARKER|];
      assert ATTRIBUTE_MARKER[..|SHORT_MARKER|] == SHORT_MARKER;
    }
  }

  /** The match is on the name's text, so a qualified spelling does not match. */
  lemma QualifiedSpellingDoesNotMatch()
    ensures !IsMarkerName("SyntaxApi.GenerateToStringV1")
    ensures !IsMarkerName(GENERATOR_NAMESPACE + "." + ATTRIBUTE_MARKER)
    ensures !HasMarkerAttribute([["SyntaxApi.GenerateToStringV1"]])
  {
  }

  // ---------------------------------------------------------------- marker

  function MarkerSource(): GeneratedSource
  {
    GeneratedSource(FileName(GENERATOR_NAMESPACE, ATTRIBUTE_MARKER), MarkerDeclaration(GENERATOR_NAMESPACE, ATTRIBUTE_MARKER))
  }

  /** Injects the marker type's declaration; it depends on no input. */
  method PostInitializationOutput(sink: SourceSink)
    modifies sink
    ensures sink.sources == old(sink.sources) + [MarkerSource()]
  {
    var fileName := FileName(GENERATOR_NAMESPACE, ATTRIBUTE_MARKER);
    var source := MarkerDeclaration(GENERATOR_NAMESPACE, ATTRIBUTE_MARKER);
    sink.AddSource(fileName, source);
  }

  /** The injected type is the one both accepted spellings name: it is
      declared with the full marker name in the generator's namespace. */
  lemma MarkerSourceDeclaresMarker()
    ensures MarkerSource().hintName == GENERATOR_NAMESPACE + "." + ATTRIBUTE_MARKER + ".g.cs"
    ensures "namespace " + GENERATOR_NAMESPACE + ";\n" <= MarkerSource().text
    ensures EndsWith(MarkerSource().text, "internal class " + ATTRIBUTE_MARKER + " : System.Attribute { }")
    ensures IsMarkerName(ATTRIBUTE_MARKER) && IsMarkerName(SHORT_MARKER)
  {
    MarkerDeclarationShape(GENERATOR_NAMESPACE, ATTRIBUTE_MARKER);
  }

  // ------------------------------------------------------------- namespace

  /** The namespace is read from the immediate parent only. */
  function NamespaceName(parent: Parent): string
  {
    match parent
    case NamespaceDeclaration(name) => name
    case FileScopedNamespaceDeclaration(name) => name
    case _ => NO_NAMESPACE
  }

  // ------------------------------------------------------------- rendering

  /** The identifier of a member when it is a property declaration carrying
      a `public` modifier token. */
  function PublicPropertyIdentifier(member: MemberDeclaration): Option<string>
  {
    match member
    case PropertyDeclaration(identifier, modifiers) =>
      if PublicKeyword in modifiers then Some(identifier) else None
    case OtherMember => None
  }

  function PublicPropertyIdentifiers(members: seq<MemberDeclaration>): seq<string>
  {
    FilterMap(members, PublicPropertyIdentifier)
  }

  /** Exactly the property declarations with a `public` token contribute,
      in declaration order; other members and other properties are skipped. */
  lemma PublicPropertiesInOrder(members: seq<MemberDeclaration>)
    ensures var names := PublicPropertyIdentifiers(members);
            var idx := KeptIndices(members, PublicPropertyIdentifier);
            && |idx| == |names|
            && (forall k :: 0 <= k < |idx| ==>
                  && idx[k] < |members|
                  && members[idx[k]].PropertyDeclaration?
                  && PublicKeyword in members[idx[k]].modifiers
                  && members[idx[k]].identifier == names[k])
            && (forall k, l :: 0 <= k < l < |idx| ==> idx[k] < idx[l])
            && (forall i :: (0 <= i < |members| && members[i].PropertyDeclaration?
                               && PublicKeyword in members[i].modifiers) ==> i in idx)
  {
    var idx := KeptIndices(members, PublicPropertyIdentifier);
    forall i | 0 <= i < |members| && members[i].PropertyDeclaration? && PublicKeyword in members[i].modifiers
      ensures i in idx
    {
      assert PublicPropertyIdentifier(members[i]).Some?;
    }
  }

  /** Note the space after the colon, which the semantic generator does not have. */
  function Fragment(propertyName: string): string
  {
    propertyName + ": {" + propertyName + "}"
  }

  lemma FragmentHasNoSemicolon(propertyName: string)
    requires ';' !in propertyName
    ensures ';' !in Fragment(propertyName)
  {
  }

  /** The interpolation body of the generated `ToString`. */
  function Body(propertyNames: seq<string>): string
  {
    Join(Map(propertyNames, Fragment), SEPARATOR)
  }

  function ClassHeader(namespaceName: string, className: string): string
  {
    NamespaceLine(namespaceName) + ClassOpening(className)
  }

  function NamespaceLine(namespaceName: string): string
  {
    "namespace " + namespaceName + ";"
  }

  function ClassOpening(className: string): string
  {
    "\n\npublic partial class " + className + "\n{\n    public override string ToString()\n    {\n        return $\""
  }

  /** The generated file: header, body and footer, with no counter line. */
  function Content(namespaceName: string, className: string, propertyNames: seq<string>): string
  {
    ClassHeader(namespaceName, className) + Body(propertyNames) + FOOTER
  }

  lemma BodySnoc(propertyNames: seq<string>, propertyName: string)
    ensures Body(propertyNames + [propertyName])
         == if propertyNames == [] then Fragment(propertyName)
            else Body(propertyNames) + SEPARATOR + Fragment(propertyName)
  {
    MapSnoc(propertyNames, propertyName, Fragment);
    JoinSnoc(Map(propertyNames, Fragment), Fragment(propertyName), SEPARATOR);
  }

  /** No qualifying property gives an empty body, and only then. */
  lemma BodyEmpty(propertyNames: seq<string>)
    ensures Body(propertyNames) == "" <==> propertyNames == []
  {
    if propertyNames != [] {
      JoinBoundaries(Map(propertyNames, Fragment), SEPARATOR);
    }
  }

  /** The body starts with the first fragment and ends with the last one:
      no separator leads or trails. */
  lemma BodyBoundaries(propertyNames: seq<string>)
    requires propertyNames != []
    ensures Fragment(propertyNames[0]) <= Body(propertyNames)
    ensures EndsWith(Body(propertyNames), Fragment(propertyNames[|propertyNames| - 1]))
  {
    JoinBoundaries(Map(propertyNames, Fragment), SEPARATOR);
  }

  /** With `;`-free names, the body holds one `;` per separator, one fewer
      than the number of properties. */
  lemma BodySeparators(propertyNames: seq<string>)
    requires forall k :: 0 <= k < |propertyNames| ==> ';' !in propertyNames[k]
    ensures Count(Body(propertyNames), ';') == if propertyNames == [] then 0 else |propertyNames| - 1
  {
    var fragments := Map(propertyNames, Fragment);
    forall k | 0 <= k < |fragments|
      ensures ';' !in fragments[k]
    {
      assert fragments[k] == Fragment(propertyNames[k]);
      FragmentHasNoSemicolon(propertyNames[k]);
    }
    JoinCount(fragments, SEPARATOR, ';');
    assert SEPARATOR == [';', ' '];
    CountPair(';', ' ', ';');
  }

  /** The content opens with the namespace line: unlike the semantic
      generator's, it carries no generation count, so equal inputs give
      equal files. */
  lemma ContentStartsWithNamespace(namespaceName: string, className: string, propertyNames: seq<string>)
    requires '\n' !in namespaceName
    ensures FirstLine(Content(namespaceName, className, propertyNames)) == "namespace " + namespaceName + ";"
  {
    var line := NamespaceLine(namespaceName);
    var rest := ClassOpening(className) + Body(propertyNames) + FOOTER;
    assert Content(namespaceName, className, propertyNames) == line + rest;
    assert '\n' !in "namespace ";
    FirstLineOfConcat(line, rest);
  }

  /** Renders one class: the header, then a fragment per public property
      declaration with a separator before every fragment but the first, then
      the footer. */
  method GetContent(namespaceName: string, className: string, classDeclarationSyntax: ClassDeclaration)
    returns (content: string)
    ensures content == Content(namespaceName, className, PublicPropertyIdentifiers(classDeclarationSyntax.members))
  {
    var stringBuilder := ClassHeader(namespaceName, className);
    var first := true;
    var members := classDeclarationSyntax.members;
    for i := 0 to |members|
      invariant first <==> |PublicPropertyIdentifiers(members[..i])| == 0
      invariant stringBuilder == ClassHeader(namespaceName, className) + Body(PublicPropertyIdentifiers(members[..i]))
    {
      var memberDeclarationSyntax := members[i];
      FilterMapSnoc(members[..i], memberDeclarationSyntax, PublicPropertyIdentifier);
      assert members[..i + 1] == members[..i] + [memberDeclarationSyntax];
      match memberDeclarationSyntax {
        case PropertyDeclaration(identifier, modifiers) =>
          if PublicKeyword in modifiers {
            BodySnoc(PublicPropertyIdentifiers(members[..i]), identifier);
            if !first {
              stringBuilder := stringBuilder + SEPARATOR;
            }
            first := false;
            var propertyName := identifier;
            stringBuilder := stringBuilder + Fragment(propertyName);
          }
        case OtherMember =>
      }
    }
    assert members[..|members|] == members;
    stringBuilder := stringBuilder + FOOTER;
    return stringBuilder;
  }

  /** Generates one file for a marked class, named after the immediate
      parent's namespace and the class identifier. */
  method Execute(sink: SourceSink, classDeclarationSyntax: ClassDeclaration)
    modifies sink
    ensures var namespaceName := NamespaceName(classDeclarationSyntax.parent);
            var className := classDeclarationSyntax.identifier;
            sink.sources == old(sink.sources)
              + [GeneratedSource(FileName(namespaceName, className),
                                 Content(namespaceName, className,
                                         PublicPropertyIdentifiers(classDeclarationSyntax.members)))]
  {
    var name := NamespaceName(classDeclarationSyntax.parent);
    var namespaceName := name;
    var className := classDeclarationSyntax.identifier;
    var fileName := FileName(namespaceName, className);
    var content := GetContent(namespaceName, className, classDeclarationSyntax);
    sink.AddSource(fileName, content);
  }

  /** A class nested in another class, or declared at top level, is named
      `No namespace.{class}.g.cs` and its file opens with
      `namespace No namespace;`. */
  lemma NoNamespaceOutput(classDeclarationSyntax: ClassDeclaration)
    requires classDeclarationSyntax.parent.TypeDeclaration? || classDeclarationSyntax.parent.CompilationUnit?
    ensures var className := classDeclarationSyntax.identifier;
            var content := Content(NO_NAMESPACE, className, PublicPropertyIdentifiers(classDeclarationSyntax.members));
            && NamespaceName(classDeclarationSyntax.parent) == NO_NAMESPACE
            && FileName(NamespaceName(classDeclarationSyntax.parent), className) == NO_NAMESPACE + "." + className + ".g.cs"
            && FirstLine(content) == "namespace " + NO_NAMESPACE + ";"
  {
    assert '\n' !in NO_NAMESPACE;
    ContentStartsWithNamespace(NO_NAMESPACE, classDeclarationSyntax.identifier,
                               PublicPropertyIdentifiers(classDeclarationSyntax.members));
  }

  /** A class directly inside a namespace declaration, block or file-scoped,
      is named after that namespace, and its file opens with that namespace. */
  lemma NamespacedOutput(classDeclarationSyntax: ClassDeclaration)
    requires classDeclarationSyntax.parent.NamespaceDeclaration?
             || classDeclarationSyntax.parent.FileScopedNamespaceDeclaration?
    requires '\n' !in classDeclarationSyntax.parent.name
    ensures var namespaceName := classDeclarationSyntax.parent.name;
            var className := classDeclarationSyntax.identifier;
            var content := Content(namespaceName, className, PublicPropertyIdentifiers(classDeclarationSyntax.members));
            && NamespaceName(classDeclarationSyntax.parent) == namespaceName
            && FileName(NamespaceName(classDeclarationSyntax.parent), className) == namespaceName + "." + className + ".g.cs"
            && FirstLine(content) == "namespace " + namespaceName + ";"
  {
    ContentStartsWithNamespace(classDeclarationSyntax.parent.name, classDeclarationSyntax.identifier,
                               PublicPropertyIdentifiers(classDeclarationSyntax.members));
  }

  /** Because only the immediate parent is read, two classes with the same
      identifier nested in different types, or one nested and one at top
      level, get the same file name, whatever namespace encloses them. */
  lemma NestedClassesShareFileName(first: ClassDeclaration, second: ClassDeclaration)
    requires first.parent.TypeDeclaration? || first.parent.CompilationUnit?
    requires second.parent.TypeDeclaration? || second.parent.CompilationUnit?
    requires first.identifier == second.identifier
    ensures FileName(NamespaceName(first.parent), first.identifier)
         == FileName(NamespaceName(second.parent), second.identifier)
  {
  }

  // --------------------------------------------------------------- example

  /** The demo's `Address`: marked with the full marker name, declared in a
      file-scoped namespace, with two public properties. */
  lemma AddressExample()
    ensures var address := ClassDeclaration(
              "Address", FileScopedNamespaceDeclaration("Demo.ConsoleApp.Model"),
              [["GenerateToStringV1Attribute"]],
              [PropertyDeclaration("City", [PublicKeyword]), PropertyDeclaration("State", [PublicKeyword])]);
            && HasMarkerAttribute(address.attributeLists)
            && FileName(NamespaceName(address.parent), address.identifier) == "Demo.ConsoleApp.Model.Address.g.cs"
            && PublicPropertyIdentifiers(address.members) == ["City", "State"]
  {
    var city := PropertyDeclaration("City", [PublicKeyword]);
    var state := PropertyDeclaration("State", [PublicKeyword]);
    assert IsMarkerName([["GenerateToStringV1Attribute"]][0][0]);
    FilterMapSnoc([], city, PublicPropertyIdentifier);
    assert [] + [city] == [city];
    FilterMapSnoc([city], state, PublicPropertyIdentifier);
    assert [city] + [state] == [city, state];
  }

  /** `Address`'s body, with the space after each colon. */
  lemma AddressRendering()
    ensures Body(["City", "State"]) == "City: {City}; State: {State}"
  {
    var fragments := Map(["City", "State"], Fragment);
    assert fragments[0] == Fragment("City") == "City: {City}";
    assert fragments[1] == Fragment("State") == "State: {State}";
    assert fragments[1..] == ["State: {State}"];
    assert Join(fragments[1..], SEPARATOR) == "State: {State}";
    assert Join(fragments, SEPARATOR) == fragments[0] + SEPARATOR + Join(fragments[1..], SEPARATOR);
  }
}
