/** The view of the compiler that the two generators consume, as plain values:
    the syntax of a class declaration (what the syntactic strategy reads) and
    the symbol the semantic model declares for it (what the semantic strategy
    reads). The compiler builds these; the generators never change them. */
module Roslyn {

  import opened Wrappers

  /** The node that directly contains a class declaration. */
  datatype Parent =
    | NamespaceDeclaration(name: string)            // namespace N { ... }
    | FileScopedNamespaceDeclaration(name: string)  // namespace N;
    | TypeDeclaration(name: string)                 // nested in another type
    | CompilationUnit                               // top level, no namespace

  /** Modifier tokens written on a member declaration. */
  datatype Modifier =
    | PublicKeyword | PrivateKeyword | ProtectedKeyword | InternalKeyword
    | StaticKeyword | OtherKeyword

  /** A member declaration inside a class body: a property with its
      identifier and modifier tokens, or anything else (field, method,
      constructor, nested type, ...). */
  datatype MemberDeclaration =
    | PropertyDeclaration(identifier: string, modifiers: seq<Modifier>)
    | OtherMember

  /** A class declaration: its identifier, its immediate parent, its attribute
      lists (each attribute given by the text of its name, for example
      `GenerateToStringV1` or `SyntaxApi.GenerateToStringV1`) and its members
      in declaration order. */
  datatype ClassDeclaration = ClassDeclaration(
    identifier: string,
    parent: Parent,
    attributeLists: seq<seq<string>>,
    members: seq<MemberDeclaration>)

  /** A syntax node the incremental pipeline offers to a generator. */
  datatype SyntaxNode =
    | ClassNode(declaration: ClassDeclaration)
    | OtherNode

  /** The identity of a type symbol; equal ids are the same symbol. */
  type SymbolId = nat

  datatype SymbolKind = Property | Field | Method | Event | NamedType | OtherKind

  datatype Accessibility =
    | NotApplicable | Private | ProtectedAndInternal | Protected
    | Internal | ProtectedOrInternal | Public

  datatype MemberSymbol = MemberSymbol(kind: SymbolKind, declaredAccessibility: Accessibility, name: string)

  /** The symbol of a class: the display string of its containing namespace,
      its name, the attribute class of each of its attributes (absent when the
      attribute's class could not be bound) and its members in order. */
  datatype ClassSymbol = ClassSymbol(
    containingNamespace: string,
    name: string,
    attributeClasses: seq<Option<SymbolId>>,
    members: seq<MemberSymbol>)

  /** The types of the compilation, by metadata name. */
  datatype Compilation = Compilation(typesByMetadataName: map<string, SymbolId>)

  function GetTypeByMetadataName(compilation: Compilation, metadataName: string): Option<SymbolId>
  {
    if metadataName in compilation.typesByMetadataName
    then Some(compilation.typesByMetadataName[metadataName])
    else None
  }

  /** The number of attributes written across a declaration's attribute lists. */
  function AttributeCount(attributeLists: seq<seq<string>>): nat
  {
    if attributeLists == [] then 0
    else AttributeCount(attributeLists[..|attributeLists| - 1]) + |attributeLists[|attributeLists| - 1]|
  }

  /** What the transform step of the pipeline receives: the node, the symbol
      the semantic model declares for it (if any) and the compilation. */
  datatype GeneratorSyntaxContext = GeneratorSyntaxContext(
    node: SyntaxNode,
    declaredSymbol: Option<ClassSymbol>,
    compilation: Compilation)

  /** The symbol's attributes are exactly those written on this declaration,
      one attribute class per attribute; this holds for a class declared in a
      single part whose attribute lists all apply to the type. */
  predicate AttributesFromDeclaration(context: GeneratorSyntaxContext)
    requires context.node.ClassNode?
  {
    context.declaredSymbol.Some? ==>
      |context.declaredSymbol.value.attributeClasses| == AttributeCount(context.node.declaration.attributeLists)
  }
}
