# ToString source generators, modelled in Dafny

The repository contains three incremental C# source generators. The two
modelled here each find the classes that carry their own marker attribute. For
each such class, they add a partial class whose `ToString` override lists the
class's public properties, separated by `"; "`. The semantic strategy writes
each property as `Name:{Name}`, and the syntactic strategy writes it as
`Name: {Name}`, with a space. The third generator is listed under "## Left out".

- **Semantic strategy** (`ToStringGeneratorV2`). A class qualifies when one of
  its attributes is, by symbol identity, the marker type
  `Demo.Generators.CustomGenerators.SemanticModel.GenerateToStringV2Attribute`.
  Namespace, class name and public properties come from the class symbol. A
  process-wide dictionary counts how often each file name has been generated.
  Each file generated for a marked class starts with that count. The
  injected marker file does not.
- **Syntactic strategy** (`ToStringGeneratorV1`). A class qualifies when an
  attribute's name text is exactly `GenerateToStringV1` or
  `GenerateToStringV1Attribute`. The namespace is read from the immediate
  syntactic parent. Properties are read from the member declarations. The
  output holds no state.

The compiler is replaced by plain values (module `Roslyn`):
- a class declaration: its identifier, its immediate parent, its attribute
  lists as name texts, and its members as `PropertyDeclaration | OtherMember`;
- a class symbol: its namespace string, its name, its attribute class ids and
  its members as (kind, accessibility, name);
- a compilation: a map from metadata name to symbol id.

`context.AddSource` appends `(hintName, text)` to a `SourceSink`. The
dictionary `_countPerFileName` is the field of a class,
`ToStringGeneratorV2.Generator`. A ghost history of generated file names
explains every count in it. Both `GetContent` methods are loops over a string
builder with a `first` flag. Each is proved equal to a header, then
`Text.Join` of the fragments with `"; "`, then a footer.

Modules: `Wrappers` (Option), `Seqs` (map, order-preserving filter,
counting), `Text` (join, first line), `DotNet` (C# `int`, its unchecked
increment and its decimal rendering), `Roslyn`, `GeneratedFiles`, and one
module per generator.

Behaviour of the code that the model keeps as written:
- The counter is a C# `int`. After `int.MaxValue` generations of one file
  name, the next stored and embedded count is `int.MinValue`
  (`CountWrapsAtMaxValue`). The "count is at least 1" property holds below
  that bound (`GenerationCountIsPositive`).
- The syntactic strategy reads only the immediate parent of the class. It
  does not walk up to an enclosing namespace. A nested or top-level class
  therefore gets `No namespace` as its namespace, and its file starts with
  `namespace No namespace;` (`NoNamespaceOutput`).
- Neither generator checks for duplicate output keys. The sink appends
  without checking. Different (namespace, class name) pairs never share a
  file name (`FileNameInjective`). Still, different classes can report the
  same pair and collide, and one class can be generated twice:
  - In the syntactic strategy, two classes named `Inner` nested in different
    types both get `No namespace.Inner.g.cs` (`NestedClassesShareFileName`).
  - In the semantic strategy, the containing namespace skips enclosing types,
    so nested classes with the same name in one namespace share a file name.
  - In both strategies, `C` and `C<T>` in one namespace share a file name.
    The class name leaves out the type parameter list.
  - In the semantic strategy, a partial class can have two parts that each
    carry an attribute list, with only one of them the marker. Both parts
    pass the filter and resolve to the same marked symbol. `Execute` then
    runs twice for one file name: the count reaches 2, and the hint name is
    added twice.

## Model

| member | source | states |
|---|---|---|
| `ToStringGeneratorV2.MarkedClassPassesFilter` | Demo.Generators/CustomGenerators/SemanticModel/ToStringGeneratorV2.cs:40-45 | `IsSyntaxTarget`, the cheap filter (a class declaration with at least one attribute list), loses no marked class. Whenever the symbol's attributes are those written on the declaration, a class that `GetSemanticTarget` accepts passes the filter. |
| `ToStringGeneratorV2.GetSemanticTarget` | Demo.Generators/CustomGenerators/SemanticModel/ToStringGeneratorV2.cs:47-87 | Returns a target exactly when both the class symbol and the marker symbol resolve and some attribute's class is the marker symbol (identity, not name). It returns null when either lookup fails. A target holds the containing namespace, the class name and the public property names. |
| `ToStringGeneratorV2.PublicPropertyNamesInOrder` | Demo.Generators/CustomGenerators/SemanticModel/ToStringGeneratorV2.cs:70-79 | The extracted names are those of the members with kind Property and accessibility Public, at strictly increasing member positions, with none skipped. |
| `ToStringGeneratorV2.PostInitializationOutput` | Demo.Generators/CustomGenerators/SemanticModel/ToStringGeneratorV2.cs:90-98 | Adds exactly one fixed source, the marker declaration, which takes no input. |
| `ToStringGeneratorV2.MarkerSourceDeclaresLookedUpType` | Demo.Generators/CustomGenerators/SemanticModel/ToStringGeneratorV2.cs:92-95 | The marker file is named `{metadata name}.g.cs` after the same metadata name that `GetSemanticTarget` resolves. It opens with the generator namespace and declares `internal class GenerateToStringV2Attribute : System.Attribute`. |
| `ToStringGeneratorV2.Record` | Demo.Generators/CustomGenerators/SemanticModel/ToStringGeneratorV2.cs:115-122 | A generation sets the file name's count to the old count plus one (a C# `int` increment), or to 1 when the name is absent. Every other key keeps its presence and value. |
| `ToStringGeneratorV2.ReplayCountsGenerations` | Demo.Generators/CustomGenerators/SemanticModel/ToStringGeneratorV2.cs:100-122 | Starting from the empty dictionary, the entry for a file name is the number of times it was generated (below 2^31). The key is present exactly when that number is non-zero. |
| `ToStringGeneratorV2.GenerationCountIsPositive` | Demo.Generators/CustomGenerators/SemanticModel/ToStringGeneratorV2.cs:115-125 | The count stored for the current generation is the number of earlier generations plus one, so it is at least 1 below `int.MaxValue`. |
| `ToStringGeneratorV2.CountWrapsAtMaxValue` | Demo.Generators/CustomGenerators/SemanticModel/ToStringGeneratorV2.cs:117 | As written, incrementing a count of `int.MaxValue` stores `int.MinValue`. |
| `ToStringGeneratorV2.ContentEmbedsCount` | Demo.Generators/CustomGenerators/SemanticModel/ToStringGeneratorV2.cs:135 | The content's first line is `// Generation count: N`. Parsing N back gives exactly the count that was rendered. |
| `ToStringGeneratorV2.Generator.constructor` | Demo.Generators/CustomGenerators/SemanticModel/ToStringGeneratorV2.cs:100 | At process start the dictionary is empty and nothing has been generated. |
| `ToStringGeneratorV2.Generator.Execute` | Demo.Generators/CustomGenerators/SemanticModel/ToStringGeneratorV2.cs:102-128 | A null target changes nothing and adds no source. Otherwise the call records `{namespace}.{class}.g.cs` in the dictionary and the history, and appends one source under that name. That source's content embeds the count just stored. The dictionary stays equal to the replay of the history. |
| `ToStringGeneratorV2.Generator.GetContent` | Demo.Generators/CustomGenerators/SemanticModel/ToStringGeneratorV2.cs:130-163 | The `first`-flag loop yields the count line and class header, then the `p:{p}` fragments joined by `"; "`, then the footer. |
| `ToStringGeneratorV2.BodySnoc` | Demo.Generators/CustomGenerators/SemanticModel/ToStringGeneratorV2.cs:147-156 | One more property appends its fragment, preceded by `"; "` only when the body already has a fragment. |
| `ToStringGeneratorV2.BodyEmpty` | Demo.Generators/CustomGenerators/SemanticModel/ToStringGeneratorV2.cs:144-156 | The body is empty exactly when there are no property names. |
| `ToStringGeneratorV2.BodyBoundaries` | Demo.Generators/CustomGenerators/SemanticModel/ToStringGeneratorV2.cs:144-156 | A non-empty body starts with the first fragment and ends with the last one, so no separator leads or trails. |
| `ToStringGeneratorV2.BodySeparators` | Demo.Generators/CustomGenerators/SemanticModel/ToStringGeneratorV2.cs:149-152 | When no name contains `;`, the body holds exactly one `;` fewer than there are names. |
| `ToStringGeneratorV2.PersonPropertyNames` | Demo.ConsoleApp/Model/Person.cs:5-7 | A sample member list uses `Person`'s public properties `FirstName` and `LastName`, with a private property and a method mixed in. Only the two public properties are extracted. `Person` itself carries no marker and generates nothing. |
| `ToStringGeneratorV2.PersonRendering` | Demo.ConsoleApp/Model/Person.cs:11 | For the names `FirstName` and `LastName`, the body equals the interpolation that `Person`'s hand-written `ToString` returns. A class `Person` in `Demo.ConsoleApp.Model` would get the file `Demo.ConsoleApp.Model.Person.g.cs`. |
| `ToStringGeneratorV1.MarkedClassPassesFilter` | Demo.Generators/CustomGenerators/SyntaxApi/ToStringGeneratorV1.cs:40-45 | Every class that the name match accepts passes the structural filter (a class with at least one attribute list). |
| `ToStringGeneratorV1.GetSemanticTarget` | Demo.Generators/CustomGenerators/SyntaxApi/ToStringGeneratorV1.cs:48-69 | Returns the class declaration itself exactly when some attribute in some list has name text `GenerateToStringV1` or `GenerateToStringV1Attribute`. Otherwise it returns null. |
| `ToStringGeneratorV1.MarkerNameSpellings` | Demo.Generators/CustomGenerators/SyntaxApi/ToStringGeneratorV1.cs:60-61 | The accepted spellings are exactly the marker's name and the name C# completes to it by appending `Attribute`. |
| `ToStringGeneratorV1.QualifiedSpellingDoesNotMatch` | Demo.Generators/CustomGenerators/SyntaxApi/ToStringGeneratorV1.cs:57-61 | Qualified spellings such as `SyntaxApi.GenerateToStringV1` do not match. |
| `ToStringGeneratorV1.PostInitializationOutput` | Demo.Generators/CustomGenerators/SyntaxApi/ToStringGeneratorV1.cs:72-80 | Adds exactly one fixed source, the marker declaration, which takes no input. |
| `ToStringGeneratorV1.MarkerSourceDeclaresMarker` | Demo.Generators/CustomGenerators/SyntaxApi/ToStringGeneratorV1.cs:74-77 | The marker file is named `{namespace}.{marker}.g.cs`. It declares `internal class GenerateToStringV1Attribute : System.Attribute` in the generator namespace, and both accepted spellings name it. |
| `ToStringGeneratorV1.NamespacedOutput` | Demo.Generators/CustomGenerators/SyntaxApi/ToStringGeneratorV1.cs:87-95 | `NamespaceName` models the switch. A class directly in a block or file-scoped namespace gets that namespace's name, the file `{namespace}.{class}.g.cs`, and a first line `namespace {namespace};`. |
| `ToStringGeneratorV1.NestedClassesShareFileName` | Demo.Generators/CustomGenerators/SyntaxApi/ToStringGeneratorV1.cs:87-95 | Two classes with the same identifier whose parents are not namespaces get the same file name, whatever encloses them. |
| `ToStringGeneratorV1.NoNamespaceOutput` | Demo.Generators/CustomGenerators/SyntaxApi/ToStringGeneratorV1.cs:87-95 | A nested or top-level class gets the file `No namespace.{class}.g.cs`, and its content opens with `namespace No namespace;`. |
| `ToStringGeneratorV1.Execute` | Demo.Generators/CustomGenerators/SyntaxApi/ToStringGeneratorV1.cs:83-101 | Appends exactly one source, named `{namespace}.{identifier}.g.cs`, whose content is rendered from the public property declarations. No other state changes. |
| `ToStringGeneratorV1.PublicPropertiesInOrder` | Demo.Generators/CustomGenerators/SyntaxApi/ToStringGeneratorV1.cs:120-123 | The contributing names are those of the property declarations with a `public` token, at strictly increasing positions, with none skipped. Other members and other properties are skipped. |
| `ToStringGeneratorV1.GetContent` | Demo.Generators/CustomGenerators/SyntaxApi/ToStringGeneratorV1.cs:104-140 | The filtering `first`-flag loop yields the class header, then the `p: {p}` fragments of the public properties joined by `"; "`, then the footer. |
| `ToStringGeneratorV1.BodySnoc` | Demo.Generators/CustomGenerators/SyntaxApi/ToStringGeneratorV1.cs:125-131 | One more property appends its fragment, preceded by `"; "` only when the body already has a fragment. |
| `ToStringGeneratorV1.BodyEmpty` | Demo.Generators/CustomGenerators/SyntaxApi/ToStringGeneratorV1.cs:117-133 | The body is empty exactly when no property qualifies. |
| `ToStringGeneratorV1.BodyBoundaries` | Demo.Generators/CustomGenerators/SyntaxApi/ToStringGeneratorV1.cs:117-133 | A non-empty body starts with the first fragment and ends with the last one, so no separator leads or trails. |
| `ToStringGeneratorV1.BodySeparators` | Demo.Generators/CustomGenerators/SyntaxApi/ToStringGeneratorV1.cs:125-128 | When no name contains `;`, the body holds exactly one `;` fewer than there are names. |
| `ToStringGeneratorV1.ContentStartsWithNamespace` | Demo.Generators/CustomGenerators/SyntaxApi/ToStringGeneratorV1.cs:109-115 | The content's first line is `namespace {ns};`. There is no counter line, so equal inputs give equal files. |
| `ToStringGeneratorV1.AddressExample` | Demo.ConsoleApp/Model/Address.cs:5-10 | `Address` is accepted through its full marker spelling. Its file is `Demo.ConsoleApp.Model.Address.g.cs` and its properties are `City` and `State`. |
| `ToStringGeneratorV1.AddressRendering` | Demo.Generators/CustomGenerators/SyntaxApi/ToStringGeneratorV1.cs:131 | `Address`'s body is `City: {City}; State: {State}`, with a space after each colon. |
| `GeneratedFiles.FileNameInjective` | Demo.Generators/CustomGenerators/SemanticModel/ToStringGeneratorV2.cs:113 | Class names contain no dot, so `{namespace}.{class}.g.cs` determines both the namespace and the class name. Different (namespace, class name) pairs never share a file name. Classes that report the same pair still collide. The same format is used at ToStringGeneratorV1.cs:95. |
| `GeneratedFiles.MarkerDeclarationShape` | Demo.Generators/CustomGenerators/SemanticModel/ToStringGeneratorV2.cs:92-94 | For any namespace and marker name, the injected attribute source starts with the line `namespace {ns};` and ends with `internal class {marker} : System.Attribute { }`. ToStringGeneratorV1.cs:74-76 uses the same text. |
| `ToStringGeneratorV2.AppendFragment` | Demo.Generators/CustomGenerators/SemanticModel/ToStringGeneratorV2.cs:147-155 | One loop step. Appending `"; "` (unless this is the first name) and then the fragment gives the body over one more name, behind any fixed prefix. |
| `GeneratedFiles.SourceSink.AddSource` | Demo.Generators/CustomGenerators/SemanticModel/ToStringGeneratorV2.cs:127 | Appends the named source and changes nothing else. There is no duplicate check. |
| `DotNet.UncheckedIncrement` | Demo.Generators/CustomGenerators/SemanticModel/ToStringGeneratorV2.cs:117 | `++` on a C# `int` gives the old value plus one modulo 2^32, inside the `int` range. |
| `DotNet.NatToString` | Demo.Generators/CustomGenerators/SemanticModel/ToStringGeneratorV2.cs:135 | Renders a number as a non-empty run of decimal digits with no leading zero. |
| `DotNet.IntToStringRoundTrip` | Demo.Generators/CustomGenerators/SemanticModel/ToStringGeneratorV2.cs:135 | Parsing the decimal rendering of an `int` gives the same `int` back. |
| `Seqs.KeptIndices` | Demo.Generators/CustomGenerators/SemanticModel/ToStringGeneratorV2.cs:72-79 | The filtering loop keeps the selected elements at strictly increasing positions, each with its value, and skips none of them. |
| `Text.JoinSnoc` | Demo.Generators/CustomGenerators/SemanticModel/ToStringGeneratorV2.cs:149-155 | The `first`-flag step: appending a part adds the separator only when something precedes it. |
| `Text.JoinCount` | Demo.Generators/CustomGenerators/SyntaxApi/ToStringGeneratorV1.cs:125-128 | When no part contains a character, that character occurs in the join only in the separators, which number one fewer than the parts. |

## Left out

- The pipeline wiring is left out: `Initialize`, `CreateSyntaxProvider`, the `Where` filter, `RegisterSourceOutput`, `RegisterPostInitializationOutput`, and the caching between incremental runs. The host performs these, and no code of the generators expresses them.
- Roslyn itself is left out. Syntax nodes, symbols, `GetDeclaredSymbol`, `ContainingNamespace.ToDisplayString()`, `Name.ToString()` and symbol equality are given as values: strings and symbol ids. `GetTypeByMetadataName` is a map lookup, so the case where it returns null for an ambiguous name is one more absent entry.
- The host's own handling of added sources is left out, including its rejection of a repeated hint name within one generator run. The generators do not check for repeats, and neither does the model.
- Thread safety of the static `_countPerFileName` is left out. It is modelled as a single-owner map updated one call at a time.
- `DotNet.IntToString`: renders negative numbers with `-`, as under the invariant culture. A culture with a different negative sign is not modelled.
- The `ClassToGenerate` record is declared in a file that is not part of this model. It is modelled from its use as a three-field datatype.
- `ToStringGeneratorV2.MarkedClassPassesFilter`: stated only when the symbol's attributes are those written on the one declaration. For a partial class, the marker can sit on another part, and the model does not relate the parts of a partial class to each other.
- `Demo.Generators/ToStringGenerator.cs` is not modelled. It emits a constant comment per class. The console application and the hand-written `Person.ToString` are only used as sample data.
