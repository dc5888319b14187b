/** The semantic-model generator: a class qualifies when one of its attributes
    is, by symbol identity, the injected marker type; its public properties
    are read from the class symbol; every generated file carries a process-wide
    count of how often that file name has been generated. */
module ToStringGeneratorV2 {

  import opened Wrappers
  import opened Seqs
  import opened Text
  import opened DotNet
  import opened Roslyn
  import opened GeneratedFiles

  const GENERATOR_NAMESPACE := "Demo.Generators.CustomGenerators.SemanticModel"
  const ATTRIBUTE_MARKER := "GenerateToStringV2Attribute"
  /** The metadata name the marker type is looked up by. */
  const MARKER_METADATA_NAME := GENERATOR_NAMESPACE + "." + ATTRIBUTE_MARKER

  const SEPARATOR := "; "
  const COUNT_PREFIX := "// Generation count: "
  const FOOTER := "\"; } // Closes the generated `ToString` method.\n}\n"

  /** The shape extracted from a marked class. */
  datatype ClassToGenerate = ClassToGenerate(namespaceName: string, className: string, propertyNames: seq<string>)

  // ---------------------------------------------------------------- filter

  /** The cheap structural test run on every syntax node. */
  predicate IsSyntaxTarget(node: SyntaxNode)
  {
    node.ClassNode? && |node.declaration.attributeLists| > 0
  }

  // ------------------------------------------------------ target resolution

  /** The name of a member when it is a public property. */
  function PublicPropertyName(member: MemberSymbol): Option<string>
  {
    if member.kind == Property && member.declaredAccessibility == Public then Some(member.name) else None
  }

  function PublicPropertyNames(members: seq<MemberSymbol>): seq<string>
  {
    FilterMap(members, PublicPropertyName)
  }

  /** `PublicPropertyNames` is exactly the names of the public properties, in
      member order: each name comes from a public property at a strictly later
      position than the one before, and no public property is skipped. */
  lemma PublicPropertyNamesInOrder(members: seq<MemberSymbol>)
    ensures var names := PublicPropertyNames(members);
            var idx := KeptIndices(members, PublicPropertyName);
            && |idx| == |names|
            && (forall k :: 0 <= k < |idx| ==>
                  && idx[k] < |members|
                  && members[idx[k]].kind == Property
                  && members[idx[k]].declaredAccessibility == Public
                  && members[idx[k]].name == names[k])
            && (forall k, l :: 0 <= k < l < |idx| ==> idx[k] < idx[l])
            && (forall i :: (0 <= i < |members| && members[i].kind == Property
                               && members[i].declaredAccessibility == Public) ==> i in idx)
  {
    var idx := KeptIndices(members, PublicPropertyName);
    forall i | 0 <= i < |members| && members[i].kind == Property && members[i].declaredAccessibility == Public
      ensures i in idx
    {
      assert PublicPropertyName(members[i]).Some?;
    }
  }

  /** The class is marked: its symbol and the marker symbol both resolve, and
      one of its attributes has exactly the marker symbol as its class. */
  predicate IsMarked(context: GeneratorSyntaxContext)
  {
    && context.declaredSymbol.Some?
    && GetTypeByMetadataName(context.compilation, MARKER_METADATA_NAME).Some?
    && Some(GetTypeByMetadataName(context.compilation, MARKER_METADATA_NAME).value)
         in context.declaredSymbol.value.attributeClasses
  }

  /** The structural filter loses no marked class: when the class symbol's
      attributes are the ones written on this declaration, a marked class has
      an attribute list. (A partial class whose marker sits on another of its
      declarations is reached through that declaration instead.) */
  lemma MarkedClassPassesFilter(context: GeneratorSyntaxContext)
    requires context.node.ClassNode?
    requires AttributesFromDeclaration(context)
    ensures IsMarked(context) ==> IsSyntaxTarget(context.node)
  {
    if context.node.declaration.attributeLists == [] && context.declaredSymbol.Some? {
      assert context.declaredSymbol.value.attributeClasses == [];
    }
  }

  method GetSemanticTarget(context: GeneratorSyntaxContext) returns (target: Option<ClassToGenerate>)
    requires context.node.ClassNode?
    ensures context.declaredSymbol.None? ==> target.None?
    ensures GetTypeByMetadataName(context.compilation, MARKER_METADATA_NAME).None? ==> target.None?
    ensures target.Some? <==> IsMarked(context)
    ensures target.Some? ==>
              var classSymbol := context.declaredSymbol.value;
              target.value == ClassToGenerate(classSymbol.containingNamespace, classSymbol.name,
                                              PublicPropertyNames(classSymbol.members))
  {
    var classSymbol := context.declaredSymbol;
    var attributeSymbol := GetTypeByMetadataName(context.compilation, MARKER_METADATA_NAME);
    if classSymbol.Some? && attributeSymbol.Some? {
      var attributes := classSymbol.value.attributeClasses;
      for a := 0 to |attributes|
        invariant forall k :: 0 <= k < a ==> attributes[k] != attributeSymbol
      {
        if attributes[a] == attributeSymbol {
          var namespaceName := classSymbol.value.containingNamespace;
          var className := classSymbol.value.name;
          var members := classSymbol.value.members;
          var propertyNames := [];
          for m := 0 to |members|
            invariant propertyNames == PublicPropertyNames(members[..m])
          {
            var memberSymbol := members[m];
            FilterMapSnoc(members[..m], memberSymbol, PublicPropertyName);
            assert members[..m + 1] == members[..m] + [memberSymbol];
            if memberSymbol.kind == Property && memberSymbol.declaredAccessibility == Public {
              propertyNames := propertyNames + [memberSymbol.name];
            }
          }
          assert members[..|members|] == members;
          return Some(ClassToGenerate(namespaceName, className, propertyNames));
        }
      }
    }
    return None;
  }

  // ---------------------------------------------------------------- marker

  function MarkerSource(): GeneratedSource
  {
    GeneratedSource(FileName(GENERATOR_NAMESPACE, ATTRIBUTE_MARKER), MarkerDeclaration(GENERATOR_NAMESPACE, ATTRIBUTE_MARKER))
  }

  /** Injects the marker type's declaration; it depends on no input. */
  method PostInitializationOutput(sink: SourceSink)
    modifies sink
    ensures sink.sources == old(sink.sources) + [MarkerSource()]
  {
    var fileName := FileName(GENERATOR_NAMESPACE, ATTRIBUTE_MARKER);
    var source := MarkerDeclaration(GENERATOR_NAMESPACE, ATTRIBUTE_MARKER);
    sink.AddSource(fileName, source);
  }

  /** The injected file is named after the very metadata name that
      `GetSemanticTarget` resolves, and declares that type in that namespace. */
  lemma MarkerSourceDeclaresLookedUpType()
    ensures MarkerSource().hintName == MARKER_METADATA_NAME + ".g.cs"
    ensures "namespace " + GENERATOR_NAMESPACE + ";\n" <= MarkerSource().text
    ensures EndsWith(MarkerSource().text, "internal class " + ATTRIBUTE_MARKER + " : System.Attribute { }")
  {
    MarkerDeclarationShape(GENERATOR_NAMESPACE, ATTRIBUTE_MARKER);
  }

  // ------------------------------------------------------------- rendering

  function Fragment(propertyName: string): string
  {
    propertyName + ":{" + propertyName + "}"
  }

  lemma FragmentHasNoSemicolon(propertyName: string)
    requires ';' !in propertyName
    ensures ';' !in Fragment(propertyName)
  {
  }

  /** One loop step of `GetContent`: appending the separator (except
      before the first property) and a fragment extends the body by one name. */
  lemma AppendFragment(prefix: string, propertyNames: seq<string>, propertyName: string)
    ensures prefix + Body(propertyNames + [propertyName])
         == if propertyNames == [] then prefix + Body(propertyNames) + Fragment(propertyName)
            else prefix + Body(propertyNames) + SEPARATOR + Fragment(propertyName)
  {
    BodySnoc(propertyNames, propertyName);
  }

  /** The interpolation body of the generated `ToString`. */
  function Body(propertyNames: seq<string>): string
  {
    Join(Map(propertyNames, Fragment), SEPARATOR)
  }

  function ClassHeader(namespaceName: string, className: string): string
  {
    NamespaceLine(namespaceName) + ClassOpening(className)
  }

  function NamespaceLine(namespaceName: string): string
  {
    "namespace " + namespaceName + ";"
  }

  function ClassOpening(className: string): string
  {
    "\n\npublic partial class " + className + "\n{\n    public override string ToString()\n    {\n        return $\""
  }

  function CountLine(count: Int32): string
  {
    COUNT_PREFIX + IntToString(count as int)
  }

  function Header(count: Int32, namespaceName: string, className: string): string
  {
    CountLine(count) + "\n" + ClassHeader(namespaceName, className)
  }

  function Content(count: Int32, namespaceName: string, className: string, propertyNames: seq<string>): string
  {
    Header(count, namespaceName, className) + Body(propertyNames) + FOOTER
  }

  lemma BodySnoc(propertyNames: seq<string>, propertyName: string)
    ensures Body(propertyNames + [propertyName])
         == if propertyNames == [] then Fragment(propertyName)
            else Body(propertyNames) + SEPARATOR + Fragment(propertyName)
  {
    MapSnoc(propertyNames, propertyName, Fragment);
    JoinSnoc(Map(propertyNames, Fragment), Fragment(propertyName), SEPARATOR);
  }

  /** No properties give an empty body, and only then. */
  lemma BodyEmpty(propertyNames: seq<string>)
    ensures Body(propertyNames) == "" <==> propertyNames == []
  {
    if propertyNames != [] {
      JoinBoundaries(Map(propertyNames, Fragment), SEPARATOR);
    }
  }

  /** The body starts with the first fragment and ends with the last one:
      no separator leads or trails. */
  lemma BodyBoundaries(propertyNames: seq<string>)
    requires propertyNames != []
    ensures Fragment(propertyNames[0]) <= Body(propertyNames)
    ensures EndsWith(Body(propertyNames), Fragment(propertyNames[|propertyNames| - 1]))
  {
    JoinBoundaries(Map(propertyNames, Fragment), SEPARATOR);
  }

  /** With `;`-free names, the body holds exactly one `;` per separator, that
      is one fewer than the number of properties. */
  lemma BodySeparators(propertyNames: seq<string>)
    requires forall k :: 0 <= k < |propertyNames| ==> ';' !in propertyNames[k]
    ensures Count(Body(propertyNames), ';') == if propertyNames == [] then 0 else |propertyNames| - 1
  {
    var fragments := Map(propertyNames, Fragment);
    forall k | 0 <= k < |fragments|
      ensures ';' !in fragments[k]
    {
      assert fragments[k] == Fragment(propertyNames[k]);
      FragmentHasNoSemicolon(propertyNames[k]);
    }
    JoinCount(fragments, SEPARATOR, ';');
    assert SEPARATOR == [';', ' '];
    CountPair(';', ' ', ';');
  }

  /** The first line of the content is the count line, and reading its
      number back gives exactly the count that was rendered. */
  lemma ContentEmbedsCount(count: Int32, namespaceName: string, className: string, propertyNames: seq<string>)
    ensures FirstLine(Content(count, namespaceName, className, propertyNames)) == CountLine(count)
    ensures var digits := FirstLine(Content(count, namespaceName, className, propertyNames))[|COUNT_PREFIX|..];
            IsIntegerText(digits) && ParseInt(digits) == count as int
  {
    var rest := "\n" + ClassHeader(namespaceName, className) + Body(propertyNames) + FOOTER;
    assert Content(count, namespaceName, className, propertyNames) == CountLine(count) + rest;
    IntToStringHasNoLineBreak(count as int);
    assert '\n' !in COUNT_PREFIX;
    FirstLineOfConcat(CountLine(count), rest);
    assert CountLine(count)[|COUNT_PREFIX|..] == IntToString(count as int);
    IntToStringRoundTrip(count as int);
  }

  // --------------------------------------------------------------- counter

  /** One generation of `fileName`: its count goes up by one (wrapping as a
      C# `int`), or starts at 1; every other entry stays as it was. */
  function Record(counts: map<string, Int32>, fileName: string): (updated: map<string, Int32>)
    ensures fileName in updated
    ensures updated[fileName] == if fileName in counts then UncheckedIncrement(counts[fileName]) else 1
    ensures forall other :: other != fileName ==>
              (other in updated <==> other in counts) && (other in counts ==> updated[other] == counts[other])
  {
    if fileName in counts
    then counts[fileName := UncheckedIncrement(counts[fileName])]
    else counts[fileName := 1]
  }

  /** The counter after generating `fileNames` in order, starting empty. */
  function Replay(fileNames: seq<string>): map<string, Int32>
    decreases |fileNames|
  {
    if fileNames == [] then map[]
    else Record(Replay(fileNames[..|fileNames| - 1]), fileNames[|fileNames| - 1])
  }

  /** The counter counts: below 2^31 generations, the entry for a file name is
      the number of times it was generated, and there is an entry exactly
      for the file names generated at least once. */
  lemma {:induction false} ReplayCountsGenerations(fileNames: seq<string>, fileName: string)
    requires Count(fileNames, fileName) <= INT32_MAX
    ensures fileName in Replay(fileNames) <==> fileName in fileNames
    ensures fileName in fileNames ==> Replay(fileNames)[fileName] as int == Count(fileNames, fileName)
    decreases |fileNames|
  {
    if fileNames != [] {
      var init := fileNames[..|fileNames| - 1];
      var last := fileNames[|fileNames| - 1];
      assert fileNames == init + [last];
      ReplayCountsGenerations(init, fileName);
    }
  }

  /** The count a generation stores, and embeds in its content, is one more
      than the number of earlier generations of that file name, so at least 1
      while that number stays below `int.MaxValue`. */
  lemma GenerationCountIsPositive(generated: seq<string>, fileName: string)
    requires Count(generated, fileName) < INT32_MAX
    ensures Replay(generated + [fileName])[fileName] as int == Count(generated, fileName) + 1 >= 1
  {
    var after := generated + [fileName];
    assert after[..|after| - 1] == generated;
    CountAppend(generated, [fileName], fileName);
    assert Count([fileName], fileName) == 1 by {
      assert [fileName][..0] == [];
    }
    ReplayCountsGenerations(after, fileName);
  }

  /** As written, the count wraps: the generation after `int.MaxValue`
      embeds `int.MinValue`. */
  lemma CountWrapsAtMaxValue(counts: map<string, Int32>, fileName: string)
    requires fileName in counts && counts[fileName] as int == INT32_MAX
    ensures Record(counts, fileName)[fileName] as int == INT32_MIN
  {
  }

  /** The process-wide state of the generator: `_countPerFileName`. The ghost
      `generated` is every file name generated so far, in order. */
  class Generator {
    var countPerFileName: map<string, Int32>
    ghost var generated: seq<string>

    ghost predicate Valid()
      reads this
    {
      countPerFileName == Replay(generated)
    }

    /** Process start: the counter is empty. */
    constructor ()
      ensures Valid() && generated == [] && countPerFileName == map[]
    {
      countPerFileName := map[];
      generated := [];
    }

    /** Renders one target. The content embeds the count for `fileName`,
        which the caller has just stored. */
    method GetContent(namespaceName: string, className: string, fileName: string,
                      classToGenerate: ClassToGenerate) returns (content: string)
      requires fileName in countPerFileName
      ensures content == Content(countPerFileName[fileName], namespaceName, className,
                                 classToGenerate.propertyNames)
    {
      var count := countPerFileName[fileName];
      var header := Header(count, namespaceName, className);
      var stringBuilder := header;
      var first := true;
      var propertyNames := classToGenerate.propertyNames;
      for i := 0 to |propertyNames|
        invariant first <==> i == 0
        invariant stringBuilder == header + Body(propertyNames[..i])
      {
        var propertyName := propertyNames[i];
        assert propertyNames[..i + 1] == propertyNames[..i] + [propertyName];
        AppendFragment(header, propertyNames[..i], propertyName);
        if !first {
          stringBuilder := stringBuilder + SEPARATOR;
        }
        first := false;
        stringBuilder := stringBuilder + Fragment(propertyName);
      }
      assert propertyNames[..|propertyNames|] == propertyNames;
      stringBuilder := stringBuilder + FOOTER;
      return stringBuilder;
    }

    /** Generates one file for a target and counts it; an absent target
        changes nothing. */
    method Execute(sink: SourceSink, classToGenerate: Option<ClassToGenerate>)
      requires Valid()
      modifies this, sink
      ensures Valid()
      ensures classToGenerate.None? ==>
                && countPerFileName == old(countPerFileName)
                && generated == old(generated)
                && sink.sources == old(sink.sources)
      ensures classToGenerate.Some? ==>
                var target := classToGenerate.value;
                var fileName := FileName(target.namespaceName, target.className);
                && generated == old(generated) + [fileName]
                && countPerFileName == Record(old(countPerFileName), fileName)
                && sink.sources == old(sink.sources)
                   + [GeneratedSource(fileName, Content(countPerFileName[fileName], target.namespaceName,
                                                        target.className, target.propertyNames))]
    {
      if classToGenerate.None? {
        return;
      }
      var namespaceName := classToGenerate.value.namespaceName;
      var className := classToGenerate.value.className;
      var fileName := FileName(namespaceName, className);

      if fileName in countPerFileName {
        countPerFileName := countPerFileName[fileName := UncheckedIncrement(countPerFileName[fileName])];
      } else {
        countPerFileName := countPerFileName[fileName := 1];
      }
      assert (generated + [fileName])[..|generated|] == generated;
      generated := generated + [fileName];

      var content := GetContent(namespaceName, className, fileName, classToGenerate.value);
      sink.AddSource(fileName, content);
    }
  }

  // --------------------------------------------------------------- example

  /** A sample member list built on the properties of the demo's `Person`,
      with a private property and a method mixed in: only the two public
      properties are extracted. */
  lemma PersonPropertyNames()
    ensures var members := [MemberSymbol(Property, Public, "FirstName"),
                            MemberSymbol(Property, Private, "MiddleName"),
                            MemberSymbol(Property, Public, "LastName"),
                            MemberSymbol(Method, Public, "ToString")];
            PublicPropertyNames(members) == ["FirstName", "LastName"]
  {
    var first := MemberSymbol(Property, Public, "FirstName");
    var middle := MemberSymbol(Property, Private, "MiddleName");
    var last := MemberSymbol(Property, Public, "LastName");
    var toString := MemberSymbol(Method, Public, "ToString");
    FilterMapSnoc([], first, PublicPropertyName);
    assert [] + [first] == [first];
    FilterMapSnoc([first], middle, PublicPropertyName);
    assert [first] + [middle] == [first, middle];
    FilterMapSnoc([first, middle], last, PublicPropertyName);
    assert [first, middle] + [last] == [first, middle, last];
    FilterMapSnoc([first, middle, last], toString, PublicPropertyName);
    assert [first, middle, last] + [toString] == [first, middle, last, toString];
  }

  /** For the names `FirstName` and `LastName`, the body equals the
      interpolation that `Person`'s hand-written `ToString` returns; a class
      `Person` in `Demo.ConsoleApp.Model` would get the file shown. */
  lemma PersonRendering()
    ensures FileName("Demo.ConsoleApp.Model", "Person") == "Demo.ConsoleApp.Model.Person.g.cs"
    ensures Body(["FirstName", "LastName"]) == "FirstName:{FirstName}; LastName:{LastName}"
  {
    var fragments := Map(["FirstName", "LastName"], Fragment);
    assert fragments[0] == Fragment("FirstName") == "FirstName:{FirstName}";
    assert fragments[1] == Fragment("LastName") == "LastName:{LastName}";
    assert fragments[1..] == ["LastName:{LastName}"];
    assert Join(fragments[1..], SEPARATOR) == "LastName:{LastName}";
    assert Join(fragments, SEPARATOR) == fragments[0] + SEPARATOR + Join(fragments[1..], SEPARATOR);
  }
}
