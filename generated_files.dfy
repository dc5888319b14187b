/** The output side: named generated sources, the sink `AddSource` appends to,
    and the `{namespace}.{class}.g.cs` naming both generators use. */
module GeneratedFiles {

  import opened Text

  datatype GeneratedSource = GeneratedSource(hintName: string, text: string)

  /** The sources added during one generation run, in the order they were
      added. Adding does not check for an existing hint name. */
  class SourceSink {
    var sources: seq<GeneratedSource>

    constructor ()
      ensures sources == []
    {
      sources := [];
    }

    method AddSource(hintName: string, source: string)
      modifies this
      ensures sources == old(sources) + [GeneratedSource(hintName, source)]
    {
      sources := sources + [GeneratedSource(hintName, source)];
    }
  }

  function FileName(namespaceName: string, className: string): string
  {
    namespaceName + "." + className + ".g.cs"
  }

  /** The declaration of a marker attribute type, as both generators inject it. */
  function MarkerDeclaration(namespaceName: string, markerName: string): string
  {
    "namespace " + namespaceName + ";\n\ninternal class " + markerName + " : System.Attribute { }"
  }

  /** The marker declaration opens with its namespace line and ends with the
      declaration of the attribute class. */
  lemma MarkerDeclarationShape(namespaceName: string, markerName: string)
    ensures "namespace " + namespaceName + ";\n" <= MarkerDeclaration(namespaceName, markerName)
    ensures EndsWith(MarkerDeclaration(namespaceName, markerName),
                     "internal class " + markerName + " : System.Attribute { }")
  {
    var line := "namespace " + namespaceName + ";\n";
    var declaration := "internal class " + markerName + " : System.Attribute { }";
    assert MarkerDeclaration(namespaceName, markerName) == line + ("\n" + declaration);
    PrefixOfConcat(line, "\n" + declaration);
    assert MarkerDeclaration(namespaceName, markerName) == (line + "\n") + declaration;
    EndsWithConcat(line + "\n", declaration);
  }

  /** The text after the last dot (all of it when there is none). */
  function AfterLastDot(s: string): (tail: string)
    ensures '.' !in tail
    ensures EndsWith(s, tail)
    decreases |s|
  {
    if s == [] || s[|s| - 1] == '.' then ""
    else AfterLastDot(s[..|s| - 1]) + [s[|s| - 1]]
  }

  lemma {:induction false} AfterLastDotOf(prefix: string, name: string)
    requires '.' !in name
    ensures AfterLastDot(prefix + "." + name) == name
    decreases |name|
  {
    if name != [] {
      var init := name[..|name| - 1];
      assert (prefix + "." + name)[..|prefix + "." + name| - 1] == prefix + "." + init;
      AfterLastDotOf(prefix, init);
      assert init + [name[|name| - 1]] == name;
    }
  }

  /** A class name never contains a dot, so the file name determines the
      namespace and the class name it was made from: different (namespace,
      class name) pairs never share a file name. Two classes that report the
      same pair (nested classes, generic arities) still do. */
  lemma FileNameInjective(ns1: string, cls1: string, ns2: string, cls2: string)
    requires '.' !in cls1 && '.' !in cls2
    requires FileName(ns1, cls1) == FileName(ns2, cls2)
    ensures ns1 == ns2 && cls1 == cls2
  {
    var stem1 := ns1 + "." + cls1;
    var stem2 := ns2 + "." + cls2;
    var f := FileName(ns1, cls1);
    assert f == stem1 + ".g.cs" && FileName(ns2, cls2) == stem2 + ".g.cs";
    assert stem1 == f[..|f| - 5] == stem2;
    AfterLastDotOf(ns1, cls1);
    AfterLastDotOf(ns2, cls2);
    assert ns1 == stem1[..|ns1|];
    assert ns2 == stem2[..|ns2|];
  }
}
