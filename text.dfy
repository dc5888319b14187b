/** Text assembly: joining fragments with a separator (what a StringBuilder
    loop with a `first` flag produces) and reading the first line of a text. */
module Text {

  import opened Seqs

  /** The parts with `separator` between neighbours and nowhere else. */
  function Join(parts: seq<string>, separator: string): string
    decreases |parts|
  {
    if parts == [] then ""
    else if |parts| == 1 then parts[0]
    else parts[0] + separator + Join(parts[1..], separator)
  }

  predicate EndsWith(s: string, suffix: string)
  {
    |suffix| <= |s| && s[|s| - |suffix|..] == suffix
  }

  lemma EndsWithConcat(s: string, suffix: string)
    ensures EndsWith(s + suffix, suffix)
  {
    assert (s + suffix)[|s|..] == suffix;
  }

  /** Appending one part: the separator goes in only when something precedes
      it. This is the step of the `first`-flag loop. */
  lemma {:induction false} JoinSnoc(parts: seq<string>, last: string, separator: string)
    ensures Join(parts + [last], separator)
         == if parts == [] then last else Join(parts, separator) + separator + last
    decreases |parts|
  {
    if parts == [] {
      assert parts + [last] == [last];
    } else if |parts| == 1 {
      assert parts + [last] == [parts[0], last];
      assert [parts[0], last][1..] == [last];
    } else {
      assert (parts + [last])[1..] == parts[1..] + [last];
      JoinSnoc(parts[1..], last, separator);
      assert Join(parts + [last], separator)
          == parts[0] + separator + (Join(parts[1..], separator) + separator + last);
    }
  }

  lemma PrefixOfConcat(s: string, rest: string)
    ensures s <= s + rest
  {
    assert (s + rest)[..|s|] == s;
  }

  /** A non-empty join starts with the first part and ends with the last one:
      there is no leading and no trailing separator. */
  lemma JoinBoundaries(parts: seq<string>, separator: string)
    requires parts != []
    ensures parts[0] <= Join(parts, separator)
    ensures EndsWith(Join(parts, separator), parts[|parts| - 1])
  {
    var n := |parts|;
    if n > 1 {
      assert parts[0] <= Join(parts, separator) by {
        var rest := separator + Join(parts[1..], separator);
        assert Join(parts, separator) == parts[0] + rest;
        PrefixOfConcat(parts[0], rest);
      }
      assert EndsWith(Join(parts, separator), parts[n - 1]) by {
        var init := parts[..n - 1];
        assert init + [parts[n - 1]] == parts;
        JoinSnoc(init, parts[n - 1], separator);
        EndsWithConcat(Join(init, separator) + separator, parts[n - 1]);
      }
    } else {
      assert Join(parts, separator) == parts[0];
      assert parts[0][0..] == parts[0];
    }
  }

  /** When no part contains `c`, every `c` of the join comes from a
      separator: there are exactly `|parts| - 1` separators. */
  lemma {:induction false} JoinCount(parts: seq<string>, separator: string, c: char)
    requires forall k :: 0 <= k < |parts| ==> c !in parts[k]
    ensures Count(Join(parts, separator), c)
         == if parts == [] then 0 else (|parts| - 1) * Count(separator, c)
    decreases |parts|
  {
    if |parts| == 1 {
      assert c !in parts[0];
    } else if |parts| > 1 {
      var n := |parts| - 1;
      var perSeparator := Count(separator, c);
      var head := parts[0] + separator;
      var rest := Join(parts[1..], separator);
      assert c !in parts[0];
      JoinCount(parts[1..], separator, c);
      CountAppend(parts[0], separator, c);
      CountAppend(head, rest, c);
      assert Join(parts, separator) == head + rest;
      assert Count(head, c) == perSeparator;
      assert Count(rest, c) == (n - 1) * perSeparator;
      MulStep(n, perSeparator);
    }
  }

  lemma CountPair(a: char, b: char, c: char)
    ensures Count([a, b], c) == (if a == c then 1 else 0) + (if b == c then 1 else 0)
  {
    assert [a, b][..1] == [a];
    assert [a][..0] == [];
  }

  lemma MulStep(n: int, k: int)
    ensures k + (n - 1) * k == n * k
  {
  }

  /** The text before the first line break (all of it when there is none). */
  function FirstLine(s: string): (line: string)
    ensures line <= s && '\n' !in line
    ensures |line| < |s| ==> s[|line|] == '\n'
    decreases |s|
  {
    if s == [] || s[0] == '\n' then ""
    else [s[0]] + FirstLine(s[1..])
  }

  lemma {:induction false} FirstLineOfConcat(line: string, rest: string)
    requires '\n' !in line
    requires rest != [] && rest[0] == '\n'
    ensures FirstLine(line + rest) == line
    decreases |line|
  {
    if line != [] {
      assert (line + rest)[1..] == line[1..] + rest;
      FirstLineOfConcat(line[1..], rest);
      assert [line[0]] + line[1..] == line;
    }
  }
}
