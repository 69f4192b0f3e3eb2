/**
 * The DN normaliser `_preprocess_dn` of `ozpcenter/auth/pkiauth.py`.
 *
 * OpenSSL and nginx print a certificate's distinguished name root first and
 * slash separated (`/C=US/O=Example/CN=Jane Doe`); the application stores it
 * leaf first and comma separated (`CN=Jane Doe, O=Example, C=US`). The
 * normaliser drops one leading `/`, splits on `/`, reverses the components,
 * joins them with `", "` and finally puts a space after every comma that is
 * directly followed by a word character.
 */
module DnNormalizer {
  import opened Text

  /** `s.split(sep)`: never empty; `k` separators give `k + 1` parts, none holding `sep`. */
  function Split(s: string, sep: char): (parts: seq<string>)
    ensures |parts| >= 1
    ensures forall i :: 0 <= i < |parts| ==> sep !in parts[i]
  {
    if s == [] then [""]
    else
      var rest := Split(s[1..], sep);
      if s[0] == sep then [""] + rest
      else [[s[0]] + rest[0]] + rest[1..]
  }

  /** `sep.join(parts)`: every character comes from the separator or from one of the parts. */
  function Join(parts: seq<string>, sep: string): (r: string)
    ensures forall c :: c in r ==> c in sep || exists i :: 0 <= i < |parts| && c in parts[i]
  {
    if |parts| == 0 then ""
    else if |parts| == 1 then parts[0]
    else
      var rest := Join(parts[1..], sep);
      assert forall c :: c in rest && c !in sep ==> exists i :: 1 <= i < |parts| && c in parts[i] by {
        forall c | c in rest && c !in sep ensures exists i :: 1 <= i < |parts| && c in parts[i] {
          var j :| 0 <= j < |parts[1..]| && c in parts[1..][j];
          assert c in parts[j + 1];
        }
      }
      parts[0] + sep + rest
  }

  /** The slice `xs[::-1]`. */
  function Reverse<T>(xs: seq<T>): (r: seq<T>)
    ensures |r| == |xs|
    ensures forall i :: 0 <= i < |xs| ==> r[i] == xs[|xs| - 1 - i]
  {
    if xs == [] then [] else Reverse(xs[1..]) + [xs[0]]
  }

  /** No comma in `s` is immediately followed by a word character. */
  predicate NoCommaBeforeWord(s: string) {
    forall i :: 0 <= i < |s| - 1 && s[i] == ',' ==> !IsWordChar(s[i + 1])
  }

  /**
   * `re.sub(r'(,)([\w])', r'\1 \2', s)`. Matches are found left to right and
   * do not overlap: a match consumes the comma and the word character after it.
   */
  function SpaceAfterComma(s: string): (r: string)
    ensures NoCommaBeforeWord(r)
    ensures forall c :: c in r ==> c in s || c == ' '
    ensures |s| > 0 ==> |r| > 0 && r[0] == s[0]
    decreases |s|
  {
    if |s| < 2 then s
    else if s[0] == ',' && IsWordChar(s[1]) then ", " + [s[1]] + SpaceAfterComma(s[2..])
    else [s[0]] + SpaceAfterComma(s[1..])
  }

  /** The regex has a match at `i`: a comma followed by a word character. */
  predicate MatchAt(s: string, i: nat) {
    i + 1 < |s| && s[i] == ',' && IsWordChar(s[i + 1])
  }

  /**
   * Reference form of the substitution, position by position: every character
   * of `s` is kept in order, and a single space follows each matched comma.
   */
  function SpacedAfterMatches(s: string): string {
    if s == [] then []
    else [s[0]] + (if MatchAt(s, 0) then " " else "") + SpacedAfterMatches(s[1..])
  }

  /** `_preprocess_dn(original_dn)`. */
  function PreprocessDn(dn: string): (r: string)
    ensures '/' !in r
    ensures NoCommaBeforeWord(r)
    ensures dn == "" ==> r == ""
  {
    var stripped := if dn[..if |dn| < 1 then |dn| else 1] == "/" then dn[1..] else dn;
    var parts := Reverse(Split(stripped, '/'));
    SpaceAfterComma(Join(parts, ", "))
  }

  lemma {:induction false} SplitAvoiding(a: string, sep: char)
    requires sep !in a
    ensures Split(a, sep) == [a]
  {
    if a != [] {
      assert a[0] in a && a == [a[0]] + a[1..];
      SplitAvoiding(a[1..], sep);
    }
  }

  /** Splitting keeps the parts in their order: the text before the first separator is the first part. */
  lemma {:induction false} SplitAppend(a: string, b: string, sep: char)
    requires sep !in a
    ensures Split(a + [sep] + b, sep) == [a] + Split(b, sep)
  {
    if a == [] {
      assert (a + [sep] + b)[1..] == b;
    } else {
      assert a[0] in a && a == [a[0]] + a[1..];
      SplitAppend(a[1..], b, sep);
      assert (a + [sep] + b)[1..] == a[1..] + [sep] + b;
    }
  }

  /**
   * Joining keeps the parts in their order: one more part at the end is
   * appended after one more separator, whatever the separator is.
   */
  lemma {:induction false} JoinAppend(parts: seq<string>, x: string, sep: string)
    requires |parts| >= 1
    ensures Join(parts + [x], sep) == Join(parts, sep) + sep + x
  {
    assert (parts + [x])[0] == parts[0];
    if |parts| == 1 {
      assert (parts + [x])[1..] == [x];
    } else {
      assert (parts + [x])[1..] == parts[1..] + [x];
      JoinAppend(parts[1..], x, sep);
    }
  }

  /** Splitting on a separator and joining again with it gives back the string. */
  lemma {:induction false} JoinSplit(s: string, sep: char)
    ensures Join(Split(s, sep), [sep]) == s
  {
    if s != [] {
      JoinSplit(s[1..], sep);
      var rest := Split(s[1..], sep);
      if s[0] == sep {
        assert ([""] + rest)[1..] == rest;
      } else {
        var parts := [[s[0]] + rest[0]] + rest[1..];
        if |rest| > 1 {
          assert parts[1..] == rest[1..];
        }
      }
    }
  }

  /** Joining parts that do not contain the separator and splitting again gives back the parts. */
  lemma {:induction false} SplitJoin(parts: seq<string>, sep: char)
    requires |parts| >= 1
    requires forall i :: 0 <= i < |parts| ==> sep !in parts[i]
    ensures Split(Join(parts, [sep]), sep) == parts
  {
    if |parts| == 1 {
      SplitAvoiding(parts[0], sep);
    } else {
      SplitJoin(parts[1..], sep);
      SplitAppend(parts[0], Join(parts[1..], [sep]), sep);
      assert parts == [parts[0]] + parts[1..];
    }
  }

  lemma CleanConcat(a: string, b: string)
    requires NoCommaBeforeWord(a) && NoCommaBeforeWord(b)
    ensures NoCommaBeforeWord(a + ", " + b)
  {
    var s := a + ", " + b;
    forall i | 0 <= i < |s| - 1 && s[i] == ','
      ensures !IsWordChar(s[i + 1])
    {
      if i + 1 < |a| {
        assert s[i] == a[i] && s[i + 1] == a[i + 1];
      } else if i >= |a| + 2 {
        assert s[i] == b[i - |a| - 2] && s[i + 1] == b[i - |a| - 1];
      }
    }
  }

  /** Components without a comma before a word character stay so once joined with `", "`. */
  lemma {:induction false} JoinClean(parts: seq<string>)
    requires forall i :: 0 <= i < |parts| ==> NoCommaBeforeWord(parts[i])
    ensures NoCommaBeforeWord(Join(parts, ", "))
  {
    if |parts| > 1 {
      JoinClean(parts[1..]);
      CleanConcat(parts[0], Join(parts[1..], ", "));
    }
  }

  /** The regex substitution changes nothing exactly when no comma is followed by a word character. */
  lemma {:induction false} SpaceAfterCommaFixpoint(s: string)
    ensures SpaceAfterComma(s) == s <==> NoCommaBeforeWord(s)
  {
    if |s| >= 2 && NoCommaBeforeWord(s) {
      assert !(s[0] == ',' && IsWordChar(s[1]));
      assert NoCommaBeforeWord(s[1..]) by {
        forall i | 0 <= i < |s[1..]| - 1 && s[1..][i] == ','
          ensures !IsWordChar(s[1..][i + 1])
        {
          assert s[i + 1] == ',';
        }
      }
      SpaceAfterCommaFixpoint(s[1..]);
      assert s == [s[0]] + s[1..];
    }
  }

  /**
   * The substitution puts exactly one space after every comma that is followed
   * by a word character and changes nothing else; the input's own spaces stay
   * where they are. (The non-overlapping scan misses no match, because a
   * matched word character is never a comma.)
   */
  lemma {:induction false} SpaceAfterCommaPlacesSpaces(s: string)
    ensures SpaceAfterComma(s) == SpacedAfterMatches(s)
  {
    if |s| == 1 {
      assert s[1..] == [];
    } else if |s| >= 2 {
      if MatchAt(s, 0) {
        SpaceAfterCommaPlacesSpaces(s[2..]);
        assert !MatchAt(s[1..], 0);
        assert s[1..][1..] == s[2..];
        assert SpacedAfterMatches(s[1..]) == [s[1]] + "" + SpacedAfterMatches(s[2..]);
      } else {
        SpaceAfterCommaPlacesSpaces(s[1..]);
      }
    }
  }

  /** The substitution only inserts spaces: every other character is kept, in order. */
  lemma {:induction false} SpaceAfterCommaOnlyInsertsSpaces(s: string)
    ensures RemoveChar(SpaceAfterComma(s), ' ') == RemoveChar(s, ' ')
  {
    if |s| >= 2 {
      if s[0] == ',' && IsWordChar(s[1]) {
        var rest := SpaceAfterComma(s[2..]);
        assert SpaceAfterComma(s) == [s[0]] + ([' '] + ([s[1]] + rest));
        assert s == [s[0]] + ([s[1]] + s[2..]);
        SpaceAfterCommaOnlyInsertsSpaces(s[2..]);
        RemoveCharKeeps(s[0], ' ');
        RemoveCharKeeps(s[1], ' ');
        RemoveCharConcat([s[1]], rest, ' ');
        RemoveCharConcat([s[1]], s[2..], ' ');
        RemoveCharConcat([' '], [s[1]] + rest, ' ');
        assert RemoveChar([' '], ' ') == [];
        RemoveCharConcat([s[0]], [' '] + ([s[1]] + rest), ' ');
        RemoveCharConcat([s[0]], [s[1]] + s[2..], ' ');
      } else {
        SpaceAfterCommaOnlyInsertsSpaces(s[1..]);
        RemoveCharConcat([s[0]], SpaceAfterComma(s[1..]), ' ');
        RemoveCharConcat([s[0]], s[1..], ' ');
        assert s == [s[0]] + s[1..];
      }
    }
  }

  /**
   * The normaliser on the form OpenSSL prints: a leading `/` and then the
   * components root first. When no component holds a `/` or a comma directly
   * followed by a word character, the result is exactly the components in
   * reverse order joined by `", "`.
   */
  lemma PreprocessDnReversesComponents(parts: seq<string>)
    requires |parts| >= 1
    requires forall i :: 0 <= i < |parts| ==> '/' !in parts[i] && NoCommaBeforeWord(parts[i])
    ensures PreprocessDn("/" + Join(parts, "/")) == Join(Reverse(parts), ", ")
  {
    var dn := "/" + Join(parts, "/");
    assert dn[..1] == "/" && dn[1..] == Join(parts, "/");
    SplitJoin(parts, '/');
    JoinClean(Reverse(parts));
    SpaceAfterCommaFixpoint(Join(Reverse(parts), ", "));
  }

  /** A DN with no `/` keeps its text; only the spacing after commas is normalised. */
  lemma PreprocessDnWithoutSlash(dn: string)
    requires '/' !in dn
    ensures PreprocessDn(dn) == SpaceAfterComma(dn)
  {
    SplitAvoiding(dn, '/');
    if |dn| > 0 {
      assert dn[..1] != "/" by {
        assert dn[0] in dn;
      }
    }
  }

  lemma NoCommaIsClean(s: string)
    requires ',' !in s
    ensures NoCommaBeforeWord(s)
  {
  }

  lemma JoinThree(a: string, b: string, c: string, sep: string)
    ensures Join([a, b, c], sep) == a + sep + b + sep + c
  {
    assert [a, b, c][1..] == [b, c] && [b, c][1..] == [c];
    assert Join([c], sep) == c;
    assert Join([b, c], sep) == b + sep + c;
  }

  /** The three-component case, spelled out. */
  lemma PreprocessDnThreeComponents(a: string, b: string, c: string)
    requires '/' !in a && '/' !in b && '/' !in c
    requires ',' !in a && ',' !in b && ',' !in c
    ensures PreprocessDn("/" + a + "/" + b + "/" + c) == c + ", " + b + ", " + a
  {
    NoCommaIsClean(a);
    NoCommaIsClean(b);
    NoCommaIsClean(c);
    JoinThree(a, b, c, "/");
    JoinThree(c, b, a, ", ");
    PreprocessDnReversesComponents([a, b, c]);
    assert Reverse([a, b, c]) == [c, b, a];
    assert "/" + a + "/" + b + "/" + c == "/" + (a + "/" + b + "/" + c);
  }

  /** A leading `/` is dropped before splitting: with or without it the result is the same. */
  lemma PreprocessDnLeadingSlash(s: string)
    requires |s| == 0 || s[0] != '/'
    ensures PreprocessDn("/" + s) == PreprocessDn(s)
  {
    assert ("/" + s)[..1] == "/" && ("/" + s)[1..] == s;
    assert |s| > 0 ==> s[..1] != "/" by {
      if |s| > 0 {
        assert s[..1][0] == s[0];
      }
    }
  }

}

/** The normaliser's result on concrete DNs, proved. */
module DnNormalizerExamples {
  import opened Text
  import opened DnNormalizer

  /** The example an OpenSSL test certificate gives. */
  lemma PreprocessDnExample()
    ensures PreprocessDn("/CN=Jane Doe/OU=Org/O=Example") == "O=Example, OU=Org, CN=Jane Doe"
  {
    ExampleSpelledOut();
    PreprocessDnThreeComponents("CN=Jane Doe", "OU=Org", "O=Example");
  }

  /** The example's input and output, as their components and separators. */
  lemma ExampleSpelledOut()
    ensures "/CN=Jane Doe/OU=Org/O=Example" == "/" + "CN=Jane Doe" + "/" + "OU=Org" + "/" + "O=Example"
    ensures "O=Example, OU=Org, CN=Jane Doe" == "O=Example" + ", " + "OU=Org" + ", " + "CN=Jane Doe"
  {
  }

  /** Only one leading `/` is removed: a second one starts an empty first component, which ends up last. */
  lemma PreprocessDnStripsOneSlash()
    ensures PreprocessDn("//CN=Jane") == "CN=Jane, "
  {
    var parts := ["", "CN=Jane"];
    assert Join(parts, "/") == "" + "/" + Join(parts[1..], "/");
    assert parts[1..] == ["CN=Jane"];
    NoCommaIsClean("");
    NoCommaIsClean("CN=Jane");
    PreprocessDnReversesComponents(parts);
    var rev := Reverse(parts);
    assert rev == ["CN=Jane", ""] && rev[1..] == [""];
    calc {
      PreprocessDn("//CN=Jane");
      { assert "//CN=Jane" == "/" + Join(parts, "/"); }
      PreprocessDn("/" + Join(parts, "/"));
      Join(rev, ", ");
      "CN=Jane" + ", " + "";
      "CN=Jane, ";
    }
  }
}
