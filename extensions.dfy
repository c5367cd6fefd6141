/**
 * The extension classifier of the content script: a file name's extension
 * runs from its last '.' to the end, lower-cased, and counts only when that
 * dot is not the first character. A name is renamed when its extension is
 * one of the fixed supported extensions.
 */
module Extensions {
  import opened Strings

  /**
   * The fixed list of supported extensions (34 entries). The content
   * script holds it as a Set, the settings popup as an array with the same
   * entries in the same order.
   */
  const Supported: seq<string> := [
    ".py", ".js", ".ts", ".cpp", ".c", ".cs", ".java", ".go", ".php", ".rs", ".md",
    ".json", ".yml", ".yaml", ".html", ".css", ".sh", ".bat", ".pl", ".rb", ".jsx",
    ".tsx", ".vue", ".svelte", ".dart", ".kt", ".swift", ".r", ".sql", ".xml",
    ".toml", ".ini", ".cfg", ".conf"
  ]

  /** The lower-cased extension of `name`, or "" when it has none. */
  function Extension(name: string): string
  {
    var dot := LastIndexOf(name, '.');
    if dot > 0 then Lower(name[dot..]) else ""
  }

  /** True when the content script renames a file called `name`. */
  predicate IsSupported(name: string)
  {
    var ext := Extension(name);
    ext != "" && ext in Supported
  }

  /** ".txt", the extension every renamed file gets, is not supported. */
  lemma TxtNotSupported()
    ensures ".txt" !in Supported
  {
  }

  /** A name has an extension exactly when it holds a '.' after its first character. */
  lemma ExtensionExists(name: string)
    ensures Extension(name) != "" <==> exists k :: 0 < k < |name| && name[k] == '.'
  {
    var dot := LastIndexOf(name, '.');
    LastIndexOfSpec(name, '.');
    if dot > 0 {
      LowerSpec(name[dot..]);
    }
    if exists k :: 0 < k < |name| && name[k] == '.' {
      var k :| 0 < k < |name| && name[k] == '.';
      assert dot >= k;
      assert |Lower(name[dot..])| > 0;
    }
  }

  /**
   * An extension is the lower-cased suffix of the name that starts at its
   * last '.', after the first character, and holds no other '.'.
   */
  lemma ExtensionSuffix(name: string)
    requires Extension(name) != ""
    ensures var e := Extension(name);
      var k := |name| - |e|;
      0 < k && e == Lower(name[k..]) && e[0] == '.' && '.' !in e[1..]
  {
    var dot := LastIndexOf(name, '.');
    var e := Extension(name);
    LastIndexOfSpec(name, '.');
    LowerSpec(name[dot..]);
    assert dot > 0 && e == Lower(name[dot..]);
    assert |e| == |name| - dot;
    assert e[0] == LowerChar(name[dot]);
    forall i | 1 <= i < |e| ensures e[i] != '.' {
      assert e[i] == LowerChar(name[dot + i]) && name[dot + i] != '.';
    }
  }

  /** A name without a dot, or whose only dot is its first character, is never renamed. */
  lemma NoQualifyingDotNeverSupported(name: string)
    requires forall k :: 0 < k < |name| ==> name[k] != '.'
    ensures Extension(name) == "" && !IsSupported(name)
  {
    ExtensionExists(name);
  }

  /** Classification ignores letter case: `c.CPP` is treated like `c.cpp`. */
  lemma SupportedIgnoresCase(name: string)
    ensures Extension(Lower(name)) == Extension(name)
    ensures IsSupported(Lower(name)) == IsSupported(name)
  {
    LastDotOfLower(name);
    var dot := LastIndexOf(name, '.');
    if dot > 0 {
      LowerSlice(name, dot);
      LowerIsLowerCase(name[dot..]);
    }
  }

  /** Any base followed by ".txt" is not renamed again. */
  lemma TxtNameNotSupported(base: string)
    ensures !IsSupported(base + ".txt")
  {
    var n := base + ".txt";
    assert n[|base|] == '.' && n[|base| + 1..] == "txt";
    LastIndexOfIs(n, '.', |base|);
    if |base| > 0 {
      assert n[|base|..] == ".txt";
      assert Extension(n) == Lower(".txt") == ".txt";
      TxtNotSupported();
    }
  }
}
