/**
 * Files as the content script sees them, and `renameFileToTxt`: a copy of
 * the file whose name has its extension replaced by ".txt", with the same
 * content and modification time and the media type "text/plain".
 */
module Files {
  import opened Strings
  import opened Extensions

  newtype byte = x: int | 0 <= x < 256

  /** A browser File: its bytes, name, `lastModified` time (ms) and `type`. */
  datatype File = File(content: seq<byte>, name: string, lastModified: int, mediaType: string)

  /** The name without its extension: up to the last '.', or all of it when that dot is absent or first. */
  function BaseName(name: string): string
  {
    var dot := LastIndexOf(name, '.');
    if dot > 0 then name[..dot] else name
  }

  /**
   * The base name is a prefix of the name: the whole name, or the part
   * before a '.' that is not the first character and after which no '.'
   * follows. It is a proper prefix exactly when the name holds a '.' after
   * its first character.
   */
  lemma BaseNameSpec(name: string)
    ensures BaseName(name) <= name
    ensures var r := BaseName(name);
      r == name || (0 < |r| < |name| && name[|r|] == '.' && '.' !in name[|r| + 1..])
    ensures (exists k :: 0 < k < |name| && name[k] == '.') <==> BaseName(name) != name
  {
    LastIndexOfSpec(name, '.');
    ExtensionExists(name);
    if LastIndexOf(name, '.') > 0 {
      assert |BaseName(name)| < |name|;
    }
  }

  /** `renameFileToTxt`. */
  function RenameFileToTxt(f: File): File
  {
    File(f.content, BaseName(f.name) + ".txt", f.lastModified, "text/plain")
  }

  /**
   * The renamed file keeps the content and `lastModified` time, becomes
   * "text/plain", and its name is the original base name followed by ".txt";
   * for a supported file the base name is what precedes the extension.
   */
  lemma RenameSpec(f: File)
    ensures var g := RenameFileToTxt(f);
      && g.content == f.content
      && g.lastModified == f.lastModified
      && g.mediaType == "text/plain"
      && |g.name| >= 4 && g.name[|g.name| - 4..] == ".txt"
      && g.name[..|g.name| - 4] == BaseName(f.name)
    ensures IsSupported(f.name) ==>
      var base := BaseName(f.name);
      f.name == base + f.name[|base|..] && Lower(f.name[|base|..]) == Extension(f.name)
  {
    var g := RenameFileToTxt(f);
    BaseNameSpec(f.name);
    assert g.name == BaseName(f.name) + ".txt";
    if IsSupported(f.name) {
      var base := BaseName(f.name);
      assert |base| == LastIndexOf(f.name, '.');
    }
  }

  /** A renamed file is never renamed again: ".txt" is not a supported extension. */
  lemma RenamedNeverSupported(f: File)
    ensures !IsSupported(RenameFileToTxt(f).name)
  {
    TxtNameNotSupported(BaseName(f.name));
  }

  /** `test.py` becomes `test.txt`. */
  lemma RenameTestPy(content: seq<byte>, time: int)
    ensures RenameFileToTxt(File(content, "test.py", time, "text/x-python"))
         == File(content, "test.txt", time, "text/plain")
  {
    LastIndexOfIs("test.py", '.', 4);
    assert "test.py"[..4] == "test";
  }
}
