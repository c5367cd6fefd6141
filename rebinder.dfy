/**
 * The classify / rename / collect part of `handleFileInputChange`: every
 * selected file is kept in order, renamed when its extension is supported,
 * and one {original, newName} record is produced per renamed file.
 */
module Rebinder {
  import opened Strings
  import opened Extensions
  import opened Files

  /** One entry of the `logActivity` message: `{ original, newName }`. */
  datatype RenameRecord = RenameRecord(original: string, newName: string)

  /** What the handler puts in place of one file. */
  function Process(f: File): File
  {
    if IsSupported(f.name) then RenameFileToTxt(f) else f
  }

  /** The new file collection: the selection with each file processed, in order. */
  function Processed(files: seq<File>): (r: seq<File>)
    ensures |r| == |files|
    ensures forall i :: 0 <= i < |files| ==> r[i] == Process(files[i])
  {
    if files == [] then [] else [Process(files[0])] + Processed(files[1..])
  }

  /** The record one file contributes: one when it is renamed, none otherwise. */
  function RecordOf(f: File): seq<RenameRecord>
  {
    if IsSupported(f.name) then [RenameRecord(f.name, RenameFileToTxt(f).name)] else []
  }

  /** The records of the renamed files, in selection order. */
  function Records(files: seq<File>): seq<RenameRecord>
  {
    if files == [] then [] else RecordOf(files[0]) + Records(files[1..])
  }

  /** How many selected files the handler renames. */
  function MatchCount(files: seq<File>): nat
  {
    if files == [] then 0 else (if IsSupported(files[0].name) then 1 else 0) + MatchCount(files[1..])
  }

  /** The final value of `filesModified`: some selected file is supported. */
  predicate AnyMatch(files: seq<File>)
  {
    exists i :: 0 <= i < |files| && IsSupported(files[i].name)
  }

  lemma {:induction false} ProcessedAppend(a: seq<File>, b: seq<File>)
    ensures Processed(a + b) == Processed(a) + Processed(b)
  {
    var l, r := Processed(a + b), Processed(a) + Processed(b);
    assert |l| == |r|;
    forall i | 0 <= i < |l| ensures l[i] == r[i] {
      if i < |a| {
        assert (a + b)[i] == a[i];
      } else {
        assert (a + b)[i] == b[i - |a|];
      }
    }
  }

  /** Records are taken file by file: the records of a + b are those of a, then those of b. */
  lemma {:induction false} RecordsAppend(a: seq<File>, b: seq<File>)
    ensures Records(a + b) == Records(a) + Records(b)
  {
    if a == [] {
      assert a + b == b;
    } else {
      assert (a + b)[0] == a[0] && (a + b)[1..] == a[1..] + b;
      RecordsAppend(a[1..], b);
    }
  }

  lemma {:induction false} MatchCountAppend(a: seq<File>, b: seq<File>)
    ensures MatchCount(a + b) == MatchCount(a) + MatchCount(b)
  {
    if a == [] {
      assert a + b == b;
    } else {
      assert (a + b)[0] == a[0] && (a + b)[1..] == a[1..] + b;
      MatchCountAppend(a[1..], b);
    }
  }

  /** `filesModified` is set exactly when some file is renamed. */
  lemma {:induction false} AnyMatchIffCount(files: seq<File>)
    ensures AnyMatch(files) <==> MatchCount(files) > 0
  {
    if files != [] {
      AnyMatchIffCount(files[1..]);
      if AnyMatch(files[1..]) {
        var i :| 0 <= i < |files[1..]| && IsSupported(files[1..][i].name);
        assert IsSupported(files[i + 1].name);
      }
      if AnyMatch(files) && !IsSupported(files[0].name) {
        var i :| 0 <= i < |files| && IsSupported(files[i].name);
        assert IsSupported(files[1..][i - 1].name);
      }
    }
  }

  /** Exactly one record per renamed file, and none when nothing was renamed. */
  lemma {:induction false} RecordsCount(files: seq<File>)
    ensures |Records(files)| == MatchCount(files)
    ensures Records(files) == [] <==> !AnyMatch(files)
  {
    if files != [] {
      RecordsCount(files[1..]);
    }
    AnyMatchIffCount(files);
  }

  /** Each record names a renamed file before and after renaming. */
  lemma {:induction false} RecordsNameRenamedFiles(files: seq<File>, j: nat)
    requires j < |Records(files)|
    ensures exists i :: 0 <= i < |files| && IsRenamedAs(files, i, Records(files)[j])
  {
    var f := files[0];
    var rest := files[1..];
    assert Records(files) == RecordOf(f) + Records(rest);
    if IsSupported(f.name) && j == 0 {
      assert Records(files)[0] == RenameRecord(f.name, Process(f).name);
      assert IsRenamedAs(files, 0, Records(files)[j]);
    } else {
      var j' := j - |RecordOf(f)|;
      assert Records(files)[j] == Records(rest)[j'];
      RecordsNameRenamedFiles(rest, j');
      var i :| 0 <= i < |rest| && IsRenamedAs(rest, i, Records(rest)[j']);
      assert files[i + 1] == rest[i];
      assert Processed(files)[i + 1] == Processed(rest)[i];
      assert IsRenamedAs(files, i + 1, Records(files)[j]);
    }
  }

  /** File `i` of the selection is renamed, and `record` gives its old and new name. */
  predicate IsRenamedAs(files: seq<File>, i: nat, record: RenameRecord)
    requires i < |files|
  {
    IsSupported(files[i].name) && record == RenameRecord(files[i].name, Processed(files)[i].name)
  }

  /** Nothing in the new collection is renamed again. */
  lemma {:induction false} ProcessedHasNoMatch(files: seq<File>)
    ensures MatchCount(Processed(files)) == 0
    ensures !AnyMatch(Processed(files))
    ensures Processed(Processed(files)) == Processed(files)
    ensures Records(Processed(files)) == []
  {
    var p := Processed(files);
    forall i | 0 <= i < |p| ensures !IsSupported(p[i].name) {
      if IsSupported(files[i].name) {
        RenamedNeverSupported(files[i]);
      }
    }
    AnyMatchIffCount(p);
    RecordsCount(p);
  }

  lemma RecordsSingle(f: File)
    ensures Records([f]) == RecordOf(f)
  {
    assert [f][1..] == [];
  }

  lemma AnyMatchAppend(a: seq<File>, b: seq<File>)
    ensures AnyMatch(a + b) <==> AnyMatch(a) || AnyMatch(b)
  {
    if AnyMatch(a) {
      var i :| 0 <= i < |a| && IsSupported(a[i].name);
      assert (a + b)[i] == a[i];
    }
    if AnyMatch(b) {
      var i :| 0 <= i < |b| && IsSupported(b[i].name);
      assert (a + b)[|a| + i] == b[i];
    }
    if AnyMatch(a + b) {
      var i :| 0 <= i < |a + b| && IsSupported((a + b)[i].name);
      if i < |a| {
        assert (a + b)[i] == a[i];
      } else {
        assert (a + b)[i] == b[i - |a|];
      }
    }
  }

  /** What one more iteration of the loop adds to each of its three results. */
  lemma RebindStep(files: seq<File>, i: nat)
    requires i < |files|
    ensures Processed(files[..i + 1]) == Processed(files[..i]) + [Process(files[i])]
    ensures AnyMatch(files[..i + 1]) == (AnyMatch(files[..i]) || IsSupported(files[i].name))
    ensures Records(files[..i + 1]) == Records(files[..i]) + RecordOf(files[i])
  {
    var f := files[i];
    assert files[..i + 1] == files[..i] + [f];
    StepProcessed(files[..i], f);
    StepRecords(files[..i], f);
    StepMatch(files[..i], f);
  }

  lemma StepProcessed(prefix: seq<File>, f: File)
    ensures Processed(prefix + [f]) == Processed(prefix) + [Process(f)]
  {
    ProcessedAppend(prefix, [f]);
  }

  lemma StepRecords(prefix: seq<File>, f: File)
    ensures Records(prefix + [f]) == Records(prefix) + RecordOf(f)
  {
    RecordsAppend(prefix, [f]);
    RecordsSingle(f);
  }

  lemma StepMatch(prefix: seq<File>, f: File)
    ensures AnyMatch(prefix + [f]) == (AnyMatch(prefix) || IsSupported(f.name))
  {
    AnyMatchAppend(prefix, [f]);
    assert [f][0] == f;
  }

  /**
   * The loop of `handleFileInputChange`: walk the selection in order, add
   * each file (renamed when supported) to the new collection, raise the
   * modified flag and record every rename.
   */
  method Rebind(files: seq<File>) returns (processed: seq<File>, modified: bool, records: seq<RenameRecord>)
    ensures processed == Processed(files)
    ensures modified == AnyMatch(files)
    ensures records == Records(files)
  {
    processed, modified, records := [], false, [];
    for i := 0 to |files|
      invariant processed == Processed(files[..i])
      invariant modified == AnyMatch(files[..i])
      invariant records == Records(files[..i])
    {
      var file := files[i];
      RebindStep(files, i);
      if IsSupported(file.name) {
        var newFile := RenameFileToTxt(file);
        processed := processed + [newFile];
        modified := true;
        records := records + [RenameRecord(file.name, newFile.name)];
      } else {
        processed := processed + [file];
      }
    }
    assert files[..|files|] == files;
  }

  /** A name whose last '.' is at index k > 0: its extension and base name. */
  lemma NameAt(name: string, k: nat)
    requires 0 < k < |name| && name[k] == '.'
    requires forall j :: k < j < |name| ==> name[j] != '.'
    ensures Extension(name) == Lower(name[k..])
    ensures BaseName(name) == name[..k]
  {
    LastIndexOfIs(name, '.', k);
  }

  lemma ExtensionDecides(name: string, ext: string)
    requires Extension(name) == ext && ext != ""
    ensures IsSupported(name) <==> ext in Supported
  {
  }

  lemma NameA()
    ensures IsSupported("a.md") && BaseName("a.md") == "a"
  {
    NameAt("a.md", 1);
    assert Lower(".md") == ".md";
    MdSupported();
    ExtensionDecides("a.md", ".md");
  }

  lemma MdSupported()
    ensures ".md" in Supported
  {
  }

  lemma NameB()
    ensures !IsSupported("b.png")
  {
    NameAt("b.png", 1);
    assert Lower(".png") == ".png";
    PngNotSupported();
    ExtensionDecides("b.png", ".png");
  }

  lemma PngNotSupported()
    ensures ".png" !in Supported
  {
  }

  lemma NameC()
    ensures IsSupported("c.CPP") && BaseName("c.CPP") == "c"
  {
    NameAt("c.CPP", 1);
    LowerCpp();
    CppSupported();
    ExtensionDecides("c.CPP", ".cpp");
  }

  lemma LowerCpp()
    ensures Lower(".CPP") == ".cpp"
  {
  }

  lemma CppSupported()
    ensures ".cpp" in Supported
  {
  }

  lemma ThreeFiles(a: File, b: File, c: File)
    ensures Processed([a, b, c]) == [Process(a), Process(b), Process(c)]
    ensures Records([a, b, c]) == RecordOf(a) + RecordOf(b) + RecordOf(c)
  {
    assert [a, b, c] == [a] + [b] + [c];
    RecordsAppend([a] + [b], [c]);
    RecordsAppend([a], [b]);
    RecordsSingle(a);
    RecordsSingle(b);
    RecordsSingle(c);
  }

  lemma ExampleFileA(x: seq<byte>, t: int)
    ensures Process(File(x, "a.md", t, "text/markdown")) == File(x, "a.txt", t, "text/plain")
    ensures RecordOf(File(x, "a.md", t, "text/markdown")) == [RenameRecord("a.md", "a.txt")]
  {
    NameA();
    assert RenameFileToTxt(File(x, "a.md", t, "text/markdown")).name == "a.txt" by {
      assert "a" + ".txt" == "a.txt";
    }
  }

  lemma ExampleFileB(y: seq<byte>, t: int)
    ensures Process(File(y, "b.png", t, "image/png")) == File(y, "b.png", t, "image/png")
    ensures RecordOf(File(y, "b.png", t, "image/png")) == []
  {
    NameB();
  }

  lemma ExampleFileC(z: seq<byte>, t: int)
    ensures Process(File(z, "c.CPP", t, "text/x-c")) == File(z, "c.txt", t, "text/plain")
    ensures RecordOf(File(z, "c.CPP", t, "text/x-c")) == [RenameRecord("c.CPP", "c.txt")]
  {
    RenamedC(z, t);
  }

  lemma RenamedC(z: seq<byte>, t: int)
    ensures IsSupported("c.CPP")
    ensures RenameFileToTxt(File(z, "c.CPP", t, "text/x-c")) == File(z, "c.txt", t, "text/plain")
  {
    NameC();
    assert "c" + ".txt" == "c.txt";
  }

  /** `[a.md, b.png, c.CPP]` becomes `[a.txt, b.png, c.txt]`, with two records in that order. */
  lemma MixedSelection(x: seq<byte>, y: seq<byte>, z: seq<byte>, t: int)
    ensures var files := [File(x, "a.md", t, "text/markdown"), File(y, "b.png", t, "image/png"),
                          File(z, "c.CPP", t, "text/x-c")];
      && Processed(files) == [File(x, "a.txt", t, "text/plain"), File(y, "b.png", t, "image/png"),
                              File(z, "c.txt", t, "text/plain")]
      && Records(files) == [RenameRecord("a.md", "a.txt"), RenameRecord("c.CPP", "c.txt")]
  {
    ExampleFileA(x, t);
    ExampleFileB(y, t);
    ExampleFileC(z, t);
    ThreeFiles(File(x, "a.md", t, "text/markdown"), File(y, "b.png", t, "image/png"), File(z, "c.CPP", t, "text/x-c"));
  }
}
