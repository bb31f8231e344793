/** Student-name resolution and the C++ file filter of the homework extractor
    (`HomeworkExtractor._extract_student_name` and the suffix test of
    `scan_cpp_files`). Directory traversal is an input: the scanned files
    arrive as a sequence of paths relative to the scan root. */
module Extractor {
  import opened Wrappers
  import opened Text

  /** A file path relative to the scan root: its folders, outermost first,
      then the file name. Python's `relative_path.parts` is `folders + [name]`. */
  datatype RelPath = RelPath(folders: seq<string>, name: string)

  /** One entry of the scan result (`file_path`, the absolute path, is left out). */
  datatype FileInfo = FileInfo(studentName: string, fileName: string, relativePath: string)

  /** Suffixes the scan accepts, compared after lower-casing. */
  const CppExtensions: seq<string> := [".cpp", ".cc", ".cxx", ".c", ".h", ".hpp"]

  /** Folder names that are never taken as a student's name. */
  const NonStudentFolders: set<string> := {"src", "include", "homework", "作业"}

  // ------------------------------------------------------- pathlib suffix/stem

  /** Index of the last `.` of `name`, or `|name|` when there is none (`name.rfind('.')`). */
  function LastDot(name: string): (i: nat)
    ensures i <= |name|
    ensures i < |name| ==> name[i] == '.'
    ensures forall j :: i < j < |name| ==> name[j] != '.'
    ensures i == |name| ==> '.' !in name
  {
    if |name| == 0 then 0
    else if name[|name| - 1] == '.' then |name| - 1
    else
      var i := LastDot(name[..|name| - 1]);
      if i == |name| - 1 then |name| else i
  }

  /** pathlib's rule: the name has a suffix when its last dot is neither the
      first nor the last character. */
  predicate HasSuffix(name: string)
  {
    0 < LastDot(name) < |name| - 1
  }

  /** `PurePath.suffix` (Python 3.13 and earlier): empty, or a `.` followed
      by at least one character and no further `.`. */
  function Suffix(name: string): (r: string)
    ensures r == [] || (|r| >= 2 && r[0] == '.' && '.' !in r[1..])
    ensures EndsWith(name, r)
  {
    if HasSuffix(name) then name[LastDot(name)..] else ""
  }

  /** pathlib's rule read off the name (Python 3.13 and earlier; 3.14 also
      counts a trailing `.` as a suffix): the suffix is non-empty exactly when
      some dot, past the first character and before the last, has no dot
      after it. */
  lemma SuffixNonEmpty(name: string)
    ensures Suffix(name) != [] <==> exists i :: 0 < i < |name| - 1 && name[i] == '.' && '.' !in name[i + 1..]
  {
    if HasSuffix(name) {
      var d := LastDot(name);
      assert forall k :: d + 1 <= k < |name| ==> name[k] != '.';
      assert '.' !in name[d + 1..];
    }
    if exists i :: 0 < i < |name| - 1 && name[i] == '.' && '.' !in name[i + 1..] {
      var i :| 0 < i < |name| - 1 && name[i] == '.' && '.' !in name[i + 1..];
      forall j | i < j < |name| ensures name[j] != '.' {
        assert name[j] == name[i + 1..][j - i - 1];
      }
      LastDotIs(name, i);
    }
  }

  /** `PurePath.stem` (Python 3.13 and earlier): the name without its suffix. */
  function Stem(name: string): (r: string)
    ensures r + Suffix(name) == name
    ensures HasSuffix(name) ==> r != []
  {
    if HasSuffix(name) then name[..LastDot(name)] else name
  }

  /** The suffix test of `scan_cpp_files`: the last suffix, lower-cased, is a C++ one. */
  predicate IsCppFile(name: string)
  {
    AsciiLower(Suffix(name)) in CppExtensions
  }

  /** Independent reading of the filter: the name is longer than some C++
      extension and ends with it up to case. The leading `.` of every
      extension forces it to be the last dot, and the extra character before
      it rules out dotfiles such as `.cpp`. */
  lemma {:induction false} IsCppFileIffEndsWithExtension(name: string)
    ensures IsCppFile(name) <==>
            exists ext | ext in CppExtensions ::
              |ext| < |name| && AsciiLower(name[|name| - |ext|..]) == ext
  {
    if IsCppFile(name) {
      var ext := AsciiLower(Suffix(name));
      assert |Suffix(name)| == |ext|;
      assert name[|name| - |ext|..] == Suffix(name);
      assert |ext| < |name|;
    }
    forall ext | ext in CppExtensions && |ext| < |name| && AsciiLower(name[|name| - |ext|..]) == ext
      ensures IsCppFile(name)
    {
      ExtensionShape(ext);
      var tail := name[|name| - |ext|..];
      var d := |name| - |ext|;
      assert LowerChar(tail[0]) == ext[0] == '.';
      assert name[d] == '.';
      forall j | d < j < |name| ensures name[j] != '.' {
        assert LowerChar(tail[j - d]) == ext[j - d];
      }
      LastDotIs(name, d);
      assert Suffix(name) == tail;
    }
  }

  /** Every C++ extension is a `.` followed by dot-free characters. */
  lemma ExtensionShape(ext: string)
    requires ext in CppExtensions
    ensures |ext| >= 2 && ext[0] == '.'
    ensures forall j :: 1 <= j < |ext| ==> ext[j] != '.'
  {
  }

  lemma LastDotIs(name: string, d: nat)
    requires d < |name| && name[d] == '.'
    requires forall j :: d < j < |name| ==> name[j] != '.'
    ensures LastDot(name) == d
  {
    var i := LastDot(name);
    assert name[d] == '.';
    assert !(i < d);
    assert !(d < i);
  }

  // ----------------------------------------------------------- name resolution

  /** A stem token the source accepts as a name: non-empty and not all digits. */
  predicate IsNameToken(t: string)
  {
    t != [] && !IsDigits(t)
  }

  /** Index of the first name token, or `|tokens|` when there is none. */
  function FirstNameToken(tokens: seq<string>): (k: nat)
    ensures k <= |tokens|
    ensures k < |tokens| ==> IsNameToken(tokens[k])
    ensures forall j :: 0 <= j < k ==> !IsNameToken(tokens[j])
  {
    if |tokens| == 0 then 0
    else if IsNameToken(tokens[0]) then 0
    else 1 + FirstNameToken(tokens[1..])
  }

  /** Tiers two and three: the first name token of an underscore-separated
      stem, else the whole stem. */
  function NameFromStem(stem: string): (r: string)
    ensures r == stem || (r in Split(stem, '_') && IsNameToken(r) && '_' !in r)
  {
    if '_' in stem then
      var tokens := Split(stem, '_');
      var k := FirstNameToken(tokens);
      if k < |tokens| then tokens[k] else stem
    else stem
  }

  /** The parent folder of the file, when the path has one. */
  function ParentFolder(p: RelPath): Option<string>
  {
    if |p.folders| >= 1 then Some(p.folders[|p.folders| - 1]) else None
  }

  /** `_extract_student_name`: the parent folder unless it is a structural
      folder, otherwise a name taken from the file's stem. */
  function ExtractStudentName(p: RelPath): (r: string)
    ensures || (ParentFolder(p).Some? && r == ParentFolder(p).value && r !in NonStudentFolders)
            || r == Stem(p.name)
            || (r in Split(Stem(p.name), '_') && IsNameToken(r) && '_' !in r)
  {
    var parent := ParentFolder(p);
    if parent.Some? && parent.value !in NonStudentFolders then parent.value
    else NameFromStem(Stem(p.name))
  }

  /** Tier one: a parent folder that is not structural is the name. */
  lemma ParentFolderWins(p: RelPath)
    requires |p.folders| >= 1 && p.folders[|p.folders| - 1] !in NonStudentFolders
    ensures ExtractStudentName(p) == p.folders[|p.folders| - 1]
  {
  }

  /** Only the immediate parent is examined: when it is structural, the name
      depends on the file name alone, never on higher ancestors, and equals
      the name a file at the scan root would get. */
  lemma StructuralParentUsesFileNameOnly(ancestors: seq<string>, parent: string, name: string)
    requires parent in NonStudentFolders
    ensures ExtractStudentName(RelPath(ancestors + [parent], name))
         == ExtractStudentName(RelPath([], name))
         == NameFromStem(Stem(name))
  {
  }

  /** Tier two exactly: with an underscore in the stem and some name token,
      the result is the first name token; every earlier token is empty or numeric. */
  lemma {:induction false} FirstTokenRule(p: RelPath)
    requires ParentFolder(p).None? || ParentFolder(p).value in NonStudentFolders
    requires '_' in Stem(p.name)
    requires exists t | t in Split(Stem(p.name), '_') :: IsNameToken(t)
    ensures var tokens := Split(Stem(p.name), '_');
            exists k | 0 <= k < |tokens| ::
              && ExtractStudentName(p) == tokens[k]
              && IsNameToken(tokens[k])
              && forall j :: 0 <= j < k ==> (tokens[j] == [] || IsDigits(tokens[j]))
  {
    var stem := Stem(p.name);
    var tokens := Split(stem, '_');
    FirstTokenOfStem(stem);
    StructuralParentDefersToStem(p);
    var k := FirstNameToken(tokens);
    assert ExtractStudentName(p) == tokens[k];
  }

  /** With a structural parent or none, the name comes from the stem. */
  lemma StructuralParentDefersToStem(p: RelPath)
    requires ParentFolder(p).None? || ParentFolder(p).value in NonStudentFolders
    ensures ExtractStudentName(p) == NameFromStem(Stem(p.name))
  {
  }

  lemma FirstTokenOfStem(stem: string)
    requires '_' in stem
    requires exists t | t in Split(stem, '_') :: IsNameToken(t)
    ensures FirstNameToken(Split(stem, '_')) < |Split(stem, '_')|
    ensures NameFromStem(stem) == Split(stem, '_')[FirstNameToken(Split(stem, '_'))]
  {
    var tokens := Split(stem, '_');
    var t :| t in tokens && IsNameToken(t);
    var i :| 0 <= i < |tokens| && tokens[i] == t;
    assert FirstNameToken(tokens) <= i;
  }

  /** Tier three exactly: no underscore, or only empty and numeric tokens,
      leaves the whole stem. */
  lemma StemFallback(p: RelPath)
    requires ParentFolder(p).None? || ParentFolder(p).value in NonStudentFolders
    requires '_' !in Stem(p.name) || forall t | t in Split(Stem(p.name), '_') :: !IsNameToken(t)
    ensures ExtractStudentName(p) == Stem(p.name)
  {
    var tokens := Split(Stem(p.name), '_');
    if '_' in Stem(p.name) {
      assert forall j | 0 <= j < |tokens| :: tokens[j] in tokens;
    }
  }

  // ---------------------------------------------------------------- the scan

  /** The entry `scan_cpp_files` appends for one file. */
  function Info(p: RelPath): FileInfo
  {
    FileInfo(ExtractStudentName(p), p.name, Join(p.folders + [p.name], '/'))
  }

  /** An entry's relative path is the folders and the name joined by `/`: it
      ends with the file name, and splits back into the folders and the name
      when none of them holds a `/`. */
  lemma InfoRelativePath(p: RelPath)
    ensures EndsWith(Info(p).relativePath, p.name)
    ensures ('/' !in p.name && forall i :: 0 <= i < |p.folders| ==> '/' !in p.folders[i]) ==>
              Split(Info(p).relativePath, '/') == p.folders + [p.name]
  {
    var parts := p.folders + [p.name];
    JoinEndsWithLast(parts, '/');
    if '/' !in p.name && forall i :: 0 <= i < |p.folders| ==> '/' !in p.folders[i] {
      assert forall i :: 0 <= i < |parts| ==> '/' !in parts[i] by {
        forall i | 0 <= i < |parts| ensures '/' !in parts[i] {
          if i < |p.folders| { assert parts[i] == p.folders[i]; }
        }
      }
      SplitJoin(parts, '/');
    }
  }

  lemma {:induction false} JoinEndsWithLast(parts: seq<string>, sep: char)
    requires |parts| >= 1
    ensures EndsWith(Join(parts, sep), parts[|parts| - 1])
    decreases |parts|
  {
    if |parts| > 1 {
      JoinEndsWithLast(parts[1..], sep);
      assert parts[1..][|parts[1..]| - 1] == parts[|parts| - 1];
      var t := Join(parts[1..], sep);
      var last := parts[|parts| - 1];
      var j := parts[0] + [sep] + t;
      assert j[|j| - |last|..] == t[|t| - |last|..];
    }
  }

  /** The per-file part of `scan_cpp_files`: keep the C++ files, in scan order,
      each with its resolved student name. */
  function ScanCppFiles(files: seq<RelPath>): (r: seq<FileInfo>)
    ensures |r| <= |files|
    ensures forall i :: 0 <= i < |files| && IsCppFile(files[i].name) ==> Info(files[i]) in r
    ensures forall x :: x in r ==> exists i :: 0 <= i < |files| && IsCppFile(files[i].name) && x == Info(files[i])
    ensures (forall i :: 0 <= i < |files| ==> IsCppFile(files[i].name)) ==> |r| == |files|
  {
    if |files| == 0 then []
    else
      var rest := ScanCppFiles(files[1..]);
      assert forall i :: 1 <= i < |files| ==> files[i] == files[1..][i - 1];
      if IsCppFile(files[0].name) then
        assert forall x :: x in [Info(files[0])] + rest <==> x == Info(files[0]) || x in rest;
        [Info(files[0])] + rest
      else rest
  }


  /** `scan_cpp_files` keeps the listing's order and multiplicity: it works
      file by file, so a listing split in two is scanned part by part, and
      one file yields its entry or nothing. */
  lemma {:induction false} ScanCppFilesIsFilter(a: seq<RelPath>, b: seq<RelPath>)
    ensures ScanCppFiles(a + b) == ScanCppFiles(a) + ScanCppFiles(b)
    ensures |a| == 1 ==> ScanCppFiles(a) == (if IsCppFile(a[0].name) then [Info(a[0])] else [])
    decreases |a|
  {
    if |a| > 0 {
      assert (a + b)[0] == a[0];
      assert (a + b)[1..] == a[1..] + b;
      ScanCppFilesIsFilter(a[1..], b);
      var h := if IsCppFile(a[0].name) then [Info(a[0])] else [];
      assert ScanCppFiles(a + b) == h + ScanCppFiles(a[1..] + b);
      assert ScanCppFiles(a) == h + ScanCppFiles(a[1..]);
      ConcatAssoc(h, ScanCppFiles(a[1..]), ScanCppFiles(b));
      if |a| == 1 {
        assert a[1..] == [];
      }
    } else {
      assert a + b == b;
    }
  }

  // ---------------------------------------------------------------- examples

  /** The stem of a name whose last dot is at `d`. */
  lemma StemAt(name: string, d: nat)
    requires 0 < d < |name| - 1 && name[d] == '.'
    requires forall j :: d < j < |name| ==> name[j] != '.'
    ensures Stem(name) == name[..d]
    ensures Suffix(name) == name[d..]
  {
    LastDotIs(name, d);
  }

  /** `第02周上机作业/张三/code.cpp` resolves to `张三`. */
  lemma ExampleStudentFolder()
    ensures ExtractStudentName(RelPath(["第02周上机作业", "张三"], "code.cpp")) == "张三"
  {
    assert ParentFolder(RelPath(["第02周上机作业", "张三"], "code.cpp")) == Some("张三");
    assert "张三" !in NonStudentFolders;
  }

  /** Splitting a concrete two-token stem. */
  lemma SplitTwo(first: string, second: string)
    requires '_' !in first && '_' !in second
    ensures Split(first + "_" + second, '_') == [first, second]
  {
    var tokens := [first, second];
    assert Join(tokens, '_') == first + "_" + second;
    SplitJoin(tokens, '_');
  }

  lemma StemOfNumberedFile()
    ensures Stem("2024001_张三.cpp") == "2024001_张三"
  {
    StemAt("2024001_张三.cpp", 10);
    assert "2024001_张三.cpp"[..10] == "2024001_张三";
  }

  lemma NameFromNumberedStem()
    ensures NameFromStem("2024001_张三") == "张三"
  {
    SplitTwo("2024001", "张三");
    assert "2024001" + "_" + "张三" == "2024001_张三";
    assert IsDigits("2024001");
    assert FirstNameToken(["2024001", "张三"]) == 1;
    assert "2024001_张三"[7] == '_';
  }

  /** `作业/2024001_张三.cpp` resolves to `张三`: `作业` is structural and the
      numeric token is skipped. */
  lemma ExampleNumberedFile()
    ensures ExtractStudentName(RelPath(["作业"], "2024001_张三.cpp")) == "张三"
  {
    StemOfNumberedFile();
    NameFromNumberedStem();
    StructuralParentUsesFileNameOnly([], "作业", "2024001_张三.cpp");
  }

  /** A file at the scan root has no parent folder to offer. */
  lemma RootFileUsesStem(name: string)
    ensures ExtractStudentName(RelPath([], name)) == NameFromStem(Stem(name))
  {
  }

  lemma StemOfUnderscoredFile()
    ensures Stem("张三_code.cpp") == "张三_code"
  {
    StemAt("张三_code.cpp", 7);
    assert "张三_code.cpp"[..7] == "张三_code";
  }

  lemma NameFromUnderscoredStem()
    ensures NameFromStem("张三_code") == "张三"
  {
    SplitTwo("张三", "code");
    assert "张三" + "_" + "code" == "张三_code";
    assert FirstNameToken(["张三", "code"]) == 0;
    assert "张三_code"[2] == '_';
  }

  /** The docstring's second example does not hold: the non-structural parent
      folder wins over the name in the file name. */
  lemma ExampleDocstringSecondCaseDiffers()
    ensures ExtractStudentName(RelPath(["第02周上机作业"], "张三_code.cpp")) == "第02周上机作业"
  {
    assert "第02周上机作业" !in NonStudentFolders;
    ParentFolderWins(RelPath(["第02周上机作业"], "张三_code.cpp"));
  }

  /** Only a file at the scan root gets the name from `张三_code.cpp`. */
  lemma ExampleUnderscoredFileAtRoot()
    ensures ExtractStudentName(RelPath([], "张三_code.cpp")) == "张三"
  {
    StemOfUnderscoredFile();
    NameFromUnderscoredStem();
    RootFileUsesStem("张三_code.cpp");
  }

  /** Denylist membership is case-sensitive. */
  lemma ExampleDenylistIsCaseSensitive()
    ensures ExtractStudentName(RelPath(["Src"], "main.cpp")) == "Src"
    ensures ExtractStudentName(RelPath(["HOMEWORK"], "main.cpp")) == "HOMEWORK"
  {
    assert "Src" != "src";
    assert "Src" !in NonStudentFolders;
    assert "HOMEWORK" !in NonStudentFolders;
    assert ParentFolder(RelPath(["Src"], "main.cpp")) == Some("Src");
    assert ParentFolder(RelPath(["HOMEWORK"], "main.cpp")) == Some("HOMEWORK");
  }

  lemma StemOfNumericFile()
    ensures Stem("2024_001.cpp") == "2024_001"
  {
    StemAt("2024_001.cpp", 8);
    assert "2024_001.cpp"[..8] == "2024_001";
  }

  lemma NameFromNumericStem()
    ensures NameFromStem("2024_001") == "2024_001"
  {
    SplitTwo("2024", "001");
    assert "2024" + "_" + "001" == "2024_001";
    assert IsDigits("2024") && IsDigits("001");
    assert FirstNameToken(["2024", "001"]) == 2;
  }

  /** A stem of numeric tokens only is kept whole. */
  lemma ExampleNumericTokens()
    ensures ExtractStudentName(RelPath([], "2024_001.cpp")) == "2024_001"
  {
    StemOfNumericFile();
    NameFromNumericStem();
    RootFileUsesStem("2024_001.cpp");
  }

  /** Upper-case suffixes are accepted; a later non-C++ suffix and a dotfile are not. */
  lemma ExampleSuffixes()
    ensures IsCppFile("MAIN.CPP")
    ensures !IsCppFile("a.cpp.txt")
    ensures !IsCppFile(".cpp")
  {
    StemAt("MAIN.CPP", 4);
    assert "MAIN.CPP"[4..] == ".CPP";
    assert AsciiLower(".CPP") == ".cpp";
    StemAt("a.cpp.txt", 5);
    assert "a.cpp.txt"[5..] == ".txt";
    assert AsciiLower(".txt") == ".txt";
    LastDotIs(".cpp", 0);
  }
}
