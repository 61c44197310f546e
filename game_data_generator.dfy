/**
 * The string and list logic of the data-table generator: the file-name rules
 * for main and A/B test workbooks, the directory scans that pick workbooks,
 * the tab-separated text a worksheet is exported to, the config export that
 * reads that text back, and the truncation of the field-type drop-down list.
 * Workbooks, the file system and reflection are inputs: a sheet is a sequence
 * of rows of cell strings, a directory listing a sequence of paths.
 */
module GameData {
  import opened Wrappers

  // ---- Constants ----

  /** Excel limits a drop-down list's formula to 255 characters in all. */
  const MaxCharLength := 255

  /** ConstEditor.AB_TEST_TAG: an A/B test workbook is named main name + '#' + group name. */
  const AbTestTag := '#'

  /** ConstEditor.DataTablePath and ConstEditor.GameConfigPath: where exported text goes. */
  const DataTablePath := "Assets/Game/Tables"
  const GameConfigPath := "Assets/Game/Tables"

  /** GameDataType (a flags enum): DataTable = 1, Config = 2. */
  const DataTable := 1
  const Config := 2

  /** GameDataExcelFileType (a flags enum): MainFile = 1, ABTestFile = 2. */
  const MainFile := 1
  const ABTestFile := 2

  /** Enum.HasFlag for the one-bit flags 1 and 2: the bit of `flag` is set in `value` (two's complement). */
  predicate HasFlag(value: int, flag: int)
    requires flag == 1 || flag == 2
  {
    if flag == 1 then value % 2 == 1 else (value / 2) % 2 == 1
  }

  // ---- Strings ----

  predicate StartsWith(s: string, prefix: string) {
    |prefix| <= |s| && s[..|prefix|] == prefix
  }

  /** Char.IsWhiteSpace: the Unicode space, line and paragraph separators, U+0009 to U+000D and U+0085. */
  predicate IsWhiteSpace(c: char) {
    || ('\U{0009}' <= c <= '\U{000D}') || c == '\U{0020}' || c == '\U{0085}' || c == '\U{00A0}'
    || c == '\U{1680}' || ('\U{2000}' <= c <= '\U{200A}') || c == '\U{2028}' || c == '\U{2029}'
    || c == '\U{202F}' || c == '\U{205F}' || c == '\U{3000}'
  }

  /** String.IsNullOrWhiteSpace (a null string is modelled as the empty one). */
  predicate IsBlank(s: string) {
    forall i :: 0 <= i < |s| ==> IsWhiteSpace(s[i])
  }

  /** The elements of `s` that `keep` accepts, in their original order. */
  function Select(s: seq<string>, keep: string -> bool): (r: seq<string>)
    ensures |r| <= |s|
  {
    if |s| == 0 then []
    else Select(s[..|s| - 1], keep) + (if keep(s[|s| - 1]) then [s[|s| - 1]] else [])
  }

  /** Exactly the accepted elements are selected. */
  lemma {:induction false} SelectMembership(s: seq<string>, keep: string -> bool)
    ensures forall x :: x in Select(s, keep) <==> x in s && keep(x)
    decreases |s|
  {
    if |s| > 0 {
      SelectMembership(s[..|s| - 1], keep);
      assert s == s[..|s| - 1] + [s[|s| - 1]];
    }
  }

  /** One more element of the list: the selection grows by it exactly when it is accepted. */
  lemma SelectStep(s: seq<string>, k: nat, keep: string -> bool)
    requires k < |s|
    ensures Select(s[..k + 1], keep) == Select(s[..k], keep) + (if keep(s[k]) then [s[k]] else [])
  {
    assert s[..k + 1][..k] == s[..k];
  }

  // ---- Paths ----

  /** Path.GetFileName on Windows: '/' and '\' both separate directories. */
  predicate IsDirSeparator(c: char) {
    c == '/' || c == '\\'
  }

  /** The position of the last directory separator among the first `n` characters, or -1. */
  function LastSeparator(path: string, n: nat): (i: int)
    requires n <= |path|
    ensures -1 <= i < n
    ensures i >= 0 ==> IsDirSeparator(path[i])
    ensures forall j :: i < j < n ==> !IsDirSeparator(path[j])
  {
    if n == 0 then -1
    else if IsDirSeparator(path[n - 1]) then n - 1
    else LastSeparator(path, n - 1)
  }

  /** Path.GetFileName: the part of `path` after its last directory separator. */
  function FileName(path: string): string {
    path[LastSeparator(path, |path|) + 1..]
  }

  /** String.LastIndexOf(char) over the first `n` characters: the last position of `c`, or -1. */
  function LastIndexOf(s: string, c: char, n: nat): (i: int)
    requires n <= |s|
    ensures -1 <= i < n
    ensures i >= 0 ==> s[i] == c
    ensures forall j :: i < j < n ==> s[j] != c
  {
    if n == 0 then -1
    else if s[n - 1] == c then n - 1
    else LastIndexOf(s, c, n - 1)
  }

  /** Path.GetFileNameWithoutExtension: the file name up to (not including) its last '.'. */
  function NameNoExt(path: string): string {
    var name := FileName(path);
    var dot := LastIndexOf(name, '.', |name|);
    if dot < 0 then name else name[..dot]
  }

  /** Whatever the directory part, a name after the last separator is the file name. */
  lemma FileNameAfterSeparator(dir: string, name: string)
    requires forall i :: 0 <= i < |name| ==> !IsDirSeparator(name[i])
    ensures FileName(dir + "/" + name) == name
  {
    var path := dir + "/" + name;
    assert path[|dir|] == '/';
    assert forall j :: |dir| < j < |path| ==> path[j] == name[j - |dir| - 1];
    assert LastSeparator(path, |path|) == |dir|;
    assert path[|dir| + 1..] == name;
  }

  /** The stem of `dir/stem.xlsx` is `stem`, dots in the stem included. */
  lemma NameNoExtOfWorkbook(dir: string, stem: string)
    requires forall i :: 0 <= i < |stem| ==> !IsDirSeparator(stem[i])
    ensures NameNoExt(dir + "/" + stem + ".xlsx") == stem
  {
    var name := stem + ".xlsx";
    forall i | 0 <= i < |name| ensures !IsDirSeparator(name[i]) {
      if i >= |stem| {
        assert name[i] == ".xlsx"[i - |stem|];
      }
    }
    assert dir + "/" + stem + ".xlsx" == dir + "/" + name;
    FileNameAfterSeparator(dir, name);
    assert name[|stem|] == '.';
    assert forall j :: |stem| < j < |name| ==> name[j] == "xlsx"[j - |stem| - 1];
    assert LastIndexOf(name, '.', |name|) == |stem|;
    assert name[..|stem|] == stem;
  }

  // ---- A/B test file names ----

  /**
   * IsABTestFile(excelFile): the extension-less name matches the regular
   * expression `#\p{L}$`, i.e. it ends with '#' and one letter (the `$` anchor
   * also accepts one trailing line feed). `isLetter` is the Unicode letter class.
   */
  predicate IsABTestFile(excelFile: string, isLetter: char -> bool) {
    var n := NameNoExt(excelFile);
    || (|n| >= 2 && n[|n| - 2] == AbTestTag && isLetter(n[|n| - 1]))
    || (|n| >= 3 && n[|n| - 1] == '\n' && n[|n| - 3] == AbTestTag && isLetter(n[|n| - 2]))
  }

  /** IsABTestFile(excelFile, mainExcelFile): the name starts with the main file's name and '#'. */
  predicate IsABTestFileOf(excelFile: string, mainExcelFile: string) {
    StartsWith(NameNoExt(excelFile), NameNoExt(mainExcelFile) + [AbTestTag])
  }

  /** The stem of `dir/main#group.xlsx` is `main#group`. */
  lemma GroupFileStem(dir: string, main: string, group: string)
    requires forall i :: 0 <= i < |main| ==> !IsDirSeparator(main[i])
    requires forall i :: 0 <= i < |group| ==> !IsDirSeparator(group[i])
    ensures NameNoExt(dir + "/" + main + "#" + group + ".xlsx") == main + "#" + group
  {
    var stem := main + "#" + group;
    forall i | 0 <= i < |stem| ensures !IsDirSeparator(stem[i]) {
      if i < |main| {
        assert stem[i] == main[i];
      } else if i > |main| {
        assert stem[i] == group[i - |main| - 1];
      }
    }
    NameNoExtOfWorkbook(dir, stem);
    var d := dir + "/";
    ConcatAssoc(d, main, "#");
    ConcatAssoc(d, main + "#", group);
  }

  /** `dir/main#group.xlsx` is an A/B file of the main file named `main`, whatever the group. */
  lemma GroupFileBelongsToMain(dir: string, main: string, group: string, mainFile: string)
    requires forall i :: 0 <= i < |main| ==> !IsDirSeparator(main[i])
    requires forall i :: 0 <= i < |group| ==> !IsDirSeparator(group[i])
    requires NameNoExt(mainFile) == main
    ensures IsABTestFileOf(dir + "/" + main + "#" + group + ".xlsx", mainFile)
  {
    GroupFileStem(dir, main, group);
    assert (main + "#" + group)[..|main| + 1] == main + [AbTestTag];
  }

  /**
   * For a group name made of letters, the name rule `#\p{L}$` marks
   * `dir/main#group.xlsx` as an A/B test file only when the group is a single
   * letter: a longer group name makes the workbook count as a main file.
   */
  lemma GroupMarkedOnlyIfOneLetter(dir: string, main: string, group: string, isLetter: char -> bool)
    requires forall i :: 0 <= i < |main| ==> !IsDirSeparator(main[i])
    requires |group| > 0
    requires forall i :: 0 <= i < |group| ==> isLetter(group[i]) && !IsDirSeparator(group[i]) && group[i] !in "#\n"
    ensures IsABTestFile(dir + "/" + main + "#" + group + ".xlsx", isLetter) <==> |group| == 1
  {
    GroupFileStem(dir, main, group);
    var n := main + "#" + group;
    assert n[|n| - 1] == group[|group| - 1];
    if |group| == 1 {
      assert n[|n| - 2] == AbTestTag;
    } else {
      assert n[|n| - 2] == group[|group| - 2];
    }
  }

  // ---- Directory scans ----

  /**
   * What the editor code sees of its environment: which directories exist,
   * the `*.xlsx` files found under a directory and all its subdirectories (in
   * listing order), the Unicode letter class, and ConstEditor.DataTableExcelPath.
   */
  datatype Host = Host(
    hasDir: string -> bool,
    xlsxUnder: string -> seq<string>,
    isLetter: char -> bool,
    dataTableExcelPath: string)

  /** GetFiles' test: never an Office lock file (`~$`); with a main name, only `main#...` names. */
  predicate ListedByGetFiles(mainExcelName: Option<string>, item: string) {
    && !StartsWith(NameNoExt(item), "~$")
    && (mainExcelName.None? || mainExcelName.value == "" ||
        StartsWith(NameNoExt(item), mainExcelName.value + [AbTestTag]))
  }

  function ListingKeeps(mainExcelName: Option<string>): string -> bool {
    (item: string) => ListedByGetFiles(mainExcelName, item)
  }

  /** GetGameDataExcelAtDir's test: main files under MainFile, A/B files under ABTestFile. */
  predicate OfRequestedType(tps: int, isLetter: char -> bool, item: string) {
    var isABFile := IsABTestFile(item, isLetter);
    (HasFlag(tps, MainFile) && !isABFile) || (HasFlag(tps, ABTestFile) && isABFile)
  }

  function FileTypeKeeps(tps: int, isLetter: char -> bool): string -> bool {
    (item: string) => OfRequestedType(tps, isLetter, item)
  }

  function AbFilesOf(mainExcelFile: string): string -> bool {
    (item: string) => IsABTestFileOf(item, mainExcelFile)
  }

  lemma AbFilesOfApply(mainExcelFile: string, item: string)
    ensures AbFilesOf(mainExcelFile)(item) == IsABTestFileOf(item, mainExcelFile)
  {
  }

  lemma ListingStep(excels: seq<string>, k: nat, mainExcelName: Option<string>)
    requires k < |excels|
    ensures Select(excels[..k + 1], ListingKeeps(mainExcelName)) ==
            Select(excels[..k], ListingKeeps(mainExcelName)) + (if ListedByGetFiles(mainExcelName, excels[k]) then [excels[k]] else [])
  {
    SelectStep(excels, k, ListingKeeps(mainExcelName));
  }

  lemma FileTypeStep(excels: seq<string>, k: nat, tps: int, isLetter: char -> bool)
    requires k < |excels|
    ensures Select(excels[..k + 1], FileTypeKeeps(tps, isLetter)) ==
            Select(excels[..k], FileTypeKeeps(tps, isLetter)) + (if OfRequestedType(tps, isLetter, excels[k]) then [excels[k]] else [])
  {
    SelectStep(excels, k, FileTypeKeeps(tps, isLetter));
  }

  lemma AbFilesStep(excels: seq<string>, k: nat, mainExcelFile: string)
    requires k < |excels|
    ensures Select(excels[..k + 1], AbFilesOf(mainExcelFile)) ==
            Select(excels[..k], AbFilesOf(mainExcelFile)) + (if IsABTestFileOf(excels[k], mainExcelFile) then [excels[k]] else [])
  {
    SelectStep(excels, k, AbFilesOf(mainExcelFile));
  }

  /** GetFiles: the listing without lock files and, given a main name, only its A/B files, in listing order. */
  method GetFiles(excels: seq<string>, mainExcelName: Option<string>) returns (result: seq<string>)
    ensures result == Select(excels, ListingKeeps(mainExcelName))
  {
    result := [];
    if mainExcelName.Some? && mainExcelName.value != "" {
      var abTestPrefixName := mainExcelName.value + [AbTestTag];
      var k := 0;
      while k < |excels|
        invariant 0 <= k <= |excels|
        invariant result == Select(excels[..k], ListingKeeps(mainExcelName))
      {
        var item := excels[k];
        ListingStep(excels, k, mainExcelName);
        var nameNoExt := NameNoExt(item);
        k := k + 1;
        if StartsWith(nameNoExt, "~$") {
          continue;
        }
        if StartsWith(nameNoExt, abTestPrefixName) {
          result := result + [item];
        }
      }
      assert excels[..k] == excels;
    } else {
      var k := 0;
      while k < |excels|
        invariant 0 <= k <= |excels|
        invariant result == Select(excels[..k], ListingKeeps(mainExcelName))
      {
        var item := excels[k];
        ListingStep(excels, k, mainExcelName);
        k := k + 1;
        if StartsWith(NameNoExt(item), "~$") {
          continue;
        }
        result := result + [item];
      }
      assert excels[..k] == excels;
    }
  }

  /** The workbooks GetGameDataExcelAtDir returns: none for a blank or missing directory. */
  function ExcelsAtDir(host: Host, excelDir: string, tps: int, mainExcelName: Option<string>): seq<string> {
    if IsBlank(excelDir) || !host.hasDir(excelDir) then []
    else Select(Select(host.xlsxUnder(excelDir), ListingKeeps(mainExcelName)), FileTypeKeeps(tps, host.isLetter))
  }

  /** GetGameDataExcelAtDir: the scanned workbooks, each kept at most once, by the file-type flags. */
  method GetGameDataExcelAtDir(host: Host, excelDir: string, tps: int, mainExcelName: Option<string>)
    returns (result: seq<string>)
    ensures result == ExcelsAtDir(host, excelDir, tps, mainExcelName)
  {
    if IsBlank(excelDir) || !host.hasDir(excelDir) {
      return [];
    }
    var excelFiles := GetFiles(host.xlsxUnder(excelDir), mainExcelName);
    result := KeepOfType(excelFiles, tps, host.isLetter);
  }

  /** The loop of GetGameDataExcelAtDir over the listed files: each kept at most once, by the file-type flags. */
  method KeepOfType(excelFiles: seq<string>, tps: int, isLetter: char -> bool) returns (result: seq<string>)
    ensures result == Select(excelFiles, FileTypeKeeps(tps, isLetter))
  {
    result := [];
    var k := 0;
    while k < |excelFiles|
      invariant 0 <= k <= |excelFiles|
      invariant result == Select(excelFiles[..k], FileTypeKeeps(tps, isLetter))
    {
      var item := excelFiles[k];
      FileTypeStep(excelFiles, k, tps, isLetter);
      var isABFile := IsABTestFile(item, isLetter);
      if HasFlag(tps, MainFile) && !isABFile {
        result := result + [item];
      }
      if HasFlag(tps, ABTestFile) && isABFile {
        result := result + [item];
      }
      k := k + 1;
    }
    assert excelFiles[..k] == excelFiles;
  }

  /** A scan lists a workbook exactly when it is under the directory, no lock file, and of a requested kind. */
  lemma ExcelsAtDirMembership(host: Host, excelDir: string, tps: int, f: string)
    requires !IsBlank(excelDir) && host.hasDir(excelDir)
    ensures f in ExcelsAtDir(host, excelDir, tps, None) <==>
              && f in host.xlsxUnder(excelDir)
              && !StartsWith(NameNoExt(f), "~$")
              && (if IsABTestFile(f, host.isLetter) then HasFlag(tps, ABTestFile) else HasFlag(tps, MainFile))
  {
    var listed := Select(host.xlsxUnder(excelDir), ListingKeeps(None));
    SelectMembership(host.xlsxUnder(excelDir), ListingKeeps(None));
    SelectMembership(listed, FileTypeKeeps(tps, host.isLetter));
  }

  /** GetGameDataExcelDir: only data tables have a workbook directory; every other type gets "". */
  function GetGameDataExcelDir(host: Host, tp: int): (dir: string)
    ensures tp == DataTable ==> dir == host.dataTableExcelPath
    ensures tp != DataTable ==> dir == ""
  {
    if tp == DataTable then host.dataTableExcelPath else ""
  }

  /** GetGameDataExcelOutputDir: the text output directory of data tables and of configs. */
  function GetGameDataExcelOutputDir(tp: int): (dir: string)
    ensures tp == DataTable ==> dir == DataTablePath
    ensures tp == Config ==> dir == GameConfigPath
    ensures tp != DataTable && tp != Config ==> dir == ""
  {
    if tp == DataTable then DataTablePath else if tp == Config then GameConfigPath else ""
  }

  /** GetGameDataExcelOutputFileExtension: both kinds export to ".txt"; any other value has none. */
  function GetGameDataExcelOutputFileExtension(tp: int): (ext: string)
    ensures ext == ".txt" <==> tp == DataTable || tp == Config
    ensures ext != ".txt" ==> ext == ""
  {
    if tp == DataTable || tp == Config then ".txt" else ""
  }

  /** The workbooks GetAllGameDataExcels returns: the data-table scan, then the config scan. */
  function AllExcels(host: Host, dtTp: int, tps: int, mainExcelName: Option<string>): seq<string> {
    (if HasFlag(dtTp, DataTable) then ExcelsAtDir(host, GetGameDataExcelDir(host, DataTable), tps, mainExcelName) else [])
    + (if HasFlag(dtTp, Config) then ExcelsAtDir(host, GetGameDataExcelDir(host, Config), tps, mainExcelName) else [])
  }

  /** GetAllGameDataExcels: one scan per type flag that `dtTp` carries. */
  method GetAllGameDataExcels(host: Host, dtTp: int, tps: int, mainExcelName: Option<string>)
    returns (result: seq<string>)
    ensures result == AllExcels(host, dtTp, tps, mainExcelName)
  {
    result := [];
    if HasFlag(dtTp, DataTable) {
      var files := GetGameDataExcelAtDir(host, GetGameDataExcelDir(host, DataTable), tps, mainExcelName);
      assert result + files == files;
      result := result + files;
    }
    if HasFlag(dtTp, Config) {
      var files := GetGameDataExcelAtDir(host, GetGameDataExcelDir(host, Config), tps, mainExcelName);
      result := result + files;
    } else {
      assert result + [] == result;
    }
  }

  /**
   * Config workbooks have no directory of their own, so a scan for the Config
   * type alone finds nothing, whatever is on disk; configs are found only when
   * they sit under the data-table directory and the DataTable flag is set.
   */
  lemma ConfigScanFindsNothing(host: Host, tps: int, mainExcelName: Option<string>)
    ensures AllExcels(host, Config, tps, mainExcelName) == []
  {
  }

  /** The main file, then the candidates that are A/B files of it, in candidate order. */
  function KeepABFiles(mainExcelFile: string, candidates: seq<string>): (files: seq<string>)
    ensures |files| > 0 && files[0] == mainExcelFile
  {
    [mainExcelFile] + Select(candidates, AbFilesOf(mainExcelFile))
  }

  /** After the main file, the kept list holds only A/B files of it. */
  lemma KeepABFilesAreABFiles(mainExcelFile: string, candidates: seq<string>, i: nat)
    requires 1 <= i < |KeepABFiles(mainExcelFile, candidates)|
    ensures IsABTestFileOf(KeepABFiles(mainExcelFile, candidates)[i], mainExcelFile)
  {
    var selected := Select(candidates, AbFilesOf(mainExcelFile));
    SelectMembership(candidates, AbFilesOf(mainExcelFile));
    assert KeepABFiles(mainExcelFile, candidates)[i] == selected[i - 1];
    assert selected[i - 1] in selected;
    AbFilesOfApply(mainExcelFile, selected[i - 1]);
  }

  /** The private GetGameDataExcelWithABFiles(tp, mainExcelFile): the main file, then its A/B files. */
  function WithABFiles(host: Host, tp: int, mainExcelFile: string): (files: seq<string>)
    ensures |files| > 0 && files[0] == mainExcelFile
  {
    KeepABFiles(mainExcelFile, AllExcels(host, tp, ABTestFile, Some(NameNoExt(mainExcelFile))))
  }

  /** The public GetGameDataExcelWithABFiles: each main file expanded in turn, in the given order. */
  function AllWithABFiles(host: Host, tp: int, mainFiles: seq<string>): seq<string> {
    if |mainFiles| == 0 then []
    else AllWithABFiles(host, tp, mainFiles[..|mainFiles| - 1]) + WithABFiles(host, tp, mainFiles[|mainFiles| - 1])
  }

  lemma AllWithABFilesStep(host: Host, tp: int, mainFiles: seq<string>, k: nat)
    requires k < |mainFiles|
    ensures AllWithABFiles(host, tp, mainFiles[..k + 1]) ==
            AllWithABFiles(host, tp, mainFiles[..k]) + WithABFiles(host, tp, mainFiles[k])
  {
    assert mainFiles[..k + 1][..k] == mainFiles[..k];
  }

  /** GetGameDataExcelWithABFiles(tp, mainExcelFile): the main file, then the matching A/B files of the scan. */
  method GetGameDataExcelWithABFilesOf(host: Host, tp: int, mainExcelFile: string) returns (result: seq<string>)
    ensures result == WithABFiles(host, tp, mainExcelFile)
  {
    var excelName := NameNoExt(mainExcelFile);
    var allAbFiles := GetAllGameDataExcels(host, tp, ABTestFile, Some(excelName));
    result := CollectABFiles(mainExcelFile, allAbFiles);
  }

  /** The loop of GetGameDataExcelWithABFiles(tp, mainExcelFile) over the scanned A/B files. */
  method CollectABFiles(mainExcelFile: string, allAbFiles: seq<string>) returns (result: seq<string>)
    ensures result == KeepABFiles(mainExcelFile, allAbFiles)
  {
    result := [mainExcelFile];
    ghost var selected: seq<string> := [];
    var k := 0;
    while k < |allAbFiles|
      invariant 0 <= k <= |allAbFiles|
      invariant selected == Select(allAbFiles[..k], AbFilesOf(mainExcelFile))
      invariant result == [mainExcelFile] + selected
    {
      var item := allAbFiles[k];
      AbFilesStep(allAbFiles, k, mainExcelFile);
      if IsABTestFileOf(item, mainExcelFile) {
        ConcatAssoc([mainExcelFile], selected, [item]);
        result := result + [item];
        selected := selected + [item];
      }
      k := k + 1;
    }
    assert allAbFiles[..k] == allAbFiles;
  }

  /** GetGameDataExcelWithABFiles(tp, mainFiles): the expansions of all main files, concatenated. */
  method GetGameDataExcelWithABFiles(host: Host, tp: int, mainFiles: seq<string>) returns (result: seq<string>)
    ensures result == AllWithABFiles(host, tp, mainFiles)
  {
    result := [];
    var k := 0;
    while k < |mainFiles|
      invariant 0 <= k <= |mainFiles|
      invariant result == AllWithABFiles(host, tp, mainFiles[..k])
    {
      AllWithABFilesStep(host, tp, mainFiles, k);
      var files := GetGameDataExcelWithABFilesOf(host, tp, mainFiles[k]);
      result := result + files;
      k := k + 1;
    }
    assert mainFiles[..k] == mainFiles;
  }

  /**
   * The expansion keeps every main file and adds nothing but A/B files of the
   * main files: whatever is listed is a main file or an A/B file of one.
   */
  lemma {:induction false} AllWithABFilesCovers(host: Host, tp: int, mainFiles: seq<string>)
    ensures forall m :: m in mainFiles ==> m in AllWithABFiles(host, tp, mainFiles)
    ensures forall f :: f in AllWithABFiles(host, tp, mainFiles) ==>
              f in mainFiles || exists m :: m in mainFiles && IsABTestFileOf(f, m)
    decreases |mainFiles|
  {
    if |mainFiles| > 0 {
      var init, last := mainFiles[..|mainFiles| - 1], mainFiles[|mainFiles| - 1];
      assert mainFiles == init + [last];
      AllWithABFilesCovers(host, tp, init);
      var tail := WithABFiles(host, tp, last);
      forall f | f in tail ensures f in mainFiles || exists m :: m in mainFiles && IsABTestFileOf(f, m) {
        var i :| 0 <= i < |tail| && tail[i] == f;
        if i > 0 {
          KeepABFilesAreABFiles(last, AllExcels(host, tp, ABTestFile, Some(NameNoExt(last))), i);
        }
      }
    }
  }

  // ---- Worksheet to text (ExcelSheet2TxtFile) ----

  predicate IsLineBreak(c: char) {
    c == '\r' || c == '\n'
  }

  /** Regex.Replace(cell, "[\r\n]+", ""): every carriage return and line feed removed. */
  function RemoveLineBreaks(cell: string): (r: string)
    ensures |r| <= |cell|
    ensures forall i :: 0 <= i < |r| ==> !IsLineBreak(r[i])
    ensures (forall i :: 0 <= i < |cell| ==> !IsLineBreak(cell[i])) ==> r == cell
  {
    if |cell| == 0 then ""
    else RemoveLineBreaks(cell[..|cell| - 1]) + (if IsLineBreak(cell[|cell| - 1]) then "" else [cell[|cell| - 1]])
  }

  /** The cells of a row as they are written: line breaks removed. */
  function CleanCells(row: seq<string>): (cells: seq<string>)
    ensures |cells| == |row|
  {
    seq(|row|, i requires 0 <= i < |row| => RemoveLineBreaks(row[i]))
  }

  /** `fields` joined with one tab between neighbours. */
  function JoinTab(fields: seq<string>): string
    decreases |fields|
  {
    if |fields| == 0 then ""
    else if |fields| == 1 then fields[0]
    else JoinTab(fields[..|fields| - 1]) + "\t" + fields[|fields| - 1]
  }

  /** The text of one row: its cleaned cells separated by tabs. */
  function RowLine(row: seq<string>): string {
    JoinTab(CleanCells(row))
  }

  /** What the exported text holds for row i: nothing for a blank row, else its line, then a line break unless it is the last row. */
  function Piece(rows: seq<seq<string>>, i: nat, newline: string): string
    requires i < |rows|
  {
    var line := RowLine(rows[i]);
    if IsBlank(line) then "" else line + (if i < |rows| - 1 then newline else "")
  }

  /** Environment.NewLine: "\n" on Unix-like hosts, "\r\n" on Windows. */
  predicate IsNewLine(newline: string) {
    newline == "\n" || newline == "\r\n"
  }

  /** The part of the text each row contributes, in row order. */
  function Pieces(rows: seq<seq<string>>, newline: string): (pieces: seq<string>)
    ensures |pieces| == |rows|
  {
    seq(|rows|, i requires 0 <= i < |rows| => Piece(rows, i, newline))
  }

  lemma PieceAt(rows: seq<seq<string>>, i: nat, newline: string)
    requires i < |rows|
    ensures Pieces(rows, newline)[i] == Piece(rows, i, newline)
  {
  }

  /** The concatenation of the first k pieces. */
  function Joined(pieces: seq<string>, k: nat): string
    requires k <= |pieces|
  {
    if k == 0 then "" else Joined(pieces, k - 1) + pieces[k - 1]
  }

  /** One more row: a blank row adds nothing, any other its line, then a line break unless it is the last row. */
  lemma JoinedStep(rows: seq<seq<string>>, k: nat, newline: string)
    requires k < |rows|
    ensures IsBlank(RowLine(rows[k])) ==> Joined(Pieces(rows, newline), k + 1) == Joined(Pieces(rows, newline), k)
    ensures !IsBlank(RowLine(rows[k])) && k < |rows| - 1 ==>
              Joined(Pieces(rows, newline), k + 1) == Joined(Pieces(rows, newline), k) + RowLine(rows[k]) + newline
    ensures !IsBlank(RowLine(rows[k])) && k == |rows| - 1 ==>
              Joined(Pieces(rows, newline), k + 1) == Joined(Pieces(rows, newline), k) + RowLine(rows[k])
  {
    var before, line := Joined(Pieces(rows, newline), k), RowLine(rows[k]);
    PieceAt(rows, k, newline);
    if IsBlank(line) {
      assert before + "" == before;
    } else if k < |rows| - 1 {
      ConcatAssoc(before, line, newline);
    } else {
      assert line + "" == line;
    }
  }

  /** The text ExcelSheet2TxtFile writes for a sheet whose used range holds `rows`. */
  function SheetText(rows: seq<seq<string>>, newline: string): string {
    Joined(Pieces(rows, newline), |rows|)
  }

  /** The inner loop over one row's columns: each cell, then a tab unless it is the last column. */
  method BuildLine(row: seq<string>) returns (lineTxt: string)
    ensures lineTxt == RowLine(row)
  {
    var cells := CleanCells(row);
    lineTxt := "";
    var col := 0;
    while col < |row|
      invariant 0 <= col <= |row|
      invariant lineTxt == if col == 0 then "" else JoinTab(cells[..col]) + (if col < |row| then "\t" else "")
    {
      var cellContent := row[col];
      if |cellContent| > 0 {
        cellContent := RemoveLineBreaks(cellContent);
      }
      assert cellContent == cells[col];
      assert cells[..col + 1][..col] == cells[..col];
      lineTxt := lineTxt + cellContent;
      if col < |row| - 1 {
        lineTxt := lineTxt + "\t";
      }
      col := col + 1;
    }
    if col > 0 {
      assert cells[..col] == cells;
    }
  }

  /**
   * ExcelSheet2TxtFile: the rows of the used range in order, blank rows
   * skipped, a line break after each kept row except the sheet's last. A sheet
   * without a used range (no rows) makes the conversion fail, which is None.
   * `newline` is Environment.NewLine.
   */
  method ExcelSheetToText(rows: seq<seq<string>>, newline: string) returns (text: Option<string>)
    ensures |rows| == 0 <==> text.None?
    ensures text.Some? ==> text.value == SheetText(rows, newline)
  {
    if |rows| == 0 {
      return None;
    }
    var excelTxt := "";
    var rowIndex := 0;
    while rowIndex < |rows|
      invariant 0 <= rowIndex <= |rows|
      invariant excelTxt == Joined(Pieces(rows, newline), rowIndex)
    {
      var lineStr := BuildLine(rows[rowIndex]);
      JoinedStep(rows, rowIndex, newline);
      if !IsBlank(lineStr) {
        excelTxt := excelTxt + lineStr;
        if rowIndex < |rows| - 1 {
          excelTxt := excelTxt + newline;
        }
      }
      rowIndex := rowIndex + 1;
    }
    text := Some(excelTxt);
  }

  /** How often `c` occurs in `s`. */
  function Count(s: string, c: char): nat {
    if |s| == 0 then 0 else Count(s[..|s| - 1], c) + (if s[|s| - 1] == c then 1 else 0)
  }

  lemma {:induction false} CountAppend(a: string, b: string, c: char)
    ensures Count(a + b, c) == Count(a, c) + Count(b, c)
    decreases |b|
  {
    if |b| > 0 {
      assert (a + b)[..|a + b| - 1] == a + b[..|b| - 1];
      CountAppend(a, b[..|b| - 1], c);
    } else {
      assert a + b == a;
    }
  }

  /** A joined row holds exactly one tab fewer than it has fields, when no field holds a tab. */
  lemma {:induction false} JoinTabCount(fields: seq<string>)
    requires |fields| > 0
    requires forall i :: 0 <= i < |fields| ==> Count(fields[i], '\t') == 0
    ensures Count(JoinTab(fields), '\t') == |fields| - 1
    decreases |fields|
  {
    if |fields| > 1 {
      var init := fields[..|fields| - 1];
      JoinTabCount(init);
      CountAppend(JoinTab(init), "\t", '\t');
      CountAppend(JoinTab(init) + "\t", fields[|fields| - 1], '\t');
    }
  }

  /** Each serialised row of n columns holds n - 1 tab separators, for cells without tabs. */
  lemma RowLineTabs(row: seq<string>)
    requires |row| > 0
    requires forall i :: 0 <= i < |row| ==> Count(RemoveLineBreaks(row[i]), '\t') == 0
    ensures Count(RowLine(row), '\t') == |row| - 1
  {
    JoinTabCount(CleanCells(row));
  }

  /** No line of the text holds a carriage return or line feed of a cell. */
  lemma {:induction false} JoinTabNoBreaks(fields: seq<string>)
    requires forall i, j :: 0 <= i < |fields| && 0 <= j < |fields[i]| ==> !IsLineBreak(fields[i][j])
    ensures forall j :: 0 <= j < |JoinTab(fields)| ==> !IsLineBreak(JoinTab(fields)[j])
    decreases |fields|
  {
    if |fields| > 1 {
      var init := fields[..|fields| - 1];
      JoinTabNoBreaks(init);
      var a, b := JoinTab(init) + "\t", fields[|fields| - 1];
      assert JoinTab(fields) == a + b;
      forall j | 0 <= j < |a + b| ensures !IsLineBreak((a + b)[j]) {
        if j >= |a| {
          assert (a + b)[j] == fields[|fields| - 1][j - |a|];
        }
      }
    }
  }

  lemma RowLineNoBreaks(row: seq<string>)
    ensures forall j :: 0 <= j < |RowLine(row)| ==> !IsLineBreak(RowLine(row)[j])
  {
    JoinTabNoBreaks(CleanCells(row));
  }

  // ---- Reading the text back (StreamReader.ReadLine) ----

  /** The first carriage return or line feed at or after `i`, or |s|. */
  function FirstBreakFrom(s: string, i: nat): (j: nat)
    requires i <= |s|
    ensures i <= j <= |s|
    ensures j < |s| ==> IsLineBreak(s[j])
    ensures forall k :: i <= k < j ==> !IsLineBreak(s[k])
    decreases |s| - i
  {
    if i == |s| || IsLineBreak(s[i]) then i else FirstBreakFrom(s, i + 1)
  }

  /**
   * Repeated StreamReader.ReadLine: a line ends at "\r\n", "\r" or "\n"; a
   * final line without a terminator is returned too, an empty remainder is not.
   */
  function ReadLines(s: string): seq<string>
    decreases |s|
  {
    if |s| == 0 then []
    else
      var j := FirstBreakFrom(s, 0);
      if j == |s| then [s] else [s[..j]] + ReadLines(s[NextLineStart(s, j)..])
  }

  /** Where the next line starts after the break at j: "\r\n" is one terminator. */
  function NextLineStart(s: string, j: nat): (n: nat)
    requires j < |s|
    ensures j < n <= |s|
  {
    if s[j] == '\r' && j + 1 < |s| && s[j + 1] == '\n' then j + 2 else j + 1
  }

  lemma ReadLinesHead(s: string)
    requires FirstBreakFrom(s, 0) < |s|
    ensures ReadLines(s) == [s[..FirstBreakFrom(s, 0)]] + ReadLines(s[NextLineStart(s, FirstBreakFrom(s, 0))..])
  {
  }

  /** The text is empty or ends with a line feed. */
  predicate EndsWithLineFeed(t: string) {
    |t| > 0 ==> t[|t| - 1] == '\n'
  }

  lemma AppendEndsWithLineFeed(a: string, b: string)
    requires EndsWithLineFeed(a) && EndsWithLineFeed(b)
    ensures EndsWithLineFeed(a + b)
  {
    if |b| == 0 {
      assert a + b == a;
    }
  }

  /** A text that is empty or ends with a line feed reads as its own lines, whatever follows. */
  lemma {:induction false} ReadLinesAppend(a: string, b: string)
    requires EndsWithLineFeed(a)
    ensures ReadLines(a + b) == ReadLines(a) + ReadLines(b)
    decreases |a|
  {
    if |a| == 0 {
      assert a + b == b;
    } else {
      var line, n := FirstLineOfAppend(a, b);
      ReadLinesAppend(a[n..], b);
      ConcatAssoc([line], ReadLines(a[n..]), ReadLines(b));
    }
  }

  /** The first line of `a + b` is the first line of `a`, which ends with a line feed; both continue after it. */
  lemma FirstLineOfAppend(a: string, b: string) returns (line: string, n: nat)
    requires EndsWithLineFeed(a) && |a| > 0
    ensures 0 < n <= |a| && EndsWithLineFeed(a[n..])
    ensures ReadLines(a) == [line] + ReadLines(a[n..])
    ensures ReadLines(a + b) == [line] + ReadLines(a[n..] + b)
  {
    var s := a + b;
    FirstBreakPrefix(a, b, 0);
    var j := FirstBreakFrom(a, 0);
    NextLineStartPrefix(a, b, j);
    n := NextLineStart(a, j);
    line := a[..j];
    ReadLinesHead(s);
    ReadLinesHead(a);
    assert s[..j] == line;
    assert s[n..] == a[n..] + b;
  }

  /** A break inside `a` is handled the same way in `a + b`: `a` cannot end in a lone carriage return. */
  lemma NextLineStartPrefix(a: string, b: string, j: nat)
    requires EndsWithLineFeed(a) && j < |a|
    ensures j < |a + b| && NextLineStart(a + b, j) == NextLineStart(a, j)
  {
    assert (a + b)[j] == a[j];
    if j + 1 < |a| {
      assert (a + b)[j + 1] == a[j + 1];
    }
  }

  /** Within `a`, the first break is found the same way in `a + b`, when `a` ends in one. */
  lemma {:induction false} FirstBreakPrefix(a: string, b: string, i: nat)
    requires i < |a| && IsLineBreak(a[|a| - 1])
    ensures FirstBreakFrom(a + b, i) == FirstBreakFrom(a, i)
    decreases |a| - i
  {
    assert (a + b)[i] == a[i];
    if !IsLineBreak(a[i]) {
      FirstBreakPrefix(a, b, i + 1);
    }
  }

  /** A non-empty line without breaks reads back as itself, with or without its terminator. */
  lemma ReadOneLine(line: string, newline: string)
    requires |line| > 0
    requires forall j :: 0 <= j < |line| ==> !IsLineBreak(line[j])
    requires newline == "\n" || newline == "\r\n" || newline == ""
    ensures ReadLines(line + newline) == [line]
  {
    var s := line + newline;
    FirstBreakLine(s, line, 0);
    assert FirstBreakFrom(s, 0) == |line|;
    assert s[..|line|] == line;
    if newline != "" {
      assert NextLineStart(s, |line|) == |s|;
      ReadLinesHead(s);
      assert s[|s|..] == "";
    } else {
      assert s == line;
    }
  }

  /** The first break in `line + rest`, for a break-free line, is at or after the line's end. */
  lemma {:induction false} FirstBreakLine(s: string, line: string, i: nat)
    requires i <= |line| <= |s| && s[..|line|] == line
    requires forall j :: 0 <= j < |line| ==> !IsLineBreak(line[j])
    requires |line| < |s| ==> IsLineBreak(s[|line|])
    ensures FirstBreakFrom(s, i) == |line|
    decreases |line| - i
  {
    if i < |line| {
      assert s[i] == line[i];
      FirstBreakLine(s, line, i + 1);
    }
  }

  /** The lines of the non-blank rows among the first k, in order. */
  function KeptLines(rows: seq<seq<string>>, k: nat): seq<string>
    requires k <= |rows|
  {
    if k == 0 then [] else KeptLines(rows, k - 1) + KeptLine(rows[k - 1])
  }

  /** The line a row leaves in the text: none for a blank row. */
  function KeptLine(row: seq<string>): seq<string> {
    var line := RowLine(row);
    if IsBlank(line) then [] else [line]
  }

  /** Row i's part of the text reads back as its line, or as nothing for a blank row. */
  lemma ReadPiece(rows: seq<seq<string>>, i: nat, newline: string)
    requires i < |rows|
    requires IsNewLine(newline)
    ensures ReadLines(Piece(rows, i, newline)) == KeptLine(rows[i])
  {
    var line := RowLine(rows[i]);
    if !IsBlank(line) {
      RowLineNoBreaks(rows[i]);
      ReadOneLine(line, if i < |rows| - 1 then newline else "");
    }
  }

  lemma ReadPieceAt(rows: seq<seq<string>>, i: nat, newline: string)
    requires i < |rows|
    requires IsNewLine(newline)
    ensures ReadLines(Pieces(rows, newline)[i]) == KeptLine(rows[i])
  {
    PieceAt(rows, i, newline);
    ReadPiece(rows, i, newline);
  }

  /** Every row but the last leaves nothing or a line ending in a line feed. */
  lemma PieceEndsWithLineFeed(rows: seq<seq<string>>, i: nat, newline: string)
    requires i < |rows| - 1
    requires IsNewLine(newline)
    ensures EndsWithLineFeed(Piece(rows, i, newline))
  {
  }

  /** The lines of each of the first k pieces, read one piece at a time. */
  function ReadEach(pieces: seq<string>, k: nat): seq<string>
    requires k <= |pieces|
  {
    if k == 0 then [] else ReadEach(pieces, k - 1) + ReadLines(pieces[k - 1])
  }

  /** Pieces that each end with a line feed join to a text that does. */
  lemma {:induction false} JoinedEndsWithLineFeed(pieces: seq<string>, k: nat)
    requires k <= |pieces|
    requires forall i :: 0 <= i < k ==> EndsWithLineFeed(pieces[i])
    ensures EndsWithLineFeed(Joined(pieces, k))
  {
    if k > 0 {
      JoinedEndsWithLineFeed(pieces, k - 1);
      AppendEndsWithLineFeed(Joined(pieces, k - 1), pieces[k - 1]);
    }
  }

  /** Pieces that all but the last end with a line feed read back piece by piece. */
  lemma {:induction false} ReadJoined(pieces: seq<string>, k: nat)
    requires k <= |pieces|
    requires forall i :: 0 <= i < k - 1 ==> EndsWithLineFeed(pieces[i])
    ensures ReadLines(Joined(pieces, k)) == ReadEach(pieces, k)
  {
    if k > 0 {
      ReadJoined(pieces, k - 1);
      JoinedEndsWithLineFeed(pieces, k - 1);
      ReadLinesAppend(Joined(pieces, k - 1), pieces[k - 1]);
    }
  }

  /** Pieces that each read back as their row's kept line, read one at a time, give the lines of the non-blank rows. */
  lemma {:induction false} ReadEachKept(pieces: seq<string>, rows: seq<seq<string>>, k: nat)
    requires k <= |pieces| && k <= |rows|
    requires forall i :: 0 <= i < k ==> ReadLines(pieces[i]) == KeptLine(rows[i])
    ensures ReadEach(pieces, k) == KeptLines(rows, k)
  {
    if k > 0 {
      ReadEachKept(pieces, rows, k - 1);
      var read, kept := ReadLines(pieces[k - 1]), KeptLine(rows[k - 1]);
      assert read == kept;
      assert ReadEach(pieces, k) == ReadEach(pieces, k - 1) + read;
      assert KeptLines(rows, k) == KeptLines(rows, k - 1) + kept;
    }
  }

  /**
   * Reading back the exported text yields exactly the lines of the non-blank
   * rows, in sheet order: the skipped rows leave no empty line behind.
   */
  lemma SheetReadsBack(rows: seq<seq<string>>, newline: string)
    requires IsNewLine(newline)
    ensures ReadLines(SheetText(rows, newline)) == KeptLines(rows, |rows|)
  {
    var pieces := Pieces(rows, newline);
    forall i | 0 <= i < |rows| - 1
      ensures EndsWithLineFeed(pieces[i])
    {
      PieceEndsWithLineFeed(rows, i, newline);
    }
    forall i | 0 <= i < |rows|
      ensures ReadLines(pieces[i]) == KeptLine(rows[i])
    {
      ReadPieceAt(rows, i, newline);
    }
    ReadJoined(pieces, |rows|);
    ReadEachKept(pieces, rows, |rows|);
  }

  // ---- Config export (ExportConfig2BytesFile) ----

  /** None of the characters of `s` is one of `seps`. */
  predicate NoneOf(s: string, seps: set<char>) {
    forall j :: 0 <= j < |s| ==> s[j] !in seps
  }

  /** The last position among the first `n` characters that holds one of `seps`, or -1. */
  function LastIndexIn(s: string, seps: set<char>, n: nat): (i: int)
    requires n <= |s|
    ensures -1 <= i < n
    ensures i >= 0 ==> s[i] in seps
    ensures forall j :: i < j < n ==> s[j] !in seps
  {
    if n == 0 then -1
    else if s[n - 1] in seps then n - 1
    else LastIndexIn(s, seps, n - 1)
  }

  /** String.Split(seps, StringSplitOptions.None): the pieces between separators, empty pieces kept. */
  function Split(s: string, seps: set<char>): (fields: seq<string>)
    ensures |fields| >= 1
    ensures forall k :: 0 <= k < |fields| ==> NoneOf(fields[k], seps)
    decreases |s|
  {
    var i := LastIndexIn(s, seps, |s|);
    if i < 0 then [s] else Split(s[..i], seps) + [s[i + 1..]]
  }

  /** The last separator of `a + [x] + b`, when `b` holds none, is the `x` between. */
  lemma LastIndexInBetween(a: string, x: char, b: string, seps: set<char>)
    requires x in seps && NoneOf(b, seps)
    ensures LastIndexIn(a + [x] + b, seps, |a + [x] + b|) == |a|
  {
    var s := a + [x] + b;
    assert s[|a|] == x;
    assert forall j :: |a| < j < |s| ==> s[j] == b[j - |a| - 1];
  }

  /** Splitting a tab-joined row gives back its fields, when the tab is a separator and no field holds one. */
  lemma {:induction false} SplitJoinTab(fields: seq<string>, seps: set<char>)
    requires |fields| > 0 && '\t' in seps
    requires forall k :: 0 <= k < |fields| ==> NoneOf(fields[k], seps)
    ensures Split(JoinTab(fields), seps) == fields
    decreases |fields|
  {
    if |fields| == 1 {
      assert LastIndexIn(fields[0], seps, |fields[0]|) == -1;
    } else {
      var init, last := fields[..|fields| - 1], fields[|fields| - 1];
      var a := JoinTab(init);
      assert JoinTab(fields) == a + ['\t'] + last;
      LastIndexInBetween(a, '\t', last, seps);
      var s := a + ['\t'] + last;
      assert s[..|a|] == a;
      assert s[|a| + 1..] == last;
      SplitJoinTab(init, seps);
      assert fields == init + [last];
    }
  }

  /** A blank line and a comment line are skipped without a message. */
  predicate Skipped(line: string, commentPrefix: string) {
    IsBlank(line) || StartsWith(line, commentPrefix)
  }

  /** What one line contributes: its name (field 1) and value (field 3), when it has exactly four fields. */
  function LineRecord(line: string, commentPrefix: string, seps: set<char>): (r: seq<string>)
    ensures |r| == 0 || |r| == 2
  {
    if Skipped(line, commentPrefix) then []
    else
      var keyValues := Split(line, seps);
      if |keyValues| != 4 then [] else [keyValues[1], keyValues[3]]
  }

  /** A line that is neither blank nor a comment and does not have four fields is logged as unparsable. */
  predicate Rejected(line: string, commentPrefix: string, seps: set<char>) {
    !Skipped(line, commentPrefix) && |Split(line, seps)| != 4
  }

  /** The strings written for the first n lines, in order: a name then a value per accepted line. */
  function ConfigRecords(lines: seq<string>, n: nat, commentPrefix: string, seps: set<char>): seq<string>
    requires n <= |lines|
  {
    if n == 0 then [] else ConfigRecords(lines, n - 1, commentPrefix, seps) + LineRecord(lines[n - 1], commentPrefix, seps)
  }

  /** How many of the first n lines are logged as unparsable. */
  function ConfigRejects(lines: seq<string>, n: nat, commentPrefix: string, seps: set<char>): nat
    requires n <= |lines|
  {
    if n == 0 then 0 else ConfigRejects(lines, n - 1, commentPrefix, seps) + (if Rejected(lines[n - 1], commentPrefix, seps) then 1 else 0)
  }

  /** Every accepted line writes a name and a value, so the output is name/value pairs, at most one per line. */
  lemma {:induction false} ConfigRecordsArePairs(lines: seq<string>, n: nat, commentPrefix: string, seps: set<char>)
    requires n <= |lines|
    ensures |ConfigRecords(lines, n, commentPrefix, seps)| % 2 == 0
    ensures |ConfigRecords(lines, n, commentPrefix, seps)| <= 2 * n
    ensures ConfigRejects(lines, n, commentPrefix, seps) <= n
  {
    if n > 0 {
      ConfigRecordsArePairs(lines, n - 1, commentPrefix, seps);
      var prev, last := ConfigRecords(lines, n - 1, commentPrefix, seps), LineRecord(lines[n - 1], commentPrefix, seps);
      assert |ConfigRecords(lines, n, commentPrefix, seps)| == |prev| + |last|;
      EvenPlusPair(|prev|, |last|);
    }
  }

  lemma EvenPlusPair(a: nat, b: nat)
    requires a % 2 == 0 && (b == 0 || b == 2)
    ensures (a + b) % 2 == 0
  {
  }

  /**
   * ExportConfig2BytesFile: for an existing text file (None when it is
   * missing), read it line by line and write name and value of every line of
   * exactly four fields; `commentPrefix` and `seps` are DataTableProcessor's
   * CommentLineSeparator and DataSplitSeparators. `logged` counts the error messages.
   */
  method ExportConfig2BytesFile(configText: Option<string>, commentPrefix: string, seps: set<char>)
    returns (ok: bool, written: seq<string>, logged: nat)
    ensures ok <==> configText.Some?
    ensures !ok ==> written == [] && logged == 0
    ensures ok ==> written == RecordsOf(ReadLines(configText.value), commentPrefix, seps)
    ensures ok ==> logged == RejectsOf(ReadLines(configText.value), commentPrefix, seps)
  {
    if configText.None? {
      return false, [], 0;
    }
    var lines := ReadLines(configText.value);
    written, logged := [], 0;
    var k := 0;
    while k < |lines|
      invariant 0 <= k <= |lines|
      invariant written == ConfigRecords(lines, k, commentPrefix, seps)
      invariant logged == ConfigRejects(lines, k, commentPrefix, seps)
    {
      var line := lines[k];
      ConfigStep(lines, k, commentPrefix, seps);
      k := k + 1;
      if IsBlank(line) || StartsWith(line, commentPrefix) {
        continue;
      }
      var keyValues := Split(line, seps);
      if |keyValues| != 4 {
        logged := logged + 1;
        continue;
      }
      var configName := keyValues[1];
      var configValue := keyValues[3];
      written := written + [configName, configValue];
    }
    ok := true;
  }

  /** Line k is skipped, logged, or adds its name and value, as the loop body does. */
  lemma ConfigStep(lines: seq<string>, k: nat, commentPrefix: string, seps: set<char>)
    requires k < |lines|
    ensures Skipped(lines[k], commentPrefix) ==>
              && ConfigRecords(lines, k + 1, commentPrefix, seps) == ConfigRecords(lines, k, commentPrefix, seps)
              && ConfigRejects(lines, k + 1, commentPrefix, seps) == ConfigRejects(lines, k, commentPrefix, seps)
    ensures !Skipped(lines[k], commentPrefix) && |Split(lines[k], seps)| != 4 ==>
              && ConfigRecords(lines, k + 1, commentPrefix, seps) == ConfigRecords(lines, k, commentPrefix, seps)
              && ConfigRejects(lines, k + 1, commentPrefix, seps) == ConfigRejects(lines, k, commentPrefix, seps) + 1
    ensures !Skipped(lines[k], commentPrefix) && |Split(lines[k], seps)| == 4 ==>
              && ConfigRecords(lines, k + 1, commentPrefix, seps) ==
                 ConfigRecords(lines, k, commentPrefix, seps) + [Split(lines[k], seps)[1], Split(lines[k], seps)[3]]
              && ConfigRejects(lines, k + 1, commentPrefix, seps) == ConfigRejects(lines, k, commentPrefix, seps)
  {
    var before := ConfigRecords(lines, k, commentPrefix, seps);
    if Skipped(lines[k], commentPrefix) || |Split(lines[k], seps)| != 4 {
      assert before + [] == before;
    }
  }

  /** The first n lines of `a + b`, for n within `a`, are parsed as those of `a`. */
  lemma {:induction false} ConfigPrefix(a: seq<string>, b: seq<string>, n: nat, commentPrefix: string, seps: set<char>)
    requires n <= |a|
    ensures ConfigRecords(a + b, n, commentPrefix, seps) == ConfigRecords(a, n, commentPrefix, seps)
    ensures ConfigRejects(a + b, n, commentPrefix, seps) == ConfigRejects(a, n, commentPrefix, seps)
  {
    if n > 0 {
      ConfigPrefix(a, b, n - 1, commentPrefix, seps);
      assert (a + b)[n - 1] == a[n - 1];
    }
  }

  /** Parsing `a` and then the first n lines of `b` writes the two parts' records one after the other. */
  lemma {:induction false} ConfigAppend(a: seq<string>, b: seq<string>, n: nat, commentPrefix: string, seps: set<char>)
    requires n <= |b|
    ensures ConfigRecords(a + b, |a| + n, commentPrefix, seps) ==
            ConfigRecords(a, |a|, commentPrefix, seps) + ConfigRecords(b, n, commentPrefix, seps)
  {
    if n == 0 {
      ConfigPrefix(a, b, |a|, commentPrefix, seps);
    } else {
      ConfigAppend(a, b, n - 1, commentPrefix, seps);
      assert (a + b)[|a| + n - 1] == b[n - 1];
      ConcatAssoc(ConfigRecords(a, |a|, commentPrefix, seps), ConfigRecords(b, n - 1, commentPrefix, seps),
                  LineRecord(b[n - 1], commentPrefix, seps));
    }
  }

  /** Parsing `a` and then the first n lines of `b` logs the two parts' errors together. */
  lemma {:induction false} RejectsAppend(a: seq<string>, b: seq<string>, n: nat, commentPrefix: string, seps: set<char>)
    requires n <= |b|
    ensures ConfigRejects(a + b, |a| + n, commentPrefix, seps) ==
            ConfigRejects(a, |a|, commentPrefix, seps) + ConfigRejects(b, n, commentPrefix, seps)
  {
    if n == 0 {
      ConfigPrefix(a, b, |a|, commentPrefix, seps);
    } else {
      RejectsAppend(a, b, n - 1, commentPrefix, seps);
      assert (a + b)[|a| + n - 1] == b[n - 1];
      var x := if Rejected(b[n - 1], commentPrefix, seps) then 1 else 0;
      SumStep(ConfigRejects(a + b, |a| + n, commentPrefix, seps), ConfigRejects(a + b, |a| + n - 1, commentPrefix, seps),
              ConfigRejects(a, |a|, commentPrefix, seps), ConfigRejects(b, n - 1, commentPrefix, seps),
              ConfigRejects(b, n, commentPrefix, seps), x);
    }
  }

  /** The strings written for all of `lines`. */
  function RecordsOf(lines: seq<string>, commentPrefix: string, seps: set<char>): seq<string> {
    ConfigRecords(lines, |lines|, commentPrefix, seps)
  }

  /** How many of `lines` are logged as unparsable. */
  function RejectsOf(lines: seq<string>, commentPrefix: string, seps: set<char>): nat {
    ConfigRejects(lines, |lines|, commentPrefix, seps)
  }

  /** Parsing two texts' lines one after the other writes and logs what the two parts do, in order. */
  lemma RecordsOfAppend(a: seq<string>, b: seq<string>, commentPrefix: string, seps: set<char>)
    ensures RecordsOf(a + b, commentPrefix, seps) == RecordsOf(a, commentPrefix, seps) + RecordsOf(b, commentPrefix, seps)
    ensures RejectsOf(a + b, commentPrefix, seps) == RejectsOf(a, commentPrefix, seps) + RejectsOf(b, commentPrefix, seps)
  {
    ConfigAppend(a, b, |b|, commentPrefix, seps);
    RejectsAppend(a, b, |b|, commentPrefix, seps);
  }

  /** A config sheet has four columns per row: mark, key, remark, value. */
  predicate ConfigSheet(rows: seq<seq<string>>, seps: set<char>) {
    forall r :: 0 <= r < |rows| ==> ConfigRow(rows[r], seps)
  }

  /** A config row: four cells, none of which holds a separator once its line breaks are removed. */
  predicate ConfigRow(row: seq<string>, seps: set<char>) {
    |row| == 4 && forall c :: 0 <= c < 4 ==> NoneOf(RemoveLineBreaks(row[c]), seps)
  }

  /** What a four-column row should give: nothing for a blank or comment row, else its key and value. */
  function RowRecord(row: seq<string>, commentPrefix: string): seq<string> {
    if |row| != 4 || Skipped(RowLine(row), commentPrefix) then [] else [CleanCells(row)[1], CleanCells(row)[3]]
  }

  /** Key and value of the first k rows that are neither blank nor comment rows, in order. */
  function RowRecords(rows: seq<seq<string>>, k: nat, commentPrefix: string): seq<string>
    requires k <= |rows|
  {
    if k == 0 then [] else RowRecords(rows, k - 1, commentPrefix) + RowRecord(rows[k - 1], commentPrefix)
  }

  /** The line of one four-column row gives back its key and value and is not rejected. */
  lemma RecordOfRow(row: seq<string>, commentPrefix: string, seps: set<char>)
    requires ConfigRow(row, seps) && '\t' in seps
    ensures RecordsOf(KeptLine(row), commentPrefix, seps) == RowRecord(row, commentPrefix)
    ensures RejectsOf(KeptLine(row), commentPrefix, seps) == 0
  {
    var cells, line := CleanCells(row), RowLine(row);
    if IsBlank(line) {
      assert KeptLine(row) == [];
    } else {
      assert KeptLine(row) == [line];
      assert forall c :: 0 <= c < 4 ==> cells[c] == RemoveLineBreaks(row[c]);
      SplitJoinTab(cells, seps);
      RecordsOfOne(line, commentPrefix, seps);
    }
  }

  /** A single line writes its own record and is logged when it is rejected. */
  lemma RecordsOfOne(line: string, commentPrefix: string, seps: set<char>)
    ensures RecordsOf([line], commentPrefix, seps) == LineRecord(line, commentPrefix, seps)
    ensures RejectsOf([line], commentPrefix, seps) == if Rejected(line, commentPrefix, seps) then 1 else 0
  {
    assert [line][0] == line;
    assert ConfigRecords([line], 1, commentPrefix, seps) == ConfigRecords([line], 0, commentPrefix, seps) + LineRecord(line, commentPrefix, seps);
    assert ConfigRejects([line], 1, commentPrefix, seps) == ConfigRejects([line], 0, commentPrefix, seps) + (if Rejected(line, commentPrefix, seps) then 1 else 0);
  }

  lemma SumStep(p: nat, q: nat, r: nat, t: nat, u: nat, x: nat)
    requires p == q + x && q == r + t && u == t + x
    ensures p == r + u
  {
  }

  /** One more config row adds its key and value, and no error, to what the earlier rows' lines give. */
  lemma RecordsOfKeptStep(rows: seq<seq<string>>, k: nat, commentPrefix: string, seps: set<char>)
    requires 0 < k <= |rows| && '\t' in seps && ConfigRow(rows[k - 1], seps)
    ensures RecordsOf(KeptLines(rows, k - 1), commentPrefix, seps) == RowRecords(rows, k - 1, commentPrefix) ==>
              RecordsOf(KeptLines(rows, k), commentPrefix, seps) == RowRecords(rows, k, commentPrefix)
    ensures RejectsOf(KeptLines(rows, k), commentPrefix, seps) == RejectsOf(KeptLines(rows, k - 1), commentPrefix, seps)
  {
    RecordsOfAppend(KeptLines(rows, k - 1), KeptLine(rows[k - 1]), commentPrefix, seps);
    RecordOfRow(rows[k - 1], commentPrefix, seps);
  }

  /** The four-column rows kept from a sheet each give back their key and value, and none is rejected. */
  lemma {:induction false} RecordsOfKeptLines(rows: seq<seq<string>>, k: nat, commentPrefix: string, seps: set<char>)
    requires k <= |rows| && '\t' in seps && ConfigSheet(rows, seps)
    ensures RecordsOf(KeptLines(rows, k), commentPrefix, seps) == RowRecords(rows, k, commentPrefix)
  {
    if k > 0 {
      RecordsOfKeptLines(rows, k - 1, commentPrefix, seps);
      RecordsOfKeptStep(rows, k, commentPrefix, seps);
    }
  }

  /** No line kept from a config sheet is logged as unparsable. */
  lemma {:induction false} NoRejectsOfKeptLines(rows: seq<seq<string>>, k: nat, commentPrefix: string, seps: set<char>)
    requires k <= |rows| && '\t' in seps && ConfigSheet(rows, seps)
    ensures RejectsOf(KeptLines(rows, k), commentPrefix, seps) == 0
  {
    if k > 0 {
      NoRejectsOfKeptLines(rows, k - 1, commentPrefix, seps);
      RecordsOfKeptStep(rows, k, commentPrefix, seps);
    }
  }

  /**
   * Exporting a config sheet to text and then parsing that text writes, for
   * every row that is neither blank nor a comment, its key (column 1) and value
   * (column 3), in sheet order, and logs no error.
   */
  lemma ConfigSheetRoundTrip(rows: seq<seq<string>>, newline: string, commentPrefix: string, seps: set<char>)
    requires IsNewLine(newline)
    requires '\t' in seps && ConfigSheet(rows, seps)
    ensures RecordsOf(ReadLines(SheetText(rows, newline)), commentPrefix, seps) == RowRecords(rows, |rows|, commentPrefix)
    ensures RejectsOf(ReadLines(SheetText(rows, newline)), commentPrefix, seps) == 0
  {
    SheetReadsBack(rows, newline);
    RecordsOfKeptLines(rows, |rows|, commentPrefix, seps);
    NoRejectsOfKeptLines(rows, |rows|, commentPrefix, seps);
  }

  // ---- The field-type drop-down (ScanVariableTypes) ----

  /** A data-table field type: its ShowOrder and its LanguageKeyword. */
  datatype VarType = VarType(showOrder: int, keyword: string)

  /** The total length of the keywords. */
  function NameLength(types: seq<VarType>): nat {
    if |types| == 0 then 0 else NameLength(types[..|types| - 1]) + |types[|types| - 1].keyword|
  }

  /** Entry i still fits: the keywords up to it plus one separator each stay below the limit. */
  predicate Fits(types: seq<VarType>, i: nat)
    requires i < |types|
  {
    NameLength(types[..i + 1]) + i + 1 < MaxCharLength
  }

  /**
   * ScanVariableTypes after the sort by ShowOrder: keep the longest prefix whose
   * entries all fit, or None when not even the first one does. `sorted` is the
   * list of the reflected types after List.Sort.
   */
  method ScanVariableTypes(sorted: seq<VarType>) returns (types: Option<seq<VarType>>)
    ensures types.None? <==> |sorted| == 0 || !Fits(sorted, 0)
    ensures types.Some? ==> 0 < |types.value| <= |sorted| && types.value == sorted[..|types.value|]
    ensures types.Some? ==> forall i :: 0 <= i < |types.value| ==> Fits(sorted, i)
    ensures types.Some? ==> |types.value| == |sorted| || !Fits(sorted, |types.value|)
  {
    var totalLength := 0;
    var cutIndex := -1;
    var i := 0;
    while i < |sorted|
      invariant 0 <= i <= |sorted| && cutIndex == i - 1
      invariant totalLength == NameLength(sorted[..i])
      invariant forall j :: 0 <= j < i ==> Fits(sorted, j)
    {
      assert sorted[..i + 1][..i] == sorted[..i];
      totalLength := totalLength + |sorted[i].keyword|;
      if totalLength + i + 1 >= MaxCharLength {
        break;
      }
      cutIndex := i;
      i := i + 1;
    }
    if cutIndex < 0 {
      return None;
    }
    var list := sorted;
    var k := |list| - 1;
    while k > cutIndex
      invariant cutIndex <= k < |sorted|
      invariant list == sorted[..k + 1]
    {
      list := list[..k];
      k := k - 1;
    }
    types := Some(list);
  }

  /** Keyword lengths only add up: a longer prefix is never shorter in total. */
  lemma {:induction false} NameLengthGrows(types: seq<VarType>, m: nat, n: nat)
    requires m <= n <= |types|
    ensures NameLength(types[..m]) <= NameLength(types[..n])
    decreases n - m
  {
    if m < n {
      NameLengthGrows(types, m, n - 1);
      assert types[..n][..n - 1] == types[..n - 1];
    }
  }

  /**
   * The kept keywords, each with one separator, fit in the 255-character list,
   * and no longer prefix of the sorted list would.
   */
  lemma KeptTypesFit(sorted: seq<VarType>, n: nat)
    requires 0 < n <= |sorted|
    requires forall i :: 0 <= i < n ==> Fits(sorted, i)
    requires n == |sorted| || !Fits(sorted, n)
    ensures NameLength(sorted[..n]) + n < MaxCharLength
    ensures forall m :: n < m <= |sorted| ==> NameLength(sorted[..m]) + m >= MaxCharLength
  {
    assert Fits(sorted, n - 1);
    forall m | n < m <= |sorted| ensures NameLength(sorted[..m]) + m >= MaxCharLength {
      NameLengthGrows(sorted, n + 1, m);
    }
  }
}
