/** The rules `displayFiles` and `removeFile` apply to the file selection:
    the 10 MiB size gate, the extension and its display category, and
    removal of one file by position. */
module Attachments {
  import opened Strings

  /** A file of the selection: its name, MIME type (`file.type`) and byte size. */
  datatype SelectedFile = SelectedFile(name: string, mimeType: string, size: nat)

  /** 10 MiB, the largest size shown in the list. */
  const MaxFileSize: nat := 10 * 1024 * 1024

  /** A file is too large when its size strictly exceeds 10 MiB. */
  predicate TooLarge(f: SelectedFile) {
    f.size > MaxFileSize
  }

  /** `name.split('.').pop().toLowerCase()`. */
  function Extension(name: string): (ext: string)
    ensures '.' !in ext
  {
    var parts := Split(name, '.');
    SplitParts(name, '.');
    var last := Last(parts);
    assert forall i :: 0 <= i < |last| ==> ToLower(last)[i] != '.' by {
      forall i | 0 <= i < |last| ensures ToLower(last)[i] != '.' {
        LowerCharKeeps(last[i], '.');
      }
    }
    ToLower(last)
  }

  /** The extension is the lower-cased text after the last `.`. */
  lemma ExtensionAfterLastDot(name: string, k: nat)
    requires k < |name| && name[k] == '.' && '.' !in name[k + 1..]
    ensures Extension(name) == ToLower(name[k + 1..])
  {
    SplitLastAfter(name, '.', k);
  }

  /** Without a `.`, the extension is the whole name lower-cased. */
  lemma ExtensionWithoutDot(name: string)
    requires '.' !in name
    ensures Extension(name) == ToLower(name)
  {
    SplitWithoutSeparator(name, '.');
  }

  /** The icon family the list shows for a file. */
  datatype Category = Pdf | Word | Excel | PowerPoint | Image | Archive | Generic

  /** The extensions the table names for each category (none for `Generic`). */
  function KnownExtensions(c: Category): set<string> {
    match c
    case Pdf => {"pdf"}
    case Word => {"doc", "docx"}
    case Excel => {"xls", "xlsx"}
    case PowerPoint => {"ppt", "pptx"}
    case Image => {"jpg", "jpeg", "png", "gif"}
    case Archive => {"zip", "rar"}
    case Generic => {}
  }

  function AllKnownExtensions(): set<string> {
    KnownExtensions(Pdf) + KnownExtensions(Word) + KnownExtensions(Excel) +
    KnownExtensions(PowerPoint) + KnownExtensions(Image) + KnownExtensions(Archive)
  }

  /** The `if … else if …` chain of `displayFiles`, first match wins. A listed
      extension gets its own category and every other one the generic icon. */
  function CategoryOf(ext: string): (c: Category)
    ensures c != Generic ==> ext in KnownExtensions(c)
    ensures c == Generic <==> ext !in AllKnownExtensions()
  {
    if ext in ["pdf"] then Pdf
    else if ext in ["doc", "docx"] then Word
    else if ext in ["xls", "xlsx"] then Excel
    else if ext in ["ppt", "pptx"] then PowerPoint
    else if ext in ["jpg", "jpeg", "png", "gif"] then Image
    else if ext in ["zip", "rar"] then Archive
    else Generic
  }

  function FileCategory(name: string): Category {
    CategoryOf(Extension(name))
  }

  /** The Font Awesome icon class and its colour for each category. */
  function IconOf(c: Category): (icon: (string, string))
    ensures c == Generic <==> icon.0 == "fa-file"
  {
    match c
    case Pdf => ("fa-file-pdf", "#ef4444")
    case Word => ("fa-file-word", "#2563eb")
    case Excel => ("fa-file-excel", "#16a34a")
    case PowerPoint => ("fa-file-powerpoint", "#ea580c")
    case Image => ("fa-file-image", "#9333ea")
    case Archive => ("fa-file-zipper", "#ca8a04")
    case Generic => ("fa-file", "#6b7280")
  }

  /** Different categories never share an icon. */
  lemma IconsDistinct(a: Category, b: Category)
    requires IconOf(a).0 == IconOf(b).0
    ensures a == b
  {
  }

  /** Splitting the lower-cased name is lower-casing the parts of the name. */
  lemma SplitLowered(s: string)
    ensures Last(Split(ToLower(s), '.')) == ToLower(Last(Split(s, '.')))
  {
    var lo := ToLower(s);
    if '.' !in s {
      ToLowerKeepsAbsent(s, '.');
      SplitWithoutSeparator(lo, '.');
      SplitWithoutSeparator(s, '.');
    } else {
      var k := LastDot(s);
      LowerCharKeeps(s[k], '.');
      ToLowerSlice(s, k + 1, |s|);
      ToLowerKeepsAbsent(s[k + 1..], '.');
      SplitLastAfter(s, '.', k);
      SplitLastAfter(lo, '.', k);
    }
  }

  /** The position of the last `.` of a name that has one. */
  function LastDot(s: string): (k: nat)
    requires '.' in s
    ensures k < |s| && s[k] == '.' && '.' !in s[k + 1..]
  {
    if s[|s| - 1] == '.' then |s| - 1
    else
      assert '.' in s[..|s| - 1] by {
        var i :| 0 <= i < |s| && s[i] == '.';
        assert s[..|s| - 1][i] == '.';
      }
      var k := LastDot(s[..|s| - 1]);
      assert s[k + 1..] == s[..|s| - 1][k + 1..] + [s[|s| - 1]];
      k
  }

  /** Letter case in the name never changes the category: two names that
      agree once lower-cased get the same icon. */
  lemma CategoryIgnoresCase(a: string, b: string)
    requires ToLower(a) == ToLower(b)
    ensures FileCategory(a) == FileCategory(b)
  {
    SplitLowered(a);
    SplitLowered(b);
    ToLowerIdempotent(Last(Split(a, '.')));
    ToLowerIdempotent(Last(Split(b, '.')));
  }

  /** The selection without position `index`; any index outside the
      selection leaves it as it is. */
  function RemovedAt<T>(s: seq<T>, index: int): (r: seq<T>)
    ensures 0 <= index < |s| ==> |r| == |s| - 1
    ensures 0 <= index < |s| ==> forall k :: 0 <= k < index ==> r[k] == s[k]
    ensures 0 <= index < |s| ==> forall k :: index <= k < |r| ==> r[k] == s[k + 1]
    ensures !(0 <= index < |s|) ==> r == s
  {
    if 0 <= index < |s| then s[..index] + s[index + 1..] else s
  }

  /** Removal takes exactly the one file at `index` out of the selection. */
  lemma RemovedAtTakesOne<T>(s: seq<T>, index: int)
    requires 0 <= index < |s|
    ensures multiset(RemovedAt(s, index)) + multiset{s[index]} == multiset(s)
  {
    assert s == s[..index] + [s[index]] + s[index + 1..];
  }

  /** The `forEach` of `removeFile`: every file whose position differs from
      `index` is added, in order, to a fresh transfer list. */
  method RebuildWithout<T>(files: seq<T>, index: int) returns (kept: seq<T>)
    ensures kept == RemovedAt(files, index)
  {
    kept := [];
    var i := 0;
    while i < |files|
      invariant 0 <= i <= |files|
      invariant kept == if 0 <= index < i then files[..index] + files[index + 1..i] else files[..i]
    {
      if i != index {
        kept := kept + [files[i]];
      }
      i := i + 1;
    }
    assert files[..i] == files;
  }

  /** One line of the rendered list: the position the remove button passes
      back, the name, and the category. */
  datatype FileItem = FileItem(index: nat, name: string, category: Category)

  function ItemFor(index: nat, f: SelectedFile): FileItem {
    FileItem(index, f.name, FileCategory(f.name))
  }

  /** What `displayFiles` lists: the selection in order, positions kept,
      files over 10 MiB skipped. */
  function ListedFiles(files: seq<SelectedFile>): (items: seq<FileItem>)
    ensures |items| <= |files|
    ensures forall j :: 0 <= j < |items| ==>
      items[j].index < |files| && !TooLarge(files[items[j].index]) &&
      items[j] == ItemFor(items[j].index, files[items[j].index])
    ensures forall j, j' :: 0 <= j < j' < |items| ==> items[j].index < items[j'].index
    decreases |files|
  {
    if files == [] then []
    else
      var n := |files| - 1;
      ListedFiles(files[..n]) + (if TooLarge(files[n]) then [] else [ItemFor(n, files[n])])
  }

  /** A file is listed exactly when it is not over 10 MiB; a file of
      exactly 10 MiB is listed. */
  lemma {:induction false} ListedIffSmallEnough(files: seq<SelectedFile>, i: nat)
    requires i < |files|
    ensures ItemFor(i, files[i]) in ListedFiles(files) <==> !TooLarge(files[i])
    decreases |files|
  {
    var n := |files| - 1;
    var front := ListedFiles(files[..n]);
    var tail := if TooLarge(files[n]) then [] else [ItemFor(n, files[n])];
    assert ListedFiles(files) == front + tail;
    var item := ItemFor(i, files[i]);
    if i < n {
      assert item !in tail;
      ListedIffSmallEnough(files[..n], i);
      assert files[..n][i] == files[i];
    } else {
      assert item !in front by {
        assert forall j :: 0 <= j < |front| ==> front[j].index < n;
      }
    }
  }
}
