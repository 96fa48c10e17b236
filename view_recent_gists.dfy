/**
 * The "recent gists" screens as data: a row per gist, the file list of a
 * multi-file gist, and the detail screen of one file, whose markdown shows the
 * file's text cut to a fixed length.
 */
module RecentGists {

  import opened Wrappers
  import opened JsString
  import opened Gists

  /** Only this many characters of a file are shown, as more tends to crash the host. */
  const FileMaxDisplayLength: nat := 10000

  /** The text to show and whether anything was cut off. */
  datatype Truncation = Truncation(text: string, isTruncated: bool)

  /**
   * `truncateText`: the text unchanged when it fits in `maxLength` characters,
   * otherwise its first `maxLength` characters, flagged as truncated.
   */
  function TruncateText(text: string, maxLength: int): (r: Truncation)
    ensures r.isTruncated <==> |text| > maxLength
    ensures r.text <= text
    ensures |r.text| == if !r.isTruncated then |text| else if maxLength < 0 then 0 else maxLength
  {
    if |text| <= maxLength then Truncation(text, false) else Truncation(SubstringTo(text, maxLength), true)
  }

  /** Short text passes through untouched and unflagged. */
  lemma TruncateTextShort(text: string, maxLength: int)
    requires |text| <= maxLength
    ensures TruncateText(text, maxLength) == Truncation(text, false)
  {
  }

  /** Long text keeps exactly its first `maxLength` characters and is flagged. */
  lemma TruncateTextLong(text: string, maxLength: nat)
    requires |text| > maxLength
    ensures TruncateText(text, maxLength) == Truncation(text[..maxLength], true)
  {
  }

  /** The shown text has length min(|text|, maxLength) for a non-negative limit. */
  lemma TruncateTextLength(text: string, maxLength: nat)
    ensures |TruncateText(text, maxLength).text| == if |text| <= maxLength then |text| else maxLength
    ensures |TruncateText(text, maxLength).text| <= maxLength
  {
  }

  /** For a non-negative limit the flag says exactly whether the text changed. */
  lemma TruncateTextFlagMeansCut(text: string, maxLength: nat)
    ensures TruncateText(text, maxLength).isTruncated <==> TruncateText(text, maxLength).text != text
  {
  }

  /** Truncating what was already truncated, with the same limit, changes nothing. */
  lemma TruncateTextIdempotent(text: string, maxLength: nat)
    ensures var once := TruncateText(text, maxLength).text;
            TruncateText(once, maxLength) == Truncation(once, false)
  {
  }

  /** Cutting to a wider limit and then a narrower one is cutting to the narrower one. */
  lemma TruncateTextNested(text: string, wider: nat, narrower: nat)
    requires narrower <= wider
    ensures TruncateText(TruncateText(text, wider).text, narrower).text == TruncateText(text, narrower).text
  {
  }

  /**
   * A negative limit, which `substring` clamps to 0, shows nothing and flags
   * even the empty text as truncated.
   */
  lemma TruncateTextNegativeLimit(text: string, maxLength: int)
    requires maxLength < 0
    ensures TruncateText(text, maxLength) == Truncation("", true)
  {
  }

  /** The marker appended after the code block when the text was cut. */
  const TruncatedMarker := "\n\n *(truncated)*"

  /** The opening fence of a code block, carrying the language as its info string. */
  function OpenFence(language: string): string
  {
    "```" + language + "\n"
  }

  /** The closing fence of a code block. */
  const CloseFence := "\n```"

  /**
   * Reads a detail screen's markdown back into the text it shows and whether
   * that text was cut; None when the markdown is not of that shape.
   */
  function ParseDetailMarkdown(language: string, markdown: string): Option<Truncation>
  {
    var open := OpenFence(language);
    var closed := CloseFence + TruncatedMarker;
    if |markdown| < |open| + |CloseFence| || markdown[..|open|] != open then None
    else if |markdown| >= |open| + |closed| && markdown[|markdown| - |closed|..] == closed then
      Some(Truncation(markdown[|open|..|markdown| - |closed|], true))
    else if markdown[|markdown| - |CloseFence|..] == CloseFence then
      Some(Truncation(markdown[|open|..|markdown| - |CloseFence|], false))
    else None
  }

  /**
   * The markdown of `GistFileDetail`: the file's text, cut to
   * FileMaxDisplayLength, in a code block fenced with the language, followed
   * by the truncation marker exactly when something was cut.
   */
  function DetailMarkdown(language: string, fileText: string): (markdown: string)
    ensures ParseDetailMarkdown(language, markdown) == Some(TruncateText(fileText, FileMaxDisplayLength))
    ensures |markdown| >= |OpenFence(language)| + |CloseFence|
    ensures markdown[..|OpenFence(language)|] == OpenFence(language)
    ensures |markdown| <= |OpenFence(language)| + FileMaxDisplayLength + |CloseFence| + |TruncatedMarker|
  {
    var shown := TruncateText(fileText, FileMaxDisplayLength);
    var markdown := OpenFence(language) + shown.text + CloseFence + (if shown.isTruncated then TruncatedMarker else "");
    DetailMarkdownParses(language, shown, markdown);
    markdown
  }

  /** The parse of a detail markdown's shape recovers what was put into it. */
  lemma DetailMarkdownParses(language: string, shown: Truncation, markdown: string)
    requires markdown == OpenFence(language) + shown.text + CloseFence + (if shown.isTruncated then TruncatedMarker else "")
    ensures ParseDetailMarkdown(language, markdown) == Some(shown)
  {
    var open := OpenFence(language);
    var closed := CloseFence + TruncatedMarker;
    assert markdown[..|open|] == open;
    if shown.isTruncated {
      assert markdown == open + shown.text + closed;
      assert markdown[|markdown| - |closed|..] == closed;
      assert markdown[|open|..|markdown| - |closed|] == shown.text;
    } else {
      assert markdown[|markdown| - 1] == '`';
      assert closed[|closed| - 1] == '*';
      assert markdown[|markdown| - |CloseFence|..] == CloseFence;
      assert markdown[|open|..|markdown| - |CloseFence|] == shown.text;
    }
  }

  /** The truncation marker is present exactly when the file's text was cut. */
  lemma DetailMarkdownMarkerIffTruncated(language: string, fileText: string)
    ensures var markdown := DetailMarkdown(language, fileText);
            var closed := CloseFence + TruncatedMarker;
            (|markdown| >= |closed| && markdown[|markdown| - |closed|..] == closed)
            <==> |fileText| > FileMaxDisplayLength
  {
    var markdown := DetailMarkdown(language, fileText);
    var closed := CloseFence + TruncatedMarker;
    var shown := TruncateText(fileText, FileMaxDisplayLength);
    assert markdown == OpenFence(language) + shown.text + CloseFence + (if shown.isTruncated then TruncatedMarker else "");
    if shown.isTruncated {
      assert markdown[|markdown| - |closed|..] == closed;
    } else {
      assert markdown[|markdown| - 1] == '`';
      assert closed[|closed| - 1] == '*';
    }
  }

  /** The detail screen of one file. */
  datatype FileDetail = FileDetail(markdown: string, navigationTitle: string)

  /**
   * The navigation title of a detail screen: the title the caller passed when
   * one was passed (even an empty one), otherwise the file's name.
   */
  function DetailNavigationTitle(navigationTitle: Option<string>, file: GistFile): (title: string)
    ensures navigationTitle.Some? ==> title == navigationTitle.value
    ensures navigationTitle.None? ==> title == file.name
  {
    match navigationTitle
    case Some(t) => t
    case None => file.name
  }

  /**
   * `GistFileDetail`, with the code block fenced by the name of the file's
   * language. The screen shows a prefix of the file of at most
   * FileMaxDisplayLength characters, all of it when it fits.
   */
  function GistFileDetail(file: GistFile, navigationTitle: Option<string>): (detail: FileDetail)
    ensures ParseDetailMarkdown(file.language.name, detail.markdown) == Some(TruncateText(file.text, FileMaxDisplayLength))
    ensures detail.navigationTitle == DetailNavigationTitle(navigationTitle, file)
  {
    FileDetail(DetailMarkdown(file.language.name, file.text), DetailNavigationTitle(navigationTitle, file))
  }

  /**
   * What a template literal makes of the language record: a plain object
   * becomes "[object Object]", whatever its name.
   */
  function InterpolatedLanguage(language: GistFileLanguage): string
  {
    "[object Object]"
  }

  /** `GistFileDetail` as written, interpolating the language record itself. */
  function GistFileDetailAsWritten(file: GistFile, navigationTitle: Option<string>): (detail: FileDetail)
    ensures |detail.markdown| >= |OpenFence("[object Object]")|
    ensures detail.markdown[..|OpenFence("[object Object]")|] == OpenFence("[object Object]")
    ensures detail.navigationTitle == DetailNavigationTitle(navigationTitle, file)
  {
    FileDetail(DetailMarkdown(InterpolatedLanguage(file.language), file.text), DetailNavigationTitle(navigationTitle, file))
  }

  /**
   * For every language name other than "[object Object]" (and without a line
   * break), the as-written detail is not a code block of that language, while
   * the corrected one is.
   */
  lemma AsWrittenFenceDropsLanguage(file: GistFile)
    requires file.language.name != "[object Object]" && '\n' !in file.language.name
    ensures ParseDetailMarkdown(file.language.name, GistFileDetailAsWritten(file, None).markdown) == None
    ensures ParseDetailMarkdown(file.language.name, GistFileDetail(file, None).markdown).Some?
  {
    var markdown := GistFileDetailAsWritten(file, None).markdown;
    if |markdown| >= |OpenFence(file.language.name)| {
      OpenFencesDiffer("[object Object]", file.language.name, markdown);
    }
  }

  /**
   * Text that opens with the fence of one language does not open with the
   * fence of another, when neither name holds a line break.
   */
  lemma OpenFencesDiffer(a: string, b: string, m: string)
    requires a != b && '\n' !in a && '\n' !in b
    requires |m| >= |OpenFence(a)| && m[..|OpenFence(a)|] == OpenFence(a)
    requires |m| >= |OpenFence(b)|
    ensures m[..|OpenFence(b)|] != OpenFence(b)
  {
    var fa, fb := OpenFence(a), OpenFence(b);
    if |a| < |b| {
      assert m[..|fb|][3 + |a|] == fa[3 + |a|] == '\n';
      assert fb[3 + |a|] == b[|a|];
    } else if |b| < |a| {
      assert m[..|fb|][3 + |b|] == fa[3 + |b|] == a[|b|];
      assert fb[3 + |b|] == '\n';
    } else {
      var k :| 0 <= k < |a| && a[k] != b[k];
      assert m[..|fb|][3 + k] == fa[3 + k] == a[k];
      assert fb[3 + k] == b[k];
    }
  }

  /** The accessory text of a gist row. */
  function VisibilityLabel(isPublic: bool): (text: string)
    ensures text == "Public" <==> isPublic
    ensures text == "Private" <==> !isPublic
  {
    if isPublic then "Public" else "Private"
  }

  /** The list-item id of the file at `fileIndex` of a gist: `${gist.id}-${fileIndex}`. */
  function FileItemId(gistId: string, fileIndex: nat): (id: string)
    ensures |id| > |gistId| + 1
    ensures id[..|gistId| + 1] == gistId + "-"
    ensures id[|gistId| + 1..] == NatToString(fileIndex)
    ensures DecimalValue(id[|gistId| + 1..]) == fileIndex
  {
    DecimalValueOfNatToString(fileIndex);
    var id := gistId + "-" + NatToString(fileIndex);
    assert id[|gistId| + 1..] == NatToString(fileIndex);
    id
  }

  /** Within one gist, distinct file indices give distinct item ids. */
  lemma FileItemIdInjective(gistId: string, i: nat, j: nat)
    requires FileItemId(gistId, i) == FileItemId(gistId, j)
    ensures i == j
  {
  }

  /**
   * Across gists whose ids contain no '-', equal item ids name the same gist
   * and the same file.
   */
  lemma FileItemIdUnique(g: string, h: string, i: nat, j: nat)
    requires '-' !in g && '-' !in h
    requires FileItemId(g, i) == FileItemId(h, j)
    ensures g == h && i == j
  {
    var id := FileItemId(g, i);
    FirstDashAt(g, id);
    FirstDashAt(h, id);
    assert |g| == |h|;
    assert g == id[..|g| + 1][..|g|] == h;
  }

  /** An id that starts with a dash-free prefix and a dash has its first dash right there. */
  lemma FirstDashAt(prefix: string, id: string)
    requires '-' !in prefix
    requires |id| > |prefix| && id[..|prefix| + 1] == prefix + "-"
    ensures id[|prefix|] == '-'
    ensures forall k :: 0 <= k < |prefix| ==> id[k] != '-'
  {
  }

  /** A row of the file list of a multi-file gist. */
  datatype FileListItem = FileListItem(id: string, title: string, detail: FileDetail)

  /** `GistFileListItem`: titled by the file's name, opening the file's detail. */
  function GistFileListItem(gist: Gist, file: GistFile, fileIndex: nat): (item: FileListItem)
    ensures item.id == FileItemId(gist.id, fileIndex)
    ensures item.title == file.name
    ensures item.detail == GistFileDetail(file, None) && item.detail.navigationTitle == file.name
  {
    FileListItem(FileItemId(gist.id, fileIndex), file.name, GistFileDetail(file, None))
  }

  /** The file list screen of a gist. */
  datatype FileList = FileList(navigationTitle: string, items: seq<FileListItem>)

  /** `GistFileList`: one row per file, in file order, under the gist's title. */
  function GistFileList(gist: Gist): (list: FileList)
    requires HasTitle(gist)
    ensures list.navigationTitle == NameForGist(gist)
    ensures |list.items| == |gist.files|
    ensures forall i :: 0 <= i < |gist.files| ==> list.items[i] == GistFileListItem(gist, gist.files[i], i)
  {
    FileList(NameForGist(gist), seq(|gist.files|, i requires 0 <= i < |gist.files| => GistFileListItem(gist, gist.files[i], i)))
  }

  /** No two rows of a gist's file list share an id. */
  lemma GistFileListIdsDistinct(gist: Gist)
    requires HasTitle(gist)
    ensures var items := GistFileList(gist).items;
            forall i, j :: 0 <= i < j < |items| ==> items[i].id != items[j].id
  {
  }

  /** What choosing a gist row opens. */
  datatype Target = ViewFile(detail: FileDetail) | ViewFiles(list: FileList)

  /** A row of the recent gists list. */
  datatype GistItem = GistItem(id: string, title: string, subtitle: Option<string>, accessory: string, target: Target)

  /**
   * `GistListItem`: a single-file gist opens its file directly, under the
   * gist's title; any other gist shows "<n> files" and opens its file list.
   */
  function GistListItem(gist: Gist): (item: GistItem)
    requires HasTitle(gist)
    ensures item.id == gist.id && item.title == NameForGist(gist)
    ensures item.accessory == VisibilityLabel(gist.isPublic)
    ensures item.target.ViewFile? <==> |gist.files| == 1
    ensures |gist.files| == 1 ==>
      item.subtitle.None? && item.target.detail == GistFileDetail(gist.files[0], Some(NameForGist(gist)))
    ensures |gist.files| != 1 ==>
      item.subtitle == Some(NatToString(|gist.files|) + " files") && item.target == ViewFiles(GistFileList(gist))
  {
    if |gist.files| == 1 then
      var title := NameForGist(gist);
      GistItem(gist.id, title, None, VisibilityLabel(gist.isPublic), ViewFile(GistFileDetail(gist.files[0], Some(title))))
    else
      GistItem(gist.id, NameForGist(gist), Some(NatToString(|gist.files|) + " files"), VisibilityLabel(gist.isPublic),
               ViewFiles(GistFileList(gist)))
  }

  /**
   * Whatever a gist row opens is titled like the row, and each file of a
   * drill-down list opens under that file's own name.
   */
  lemma GistListItemNavigationTitles(gist: Gist)
    requires HasTitle(gist)
    ensures var item := GistListItem(gist);
            match item.target
            case ViewFile(detail) => detail.navigationTitle == item.title
            case ViewFiles(list) =>
              list.navigationTitle == item.title &&
              forall i :: 0 <= i < |list.items| ==> list.items[i].detail.navigationTitle == gist.files[i].name
  {
  }

  /** The subtitle of a multi-file row reads back as the number of files. */
  lemma GistListItemSubtitleCountsFiles(gist: Gist)
    requires HasTitle(gist) && |gist.files| != 1
    ensures var s := GistListItem(gist).subtitle.value;
            |s| > 6 && s[|s| - 6..] == " files" && DecimalValue(s[..|s| - 6]) == |gist.files|
  {
    var digits := NatToString(|gist.files|);
    var s := digits + " files";
    assert s[..|s| - 6] == digits;
    DecimalValueOfNatToString(|gist.files|);
  }
}
