/** The local HTML report: its fixed names and envelope, and the operations that write
    it (with its stylesheet) and that would delete it. */
module ReportWriter {
  import opened Files

  const ReportFileName: string := "gnag.html"
  const CssFileName: string := "github-markdown.css"

  /** The parts of the document's opening, in order. */
  const DocumentOpening: string := "<!DOCTYPE html>" + "<html>"
  const StylesheetLink: string := "<link rel=\"stylesheet\" href=\"github-markdown.css\">"
  const ArticleOpening: string := "<article class=\"markdown-body\">"

  const HtmlReportPrefix: string := DocumentOpening + StylesheetLink + ArticleOpening

  const HtmlReportSuffix: string := "</article></html>"

  const EmptyViolationsMessage: string :=
    "This method should only be called when violations were detected."

  /** How a call of the report writer ends: with the precondition failure for an empty
      violation set, or normally with the success flag it returns. */
  datatype WriteResult = IllegalStateException(message: string) | Written(success: bool)

  /** The report file and the stylesheet copied next to it. */
  function ReportPath(dir: Path): Path { Child(dir, ReportFileName) }
  function CssPath(dir: Path): Path { Child(dir, CssFileName) }

  /** The report and its stylesheet never overwrite each other. */
  lemma ReportAndCssPathsDiffer(dir: Path)
    ensures ReportPath(dir) != CssPath(dir)
  {
  }

  /** The document written for a formatted body: the body inside the fixed envelope. */
  function ReportDocument(body: string): (doc: string)
    ensures |doc| == |HtmlReportPrefix| + |body| + |HtmlReportSuffix|
    ensures doc[..|HtmlReportPrefix|] == HtmlReportPrefix
    ensures doc[|HtmlReportPrefix|..|HtmlReportPrefix| + |body|] == body
    ensures doc[|HtmlReportPrefix| + |body|..] == HtmlReportSuffix
  {
    HtmlReportPrefix + body + HtmlReportSuffix
  }

  /** The body can be read back from the document, so different bodies give different
      documents. */
  lemma ReportDocumentInjective(body1: string, body2: string)
    requires ReportDocument(body1) == ReportDocument(body2)
    ensures body1 == body2
  {
  }

  /** The stylesheet link in the envelope names exactly the file the copy step creates. */
  lemma PrefixLinksCopiedStylesheet()
    ensures HtmlReportPrefix
            == DocumentOpening + "<link rel=\"stylesheet\" href=\"" + CssFileName + "\">" + ArticleOpening
  {
  }

  /** The files after a report write that got past the precondition: nothing changes
      when the report write fails; otherwise the report holds `content`, and the
      stylesheet holds `stylesheet` unless its copy failed. */
  function FilesAfterWrite(files: map<Path, string>, dir: Path, content: string, stylesheet: string,
                           writeFails: bool, cssFails: bool): (r: map<Path, string>)
    ensures writeFails ==> r == files
    ensures !writeFails ==> ReportPath(dir) in r && r[ReportPath(dir)] == content
    ensures !writeFails && !cssFails ==> CssPath(dir) in r && r[CssPath(dir)] == stylesheet
    ensures cssFails ==> (CssPath(dir) in r <==> CssPath(dir) in files)
    ensures cssFails && CssPath(dir) in files ==> r[CssPath(dir)] == files[CssPath(dir)]
    ensures forall p :: p != ReportPath(dir) && p != CssPath(dir) ==> (p in r <==> p in files)
    ensures forall p :: p in files && p != ReportPath(dir) && p != CssPath(dir) ==> r[p] == files[p]
  {
    ReportAndCssPathsDiffer(dir);
    if writeFails then files
    else if cssFails then files[ReportPath(dir) := content]
    else files[ReportPath(dir) := content][CssPath(dir) := stylesheet]
  }

  /** Copies the stylesheet resource next to the report. A failure (a missing resource
      or an I/O error) is swallowed and leaves the files as they were. */
  method CopyCssFileToDirectory(fs: FileSystem, dir: Path, stylesheet: string, fails: bool)
    modifies fs
    ensures fs.files == if fails then old(fs.files) else old(fs.files)[CssPath(dir) := stylesheet]
    ensures fs.dirs == old(fs.dirs)
  {
    var _ := fs.Write(CssPath(dir), stylesheet, fails);
  }

  /** Writes the report for a non-empty violation set: creates the directory, writes the
      enveloped body produced by `format` to the report file, and on success copies the
      stylesheet. An empty set is refused before anything is touched. */
  method WriteReport<V>(fs: FileSystem, violations: set<V>, dir: Path, format: set<V> -> string,
                        stylesheet: string, writeFails: bool, cssFails: bool)
      returns (r: WriteResult)
    modifies fs
    ensures r.IllegalStateException? <==> violations == {}
    ensures violations == {} ==>
      (r.message == EmptyViolationsMessage && fs.dirs == old(fs.dirs) && fs.files == old(fs.files))
    ensures violations != {} ==>
      (r == Written(!writeFails)
       && fs.dirs == old(fs.dirs) + {dir}
       && fs.files == FilesAfterWrite(old(fs.files), dir, ReportDocument(format(violations)),
                                      stylesheet, writeFails, cssFails))
  {
    if violations == {} {
      return IllegalStateException(EmptyViolationsMessage);
    }
    fs.MakeDirectories(dir);
    var content := ReportDocument(format(violations));
    var ok := fs.Write(ReportPath(dir), content, writeFails);
    if !ok {
      return Written(false);
    }
    CopyCssFileToDirectory(fs, dir, stylesheet, cssFails);
    return Written(true);
  }

  /** Deleting the report is not implemented: it reports failure and changes nothing. */
  method DeleteReport(fs: FileSystem, dir: Path) returns (deleted: bool)
    ensures !deleted
  {
    deleted := false;
  }
}
