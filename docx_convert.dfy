/** The three conversions of an uploaded `.docx`: the article body, the
    citation list and the plain-text preview. The document reader (mammoth)
    is a parameter: it turns the uploaded bytes into HTML or raw text, or
    fails with a message. */
module DocxConvert {
  import opened Wrappers
  import opened Strings
  import opened TextCleaning
  import opened Footnotes
  import opened Citations
  import opened PreviewText

  /** The uploaded file's bytes. */
  type Buffer = seq<bv8>

  /** A document reader: the converted text, or the message of the error it threw. */
  type Reader = Buffer -> Result<string, string>

  const ArticlePrefix: string := "Failed to convert article .docx: "
  const CitationsPrefix: string := "Failed to convert citations .docx: "
  const PreviewPrefix: string := "Failed to convert preview .docx: "

  /** `convertArticleDocx`: the cleaned HTML with its footnote markers numbered
      from 1. A reader failure is re-reported with the article prefix. */
  method ConvertArticleDocx(buffer: Buffer, convertToHtml: Reader) returns (r: Result<string, string>)
    ensures convertToHtml(buffer).Failure? ==> r == Failure(ArticlePrefix + convertToHtml(buffer).error)
    ensures convertToHtml(buffer).Success? ==>
      var html := Clean(convertToHtml(buffer).value);
      r == Success(Numbered(Pieces(html), 1)) && Find(r.value).None?
  {
    var result := convertToHtml(buffer);
    if result.Failure? {
      return Failure(ArticlePrefix + result.error);
    }
    var html := CleanText(result.value);
    html := LinkFootnotes(html);
    LinkAllIsNumbered(Clean(result.value), 1);
    LinkAllLeavesNoSup(Clean(result.value), 1);
    return Success(html);
  }

  /** `convertCitationsDocx`: one citation block per non-blank paragraph of the
      cleaned HTML, numbered from 1; nothing when there is none. A reader
      failure is re-reported with the citations prefix. */
  method ConvertCitationsDocx(buffer: Buffer, convertToHtml: Reader) returns (r: Result<string, string>)
    ensures convertToHtml(buffer).Failure? ==> r == Failure(CitationsPrefix + convertToHtml(buffer).error)
    ensures convertToHtml(buffer).Success? ==>
      var paragraphs := Paragraphs(Clean(convertToHtml(buffer).value));
      r == Success(Blocks(paragraphs, 1)) && (paragraphs == [] ==> r.value == [])
  {
    var result := convertToHtml(buffer);
    if result.Failure? {
      return Failure(CitationsPrefix + result.error);
    }
    var html := CleanText(result.value);
    var paragraphs := Paragraphs(html);
    var footnoteHtml := BuildCitations(paragraphs);
    return Success(footnoteHtml);
  }

  /** `convertPreviewDocx`: the cleaned raw text with its whitespace collapsed
      to single blanks and trimmed. A reader failure is re-reported with the
      preview prefix. */
  method ConvertPreviewDocx(buffer: Buffer, extractRawText: Reader) returns (r: Result<string, string>)
    ensures extractRawText(buffer).Failure? ==> r == Failure(PreviewPrefix + extractRawText(buffer).error)
    ensures extractRawText(buffer).Success? ==>
      r == Success(Preview(Clean(extractRawText(buffer).value)))
      && SingleSpaced(r.value) && (r.value == [] || Trimmed(r.value))
  {
    var result := extractRawText(buffer);
    if result.Failure? {
      return Failure(PreviewPrefix + result.error);
    }
    var text := CleanText(result.value);
    text := Preview(text);
    return Success(text);
  }
}
