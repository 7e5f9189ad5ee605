/** The upload checks of the editor (frontend/lib/pdfUtils.ts:253-266, 495-517): each returns
    true or throws an error with a message, modelled as `Success(true)` or `Failure(message)`. */
module Upload {
  import opened Wrappers
  import opened Text

  /** The parts of a browser `File` the checks read; `size` is in bytes. */
  datatype FileInfo = FileInfo(name: string, mimeType: string, size: nat)

  /** 10 MiB */
  const MaxSize: nat := 10 * 1024 * 1024

  const PdfType: string := "application/pdf"
  const DocxType: string := "application/vnd.openxmlformats-officedocument.wordprocessingml.document"
  const DocType: string := "application/msword"

  const PdfTypeError: string := "Please select a valid PDF file."
  const PdfSizeError: string := "PDF file is too large. Maximum size is 10MB."
  const WordTypeError: string := "Please select a valid Word document (.docx or .doc)."
  const WordSizeError: string := "Word file is too large. Maximum size is 10MB."

  /** `validatePDFFile`: the type must be exactly "application/pdf", then the size at most 10 MiB. */
  function ValidatePdfFile(f: FileInfo): (r: Result<bool, string>)
    ensures r.Success? ==> r.value
    ensures r.Success? <==> f.mimeType == PdfType && f.size <= MaxSize
    ensures r.Failure? ==> r.error == (if f.mimeType != PdfType then PdfTypeError else PdfSizeError)
  {
    if f.mimeType != PdfType then Failure(PdfTypeError)
    else if f.size > MaxSize then Failure(PdfSizeError)
    else Success(true)
  }

  /** The name or type that `validateWordFile` accepts as a Word document. */
  predicate LooksLikeWord(f: FileInfo)
  {
    f.mimeType in [DocxType, DocType] || EndsWith(f.name, ".docx") || EndsWith(f.name, ".doc")
  }

  /** `validateWordFile`: one of the two Word types or a .docx/.doc name, then the size at most 10 MiB. */
  function ValidateWordFile(f: FileInfo): (r: Result<bool, string>)
    ensures r.Success? ==> r.value
    ensures r.Success? <==> LooksLikeWord(f) && f.size <= MaxSize
    ensures r.Failure? ==> r.error == (if LooksLikeWord(f) then WordSizeError else WordTypeError)
  {
    var validTypes := [DocxType, DocType];
    if !(f.mimeType in validTypes) && !EndsWith(f.name, ".docx") && !EndsWith(f.name, ".doc") then
      Failure(WordTypeError)
    else if f.size > MaxSize then
      Failure(WordSizeError)
    else
      Success(true)
  }

  /** The size bound is inclusive: exactly 10 MiB passes, one byte more fails with the size error. */
  lemma SizeBoundInclusive(name: string)
    ensures ValidatePdfFile(FileInfo(name, PdfType, 10485760)) == Success(true)
    ensures ValidatePdfFile(FileInfo(name, PdfType, 10485761)) == Failure(PdfSizeError)
    ensures ValidateWordFile(FileInfo(name, DocType, 10485760)) == Success(true)
    ensures ValidateWordFile(FileInfo(name, DocType, 10485761)) == Failure(WordSizeError)
  {
  }

  /** The type is checked first: a file of the wrong type reports the type error whatever its size. */
  lemma TypeCheckedBeforeSize(f: FileInfo, size: nat)
    ensures f.mimeType != PdfType ==> ValidatePdfFile(f.(size := size)) == Failure(PdfTypeError)
    ensures !LooksLikeWord(f) ==> ValidateWordFile(f.(size := size)) == Failure(WordTypeError)
  {
  }

  /** A name ending in .doc or .docx is accepted whatever MIME type the browser reports. */
  lemma WordNameSuffices(name: string, mimeType: string, size: nat)
    requires EndsWith(name, ".doc") || EndsWith(name, ".docx")
    requires size <= MaxSize
    ensures ValidateWordFile(FileInfo(name, mimeType, size)) == Success(true)
  {
  }

  /** A file the PDF check accepts passes the Word check only by its name. */
  lemma PdfIsNotWord(f: FileInfo)
    requires ValidatePdfFile(f).Success?
    ensures ValidateWordFile(f).Success? <==> EndsWith(f.name, ".docx") || EndsWith(f.name, ".doc")
  {
  }
}
