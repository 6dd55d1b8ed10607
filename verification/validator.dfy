/** The file validator run before any network call (`ApiService.validateFile`). */
module Validator {

  /** The two properties of the selected `File` the validator looks at. */
  datatype FileInfo = FileInfo(mediaType: string, size: nat)

  const PdfType := "application/pdf"
  /** 50 MiB, in bytes. */
  const MaxSize: nat := 50 * 1024 * 1024
  const WrongTypeMessage := "Please upload a PDF file only."
  const TooLargeMessage := "File size must be less than 50MB."

  datatype Validation = Valid | Invalid(error: string)

  /** The type is checked first, by exact equality; the size only when the type passes,
      and only a size strictly above the ceiling is refused. */
  function ValidateFile(file: FileInfo): (v: Validation)
    ensures v.Valid? <==> file.mediaType == PdfType && file.size <= MaxSize
    ensures file.mediaType != PdfType ==> v == Invalid(WrongTypeMessage)
    ensures file.mediaType == PdfType && file.size > MaxSize ==> v == Invalid(TooLargeMessage)
    ensures v.Invalid? ==> v.error != ""
  {
    if file.mediaType != PdfType then Invalid(WrongTypeMessage)
    else if file.size > MaxSize then Invalid(TooLargeMessage)
    else Valid
  }

  /** A PDF of exactly 50 MiB is accepted; one byte more is refused. */
  lemma CeilingIsInclusive()
    ensures MaxSize == 52428800
    ensures ValidateFile(FileInfo(PdfType, MaxSize)) == Valid
    ensures ValidateFile(FileInfo(PdfType, MaxSize + 1)) == Invalid(TooLargeMessage)
  {
  }

  /** The verdict on a file of the wrong type does not depend on its size. */
  lemma TypeCheckedFirst(mediaType: string, s1: nat, s2: nat)
    requires mediaType != PdfType
    ensures ValidateFile(FileInfo(mediaType, s1)) == ValidateFile(FileInfo(mediaType, s2))
  {
  }
}
