/**
 * Shared value types of the legal document loader: the optional and
 * fallible results of its operations, the dynamically typed cells it
 * receives, and the document record it produces.
 */
module Common {

  datatype Option<+T> = None | Some(value: T)

  datatype Result<+R, +E> = Success(value: R) | Failure(error: E)

  /**
   * A value of unknown Python type, as found in a list of lines or in a
   * table cell: either a `str`, or anything else (a number, `None`, NaN).
   */
  datatype Value = Str(s: string) | NonStr

  /**
   * A loaded document. The archive loader fills all three keys; the
   * tabular loader produces records without a `Filename` key, modelled
   * here as `filename == None`.
   */
  datatype LegalDocument = LegalDocument(title: string, filename: Option<string>, text: string)

  function Min(a: nat, b: nat): nat
  {
    if a <= b then a else b
  }
}
