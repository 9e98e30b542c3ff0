/**
 * The input handling of the QR-code script before anything is encoded:
 * choosing the text (from a file, or typed and refused when blank) and
 * normalising the output file name.
 */
module QrGenerator {
  import opened Wrappers
  import opened Text

  /** The name used when the user gives none. */
  const DefaultFilename: string := "my_qrcode.png"

  /** Python's `name.lower().endswith('.png')`. */
  predicate HasPngSuffix(name: string)
  {
    EndsWith(Lower(name), ".png")
  }

  lemma DefaultFilenameShape()
    ensures HasPngSuffix(DefaultFilename) && Trimmed(DefaultFilename)
  {
    assert Lower(DefaultFilename)[|DefaultFilename| - 4..] == ".png";
  }

  lemma {:induction false} AppendPngShape(name: string)
    requires name != [] && Trimmed(name)
    ensures HasPngSuffix(name + ".png") && Trimmed(name + ".png")
  {
    LowerAppend(name, ".png");
    assert Lower(".png") == ".png";
    assert (name + ".png")[0] == name[0];
  }

  /**
   * The file name the image is saved under, from the typed answer: strip it;
   * an empty answer gives the default name, a name that already ends in
   * ".png" in any letter case is kept as written, and any other name gets
   * ".png" appended. The result always ends in ".png" ignoring case.
   */
  function OutputFilename(raw: string): (r: string)
    ensures Strip(raw) == [] ==> r == DefaultFilename
    ensures Strip(raw) != [] && HasPngSuffix(Strip(raw)) ==> r == Strip(raw)
    ensures Strip(raw) != [] && !HasPngSuffix(Strip(raw)) ==> r == Strip(raw) + ".png"
    ensures r != [] && Trimmed(r) && HasPngSuffix(r)
  {
    var name := Strip(raw);
    if name == [] then
      DefaultFilenameShape();
      DefaultFilename
    else if HasPngSuffix(name) then
      name
    else
      AppendPngShape(name);
      name + ".png"
  }

  /** Normalising a name that is already normal changes nothing: normalising twice is normalising once. */
  lemma OutputFilenameIdempotent(raw: string)
    ensures OutputFilename(OutputFilename(raw)) == OutputFilename(raw)
  {
    StripTrimmed(OutputFilename(raw));
  }

  /** A name typed with an upper-case ".PNG" suffix is kept exactly, letter case included. */
  lemma {:induction false} UpperCaseSuffixKept(stem: string)
    requires stem != [] && Trimmed(stem)
    ensures OutputFilename(stem + ".PNG") == stem + ".PNG"
  {
    var name := stem + ".PNG";
    assert name[0] == stem[0];
    StripTrimmed(name);
    LowerAppend(stem, ".PNG");
    assert Lower(".PNG") == ".png";
    assert Lower(name)[|name| - 4..] == ".png";
  }

  datatype QrError =
    | FileNotFound  // a path was typed but no such file exists
    | EmptyInput    // no path, and the typed text is blank

  /**
   * The text to encode. `rawPath` is the typed path; `fileText` is the
   * content of the file at the stripped path when it exists; `typed` is the
   * text typed when no path is given. Typed text is refused when it is all
   * whitespace but is otherwise used as typed, unstripped; a file's text is
   * used whatever it holds.
   */
  function InputData(rawPath: string, fileText: Option<string>, typed: string): (r: Result<string, QrError>)
    ensures Strip(rawPath) != [] ==> (r.Failure? <==> fileText.None?)
    ensures Strip(rawPath) != [] && r.Failure? ==> r.error == FileNotFound
    ensures Strip(rawPath) != [] && r.Success? ==> r.value == fileText.value
    ensures Strip(rawPath) == [] ==> (r.Failure? <==> AllSpace(typed))
    ensures Strip(rawPath) == [] && r.Failure? ==> r.error == EmptyInput
    ensures Strip(rawPath) == [] && r.Success? ==> r.value == typed
  {
    if Strip(rawPath) != [] then
      match fileText
      case Some(text) => Success(text)
      case None => Failure(FileNotFound)
    else if Strip(typed) == [] then
      Failure(EmptyInput)
    else
      Success(typed)
  }

  /** What the QR code is made from and where it is saved. */
  datatype QrJob = QrJob(data: string, filename: string)

  /**
   * `generate_qr` up to the encoding: the file name is asked for only once
   * the text has been accepted, so a refused text decides the outcome.
   */
  function PlanQr(rawPath: string, fileText: Option<string>, typed: string, rawFilename: string): (r: Result<QrJob, QrError>)
    ensures InputData(rawPath, fileText, typed).Failure? ==> r == Failure(InputData(rawPath, fileText, typed).error)
    ensures InputData(rawPath, fileText, typed).Success? ==>
      r.Success? && r.value.data == InputData(rawPath, fileText, typed).value
      && r.value.filename == OutputFilename(rawFilename) && HasPngSuffix(r.value.filename)
  {
    match InputData(rawPath, fileText, typed)
    case Failure(e) => Failure(e)
    case Success(data) => Success(QrJob(data, OutputFilename(rawFilename)))
  }

  /** Blank typed text is refused before any file name is chosen or anything is encoded. */
  lemma BlankTextRejected(rawPath: string, fileText: Option<string>, typed: string, rawFilename: string)
    requires Strip(rawPath) == [] && AllSpace(typed)
    ensures PlanQr(rawPath, fileText, typed, rawFilename) == Failure(EmptyInput)
  {
  }
}
