/** The upload checks of `validateImageFile` and `validateDocxFile`, and the
    file-name and URL building of `saveImage`. */
module FileUpload {
  import opened Wrappers
  import opened Strings

  /** What the handlers read of an uploaded `File`: its name, MIME type and size in bytes. */
  datatype UploadedFile = UploadedFile(name: string, fileType: string, size: nat)

  /** `{ valid: boolean; error?: string }`. */
  datatype Validation = Validation(valid: bool, error: Option<string>)

  /** 10 MB, `10 * 1024 * 1024` bytes. */
  const MaxSize: nat := 10 * 1024 * 1024

  const ImageTypes: seq<string> := ["image/jpeg", "image/jpg", "image/png", "image/webp", "image/gif"]

  const DocxTypes: seq<string> :=
    ["application/vnd.openxmlformats-officedocument.wordprocessingml.document", "application/msword"]

  const ImageTypeError: string := "Invalid file type. Allowed types: " + Join(ImageTypes, ", ")

  const DocxTypeError: string := "Invalid file type. File must be a .docx document"

  /** `File too large. Maximum size: ${maxSize / 1024 / 1024}MB`; the division is exact. */
  const TooLargeError: string := "File too large. Maximum size: " + NatToString(MaxSize / 1024 / 1024) + "MB"

  const EmptyError: string := "File is empty"

  function Reject(message: string): Validation
  {
    Validation(false, Some(message))
  }

  const Accept: Validation := Validation(true, None)

  /** Type first, then size. */
  function ValidateImageFile(file: UploadedFile): (v: Validation)
    ensures v.valid <==> file.fileType in ImageTypes && file.size <= MaxSize
    ensures v.valid <==> v.error.None?
    ensures file.fileType !in ImageTypes ==> v.error == Some(ImageTypeError)
    ensures file.fileType in ImageTypes && file.size > MaxSize ==> v.error == Some(TooLargeError)
  {
    if file.fileType !in ImageTypes then Reject(ImageTypeError)
    else if file.size > MaxSize then Reject(TooLargeError)
    else Accept
  }

  /** Type first, then size, then emptiness. */
  function ValidateDocxFile(file: UploadedFile): (v: Validation)
    ensures v.valid <==> file.fileType in DocxTypes && 0 < file.size <= MaxSize
    ensures v.valid <==> v.error.None?
    ensures file.fileType !in DocxTypes ==> v.error == Some(DocxTypeError)
    ensures file.fileType in DocxTypes && file.size > MaxSize ==> v.error == Some(TooLargeError)
    ensures file.fileType in DocxTypes && file.size == 0 ==> v.error == Some(EmptyError)
  {
    if file.fileType !in DocxTypes then Reject(DocxTypeError)
    else if file.size > MaxSize then Reject(TooLargeError)
    else if file.size == 0 then Reject(EmptyError)
    else Accept
  }

  /** The size message names 10 MB. */
  lemma TooLargeErrorText()
    ensures TooLargeError == "File too large. Maximum size: 10MB"
  {
    assert MaxSize / 1024 / 1024 == 10;
    assert NatToString(10) == "10";
  }

  /** Empty images and images of exactly 10 MB are accepted. */
  lemma ImageSizeBounds(fileType: string, name: string)
    requires fileType in ImageTypes
    ensures ValidateImageFile(UploadedFile(name, fileType, 0)).valid
    ensures ValidateImageFile(UploadedFile(name, fileType, MaxSize)).valid
    ensures !ValidateImageFile(UploadedFile(name, fileType, MaxSize + 1)).valid
  {
  }

  /** The position of the last `.` among the first `end` characters of `s`. */
  function LastDotBefore(s: string, end: nat): (m: Option<nat>)
    requires end <= |s|
    ensures m.Some? ==> m.value < end && s[m.value] == '.' && forall j :: m.value < j < end ==> s[j] != '.'
    ensures m.None? ==> forall j :: 0 <= j < end ==> s[j] != '.'
    decreases end
  {
    if end == 0 then None
    else if s[end - 1] == '.' then Some(end - 1)
    else LastDotBefore(s, end - 1)
  }

  /** `name.split('.').pop()`: what follows the last `.`, or the whole name
      when there is none. */
  function LastSegment(name: string): string
  {
    match LastDotBefore(name, |name|)
    case None => name
    case Some(i) => name[i + 1..]
  }

  /** `name.split('.').pop() || 'jpg'`: never empty, and without `.`. */
  function Extension(name: string): (r: string)
    ensures r != [] && '.' !in r
  {
    LastSegmentShape(name);
    var e := LastSegment(name);
    if e == [] then "jpg" else e
  }

  /** `${prefix}-${timestamp}.${extension}`, with the timestamp given: the
      extension is what follows the file name's last `.`. */
  function ImageFileName(name: string, prefix: string, timestamp: nat): (r: string)
    ensures LastSegment(r) == Extension(name)
  {
    LastSegmentAfterDot(prefix + "-" + NatToString(timestamp), Extension(name));
    prefix + "-" + NatToString(timestamp) + "." + Extension(name)
  }

  /** `/Issue-${issueNumber}/Images/`: the directory part of the URL. */
  function ImageDir(issueNumber: int): string
  {
    "/Issue-" + IntToString(issueNumber) + "/Images/"
  }

  /** `/Issue-${issueNumber}/Images/${filename}`: the extension can be read
      back from the URL, as what follows its last `.`. */
  function ImageUrl(name: string, issueNumber: int, prefix: string, timestamp: nat): (r: string)
    ensures LastSegment(r) == Extension(name)
  {
    var stem := prefix + "-" + NatToString(timestamp);
    Regroup(ImageDir(issueNumber), stem, ".", Extension(name));
    LastSegmentAfterDot(ImageDir(issueNumber) + stem, Extension(name));
    ImageDir(issueNumber) + ImageFileName(name, prefix, timestamp)
  }

  /** The last segment holds no `.`, and the name is its other part, a `.`
      and it; a name without `.` is its own last segment. */
  lemma LastSegmentShape(name: string)
    ensures '.' !in LastSegment(name)
    ensures '.' !in name ==> LastSegment(name) == name
    ensures '.' in name ==> exists i :: 0 <= i < |name| && name == name[..i] + "." + LastSegment(name)
  {
    var e := LastSegment(name);
    match LastDotBefore(name, |name|)
    case None =>
    case Some(i) =>
      forall c | c in e ensures c != '.' {
        var j :| 0 <= j < |e| && e[j] == c;
        assert e[j] == name[i + 1 + j];
      }
      assert name == name[..i] + "." + e;
  }

  /** The last segment of `a + "." + e` is `e` when `e` holds no `.`. */
  lemma LastSegmentAfterDot(a: string, e: string)
    requires '.' !in e
    ensures LastSegment(a + "." + e) == e
  {
    var s := a + "." + e;
    forall j | |a| < j < |s| ensures s[j] != '.' {
      assert s[j] == e[j - |a| - 1];
    }
    LastDotFinds(s, |s|, |a|);
    assert s[|a| + 1..] == e;
  }

  /** A `.` at `i` with none after it before `end` is the last one. */
  lemma {:induction false} LastDotFinds(s: string, end: nat, i: nat)
    requires i < end <= |s| && s[i] == '.'
    requires forall j :: i < j < end ==> s[j] != '.'
    ensures LastDotBefore(s, end) == Some(i)
    decreases end
  {
    if end - 1 > i {
      LastDotFinds(s, end - 1, i);
    }
  }

  lemma Regroup(a: string, b: string, c: string, d: string)
    ensures a + (b + c + d) == (a + b) + c + d
  {
  }

  /** A name without `.` is its own extension; a name ending in `.` gets `jpg`. */
  lemma ExtensionExamples()
    ensures Extension("test") == "test"
    ensures Extension("photo.png") == "png"
    ensures Extension("archive.tar.gz") == "gz"
    ensures Extension("image.") == "jpg"
  {
    LastSegmentShape("test");
    LastSegmentAfterDot("photo", "png");
    assert "photo" + "." + "png" == "photo.png";
    LastSegmentAfterDot("archive.tar", "gz");
    assert "archive.tar" + "." + "gz" == "archive.tar.gz";
    LastSegmentAfterDot("image", "");
    assert "image" + "." + "" == "image.";
  }

  /** Two uploads of the same file for the same issue and prefix get the same
      URL only when their timestamps are equal. */
  lemma UrlInjectiveInTimestamp(name: string, issueNumber: int, prefix: string, t1: nat, t2: nat)
    requires ImageUrl(name, issueNumber, prefix, t1) == ImageUrl(name, issueNumber, prefix, t2)
    ensures t1 == t2
  {
    var d1, d2 := NatToString(t1), NatToString(t2);
    CancelPrefix(ImageDir(issueNumber), ImageFileName(name, prefix, t1), ImageFileName(name, prefix, t2));
    CancelSuffix(prefix + "-" + d1 + ".", prefix + "-" + d2 + ".", Extension(name));
    CancelSuffix(prefix + "-" + d1, prefix + "-" + d2, ".");
    CancelPrefix(prefix + "-", d1, d2);
    NatToStringInjective(t1, t2);
  }
}
