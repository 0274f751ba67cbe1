/**
  The upload side of server.js: the multer `filename` callback that accepts
  or refuses an upload by its extension and names the stored file, and the
  name of the protected copy written next to it and returned to the client.
 */
module Upload {
  import opened Wrappers
  import opened Text
  import NodePath

  /** The extensions the callback accepts, compared after lowering. */
  const UploadExtensions: set<string> := {".jpg", ".jpeg", ".png"}

  /** The message of the Error handed to multer on refusal. */
  const UnsupportedFormat: string := "Format non supporté"

  /** What the callback passes to multer: a stored file name, or an Error
      together with `false`. */
  datatype FilenameOutcome = Stored(filename: string) | Refused(message: string)

  /** The lowered extension the callback tests: as long as the extension,
      with no upper-case ASCII letter left. */
  function UploadExtension(originalName: string): (ext: string)
    ensures |ext| == |NodePath.Extname(originalName)|
    ensures forall k :: 0 <= k < |ext| ==> !('A' <= ext[k] <= 'Z')
  {
    Lower(NodePath.Extname(originalName))
  }

  /** Lowering the name first and taking its extension gives the same test. */
  lemma UploadExtensionOfLoweredName(originalName: string)
    ensures UploadExtension(originalName) == NodePath.Extname(Lower(originalName))
  {
    NodePath.ExtnameLower(originalName);
  }

  /** The multer `filename` callback; `now` stands for `Date.now()`. The
      stored name is the timestamp's numeral followed by one of the accepted
      extensions, so nothing of the client's name but its extension's case
      folding survives. */
  function StoredFilename(originalName: string, now: nat): (r: FilenameOutcome)
    ensures r.Refused? ==> r.message == UnsupportedFormat
    ensures r.Stored? ==> StartsWith(r.filename, NatToDecimal(now))
    ensures r.Stored? ==> r.filename[|NatToDecimal(now)|..] in UploadExtensions
  {
    var ext := UploadExtension(originalName);
    if ext !in UploadExtensions then Refused(UnsupportedFormat) else Stored(NatToDecimal(now) + ext)
  }

  /** An extension shape: a '.' followed by characters other than '.' and '/'. */
  predicate IsExtension(ext: string) {
    |ext| > 0 && ext[0] == '.' && '.' !in ext[1..] && '/' !in ext
  }

  /** For a file name `stem + ext`, acceptance is decided by `ext` alone,
      case-insensitively, and the stored name carries `ext` lowered. */
  lemma AcceptedIffExtension(stem: string, ext: string, now: nat)
    requires |stem| > 0 && '/' !in stem && IsExtension(ext) && stem + ext != ".."
    ensures StoredFilename(stem + ext, now).Stored? <==> Lower(ext) in UploadExtensions
    ensures StoredFilename(stem + ext, now).Stored? ==>
              StoredFilename(stem + ext, now).filename == NatToDecimal(now) + Lower(ext)
  {
    NodePath.ExtnameOfStemAndExt(stem, ext);
  }

  /** The client's stem never reaches the stored name: two uploads with the
      same extension at the same instant get the same outcome. */
  lemma StemForgotten(stem1: string, stem2: string, ext: string, now: nat)
    requires |stem1| > 0 && '/' !in stem1 && stem1 + ext != ".."
    requires |stem2| > 0 && '/' !in stem2 && stem2 + ext != ".."
    requires IsExtension(ext)
    ensures StoredFilename(stem1 + ext, now) == StoredFilename(stem2 + ext, now)
  {
    NodePath.ExtnameOfStemAndExt(stem1, ext);
    NodePath.ExtnameOfStemAndExt(stem2, ext);
  }

  /** Names that differ only in ASCII letter case get the same outcome. */
  lemma CaseInsensitive(a: string, b: string, now: nat)
    requires Lower(a) == Lower(b)
    ensures StoredFilename(a, now) == StoredFilename(b, now)
  {
    NodePath.ExtnameLower(a);
    NodePath.ExtnameLower(b);
  }

  /** A name with no '.' at all is refused. */
  lemma NoDotRefused(name: string, now: nat)
    requires '.' !in name
    ensures StoredFilename(name, now) == Refused(UnsupportedFormat)
  {
    NodePath.ExtnameWithoutDot(name);
    NoExtensionRefused(name);
  }

  /** A name whose extension is empty is refused. */
  lemma NoExtensionRefused(name: string)
    requires NodePath.Extname(name) == ""
    ensures UploadExtension(name) !in UploadExtensions
  {
    assert |UploadExtension(name)| == 0;
    EmptyNotUploadExtension();
  }

  lemma EmptyNotUploadExtension()
    ensures "" !in UploadExtensions
  {
    assert |".jpg"| == 4 && |".jpeg"| == 5 && |".png"| == 4;
  }

  /** An extension written in any case, such as ".PNG", is accepted and stored lowered. */
  lemma UpperCaseExtensionStoredLowered(stem: string, ext: string, now: nat)
    requires |stem| > 0 && '/' !in stem && IsExtension(ext) && stem + ext != ".."
    requires Lower(ext) == ".png"
    ensures StoredFilename(stem + ext, now) == Stored(NatToDecimal(now) + ".png")
  {
    AcceptedIffExtension(stem, ext, now);
  }

  /** A dot-file such as ".png" has no extension, so it is refused. */
  lemma DotFileRefused(name: string, now: nat)
    requires |name| > 0 && name[0] == '.' && '.' !in name[1..] && '/' !in name
    ensures StoredFilename(name, now) == Refused(UnsupportedFormat)
  {
    NodePath.ExtnameOfDotFile(name);
    NoExtensionRefused(name);
  }

  /** A ".gif" extension, in any case, is refused whatever the stem. */
  lemma GifRefused(stem: string, ext: string, now: nat)
    requires |stem| > 0 && '/' !in stem && IsExtension(ext) && stem + ext != ".."
    requires Lower(ext) == ".gif"
    ensures StoredFilename(stem + ext, now) == Refused(UnsupportedFormat)
  {
    AcceptedIffExtension(stem, ext, now);
    GifNotUploadExtension();
  }

  lemma GifNotUploadExtension()
    ensures ".gif" !in UploadExtensions
  {
    var g := ".gif";
    assert g[1] != ".jpg"[1] && g[1] != ".jpeg"[1] && g[1] != ".png"[1];
  }

  /** The stored name starts with the timestamp's numeral, which reads back as the timestamp. */
  lemma StoredTimestamp(originalName: string, now: nat)
    requires StoredFilename(originalName, now).Stored?
    ensures LeadingDigits(StoredFilename(originalName, now).filename) == NatToDecimal(now)
    ensures ParseDecimal(LeadingDigits(StoredFilename(originalName, now).filename)) == now
  {
    var ext := UploadExtension(originalName);
    assert ext[0] == '.';
    LeadingDigitsOfNumeral(NatToDecimal(now), ext);
    DecimalRoundTrip(now);
  }

  /** Characters of an accepted extension: no '_' and no '/'. */
  lemma UploadExtensionChars(ext: string)
    requires ext in UploadExtensions
    ensures |ext| > 0 && ext[0] == '.' && '_' !in ext && '/' !in ext && Lower(ext) == ext
  {
  }

  /** An accepted stored name is a numeral, a '.', and the rest of an accepted
      extension; it contains no '_' and no '/'. */
  lemma StoredNameShape(originalName: string, now: nat)
    requires StoredFilename(originalName, now).Stored?
    ensures var n := StoredFilename(originalName, now).filename;
            var d := NatToDecimal(now);
            && n == d + n[|d|..]
            && n[|d|..] in UploadExtensions
            && n[|d|] == '.'
            && '_' !in n && '/' !in n
  {
    var ext := UploadExtension(originalName);
    assert StoredFilename(originalName, now).filename == NatToDecimal(now) + ext;
    NumeralThenExtension(NatToDecimal(now), ext);
  }

  /** Digits followed by an accepted extension: the extension starts right
      after the digits, and neither part holds '_' or '/'. */
  lemma NumeralThenExtension(d: string, ext: string)
    requires AllDigits(d) && ext in UploadExtensions
    ensures (d + ext)[|d|..] == ext && (d + ext)[|d|] == '.'
    ensures '_' !in d + ext && '/' !in d + ext
  {
    var n := d + ext;
    UploadExtensionChars(ext);
    assert forall k :: 0 <= k < |d| ==> IsDigit(n[k]);
    assert forall k :: |d| <= k < |n| ==> n[k] == ext[k - |d|];
  }

  const ProtectedPrefix: string := "protected_"

  /** The JSON body of a successful upload. */
  datatype UploadReply = UploadReply(message: string, filename: string)

  /** The file the upload route writes and the reply it sends. */
  datatype ProtectedUpload = ProtectedUpload(outputName: string, reply: UploadReply)

  /** The upload route's naming after a successful transformation: the
      protected copy of `stored` and the reply naming it. */
  function ProtectUpload(stored: string): (r: ProtectedUpload)
    ensures r.reply.filename == r.outputName
    ensures StripPrefix(ProtectedPrefix, r.outputName) == Some(stored)
    ensures r.reply.message == "Image protégée et téléversée"
  {
    var name := ProtectedPrefix + stored;
    ProtectedUpload(name, UploadReply("Image protégée et téléversée", name))
  }

  /** Different stored files never share a protected copy. */
  lemma ProtectUploadInjective(a: string, b: string)
    requires ProtectUpload(a).outputName == ProtectUpload(b).outputName
    ensures a == b
  {
    assert StripPrefix(ProtectedPrefix, ProtectUpload(a).outputName) == Some(a);
  }
}
