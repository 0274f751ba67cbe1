# ShielSnap backend: filename rules, listing order, watermark and pixel scramble

This project models the pieces of the image-protection backend that are
real sequential logic rather than calls into the `sharp` image library or
Express/multer plumbing. It then proves properties of that model.

- **Pixel scramble** (`PixelScrambler`): the loop of `encryptPixels` walks
  the decoded raw byte buffer with a fixed stride of 4. It XORs offsets 0,
  1 and 2 of every step with 120, 60 and 30 and leaves offset 3 alone. The
  buffer is then re-encoded with the decoded width, height and channel
  count. The stride does not depend on the channel count, so on 3-channel
  data the mask drifts across channels. Writes past the end of a Node
  `Buffer` are dropped, and the model keeps that behaviour.
- **Watermark** (`Watermark`): `generateWatermark` builds a fixed 500 by
  100 SVG document and splices the caller's text into its text element
  without escaping.
- **Upload naming** (`Upload`, `NodePath`): the multer `filename`
  callback lowers `path.extname` of the client's file name. It accepts
  only ".jpg", ".jpeg" and ".png", and stores the file as
  `Date.now() + ext`. After the transformation the upload route writes
  `"protected_" + name` and returns that name in its reply. `NodePath`
  models POSIX `path.extname`:
  - trailing slashes are dropped;
  - only the last segment counts;
  - a leading dot, as in ".png", is no extension;
  - ".." has no extension.
- **Download naming** (`Download`): the download route names the
  watermarked copy `"downloaded_" + filename` and joins that name onto the
  uploads directory.
- **Listing** (`Listing`): the listing route keeps the directory entries
  matching `/\.(jpg|jpeg|png|gif)$/i`. It then sorts them by
  `Number(name.split("_")[0])`, largest first.

Shared pieces:
- `Text`: ASCII lowering, decimal numerals, prefix, suffix and index
  helpers.
- `Wrappers`: `Option`.

Wall-clock time (`Date.now()`) is a parameter, `now`.

Two points about the scramble that are easy to get wrong:
- The scramble walks the buffer with stride 4 whatever the channel count.
  There is no per-channel mask.
- A buffer whose length is not a multiple of the channel count raises no
  error. The loop just stops at the end of the buffer.

## Model

| member | source | states |
|---|---|---|
| PixelScrambler.XorAt | utils/steganography.js:22-24 | `buf[idx] ^= m` on a Node Buffer: the length is kept, every other byte is kept, and an index at or past the end changes nothing |
| PixelScrambler.ScrambleBuffer | utils/steganography.js:21-25 | bytes at index k with k mod 4 = 0, 1 and 2 become the old byte XOR 120, 60 and 30; bytes with k mod 4 = 3 are unchanged; the length is unchanged, so no index past the end is created, even when the length is not a multiple of 4 |
| PixelScrambler.ScrambledSlots | utils/steganography.js:21-25 | the byte-by-byte reference definition of the scramble changes exactly the bytes named above, by the three masks |
| PixelScrambler.EncryptPixels | utils/steganography.js:19-33 | the re-encoded image carries the decoded width, height and channels, its bytes are the scrambled bytes, and it is well-formed (length = width × height × channels) exactly when the decoded image is |
| PixelScrambler.ScrambleSelfInverse | utils/steganography.js:22-24 | scrambling a buffer twice restores every byte exactly |
| PixelScrambler.ScrambleInjective | utils/steganography.js:22-24 | two different buffers never scramble to the same bytes |
| PixelScrambler.RgbRedMask | utils/steganography.js:21 | the mask of absolute index k depends only on k, and repeats every 12 bytes (4 RGB pixels) as 120, none, 30, 60 at k mod 12 = 0, 3, 6, 9 |
| PixelScrambler.RgbMaskDrift | utils/steganography.js:21-25 | for any buffer, whatever its channel count, bytes at k mod 12 = 0, 3, 6, 9 get 120, nothing, 30, 60; on 3-channel data these are the red bytes of successive pixels, so the second pixel's red (index 3) is untouched and its green (index 4) gets 120 |
| Watermark.GenerateWatermark | utils/steganography.js:38-44 | the document starts with the fixed SVG and text opening markup, ends with the fixed closing markup, and its length is theirs plus the text's |
| Watermark.WatermarkRoundTrip | utils/steganography.js:38-44 | the text is read back out of its watermark verbatim: nothing is escaped, dropped or added |
| Watermark.WatermarkTextInverse | utils/steganography.js:38-44 | every document that has the fixed markup is the watermark of the text inside it |
| Watermark.WatermarkInjective | utils/steganography.js:38-44 | different texts give different documents |
| Watermark.WatermarkFixedSize | utils/steganography.js:39 | whatever the text, the document declares width 500 and height 100 at the same position, before the text |
| NodePath.TrimTrailingSlashes | server.js:26 | the path with its trailing '/' removed: a prefix of the path whose last character is not '/', and everything dropped is '/' |
| NodePath.BaseName | server.js:26 | the last segment: a '/'-free suffix of the path without its trailing slashes, preceded there by '/' unless it is the whole trimmed path |
| NodePath.Extname | server.js:26 | `path.extname`: either empty, or a '.' followed by no further '.'; it contains no '/', is a proper suffix of the base name, and never the whole base name |
| NodePath.ExtnameOfStemAndExt | server.js:26 | for a name made of a non-empty stem and a dot-extension, the extension is exactly that suffix |
| NodePath.ExtnameWithoutDot | server.js:26 | a name without any '.' has the empty extension |
| NodePath.ExtnameOfDotFile | server.js:26 | a dot-file such as ".png" has the empty extension |
| NodePath.ExtnameLower | server.js:26 | the extension of the lowered name is the lowered extension, so lowering before or after `extname` gives the same test |
| Text.NatToDecimal | server.js:30 | the decimal numeral of the timestamp is non-empty, all digits, and has no leading zero except for 0 itself |
| Text.DecimalRoundTrip | server.js:30 | the numeral of the timestamp reads back as the timestamp |
| Text.Lower | server.js:26 | ASCII lowering: same length, no upper-case letter left, each upper-case letter moved by 32 to its lower-case form, every other character kept |
| Text.ParseDecimal | server.js:80 | reading a numeral without a leading zero and printing the number back gives the same numeral |
| Text.BeforeFirst | server.js:80 | `split(c)[0]`: a prefix of the string without c, followed in the string by c unless it is the whole string |
| Upload.UploadExtension | server.js:26 | the lowered extension: as long as `path.extname` of the name, with no upper-case letter |
| Upload.UploadExtensionOfLoweredName | server.js:26 | lowering the extension gives the extension of the lowered name |
| Upload.StoredFilename | server.js:25-31 | a refusal always carries "Format non supporté"; an accepted upload is stored as the timestamp's numeral followed by one of ".jpg", ".jpeg", ".png" |
| Upload.AcceptedIffExtension | server.js:26-30 | a name `stem + ext` is accepted if and only if `ext` lowered is ".jpg", ".jpeg" or ".png", and then stored as the numeral of `now` followed by the lowered `ext` |
| Upload.StemForgotten | server.js:30 | nothing of the client's stem survives: names with the same extension get the same outcome at the same instant |
| Upload.CaseInsensitive | server.js:26 | names that differ only in ASCII letter case get the same outcome |
| Upload.UpperCaseExtensionStoredLowered | server.js:26-30 | an extension such as ".PNG" in any case is accepted and stored as ".png" |
| Upload.NoDotRefused | server.js:26-28 | a name without '.' is refused with "Format non supporté" |
| Upload.DotFileRefused | server.js:26-28 | a dot-file such as ".png" is refused, since it has no extension |
| Upload.GifRefused | server.js:27-28 | a ".gif" extension, in any case, is refused whatever the stem |
| Upload.StoredTimestamp | server.js:30 | the stored name starts with a numeral that reads back as the upload time |
| Upload.StoredNameShape | server.js:30 | an accepted stored name is the numeral, then '.', then the rest of an accepted extension; it contains no '_' and no '/' |
| Upload.ProtectUpload | server.js:44-63 | the reply's filename is exactly the name of the protected copy, and stripping "protected_" from it gives back the stored name |
| Upload.ProtectUploadInjective | server.js:44 | two stored files never share a protected copy |
| Download.DownloadedName | server.js:94 | stripping "downloaded_" from the output name gives back the requested filename verbatim |
| Download.DownloadedNameInjective | server.js:94 | two different requests never build the same output name string (before `path.join`) |
| Listing.ListedNameMeans | server.js:79 | the listing's case-insensitive regular expression holds exactly when the name's last characters lower to one of the four extensions |
| Listing.ListedIffExtension | server.js:79 | a name made of any stem and a dot-extension is listed exactly when the lowered extension is ".jpg", ".jpeg", ".png" or ".gif" |
| Listing.FilterImages | server.js:79 | the result holds only listed names and is no longer than the directory |
| Listing.FilterCounts | server.js:79 | every listed name occurs in the result exactly as often as in the directory, every other name not at all |
| Listing.FilterConcat | server.js:79 | filtering two parts of a directory and joining the results gives the filtered whole, so the filter keeps directory order |
| Listing.FilterOne | server.js:79 | a single name is kept exactly when it is listed |
| Listing.FilterAllListed | server.js:79 | a directory of listed names passes the filter unchanged |
| Listing.SortKey | server.js:80 | a key exists exactly when the text before the first '_' is a non-empty run of digits; without a leading zero, the key printed back is that text |
| Listing.ListingCaseInsensitive | server.js:79 | names that differ only in ASCII letter case are listed alike |
| Listing.ListedWithPrefix | server.js:79 | putting anything in front of a listed name keeps it listed |
| Listing.ServerNamesListed | server.js:79 | every file the server writes for an accepted upload is listed: the stored name, its protected copy, and a downloaded copy of either |
| Listing.GifListedButNotUploadable | server.js:79 | a ".gif" file is listed, although an upload with that extension is refused |
| Listing.DotFileListedButNotUploadable | server.js:79 | a file named ".png" is listed, although an upload of that name is refused |
| Listing.Insert | server.js:80 | inserting into a list sorted by decreasing key gives a sorted list with exactly one more copy of the name |
| Listing.SortDesc | server.js:80 | the sort gives a permutation of its input that is sorted by decreasing key, with unkeyed names ranked last |
| Listing.ListImages | server.js:78-80 | the listing holds exactly the listed names, as often as they occur; when every listed name has a digit-run prefix JavaScript reads exactly (at most 2^53 - 1), they come in non-increasing numeric order; when every listed name's prefix reads as NaN, the listing is the filtered directory in directory order |
| Listing.SortByNumeralPrefix | server.js:80 | the sort keeps the names; it orders them by decreasing numeral when all have an exactly readable digit-run prefix, and leaves them in place when every prefix reads as NaN |
| Listing.NaNPrefixHasNoSortKey | server.js:80 | a prefix that `Number` reads as NaN, because it holds a letter no numeric string contains, is never a digit-run key |
| Listing.NaNWithoutSeparator | server.js:80 | a name without '_' holding such a letter is read whole and gives NaN |
| Listing.NaNAfterWord | server.js:80 | a name behind a word prefix ending in its only '_' and holding such a letter, such as "protected_" or "downloaded_", gives NaN |
| Listing.SortKeyWithoutSeparator | server.js:80 | a name without '_' that contains a non-digit has no digit-run key |
| Listing.SortKeyAfterWord | server.js:80 | a name behind a word prefix such as "protected_" has no digit-run key |
| Listing.StoredNameHasNoSortKey | server.js:80 | every stored upload name reads as NaN: the letter after its dot is 'j' or 'p' |
| Listing.ProtectedNameHasNoSortKey | server.js:80 | every protected copy reads as NaN, through the 'p' of "protected" |
| Listing.DownloadedNameHasNoSortKey | server.js:80 | every downloaded copy reads as NaN, through the 'w' of "downloaded" |
| Listing.ServerNamesHaveNoSortKey | server.js:80 | every name the server writes reads as NaN and has no key: stored, protected and downloaded names |
| Listing.UnkeyedNamesKeepOrder | server.js:80 | when no name has a key, the sort leaves the names in directory order |
| Listing.AsWrittenKeepsDirectoryOrder | server.js:78-80 | on any directory holding only stored uploads and their protected copies, the listing is the directory exactly as read, never reordered by upload time |
| Listing.AsWrittenListsOlderFirst | server.js:78-80 | for two uploads stored at t1 < t2 and read from the directory in that order, the listing returns the older upload first |
| Listing.TimestampKey | server.js:80 | the corrected key exists exactly when the text after the last '_' starts with a digit; without a leading zero, the key printed back is the whole run of digits there |
| Listing.ListImagesByTimestamp | server.js:78-80 | the corrected listing holds exactly the listed names, ordered by the numeral after the last '_', largest first |
| Listing.TimestampKeyAfterPrefix | server.js:80 | a prefix ending in '_' does not change the corrected key |
| Listing.CopiesKeepTimestampKey | server.js:80 | the protected copy, and the downloaded copy of it, keep the corrected key of the stored name |
| Listing.ServerNamesCarryTimestamp | server.js:80 | the stored name, its protected copy and the downloaded copy of that all carry the upload time as their corrected key |
| Listing.NewerUploadsListedFirst | server.js:80 | in the corrected listing, of two names written for uploads, the one listed first is never the older upload |
| Listing.ByTimestampListsNewerFirst | server.js:78-80 | for the same two uploads, the corrected listing returns the newer one first |

## Left out

- The `sharp` operations are not modelled: decoding to raw bytes, blur, modulate, composite with blend modes and gravity, metadata, re-encoding and `toFile`. They belong to a foreign library and work on floating-point pixels. A decoded image is a byte sequence together with its width, height and channel count.
- `generateNoise` is not modelled. It draws random colours with `Math.random` and builds its buffer inside `sharp`.
- `protectImage` in utils/imageProcessor.js is not modelled. It only chains `sharp` calls and `encryptPixels`.
- routes/imageRoutes.js is not modelled. Neither are the Express, CORS, multer and `fs` plumbing of server.js: directory creation, the 400, 404 and 500 replies, existence checks, static serving and `res.download`. All of these are I/O.
- Watermark.GenerateWatermark: produces the SVG text only. The UTF-8 encoding done by `Buffer.from` is left out, because the byte encoding adds nothing to the template's structure.
- PixelScrambler.ScrambleBuffer: the buffer is a sequence updated one write at a time, not a mutable typed array. A write past the end is modelled as dropped, as a Node Buffer does.
- Upload.StoredFilename: `Date.now()` is the parameter `now`. It is printed as a plain decimal numeral, which is what JavaScript prints for every integer below 10^21.
- Upload.CaseInsensitive: `toLowerCase` and the regex `i` flag are modelled on ASCII letters only. This gives the same decisions for the letters of "jpg", "jpeg", "png" and "gif", but names containing other letters are not lowered as JavaScript would lower them.
- NodePath.Extname: POSIX paths only. The Windows flavour of `path` is left out.
- Listing.SortKey: `Number(...)` is modelled only for non-empty strings of ASCII digits, which JavaScript reads exactly below 2^53. JavaScript also reads decimal points, signs, surrounding whitespace, hexadecimal, octal and binary prefixes, exponents, "Infinity" and the empty string (as 0) as numbers; these have no key in the model, but they are not NaN either, so nothing about the order is claimed for them.
- Listing.ListImages: the contract states the order only in two cases. In the first, every listed name has a digit-run prefix of at most 2^53 - 1. In the second, every listed name's prefix holds a letter that no numeric string contains, so it reads as NaN; NaN counts as "equal" and the sort is stable. Any other directory is left open. It may hold prefixes such as "1.5" or "-2", which JavaScript orders but the model does not read, or a numeral above 2^53 - 1 that a double rounds, or a mix of numbers and NaN, for which the order is engine-defined. The body ranks names without a digit-run prefix last and sorts stably, but the contract claims nothing about the order there.
- Download.DownloadedName: the name string only. `path.join` is not modelled. Express decodes "%2F" inside the route parameter and `path.join` resolves "..", so two different requests such as "a/../p.png" and "b/../p.png" can write the same file; the injectivity lemma is about the name strings.

## Findings

| source | as written | input that shows it | evidently intended | confidence | as-written member | corrected member |
|---|---|---|---|---|---|---|
| server.js:80 | the listing sorts by `Number(name.split("_")[0])`, but no name the server writes has a numeral there: "1712345678901.png" has no '_', so its whole name is read and gives NaN, and "protected_1712345678901.png" gives "protected" | two uploads stored as "1000.png" and "2000.png", read from the directory in that order: the comparator gives NaN for every pair, so no pair is ever out of order, and the listing keeps ["1000.png", "2000.png"], oldest first (ECMAScript 2019 reads a NaN comparison as "equal" and requires a stable sort) | the listing shows the newest upload first, keyed by the upload timestamp that every written name carries after its last '_' | not executed; high | Listing.AsWrittenListsOlderFirst | Listing.NewerUploadsListedFirst |

The as-written listing is `Listing.ListImages`. It uses the key as
written, and `Listing.ServerNamesHaveNoSortKey` proves that every name
the server writes reads as NaN under it, so `Listing.AsWrittenKeepsDirectoryOrder`
can show that such a directory is listed exactly as read.

The corrected listing is `Listing.ListImagesByTimestamp`. It uses the
numeral after the last '_' as its key.
- `Listing.ServerNamesCarryTimestamp` proves that this key is the upload
  time for the stored name, its protected copy and the downloaded copy of
  that.
- `Listing.NewerUploadsListedFirst` and `Listing.ByTimestampListsNewerFirst`
  prove that newer uploads come first.
