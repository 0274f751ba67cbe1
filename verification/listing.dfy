/**
  The image listing of server.js: keep the directory entries whose name ends
  in an image extension, then sort them by the number written before the
  first '_', largest first.

  JavaScript subtracts the two prefixes as numbers. `Number` reads decimal
  numerals, but also "1.5", "-2", " 7", "0x1F", "1e3" and "" (as 0); a
  prefix holding a letter that no numeric string can contain, such as the
  'p' of "protected", gives NaN, which the sort reads as "equal". A numeral
  above 2^53 - 1 is rounded. When every listed name has a digit-run prefix
  that JavaScript reads exactly, the comparator is consistent and the result
  is in non-increasing order of the numbers. When every listed name has a
  NaN prefix, every pair compares equal and the stable sort of ECMAScript
  2019 keeps the directory order. Any other directory is left open: its
  order depends on numeric forms the model does not read, or on an
  inconsistent comparator. The model sorts stably by a rank that puts names
  without a digit-run prefix below all others, and its contract claims the
  two guaranteed cases and, in every case, that the result is a permutation
  of the filtered names.
 */
module Listing {
  import opened Wrappers
  import opened Text
  import Upload
  import Download

  /** The extensions the listing's regular expression accepts, in lower case. */
  const ListedExtensions: set<string> := {".jpg", ".jpeg", ".png", ".gif"}

  /** The last |ext| characters of `name`, lowered, are `ext`. */
  predicate EndsWithLowered(name: string, ext: string) {
    |ext| <= |name| && Lower(name[|name| - |ext|..]) == ext
  }

  /** `/\.(jpg|jpeg|png|gif)$/i`: the lowered name ends in one of the four listed extensions. */
  predicate IsListedName(name: string) {
    var l := Lower(name);
    EndsWith(l, ".jpg") || EndsWith(l, ".jpeg") || EndsWith(l, ".png") || EndsWith(l, ".gif")
  }

  /** A name is listed exactly when its last characters are, up to ASCII
      letter case, one of the four listed extensions. */
  lemma ListedNameMeans(name: string)
    ensures IsListedName(name) <==> exists ext :: ext in ListedExtensions && EndsWithLowered(name, ext)
  {
    LoweredSuffix(name, ".jpg");
    LoweredSuffix(name, ".jpeg");
    LoweredSuffix(name, ".png");
    LoweredSuffix(name, ".gif");
  }

  /** The lowered name ends with `ext` exactly when the name's last |ext| characters lower to `ext`. */
  lemma LoweredSuffix(name: string, ext: string)
    ensures EndsWith(Lower(name), ext) <==> EndsWithLowered(name, ext)
  {
    if |ext| <= |name| {
      LowerSuffix(name, |name| - |ext|);
    }
  }

  /** `files.filter(...)`: the listed names, in directory order. */
  function FilterImages(files: seq<string>): (r: seq<string>)
    ensures forall k :: 0 <= k < |r| ==> IsListedName(r[k])
    ensures |r| <= |files|
  {
    if |files| == 0 then []
    else
      assert files == [files[0]] + files[1..];
      (if IsListedName(files[0]) then [files[0]] else []) + FilterImages(files[1..])
  }

  /** Filtering a concatenation filters each part and keeps them in order. */
  lemma {:induction false} FilterConcat(a: seq<string>, b: seq<string>)
    ensures FilterImages(a + b) == FilterImages(a) + FilterImages(b)
    decreases |a|
  {
    if |a| == 0 {
      assert a + b == b;
      assert FilterImages(a) == [];
    } else {
      var x, t := a[0], a[1..];
      var h := if IsListedName(x) then [x] else [];
      assert a == [x] + t;
      assert a + b == [x] + (t + b);
      FilterCons(x, t);
      FilterCons(x, t + b);
      FilterConcat(t, b);
      calc {
        FilterImages(a + b);
        h + FilterImages(t + b);
        h + (FilterImages(t) + FilterImages(b));
        (h + FilterImages(t)) + FilterImages(b);
        FilterImages(a) + FilterImages(b);
      }
    }
  }

  /** The filter keeps every listed name as often as it occurs, and nothing else. */
  lemma {:induction false} FilterCounts(files: seq<string>)
    ensures forall x :: multiset(FilterImages(files))[x] == if IsListedName(x) then multiset(files)[x] else 0
    decreases |files|
  {
    if |files| > 0 {
      var x, t := files[0], files[1..];
      assert files == [x] + t;
      FilterCons(x, t);
      FilterCounts(t);
    }
  }

  /** Filtering a name in front of a list. */
  lemma FilterCons(x: string, s: seq<string>)
    ensures FilterImages([x] + s) == (if IsListedName(x) then [x] else []) + FilterImages(s)
  {
    assert ([x] + s)[1..] == s;
  }

  /** A single name is kept exactly when it is listed. */
  lemma FilterOne(x: string)
    ensures FilterImages([x]) == if IsListedName(x) then [x] else []
  {
    assert [x][1..] == [];
  }

  /** A directory of listed names passes the filter unchanged. */
  lemma {:induction false} FilterAllListed(files: seq<string>)
    requires forall k :: 0 <= k < |files| ==> IsListedName(files[k])
    ensures FilterImages(files) == files
    decreases |files|
  {
    if |files| > 0 {
      FilterAllListed(files[1..]);
    }
  }

  /** `name.split("_")[0]` as a number, when that prefix is a non-empty decimal numeral. */
  function SortKey(name: string): (key: Option<nat>)
    ensures key.Some? <==> |BeforeFirst(name, '_')| > 0 && AllDigits(BeforeFirst(name, '_'))
    ensures key.Some? && BeforeFirst(name, '_')[0] != '0' ==> NatToDecimal(key.value) == BeforeFirst(name, '_')
  {
    var head := BeforeFirst(name, '_');
    if |head| > 0 && AllDigits(head) then Some(ParseDecimal(head)) else None
  }

  /** A key's number, or -1 below every number when the key is absent. */
  function Rank(key: string -> Option<nat>, name: string): (rank: int) {
    match key(name)
    case Some(n) => n
    case None => -1
  }

  ghost predicate SortedDesc(key: string -> Option<nat>, s: seq<string>) {
    forall i, j :: 0 <= i < j < |s| ==> Rank(key, s[j]) <= Rank(key, s[i])
  }

  /** Insert `x` into a list sorted by rank, before the first name of no greater rank. */
  function Insert(key: string -> Option<nat>, x: string, s: seq<string>): (r: seq<string>)
    requires SortedDesc(key, s)
    ensures multiset(r) == multiset(s) + multiset{x}
    ensures SortedDesc(key, r)
    ensures Rank(key, r[0]) == Rank(key, x) || (|s| > 0 && r[0] == s[0])
    decreases |s|
  {
    if |s| == 0 || Rank(key, s[0]) <= Rank(key, x) then
      ConsSorted(key, x, s);
      [x] + s
    else
      assert s == [s[0]] + s[1..];
      var t := Insert(key, x, s[1..]);
      assert Rank(key, t[0]) <= Rank(key, s[0]);
      ConsSorted(key, s[0], t);
      [s[0]] + t
  }

  /** A name ranked no lower than the head of a sorted list can go in front of it. */
  lemma ConsSorted(key: string -> Option<nat>, x: string, s: seq<string>)
    requires SortedDesc(key, s)
    requires |s| > 0 ==> Rank(key, s[0]) <= Rank(key, x)
    ensures SortedDesc(key, [x] + s)
  {
    var r := [x] + s;
    forall i, j | 0 <= i < j < |r|
      ensures Rank(key, r[j]) <= Rank(key, r[i])
    {
      assert r[j] == s[j - 1];
      if i > 0 {
        assert r[i] == s[i - 1];
      } else if j > 1 {
        assert Rank(key, s[j - 1]) <= Rank(key, s[0]);
      }
    }
  }

  /** Stable insertion sort by decreasing rank. */
  function SortDesc(key: string -> Option<nat>, s: seq<string>): (r: seq<string>)
    ensures multiset(r) == multiset(s)
    ensures SortedDesc(key, r)
    decreases |s|
  {
    if |s| == 0 then []
    else
      assert s == [s[0]] + s[1..];
      Insert(key, s[0], SortDesc(key, s[1..]))
  }

  /** `Number.MAX_SAFE_INTEGER`: the largest n such that every integer up to n is exact in a double. */
  const MaxSafeInteger: nat := 9007199254740991

  /** Every name has a numeral prefix that JavaScript reads exactly. */
  predicate AllSafelyKeyed(s: seq<string>) {
    forall k :: 0 <= k < |s| ==> SortKey(s[k]).Some? && SortKey(s[k]).value <= MaxSafeInteger
  }

  /** A character that no string JavaScript's `Number` reads as a number can
      contain: an ASCII letter that is not a hexadecimal digit, not the 'o',
      'x' or 'b' of a radix prefix, not an exponent 'e' and not a letter of
      "Infinity". */
  predicate NeverNumeric(c: char) {
    ('a' <= c <= 'z' || 'A' <= c <= 'Z') && c !in "abcdefinotxyABCDEFIOX"
  }

  /** `Number(name.split("_")[0])` is NaN: the prefix holds a never-numeric character. */
  predicate NaNPrefix(name: string) {
    exists k :: 0 <= k < |BeforeFirst(name, '_')| && NeverNumeric(BeforeFirst(name, '_')[k])
  }

  /** Every name's prefix reads as NaN. */
  predicate AllNaNPrefixed(s: seq<string>) {
    forall k :: 0 <= k < |s| ==> NaNPrefix(s[k])
  }

  /** A NaN prefix is not a run of digits, so the name has no sort key. */
  lemma NaNPrefixHasNoSortKey(name: string)
    requires NaNPrefix(name)
    ensures SortKey(name) == None
  {
    var h := BeforeFirst(name, '_');
    var k :| 0 <= k < |h| && NeverNumeric(h[k]);
    assert !IsDigit(h[k]);
  }

  /** The listing route's result for the directory entries `files`: exactly
      the listed names, as often as they occur; largest numeral first when
      every listed name has an exactly readable numeral prefix; directory
      order when none has one. */
  function ListImages(files: seq<string>): (r: seq<string>)
    ensures forall x :: multiset(r)[x] == if IsListedName(x) then multiset(files)[x] else 0
    ensures AllSafelyKeyed(FilterImages(files)) ==>
              forall i, j :: 0 <= i < j < |r| ==>
                SortKey(r[i]).Some? && SortKey(r[j]).Some? && SortKey(r[j]).value <= SortKey(r[i]).value
    ensures AllNaNPrefixed(FilterImages(files)) ==> r == FilterImages(files)
  {
    FilterCounts(files);
    SortByNumeralPrefix(FilterImages(files));
    SortDesc(SortKey, FilterImages(files))
  }

  /** What the sort by numeral prefix guarantees: the same names; largest
      numeral first when all have an exactly readable one; the given order
      when none has one. */
  lemma SortByNumeralPrefix(f: seq<string>)
    ensures multiset(SortDesc(SortKey, f)) == multiset(f)
    ensures AllSafelyKeyed(f) ==>
              forall i, j :: 0 <= i < j < |SortDesc(SortKey, f)| ==>
                SortKey(SortDesc(SortKey, f)[i]).Some? && SortKey(SortDesc(SortKey, f)[j]).Some? &&
                SortKey(SortDesc(SortKey, f)[j]).value <= SortKey(SortDesc(SortKey, f)[i]).value
    ensures AllNaNPrefixed(f) ==> SortDesc(SortKey, f) == f
  {
    var r := SortDesc(SortKey, f);
    assert forall i, j :: 0 <= i < j < |r| ==> Rank(SortKey, r[j]) <= Rank(SortKey, r[i]);
    PermutationKeepsKeys(f, r);
    if AllNaNPrefixed(f) {
      forall k | 0 <= k < |f|
        ensures SortKey(f[k]) == None
      {
        NaNPrefixHasNoSortKey(f[k]);
      }
      UnkeyedNamesKeepOrder(SortKey, f);
    }
  }

  /** A rearrangement of names that all have a sort key has only names with a sort key. */
  lemma PermutationKeepsKeys(f: seq<string>, r: seq<string>)
    requires multiset(r) == multiset(f)
    ensures AllSafelyKeyed(f) ==> forall k :: 0 <= k < |r| ==> SortKey(r[k]).Some?
  {
    if AllSafelyKeyed(f) {
      forall k | 0 <= k < |r|
        ensures SortKey(r[k]).Some?
      {
        assert r[k] in multiset(r);
        assert r[k] in f;
      }
    }
  }

  /** Upper or lower case makes no difference to the filter. */
  lemma ListingCaseInsensitive(a: string, b: string)
    requires Lower(a) == Lower(b)
    ensures IsListedName(a) <==> IsListedName(b)
  {
  }

  /** For a name made of any stem and a dot-extension, the listing's
      regular expression decides on the extension alone: the name is listed
      exactly when the lowered extension is one of the four. */
  lemma ListedIffExtension(stem: string, ext: string)
    requires Upload.IsExtension(ext)
    ensures IsListedName(stem + ext) <==> Lower(ext) in ListedExtensions
  {
    var le := Lower(ext);
    var l := Lower(stem + ext);
    LowerConcat(stem, ext);
    LowerKeepsExtensionShape(ext);
    EndsWithConcat(Lower(stem), le, le);
    DotSuffixListed(l, le);
  }

  /** A string ending in a dot-extension `e` ends in one of the four listed
      extensions exactly when `e` is one of them. */
  lemma DotSuffixListed(l: string, e: string)
    requires EndsWith(l, e) && |e| > 0 && e[0] == '.' && '.' !in e[1..]
    ensures (EndsWith(l, ".jpg") || EndsWith(l, ".jpeg") || EndsWith(l, ".png") || EndsWith(l, ".gif"))
            <==> e in ListedExtensions
  {
    forall x | x in ListedExtensions
      ensures EndsWith(l, x) <==> x == e
    {
      ListedExtensionShape(x);
      if EndsWith(l, x) {
        DotSuffixUnique(l, x, e);
      }
    }
  }

  /** Each listed extension is a '.' followed by letters. */
  lemma ListedExtensionShape(x: string)
    requires x in ListedExtensions
    ensures |x| > 1 && x[0] == '.' && '.' !in x[1..]
  {
    assert x == ".jpg" || x == ".jpeg" || x == ".png" || x == ".gif";
  }

  /** Lowering keeps the shape of an extension: a '.' first and no other '.'. */
  lemma LowerKeepsExtensionShape(ext: string)
    requires Upload.IsExtension(ext)
    ensures |Lower(ext)| > 0 && Lower(ext)[0] == '.' && '.' !in Lower(ext)[1..]
  {
    var le := Lower(ext);
    forall k | 0 <= k < |le| - 1
      ensures le[1..][k] != '.'
    {
      LowerCharKeepsPunctuation(ext[k + 1], '.');
      assert ext[k + 1] == ext[1..][k];
    }
  }

  /** Of two suffixes of one string that both start with their only '.', neither is longer. */
  lemma DotSuffixNoLonger(l: string, x: string, e: string)
    requires EndsWith(l, x) && EndsWith(l, e)
    requires |x| > 0 && '.' !in x[1..]
    requires |e| > 0 && e[0] == '.'
    ensures |x| <= |e|
  {
    var start := |l| - |x|;
    forall i | start < i < |l|
      ensures l[i] != '.'
    {
      assert l[i] == x[1..][i - start - 1];
    }
    assert l[|l| - |e|] == e[0];
  }

  /** Two suffixes of one string that both start with their only '.' are equal. */
  lemma DotSuffixUnique(l: string, x: string, e: string)
    requires EndsWith(l, x) && EndsWith(l, e)
    requires |x| > 0 && x[0] == '.' && '.' !in x[1..]
    requires |e| > 0 && e[0] == '.' && '.' !in e[1..]
    ensures x == e
  {
    DotSuffixNoLonger(l, x, e);
    DotSuffixNoLonger(l, e, x);
  }

  /** Putting anything in front of a listed name keeps it listed. */
  lemma ListedWithPrefix(prefix: string, name: string)
    requires IsListedName(name)
    ensures IsListedName(prefix + name)
  {
    LowerConcat(prefix, name);
    var l := Lower(name);
    if EndsWith(l, ".jpg") {
      EndsWithConcat(Lower(prefix), l, ".jpg");
    } else if EndsWith(l, ".jpeg") {
      EndsWithConcat(Lower(prefix), l, ".jpeg");
    } else if EndsWith(l, ".png") {
      EndsWithConcat(Lower(prefix), l, ".png");
    } else {
      EndsWithConcat(Lower(prefix), l, ".gif");
    }
  }

  /** Every file the server writes for an accepted upload is listed: the
      stored upload, its protected copy, and a downloaded copy of either. */
  lemma ServerNamesListed(originalName: string, now: nat)
    requires Upload.StoredFilename(originalName, now).Stored?
    ensures IsListedName(Upload.StoredFilename(originalName, now).filename)
    ensures IsListedName(Upload.ProtectUpload(Upload.StoredFilename(originalName, now).filename).outputName)
    ensures IsListedName(Download.DownloadedName(Upload.StoredFilename(originalName, now).filename))
    ensures IsListedName(Download.DownloadedName(
              Upload.ProtectUpload(Upload.StoredFilename(originalName, now).filename).outputName))
  {
    var stored := Upload.StoredFilename(originalName, now).filename;
    StoredNameListed(originalName, now);
    var protected := Upload.ProtectUpload(stored).outputName;
    assert protected == Upload.ProtectedPrefix + stored;
    ListedWithPrefix(Upload.ProtectedPrefix, stored);
    ListedWithPrefix(Download.DownloadedPrefix, stored);
    ListedWithPrefix(Download.DownloadedPrefix, protected);
  }

  /** The stored name of an accepted upload is listed. */
  lemma StoredNameListed(originalName: string, now: nat)
    requires Upload.StoredFilename(originalName, now).Stored?
    ensures IsListedName(Upload.StoredFilename(originalName, now).filename)
  {
    var stored := Upload.StoredFilename(originalName, now).filename;
    var d := NatToDecimal(now);
    Upload.StoredNameShape(originalName, now);
    ListedWithUploadExtension(d, stored[|d|..]);
  }

  /** Any name ending in an accepted upload extension is listed. */
  lemma ListedWithUploadExtension(stem: string, ext: string)
    requires ext in Upload.UploadExtensions
    ensures IsListedName(stem + ext)
  {
    Upload.UploadExtensionChars(ext);
    LowerConcat(stem, ext);
    EndsWithConcat(Lower(stem), ext, ext);
  }


  /** A ".gif" file is listed although an upload with that extension is refused. */
  lemma GifListedButNotUploadable(stem: string, ext: string, now: nat)
    requires |stem| > 0 && '/' !in stem && Upload.IsExtension(ext) && stem + ext != ".."
    requires Lower(ext) == ".gif"
    ensures IsListedName(stem + ext)
    ensures Upload.StoredFilename(stem + ext, now) == Upload.Refused(Upload.UnsupportedFormat)
  {
    LowerConcat(stem, ext);
    EndsWithConcat(Lower(stem), Lower(ext), ".gif");
    Upload.GifRefused(stem, ext, now);
  }

  /** A dot-file such as ".png" is listed although an upload of that name is refused. */
  lemma DotFileListedButNotUploadable(name: string, now: nat)
    requires |name| > 0 && name[0] == '.' && '.' !in name[1..] && '/' !in name
    requires Lower(name) == ".png"
    ensures IsListedName(name)
    ensures Upload.StoredFilename(name, now) == Upload.Refused(Upload.UnsupportedFormat)
  {
    assert EndsWith(Lower(name), ".png");
    Upload.DotFileRefused(name, now);
  }

  // ---------------------------------------------------------------------------
  // The sort key as written never sees a number on names this server writes:
  // "<timestamp>.png" has no '_', so the whole name is read as a number, and
  // "protected_<timestamp>.png" yields "protected". Both hold a letter that no
  // numeric string contains, so JavaScript reads NaN.

  /** A name without '_' that is not all digits has no sort key. */
  lemma SortKeyWithoutSeparator(name: string, k: nat)
    requires '_' !in name && k < |name| && !IsDigit(name[k])
    ensures SortKey(name) == None
  {
    BeforeFirstAbsent(name, '_');
  }

  /** A name behind a prefix that ends in its only '_' and starts with a
      non-digit, such as "protected_", has no sort key. */
  lemma SortKeyAfterWord(prefix: string, rest: string)
    requires |prefix| > 1 && prefix[|prefix| - 1] == '_' && '_' !in prefix[..|prefix| - 1]
    requires !IsDigit(prefix[0])
    ensures SortKey(prefix + rest) == None
  {
    var word := prefix[..|prefix| - 1];
    assert prefix + rest == word + ['_'] + rest;
    BeforeFirstAtSeparator(word, '_', rest);
  }

  /** A name without '_' that holds a never-numeric character reads as NaN. */
  lemma NaNWithoutSeparator(name: string, k: nat)
    requires '_' !in name && k < |name| && NeverNumeric(name[k])
    ensures NaNPrefix(name)
  {
    BeforeFirstAbsent(name, '_');
    assert NeverNumeric(BeforeFirst(name, '_')[k]);
  }

  /** A name behind a prefix that ends in its only '_' and holds a
      never-numeric character before it reads as NaN. */
  lemma NaNAfterWord(prefix: string, rest: string, k: nat)
    requires |prefix| > 1 && prefix[|prefix| - 1] == '_' && '_' !in prefix[..|prefix| - 1]
    requires k < |prefix| - 1 && NeverNumeric(prefix[k])
    ensures NaNPrefix(prefix + rest)
  {
    var word := prefix[..|prefix| - 1];
    assert prefix + rest == word + ['_'] + rest;
    BeforeFirstAtSeparator(word, '_', rest);
    assert NeverNumeric(BeforeFirst(prefix + rest, '_')[k]);
  }

  /** The letter after the dot of an accepted upload extension is never numeric. */
  lemma UploadExtensionLetter(ext: string)
    requires ext in Upload.UploadExtensions
    ensures |ext| > 1 && NeverNumeric(ext[1])
  {
    assert ext == ".jpg" || ext == ".jpeg" || ext == ".png";
  }

  /** Every stored upload reads as NaN, so none has a sort key. */
  lemma StoredNameHasNoSortKey(originalName: string, now: nat)
    requires Upload.StoredFilename(originalName, now).Stored?
    ensures NaNPrefix(Upload.StoredFilename(originalName, now).filename)
    ensures SortKey(Upload.StoredFilename(originalName, now).filename) == None
  {
    var n := Upload.StoredFilename(originalName, now).filename;
    var d := NatToDecimal(now);
    Upload.StoredNameShape(originalName, now);
    UploadExtensionLetter(n[|d|..]);
    assert n[|d| + 1] == n[|d|..][1];
    NaNWithoutSeparator(n, |d| + 1);
    NaNPrefixHasNoSortKey(n);
  }

  /** Every protected copy reads as NaN: its prefix is "protected". */
  lemma ProtectedNameHasNoSortKey(stored: string)
    ensures NaNPrefix(Upload.ProtectUpload(stored).outputName)
    ensures SortKey(Upload.ProtectUpload(stored).outputName) == None
  {
    var p := Upload.ProtectedPrefix;
    assert '_' !in p[..|p| - 1] && p[0] == 'p' by { assert p[..|p| - 1] == "protected"; }
    NaNAfterWord(p, stored, 0);
    NaNPrefixHasNoSortKey(p + stored);
  }

  /** Every downloaded copy reads as NaN: its prefix is "downloaded". */
  lemma DownloadedNameHasNoSortKey(requested: string)
    ensures NaNPrefix(Download.DownloadedName(requested))
    ensures SortKey(Download.DownloadedName(requested)) == None
  {
    var q := Download.DownloadedPrefix;
    assert '_' !in q[..|q| - 1] && q[2] == 'w' by { assert q[..|q| - 1] == "downloaded"; }
    NaNAfterWord(q, requested, 2);
    NaNPrefixHasNoSortKey(q + requested);
  }

  /** No name the server writes has a numeral before its first '_': not the
      stored upload, not its protected copy, and no downloaded copy. */
  lemma ServerNamesHaveNoSortKey(originalName: string, now: nat, requested: string)
    requires Upload.StoredFilename(originalName, now).Stored?
    ensures SortKey(Upload.StoredFilename(originalName, now).filename) == None
    ensures SortKey(Upload.ProtectUpload(Upload.StoredFilename(originalName, now).filename).outputName) == None
    ensures SortKey(Download.DownloadedName(requested)) == None
    ensures NaNPrefix(Upload.StoredFilename(originalName, now).filename)
    ensures NaNPrefix(Upload.ProtectUpload(Upload.StoredFilename(originalName, now).filename).outputName)
    ensures NaNPrefix(Download.DownloadedName(requested))
  {
    StoredNameHasNoSortKey(originalName, now);
    ProtectedNameHasNoSortKey(Upload.StoredFilename(originalName, now).filename);
    DownloadedNameHasNoSortKey(requested);
  }

  /** When no listed name has a sort key, every rank is -1 and the sort
      leaves the filtered names in directory order. */
  lemma {:induction false} UnkeyedNamesKeepOrder(key: string -> Option<nat>, s: seq<string>)
    requires forall k :: 0 <= k < |s| ==> key(s[k]) == None
    ensures SortDesc(key, s) == s
    decreases |s|
  {
    if |s| > 0 {
      UnkeyedNamesKeepOrder(key, s[1..]);
    }
  }

  // ---------------------------------------------------------------------------
  // Corrected key: the numeral at the start of the text after the last '_',
  // which is the upload timestamp for every name the server writes.

  /** The corrected key: the number written by the digits that open the text
      after the last '_' (the whole name when it has no '_'). A key exists
      exactly when that text starts with a digit; without a leading zero,
      the key printed back is the whole run of digits there. */
  function TimestampKey(name: string): (key: Option<nat>)
    ensures var t := name[LastIndexOf(name, '_') + 1..];
            key.Some? <==> |t| > 0 && IsDigit(t[0])
    ensures var t := name[LastIndexOf(name, '_') + 1..];
            key.Some? && t[0] != '0' ==>
              StartsWith(t, NatToDecimal(key.value)) &&
              (|NatToDecimal(key.value)| < |t| ==> !IsDigit(t[|NatToDecimal(key.value)|]))
  {
    var digits := LeadingDigits(name[LastIndexOf(name, '_') + 1..]);
    if |digits| > 0 then Some(ParseDecimal(digits)) else None
  }

  /** The listing sorted by the corrected key. */
  function ListImagesByTimestamp(files: seq<string>): (r: seq<string>)
    ensures forall x :: multiset(r)[x] == if IsListedName(x) then multiset(files)[x] else 0
    ensures forall i, j :: 0 <= i < j < |r| && TimestampKey(r[i]).Some? && TimestampKey(r[j]).Some? ==>
              TimestampKey(r[j]).value <= TimestampKey(r[i]).value
  {
    FilterCounts(files);
    var r := SortDesc(TimestampKey, FilterImages(files));
    assert forall i, j :: 0 <= i < j < |r| ==> Rank(TimestampKey, r[j]) <= Rank(TimestampKey, r[i]);
    r
  }

  /** A name with no '_' whose first characters are the numeral of `t` followed by a '.'. */
  lemma TimestampKeyOfStored(stored: string, d: string, t: nat)
    requires d == NatToDecimal(t)
    requires StartsWith(stored, d) && |stored| > |d| && stored[|d|] == '.'
    requires '_' !in stored
    ensures TimestampKey(stored) == Some(t)
  {
    assert stored == d + stored[|d|..];
    LeadingDigitsOfNumeral(d, stored[|d|..]);
    DecimalRoundTrip(t);
  }

  /** Putting a prefix that ends in '_' in front of a name does not change
      its corrected key. */
  lemma TimestampKeyAfterPrefix(a: string, b: string)
    requires |a| > 0 && a[|a| - 1] == '_'
    ensures TimestampKey(a + b) == TimestampKey(b)
  {
    AfterLastAfterPrefix(a, b, '_');
  }

  /** The protected copy of a name, and the downloaded copy of that, have
      the same corrected key as the name. */
  lemma CopiesKeepTimestampKey(stored: string)
    ensures TimestampKey(Upload.ProtectUpload(stored).outputName) == TimestampKey(stored)
    ensures TimestampKey(Download.DownloadedName(Upload.ProtectUpload(stored).outputName)) == TimestampKey(stored)
  {
    var p := Upload.ProtectedPrefix;
    assert p[|p| - 1] == '_';
    TimestampKeyAfterPrefix(p, stored);
    var q := Download.DownloadedPrefix;
    assert q[|q| - 1] == '_';
    TimestampKeyAfterPrefix(q, p + stored);
  }

  /** Every name the server writes for an upload at time `now` carries `now`
      as its corrected key: the stored upload, its protected copy, and the
      downloaded copy of the protected file. */
  lemma ServerNamesCarryTimestamp(originalName: string, now: nat)
    requires Upload.StoredFilename(originalName, now).Stored?
    ensures TimestampKey(Upload.StoredFilename(originalName, now).filename) == Some(now)
    ensures TimestampKey(Upload.ProtectUpload(Upload.StoredFilename(originalName, now).filename).outputName) == Some(now)
    ensures TimestampKey(Download.DownloadedName(
              Upload.ProtectUpload(Upload.StoredFilename(originalName, now).filename).outputName)) == Some(now)
  {
    var stored := Upload.StoredFilename(originalName, now).filename;
    Upload.StoredNameShape(originalName, now);
    TimestampKeyOfStored(stored, NatToDecimal(now), now);
    CopiesKeepTimestampKey(stored);
  }

  /** `name` is the stored upload for `originalName` at time `now`, or its protected copy. */
  predicate WrittenFor(name: string, originalName: string, now: nat) {
    && Upload.StoredFilename(originalName, now).Stored?
    && var stored := Upload.StoredFilename(originalName, now).filename;
       (name == stored || name == Upload.ProtectUpload(stored).outputName)
  }

  /** A name written for an upload at time `now` has `now` as its corrected key. */
  lemma WrittenForKey(name: string, originalName: string, now: nat)
    requires WrittenFor(name, originalName, now)
    ensures TimestampKey(name) == Some(now)
  {
    ServerNamesCarryTimestamp(originalName, now);
  }

  /** With the corrected key, of two files written for uploads, the one
      listed first is never the older upload. */
  lemma NewerUploadsListedFirst(files: seq<string>, i: nat, j: nat, o1: string, t1: nat, o2: string, t2: nat)
    requires i < j < |ListImagesByTimestamp(files)|
    requires WrittenFor(ListImagesByTimestamp(files)[i], o1, t1)
    requires WrittenFor(ListImagesByTimestamp(files)[j], o2, t2)
    ensures t2 <= t1
  {
    WrittenForKey(ListImagesByTimestamp(files)[i], o1, t1);
    WrittenForKey(ListImagesByTimestamp(files)[j], o2, t2);
  }

  /** A name written for an upload is listed and has no sort key. */
  lemma WrittenForUnkeyed(name: string, originalName: string, now: nat)
    requires WrittenFor(name, originalName, now)
    ensures IsListedName(name) && NaNPrefix(name) && SortKey(name) == None
  {
    ServerNamesListed(originalName, now);
    ServerNamesHaveNoSortKey(originalName, now, name);
  }

  /** The listing as written, on a directory holding only files written for
      uploads (file k for `originals[k]` at `times[k]`), returns the
      directory exactly as read: it never reorders by upload time. */
  lemma AsWrittenKeepsDirectoryOrder(files: seq<string>, originals: seq<string>, times: seq<nat>)
    requires |originals| == |files| && |times| == |files|
    requires forall k :: 0 <= k < |files| ==> WrittenFor(files[k], originals[k], times[k])
    ensures ListImages(files) == files
  {
    forall k | 0 <= k < |files|
      ensures IsListedName(files[k]) && NaNPrefix(files[k])
    {
      WrittenForUnkeyed(files[k], originals[k], times[k]);
    }
    FilterAllListed(files);
  }

  /** Two listed names pass the filter unchanged and in order. */
  lemma FilterTwoListed(n1: string, n2: string)
    requires IsListedName(n1) && IsListedName(n2)
    ensures FilterImages([n1, n2]) == [n1, n2]
  {
    assert [n1, n2][1..] == [n2];
    assert [n2][1..] == [];
  }

  /** Two listed names without a sort key are listed as they come. */
  lemma ListTwoUnkeyed(n1: string, n2: string)
    requires IsListedName(n1) && IsListedName(n2)
    requires SortKey(n1) == None && SortKey(n2) == None
    ensures ListImages([n1, n2]) == [n1, n2]
  {
    FilterTwoListed(n1, n2);
    UnkeyedNamesKeepOrder(SortKey, [n1, n2]);
  }

  /** The listing as written, on a directory holding the stored files of two
      uploads, the older one first: nothing is reordered, so the older upload
      stays first. */
  lemma AsWrittenListsOlderFirst(o1: string, t1: nat, o2: string, t2: nat)
    requires Upload.StoredFilename(o1, t1).Stored? && Upload.StoredFilename(o2, t2).Stored?
    requires t1 < t2
    ensures var n1, n2 := Upload.StoredFilename(o1, t1).filename, Upload.StoredFilename(o2, t2).filename;
            ListImages([n1, n2]) == [n1, n2]
  {
    StoredNameListed(o1, t1);
    StoredNameListed(o2, t2);
    StoredNameHasNoSortKey(o1, t1);
    StoredNameHasNoSortKey(o2, t2);
    ListTwoUnkeyed(Upload.StoredFilename(o1, t1).filename, Upload.StoredFilename(o2, t2).filename);
  }

  /** Sorting two names whose keys are t1 < t2 puts the second first. */
  lemma SortTwoByKey(key: string -> Option<nat>, n1: string, t1: nat, n2: string, t2: nat)
    requires key(n1) == Some(t1) && key(n2) == Some(t2) && t1 < t2
    ensures SortDesc(key, [n1, n2]) == [n2, n1]
  {
    assert [n1, n2][1..] == [n2];
    assert [n2][1..] == [];
    assert SortDesc(key, [n2]) == [n2];
  }

  /** Two listed names with timestamps t1 < t2 are listed newer first. */
  lemma ListTwoByTimestamp(n1: string, t1: nat, n2: string, t2: nat)
    requires IsListedName(n1) && IsListedName(n2)
    requires TimestampKey(n1) == Some(t1) && TimestampKey(n2) == Some(t2) && t1 < t2
    ensures ListImagesByTimestamp([n1, n2]) == [n2, n1]
  {
    FilterTwoListed(n1, n2);
    SortTwoByKey(TimestampKey, n1, t1, n2, t2);
  }

  /** The corrected listing on the same directory puts the newer upload first. */
  lemma ByTimestampListsNewerFirst(o1: string, t1: nat, o2: string, t2: nat)
    requires Upload.StoredFilename(o1, t1).Stored? && Upload.StoredFilename(o2, t2).Stored?
    requires t1 < t2
    ensures var n1, n2 := Upload.StoredFilename(o1, t1).filename, Upload.StoredFilename(o2, t2).filename;
            ListImagesByTimestamp([n1, n2]) == [n2, n1]
  {
    StoredNameListed(o1, t1);
    StoredNameListed(o2, t2);
    ServerNamesCarryTimestamp(o1, t1);
    ServerNamesCarryTimestamp(o2, t2);
    ListTwoByTimestamp(Upload.StoredFilename(o1, t1).filename, t1, Upload.StoredFilename(o2, t2).filename, t2);
  }
}
