/** The download route's naming: the watermarked copy of a requested file. */
module Download {
  import opened Wrappers
  import opened Text

  const DownloadedPrefix: string := "downloaded_"

  /** The name the download route builds for the copy of the requested
      `filename`, before joining it onto the uploads directory: the fixed
      prefix followed by the request parameter, verbatim. */
  function DownloadedName(filename: string): (r: string)
    ensures StripPrefix(DownloadedPrefix, r) == Some(filename)
  {
    DownloadedPrefix + filename
  }

  /** Two different requests never build the same output name string. */
  lemma DownloadedNameInjective(a: string, b: string)
    requires DownloadedName(a) == DownloadedName(b)
    ensures a == b
  {
    assert StripPrefix(DownloadedPrefix, DownloadedName(a)) == Some(a);
  }
}
