/**
  `generateWatermark`: a fixed SVG document, 500 by 100, holding one
  nearly transparent text element whose content is the caller's text,
  spliced in without any escaping.
 */
module Watermark {
  import opened Wrappers
  import opened Text

  /** The opening tag that fixes the layer's size. */
  const SvgOpenTag: string := "<svg width=\"500\" height=\"100\">"

  /** The text element's opening tag, on its own indented line. */
  const TextOpenTag: string :=
    "\n            <text x=\"10\" y=\"50\" font-size=\"30\" font-weight=\"bold\" fill=\"black\" opacity=\"0.03\">"

  /** The template's first line break and indentation. */
  const Indent: string := "\n        "

  /** The markup before the text. */
  const SvgPrefix: string := Indent + SvgOpenTag + TextOpenTag

  /** The markup after the text, including the template's trailing line breaks and indentation. */
  const SvgSuffix: string := "</text>\n        </svg>\n    "

  /** The watermark document for `text`. */
  function GenerateWatermark(text: string): (svg: string)
    ensures |svg| == |SvgPrefix| + |text| + |SvgSuffix|
    ensures StartsWith(svg, SvgPrefix) && EndsWith(svg, SvgSuffix)
  {
    SvgPrefix + text + SvgSuffix
  }

  /** The text of a watermark document, or None for anything that is not one. */
  function WatermarkText(svg: string): (r: Option<string>)
    ensures r.Some? ==> |svg| == |SvgPrefix| + |r.value| + |SvgSuffix|
  {
    if |svg| >= |SvgPrefix| + |SvgSuffix| && StartsWith(svg, SvgPrefix) && EndsWith(svg, SvgSuffix)
    then Some(svg[|SvgPrefix|..|svg| - |SvgSuffix|])
    else None
  }

  /** The text comes back out of its watermark verbatim: nothing is escaped,
      dropped or added. */
  lemma WatermarkRoundTrip(text: string)
    ensures WatermarkText(GenerateWatermark(text)) == Some(text)
  {
    var svg := GenerateWatermark(text);
    assert svg[|SvgPrefix|..|svg| - |SvgSuffix|] == text;
  }

  /** Every well-formed watermark document is the watermark of its text. */
  lemma WatermarkTextInverse(svg: string)
    requires WatermarkText(svg).Some?
    ensures GenerateWatermark(WatermarkText(svg).value) == svg
  {
    var t := WatermarkText(svg).value;
    assert svg == svg[..|SvgPrefix|] + t + svg[|svg| - |SvgSuffix|..];
  }

  /** Different texts give different documents. */
  lemma WatermarkInjective(a: string, b: string)
    requires GenerateWatermark(a) == GenerateWatermark(b)
    ensures a == b
  {
    WatermarkRoundTrip(a);
    WatermarkRoundTrip(b);
  }

  /** Whatever the text, the document declares width 500 and height 100 at
      the same place, before the text. */
  lemma WatermarkFixedSize(text: string)
    ensures GenerateWatermark(text)[|Indent|..|Indent| + |SvgOpenTag|] == SvgOpenTag
  {
    var svg := GenerateWatermark(text);
    assert svg == Indent + SvgOpenTag + (TextOpenTag + text + SvgSuffix);
  }
}
