/** GGRickMorty's `AttributedStringHelper.attributedStringForLineBreak`: a title, a line
    break and a subtitle, with one font range over the title line and one over the
    subtitle. Lengths count characters, so the model covers text whose characters are
    one UTF-16 unit each; fonts are not modelled, only the ranges they are given. */
module AttributedText {

  /** An `NSRange`: a start offset and a length. */
  datatype TextRange = TextRange(location: int, length: int) {
    function End(): int {
      location + length
    }
  }

  datatype LineBreakText = LineBreakText(text: string, titleRange: TextRange, subTitleRange: TextRange)

  /** The two ranges split the text: the first starts at 0, the second starts where the
      first ends and ends where the text ends, and neither is negative. */
  predicate Splits(t: LineBreakText) {
    && t.titleRange.location == 0
    && 0 <= t.titleRange.length
    && t.titleRange.End() == t.subTitleRange.location
    && 0 <= t.subTitleRange.length
    && t.subTitleRange.End() == |t.text|
  }

  /** The attributed text the helper returns, as a value. */
  function LineBreak(title: string, subTitle: string): (r: LineBreakText)
    ensures Splits(r)
    ensures r.text[..r.titleRange.End()] == title + "\n"
    ensures r.text[r.subTitleRange.location..] == subTitle
    ensures subTitle == "" ==> r.subTitleRange.length == 0
  {
    var text := title + "\n" + subTitle;
    assert text[..|title| + 1] == title + "\n";
    assert text[|title| + 1..] == subTitle;
    LineBreakText(text, TextRange(0, |title| + 1), TextRange(|text| - |subTitle|, |subTitle|))
  }

  /** `attributedStringForLineBreak(title:subTitle:)`: the title line is laid down and
      given its range, then the subtitle is appended and given the range that ends at the
      new length. Its only purpose is to follow the source's order of steps; what it
      builds is `LineBreak`. */
  method AttributedStringForLineBreak(title: string, subTitle: string) returns (r: LineBreakText)
    ensures r == LineBreak(title, subTitle)
  {
    var titleText := title + "\n";
    var text := titleText;
    var titleRange := TextRange(0, |titleText|);
    text := text + subTitle;
    var subTitleRange := TextRange(|text| - |subTitle|, |subTitle|);
    r := LineBreakText(text, titleRange, subTitleRange);
  }
}
