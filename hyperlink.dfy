/** OSC 8 terminal hyperlinks: `ESC ] 8 ; ; url BEL text ESC ] 8 ; ; BEL`. */
module Hyperlinks {
  import opened Wrappers
  import opened Strings
  import opened Theme

  /** Splits a hyperlink back into its target and its visible text: the
      target ends at the first BEL after the opening sequence. */
  function ParseHyperlink(s: string): Option<(string, string)> {
    if |s| < |Osc8Prefix| + |Osc8Suffix| || !StartsWith(s, Osc8Prefix)
       || s[|s| - |Osc8Suffix|..] != Osc8Suffix then None
    else
      var body := s[|Osc8Prefix|..|s| - |Osc8Suffix|];
      if !Contains(body, Osc8Sep) then None
      else Some((SplitHead(body, Osc8Sep), After(body, Osc8Sep)))
  }

  /** `hyperlink(url, text)`: the text made clickable, wrapped in the
      opening sequence with its target and the closing sequence. */
  function Hyperlink(url: string, text: string): (link: string)
    ensures StartsWith(link, Osc8Prefix + url + Osc8Sep)
    ensures |link| == |Osc8Prefix| + |url| + |Osc8Sep| + |text| + |Osc8Suffix|
  {
    var link := Osc8Prefix + url + Osc8Sep + text + Osc8Suffix;
    assert link[..|Osc8Prefix + url + Osc8Sep|] == Osc8Prefix + url + Osc8Sep;
    link
  }

  /** A terminal reading the link back finds the same target and text, as
      long as the target itself holds no BEL. */
  lemma HyperlinkRoundTrip(url: string, text: string)
    requires Osc8Sep[0] !in url
    ensures ParseHyperlink(Hyperlink(url, text)) == Some((url, text))
  {
    var link := Hyperlink(url, text);
    assert link == Osc8Prefix + url + Osc8Sep + text + Osc8Suffix;
    assert link[..|Osc8Prefix|] == Osc8Prefix;
    assert link[|link| - |Osc8Suffix|..] == Osc8Suffix;
    assert link[|Osc8Prefix|..|link| - |Osc8Suffix|] == url + Osc8Sep + text;
    NoEarlyMatchByFirstChar(url, Osc8Sep);
    SplitAtFirst(url, Osc8Sep, text);
  }
}
