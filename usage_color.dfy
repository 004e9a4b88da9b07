/** The three severity tiers a usage percentage is painted in. */
module UsageColor {
  import opened Theme

  /** `get_usage_color`: red from the high threshold up, yellow from the
      medium threshold up, green below; each tier includes its lower bound. */
  function GetUsageColor(percentage: real): (color: string)
    ensures color == Red <==> percentage >= UsageThresholdHigh as real
    ensures color == Yellow <==> UsageThresholdMedium as real <= percentage < UsageThresholdHigh as real
    ensures color == Green <==> percentage < UsageThresholdMedium as real
  {
    assert Red[3] == '1' && Yellow[3] == '3' && Green[3] == '2';
    if percentage >= UsageThresholdHigh as real then Red
    else if percentage >= UsageThresholdMedium as real then Yellow
    else Green
  }

  /** How alarming a colour is: green 0, yellow 1, red 2. */
  function Severity(color: string): nat {
    if color == Red then 2 else if color == Yellow then 1 else 0
  }

  /** A larger percentage is never shown in a milder colour. */
  lemma SeverityMonotone(p: real, q: real)
    requires p <= q
    ensures Severity(GetUsageColor(p)) <= Severity(GetUsageColor(q))
  {
  }
}
