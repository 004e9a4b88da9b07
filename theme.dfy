/** The status line's fixed configuration: ANSI colour escapes, usage
    thresholds, bar glyphs and the OSC 8 hyperlink delimiters. */
module Theme {

  // ANSI select-graphic-rendition sequences
  const Green: string := "\U{1B}[32m"
  const Yellow: string := "\U{1B}[33m"
  const Red: string := "\U{1B}[31m"

  /** Usage percentages at or above these are shown red and yellow. */
  const UsageThresholdHigh: int := 80
  const UsageThresholdMedium: int := 50

  /** The partial-cell glyphs, one eighth more filled at each step; the
      last one is the full block. */
  const Blocks: string := "\U{258F}\U{258E}\U{258D}\U{258C}\U{258B}\U{258A}\U{2589}\U{2588}"
  const FullBlock: char := '\U{2588}'
  const EmptyCell: char := '\U{2591}'

  // OSC 8 hyperlink escape sequences
  const Osc8Prefix: string := "\U{1B}]8;;"
  const Osc8Sep: string := "\U{7}"
  const Osc8Suffix: string := "\U{1B}]8;;\U{7}"
}
