/** The form-line settings read by the generalisation (`FormLineConfig`). */
module Config {

  datatype FormLineConfig = FormLineConfig(
    threshold: real,
    min_distance_to_contour: real,
    max_distance_to_contour: real,
    /** Part of the settings but never read by the form-line generalisation. */
    min_length: real,
    min_gap_length: real,
    additional_tail_length: real
  )

  const DefaultThreshold: real := 0.05
  const DefaultMinDistanceToContour: real := 5.0
  const DefaultMaxDistanceToContour: real := 100.0
  const DefaultMinLength: real := 10.0
  const DefaultMinGapLength: real := 50.0
  const DefaultAdditionalTailLength: real := 15.0

  /** `FormLineConfig::default()`: every field takes its default constant. */
  function DefaultFormLineConfig(): (c: FormLineConfig)
    ensures c.threshold == 0.05
    ensures c.min_distance_to_contour == 5.0 && c.max_distance_to_contour == 100.0
    ensures c.min_length == 10.0
    ensures c.min_gap_length == 50.0 && c.additional_tail_length == 15.0
    ensures 0.0 < c.min_distance_to_contour < c.max_distance_to_contour
  {
    FormLineConfig(
      DefaultThreshold,
      DefaultMinDistanceToContour,
      DefaultMaxDistanceToContour,
      DefaultMinLength,
      DefaultMinGapLength,
      DefaultAdditionalTailLength)
  }
}
