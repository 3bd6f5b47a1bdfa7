/**
 * The checks the settings dialog makes when OK is pressed (`ViaStitcherDialog.on_ok`): the
 * three numeric fields must parse, be positive, and the drill must be smaller than the via.
 */
module DialogSettings {
  import opened Wrappers

  /** Via size, drill and spacing, in millimetres. */
  datatype Settings = Settings(viaSize: real, viaDrill: real, viaSpacing: real)

  /** Why the dialog stays open: a field is not a number, a value is not positive, or the drill is too large. */
  datatype Rejection = NotANumber | NotPositive | DrillNotSmaller

  /**
   * The fields as `float()` parses them (`None` where it raises `ValueError`), checked in the
   * dialog's order. Settings are accepted exactly when all three fields parse, all are
   * positive and the drill is smaller than the via; the accepted settings are the parsed values.
   */
  function ValidateSettings(size: Option<real>, drill: Option<real>, spacing: Option<real>): (r: Result<Settings, Rejection>)
    ensures r.Ok? <==>
            size.Some? && drill.Some? && spacing.Some? &&
            size.value > 0.0 && drill.value > 0.0 && spacing.value > 0.0 && drill.value < size.value
    ensures r.Ok? ==> r.value == Settings(size.value, drill.value, spacing.value)
    ensures r == Err(NotANumber) <==> size.None? || drill.None? || spacing.None?
  {
    if size.None? || drill.None? || spacing.None? then Err(NotANumber)
    else if size.value <= 0.0 || drill.value <= 0.0 || spacing.value <= 0.0 then Err(NotPositive)
    else if drill.value >= size.value then Err(DrillNotSmaller)
    else Ok(Settings(size.value, drill.value, spacing.value))
  }
}
