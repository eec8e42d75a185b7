/**
 * What the two Streamlit handlers do with a parse result before the
 * model is run: a ValueError is reported as invalid input, and a list
 * with fewer than ten values is accepted with a warning.
 */
module Screening {
  import opened Wrappers
  import opened PyFloat

  /** Both handlers warn when fewer than this many values were read. */
  const MIN_SAMPLES: nat := 10

  /** The outcome of pressing the predict button. */
  datatype Outcome =
    | InvalidInput(error: ParseError)
    | Analysed(samples: seq<Float>, shortWarning: bool)

  /**
   * The try/except around the handler: ValueError becomes InvalidInput;
   * otherwise the values go on to the model, with the warning raised
   * exactly when there are fewer than MIN_SAMPLES of them.
   */
  function Screen(r: Result<seq<Float>, ParseError>): (o: Outcome)
    ensures o.InvalidInput? <==> r.Err?
    ensures r.Err? ==> o.error == r.error
    ensures r.Ok? ==> o.samples == r.value
    ensures r.Ok? ==> (o.shortWarning <==> |r.value| < MIN_SAMPLES)
  {
    match r
    case Err(e) => InvalidInput(e)
    case Ok(data) => Analysed(data, |data| < MIN_SAMPLES)
  }
}
