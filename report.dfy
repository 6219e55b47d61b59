/**
 * The argument check of `plot_monthly_average`: only the two particulate
 * pollutants may be plotted, and any other name raises a `ValueError` before
 * anything is drawn.
 */
module Report {
  import opened Wrappers
  import opened Frame

  const FAKE_POLLUTANT: string := "That's a negatory, it's a fake pollutant"

  /** The pollutants `plot_monthly_average` accepts. */
  const PLOTTABLE: seq<string> := ["PM2.5", "PM10"]

  datatype GuardError = ValueError(message: string)

  /** The guard: the pollutant to plot, or the `ValueError` the function raises. */
  function CheckPollutant(pollutant: string): (r: Result<string, GuardError>)
    ensures r.Ok? ==> r.value == pollutant
    ensures r.Err? ==> r.error == ValueError(FAKE_POLLUTANT)
  {
    if pollutant !in PLOTTABLE then Err(ValueError(FAKE_POLLUTANT)) else Ok(pollutant)
  }

  /** The guard lets through exactly `PM2.5` and `PM10`, the first two pollutant columns. */
  lemma CheckPollutantAccepts(pollutant: string)
    ensures CheckPollutant(pollutant).Ok? <==> pollutant == "PM2.5" || pollutant == "PM10"
    ensures CheckPollutant(pollutant).Ok? <==> pollutant in POLLUTANTS[..2]
  {
    assert POLLUTANTS[..2] == PLOTTABLE;
  }

  /** Every accepted name is a pollutant column of the cleaned tables. */
  lemma CheckedPollutantIsColumn(pollutant: string)
    requires CheckPollutant(pollutant).Ok?
    ensures exists c :: 0 <= c < POLLUTANT_COUNT && POLLUTANTS[c] == CheckPollutant(pollutant).value
  {
    if pollutant == "PM2.5" {
      assert POLLUTANTS[0] == pollutant;
    } else {
      assert POLLUTANTS[1] == pollutant;
    }
  }

  /** A made-up pollutant, and a real one that is not particulate, are both refused. */
  lemma CheckPollutantRejects()
    ensures CheckPollutant("CO2") == Err(ValueError(FAKE_POLLUTANT))
    ensures CheckPollutant("SO2") == Err(ValueError(FAKE_POLLUTANT))
    ensures CheckPollutant("pm2.5") == Err(ValueError(FAKE_POLLUTANT))
  {
    CheckPollutantAccepts("CO2");
    CheckPollutantAccepts("SO2");
    CheckPollutantAccepts("pm2.5");
  }
}
