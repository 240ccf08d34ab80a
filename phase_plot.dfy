/**
 * The colour-bar ticks of the phase plots drawn for a normal mode
 * (`get_phaseplot_ticks_and_labels`). Tick positions are multiples of π/2
 * and are written here as integers in units of π/2, so that `-2` is −π and
 * `2` is π.
 */
module PhasePlot {

  /** `ValueError`: the number of ticks asked for is neither 3 nor 5. */
  datatype TickError = UnsupportedTickCount(got: int)

  /** Tick positions in units of π/2, and one label per tick. */
  datatype Ticks = Ticks(positions: seq<int>, labels: seq<string>)

  datatype TicksResult = Success(value: Ticks) | Failure(error: TickError)

  /** The sign π, as the labels write it. */
  const PiSymbol: string := "\U{03C0}"

  /** How a multiple of π/2 between −π and π is labelled on the colour bar. */
  function PiLabel(halfTurns: int): string {
    if halfTurns == -2 then "-" + PiSymbol
    else if halfTurns == -1 then "-" + PiSymbol + "/2"
    else if halfTurns == 0 then "0"
    else if halfTurns == 1 then PiSymbol + "/2"
    else if halfTurns == 2 then PiSymbol
    else "?"
  }

  /**
   * The ticks for 3 or 5 colour-bar ticks: evenly spaced from −π to π, each
   * with the label of its own position; any other count is an error that
   * carries the count.
   */
  function PhasePlotTicks(numTicks: int): (r: TicksResult)
    ensures r.Success? <==> numTicks == 3 || numTicks == 5
    ensures r.Failure? ==> r.error == UnsupportedTickCount(numTicks)
    ensures r.Success? ==>
      var t := r.value;
      && |t.positions| == numTicks && |t.labels| == numTicks
      && t.positions[0] == -2 && t.positions[numTicks - 1] == 2
      && (forall k | 0 <= k < numTicks :: t.positions[k] == -2 + k * (4 / (numTicks - 1)))
      && (forall k | 0 <= k < numTicks - 1 :: t.positions[k] < t.positions[k + 1])
      && (forall k | 0 <= k < numTicks :: t.positions[k] == -t.positions[numTicks - 1 - k])
      && (forall k | 0 <= k < numTicks :: t.labels[k] == PiLabel(t.positions[k]))
  {
    if numTicks == 3 then
      Success(Ticks([-2, 0, 2], ["-" + PiSymbol, "0", PiSymbol]))
    else if numTicks == 5 then
      Success(Ticks([-2, -1, 0, 1, 2], ["-" + PiSymbol, "-" + PiSymbol + "/2", "0", PiSymbol + "/2", PiSymbol]))
    else
      Failure(UnsupportedTickCount(numTicks))
  }
}
