/** Per-extruder option vectors such as the extruder colours: position i
    always describes extruder i (0-based), so swapping two extruders exchanges
    two positions. */
module ExtruderColours {
  import opened SeqExchange

  /** Exchanging the colours of extruders 0 and 1 keeps extruder 2's colour. */
  method SwapFirstTwoColours() returns (values: seq<string>)
    ensures values == ["#00FF00", "#FF0000", "#0000FF"]
  {
    values := ["#FF0000", "#00FF00", "#0000FF"];
    values := Exchange(values, 0, 1);
  }
}
