/** The shape of the weather API's time-series blocks as the views receive
    them: a `time` list of labels and one list of samples per variable, aligned
    by index. Any key may be missing from the block, and any sample may be
    JSON `null`. */
module Series {
  import opened Common

  /** One reading; `None` is a JSON `null`. */
  type Sample = Option<real>

  /** The `daily` block. Each field is `None` when its key is absent. */
  datatype Daily = Daily(
    time: Option<seq<string>>,
    tempMax: Option<seq<Sample>>,        // temperature_2m_max
    tempMin: Option<seq<Sample>>,        // temperature_2m_min
    precip: Option<seq<Sample>>,         // precipitation_sum
    wind: Option<seq<Sample>>,           // wind_speed_10m_max
    radiation: Option<seq<Sample>>,      // shortwave_radiation_sum
    humidity: Option<seq<Sample>>)       // relative_humidity_2m_max

  /** `block.get('time', [])` */
  function Labels(c: Option<seq<string>>): seq<string>
  {
    if c.Some? then c.value else []
  }

  /** `block.get(key, [])` */
  function Col(c: Option<seq<Sample>>): seq<Sample>
  {
    if c.Some? then c.value else []
  }

  predicate NoNulls(s: seq<Sample>)
  {
    forall i :: 0 <= i < |s| ==> s[i].Some?
  }

  /** The non-null samples of `s`, in their original order. */
  function Present(s: seq<Sample>): (r: seq<real>)
    ensures |r| <= |s|
  {
    if |s| == 0 then []
    else
      var n := |s| - 1;
      Present(s[..n]) + (if s[n].Some? then [s[n].value] else [])
  }
}
