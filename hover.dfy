/**
 * Reading the hovered team out of the choropleth's hover payload. Dash
 * passes None before any hover, otherwise a dictionary whose 'points'
 * entry lists the hovered points; a dictionary is truthy when non-empty.
 * The line-chart and sunburst callbacks guard the lookup differently.
 */
module Hover {
  import opened Wrappers

  datatype Point = Point(location: string)

  type HoverData = Option<map<string, seq<Point>>>

  /** The Python exceptions the lookup `hover_data['points'][0]['location']` can raise. */
  datatype HoverError = KeyError | IndexError

  const PointsKey: string := "points"

  /** The line chart's extraction: only looks up the points when the key is present. */
  function LineChartTeam(h: HoverData): (r: Result<Option<string>, HoverError>)
    ensures r.Err? <==> h.Some? && PointsKey in h.value && |h.value[PointsKey]| == 0
    ensures r.Err? ==> r.error == IndexError
    ensures r.Ok? && r.value.Some? <==> h.Some? && PointsKey in h.value && |h.value[PointsKey]| > 0
    ensures r.Ok? && r.value.Some? ==> r.value.value == h.value[PointsKey][0].location
  {
    if h.Some? && |h.value| > 0 && PointsKey in h.value then
      var points := h.value[PointsKey];
      if |points| == 0 then Err(IndexError) else Ok(Some(points[0].location))
    else Ok(None)
  }

  /** The sunburst's extraction: looks up the points whenever the payload is truthy. */
  function SunburstTeam(h: HoverData): (r: Result<Option<string>, HoverError>)
    ensures r == Err(KeyError) <==> h.Some? && |h.value| > 0 && PointsKey !in h.value
    ensures r == Err(IndexError) <==> h.Some? && PointsKey in h.value && |h.value[PointsKey]| == 0
    ensures r.Ok? && r.value.Some? <==> h.Some? && PointsKey in h.value && |h.value[PointsKey]| > 0
    ensures r.Ok? && r.value.Some? ==> r.value.value == h.value[PointsKey][0].location
  {
    if h.Some? && |h.value| > 0 then
      if PointsKey !in h.value then Err(KeyError)
      else
        var points := h.value[PointsKey];
        if |points| == 0 then Err(IndexError) else Ok(Some(points[0].location))
    else Ok(None)
  }

  /**
   * The two extractions differ only on a non-empty payload without 'points',
   * where the sunburst raises and the line chart sees no team.
   */
  lemma ExtractionsAgree(h: HoverData)
    ensures SunburstTeam(h).Ok? ==> LineChartTeam(h) == SunburstTeam(h)
    ensures SunburstTeam(h) == Err(KeyError) ==> LineChartTeam(h) == Ok(None)
  {
  }
}
