/** The per-feature style of a thematic choropleth layer (the `style_function`
    of `add_geojson_layer`, main.py:142-148). The colour scale is left
    abstract: a function from a present value to a colour. */
module LayerStyle {
  import opened Wrappers

  /** Fill of a region whose value is null (NaN or missing). */
  const MissingDataFill: string := "#D3D3D3"
  const OutlineColor: string := "black"
  const OutlineWeight: nat := 1
  const FillOpacity: real := 0.7

  /** The style dictionary handed to the map renderer. */
  datatype Style = Style(fillColor: string, color: string, weight: nat, fillOpacity: real)

  /** The style of one feature whose attribute value is `value` (`None` when
      `pd.notnull` fails), under colour scale `scale`: a present value is
      filled with its scale colour, a null one with light grey. */
  function StyleFor(value: Option<real>, scale: real -> string): (style: Style)
    ensures value.Some? ==> style.fillColor == scale(value.value)
    ensures value.None? ==> style.fillColor == MissingDataFill
  {
    Style(
      if value.Some? then scale(value.value) else MissingDataFill,
      OutlineColor,
      OutlineWeight,
      FillOpacity)
  }

  /** Only the fill depends on the value: outline, weight and opacity are the
      same for every feature of every layer. */
  lemma OnlyFillVaries(v: Option<real>, w: Option<real>, s: real -> string, t: real -> string)
    ensures StyleFor(v, s).color == OutlineColor && StyleFor(v, s).weight == OutlineWeight
    ensures StyleFor(v, s).fillOpacity == FillOpacity
    ensures StyleFor(v, s).(fillColor := MissingDataFill) == StyleFor(w, t).(fillColor := MissingDataFill)
  {
  }

  /** When the scale never yields the grey, a grey fill means exactly that the
      value is null. */
  lemma MissingFillIffNull(value: Option<real>, scale: real -> string)
    requires forall x: real :: scale(x) != MissingDataFill
    ensures StyleFor(value, scale).fillColor == MissingDataFill <==> value.None?
  {
    match value
    case Some(v) => assert scale(v) != MissingDataFill;
    case None =>
  }
}
