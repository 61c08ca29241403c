/** The data side of the 3D renderer (src/utils/volumeRenderer.ts): the
    per-region window presets and the colour and opacity control points that
    `renderVolume` derives from them. The window is in the units of the raw
    scanner intensities, while the volume handed to the renderer holds values
    in [0, 1]; the model keeps that as the code has it. */
module VolumeRenderer {
  import opened Types

  datatype VolumeRenderConfig = VolumeRenderConfig(windowWidth: real, windowCenter: real)

  /** `PRESETS[region]`: the table is total over the six regions. */
  function Preset(region: BodyRegion): (cfg: VolumeRenderConfig)
    ensures cfg.windowWidth > 0.0
  {
    match region
    case Chest => VolumeRenderConfig(1500.0, -600.0)
    case Abdomen => VolumeRenderConfig(350.0, 40.0)
    case UpperAbdomen => VolumeRenderConfig(350.0, 40.0)
    case FullBody => VolumeRenderConfig(350.0, 40.0)
    case HumanNeck => VolumeRenderConfig(350.0, 40.0)
    case Unknown => VolumeRenderConfig(350.0, 40.0)
  }

  function Low(cfg: VolumeRenderConfig): real {
    cfg.windowCenter - cfg.windowWidth / 2.0
  }

  function High(cfg: VolumeRenderConfig): real {
    cfg.windowCenter + cfg.windowWidth / 2.0
  }

  /** A positive width opens a window centred on its centre and exactly that
      wide. */
  lemma WindowOrdered(cfg: VolumeRenderConfig)
    requires cfg.windowWidth > 0.0
    ensures Low(cfg) < cfg.windowCenter < High(cfg)
    ensures High(cfg) - Low(cfg) == cfg.windowWidth
    ensures cfg.windowCenter - Low(cfg) == High(cfg) - cfg.windowCenter
  {
  }

  /** The chest window spans [-1350, 150]; every other region's [-135, 215]. */
  lemma PresetWindows(region: BodyRegion)
    ensures region == Chest ==> Low(Preset(region)) == -1350.0 && High(Preset(region)) == 150.0
    ensures region != Chest ==> Low(Preset(region)) == -135.0 && High(Preset(region)) == 215.0
  {
  }

  datatype Rgb = Rgb(r: real, g: real, b: real)

  predicate InUnit(x: real) {
    0.0 <= x <= 1.0
  }

  /** The colour transfer points: black at the low end, a warm tone at the
      centre, white at the high end. */
  function ColorPoints(cfg: VolumeRenderConfig): (pts: seq<(real, Rgb)>)
    ensures |pts| == 3
    ensures pts[0].0 == Low(cfg) && pts[1].0 == cfg.windowCenter && pts[2].0 == High(cfg)
    ensures forall i :: 0 <= i < 3 ==> InUnit(pts[i].1.r) && InUnit(pts[i].1.g) && InUnit(pts[i].1.b)
    ensures forall i, j :: 0 <= i <= j < 3 ==>
      pts[i].1.r <= pts[j].1.r && pts[i].1.g <= pts[j].1.g && pts[i].1.b <= pts[j].1.b
    ensures pts[0].1 == Rgb(0.0, 0.0, 0.0) && pts[1].1 == Rgb(1.0, 0.76, 0.65) && pts[2].1 == Rgb(1.0, 1.0, 1.0)
  {
    [(Low(cfg), Rgb(0.0, 0.0, 0.0)), (cfg.windowCenter, Rgb(1.0, 0.76, 0.65)), (High(cfg), Rgb(1.0, 1.0, 1.0))]
  }

  /** The scalar opacity points: transparent at the low end, opaque at the
      high end, rising in between. */
  function OpacityPoints(cfg: VolumeRenderConfig): (pts: seq<(real, real)>)
    ensures |pts| == 3
    ensures pts[0].0 == Low(cfg) && pts[1].0 == cfg.windowCenter && pts[2].0 == High(cfg)
    ensures forall i :: 0 <= i < 3 ==> InUnit(pts[i].1)
    ensures forall i, j :: 0 <= i <= j < 3 ==> pts[i].1 <= pts[j].1
    ensures pts[0].1 == 0.0 && pts[1].1 == 0.2 && pts[2].1 == 1.0
  {
    [(Low(cfg), 0.0), (cfg.windowCenter, 0.2), (High(cfg), 1.0)]
  }

  /** For every preset the control points ascend, so the opacity is
      non-decreasing along them. */
  lemma PresetControlPointsAscend(region: BodyRegion)
    ensures var pts := OpacityPoints(Preset(region));
      forall i, j :: 0 <= i < j < 3 ==> pts[i].0 < pts[j].0 && pts[i].1 <= pts[j].1
    ensures var pts := ColorPoints(Preset(region));
      forall i, j :: 0 <= i < j < 3 ==> pts[i].0 < pts[j].0
  {
    WindowOrdered(Preset(region));
  }

  /** Volume values lie in [0, 1], and that interval sits strictly inside one
      segment of every preset: between centre and high end for the chest,
      between low end and centre for the others. No control point is ever
      reached by the data. */
  lemma UnitVolumeInsideOneSegment(region: BodyRegion, v: real)
    requires InUnit(v)
    ensures var cfg := Preset(region);
      region == Chest ==> cfg.windowCenter < v < High(cfg)
    ensures var cfg := Preset(region);
      region != Chest ==> Low(cfg) < v < cfg.windowCenter
  {
    PresetWindows(region);
  }
}
