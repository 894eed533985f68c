/** The two tables the lossy JPEG path consults before compressing
    (jpeg.rs): how many components each colour space has, and the sampling
    factors written into the encoder's component array for a chroma mode. */
module JpegSampling {
  import opened Common
  import opened Parameters

  /** `J_COLOR_SPACE` as the decoder reports it in `jpeg_color_space`. */
  datatype ColorSpace =
    | JcsUnknown
    | JcsGrayscale
    | JcsRgb
    | JcsYCbCr
    | JcsCmyk
    | JcsYcck
    | JcsOther(code: int)  // the extended RGB layouts and RGB565

  /** `input_components` chosen for the encoder from the source colour
      space: one for grayscale, four for the CMYK family, three for every
      other value, including the unknown one. */
  function InputComponents(cs: ColorSpace): (n: nat)
    ensures n == 1 <==> cs.JcsGrayscale?
    ensures n == 4 <==> cs.JcsCmyk? || cs.JcsYcck?
    ensures n == 3 <==> !(cs.JcsGrayscale? || cs.JcsCmyk? || cs.JcsYcck?)
  {
    match cs
    case JcsGrayscale => 1
    case JcsRgb => 3
    case JcsYCbCr => 3
    case JcsCmyk => 4
    case JcsYcck => 4
    case _ => 3
  }

  /** Horizontal and vertical sampling factors of one component
      (`h_samp_factor`, `v_samp_factor`). */
  datatype SampFactors = SampFactors(h: int, v: int)

  /** `MAX_COMPONENTS`: `jpeg_set_defaults` always allocates this many
      entries of `comp_info`. */
  const MaxComponents: nat := 10

  /** The sampling factors of the encoder's `comp_info` array. */
  type CompInfo = s: seq<SampFactors> | |s| == MaxComponents
    witness seq(10, _ => SampFactors(1, 1))

  /** Factors given to component 0 (luma) for each explicit mode. */
  function LumaFactors(mode: ChromaSubsampling): SampFactors
    requires mode != Auto
  {
    match mode
    case CS444 => SampFactors(1, 1)
    case CS422 => SampFactors(2, 1)
    case CS411 => SampFactors(4, 1)
    case CS420 => SampFactors(2, 2)
  }

  /** `set_chroma_subsampling` on values: components 1 and 2 become 1x1,
      component 0 takes the mode's factors (Auto leaves it alone), and no
      other entry changes. */
  function ChromaApplied(mode: ChromaSubsampling, comps: CompInfo): (r: CompInfo)
    ensures r[1] == SampFactors(1, 1) && r[2] == SampFactors(1, 1)
    ensures r[0] == if mode == Auto then comps[0] else LumaFactors(mode)
    ensures r[3..] == comps[3..]
  {
    var chroma := comps[1 := SampFactors(1, 1)][2 := SampFactors(1, 1)];
    if mode == Auto then chroma else chroma[0 := LumaFactors(mode)]
  }

  /** `set_chroma_subsampling`: writes the factors field by field into the
      component array in place. */
  method SetChromaSubsampling(subsampling: ChromaSubsampling, compInfo: array<SampFactors>)
    requires compInfo.Length == MaxComponents
    modifies compInfo
    ensures compInfo[..] == ChromaApplied(subsampling, old(compInfo[..]))
  {
    compInfo[1] := compInfo[1].(h := 1);
    compInfo[1] := compInfo[1].(v := 1);
    compInfo[2] := compInfo[2].(h := 1);
    compInfo[2] := compInfo[2].(v := 1);
    match subsampling {
      case CS444 =>
        compInfo[0] := compInfo[0].(h := 1);
        compInfo[0] := compInfo[0].(v := 1);
      case CS422 =>
        compInfo[0] := compInfo[0].(h := 2);
        compInfo[0] := compInfo[0].(v := 1);
      case CS411 =>
        compInfo[0] := compInfo[0].(h := 4);
        compInfo[0] := compInfo[0].(v := 1);
      case CS420 =>
        compInfo[0] := compInfo[0].(h := 2);
        compInfo[0] := compInfo[0].(v := 2);
      case Auto =>
    }
  }

  /** The J:a:b name of a luma/chroma factor pair (chroma at 1x1): J = 4
      luma samples per row of the reference block, a chroma samples in its
      first row, b in its second. */
  function JabName(luma: SampFactors): (int, int, int)
    requires luma.h > 0
  {
    (4, 4 / luma.h, if luma.v == 1 then 4 / luma.h else 0)
  }

  /** Each mode's factors carry the name of the mode. */
  lemma LumaFactorsMatchNames()
    ensures JabName(LumaFactors(CS444)) == (4, 4, 4)
    ensures JabName(LumaFactors(CS422)) == (4, 2, 2)
    ensures JabName(LumaFactors(CS420)) == (4, 2, 0)
    ensures JabName(LumaFactors(CS411)) == (4, 1, 1)
  {
  }

  /** The factors an explicit mode writes conform to section A.1.1 of ITU-T
      T.81: every factor lies in 1..4, and the blocks of one interleaved MCU
      (the sum of H x V over the three components) number at most 10. The
      four modes also give four different luma factors. */
  lemma ChromaAppliedConforms(mode: ChromaSubsampling, other: ChromaSubsampling, comps: CompInfo)
    requires mode != Auto && other != Auto
    ensures var r := ChromaApplied(mode, comps);
      && (forall k :: 0 <= k < 3 ==> 1 <= r[k].h <= 4 && 1 <= r[k].v <= 4)
      && r[0].h * r[0].v + r[1].h * r[1].v + r[2].h * r[2].v <= 10
    ensures mode != other ==> ChromaApplied(mode, comps)[0] != ChromaApplied(other, comps)[0]
  {
  }
}
