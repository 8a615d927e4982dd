/** GameSetBlendMode: the choice of the blending function from the script's
    blend mode. */
module Blend {

  /** The blending factors the runtime uses. */
  datatype Factor = SrcAlpha | OneMinusSrcAlpha | One

  /** A blending function: the source and the destination factor. */
  datatype BlendFunc = BlendFunc(src: Factor, dst: Factor)

  /** Mode 0: ordinary alpha blending. */
  const Alpha := BlendFunc(SrcAlpha, OneMinusSrcAlpha)
  /** Mode 1: additive blending. */
  const Additive := BlendFunc(SrcAlpha, One)

  /** The blending function in force after GameSetBlendMode with mode, when
      current was in force before: modes 0 and 1 select their function, any
      other mode keeps the current one. */
  function SetBlendMode(mode: int, current: BlendFunc): (r: BlendFunc)
    ensures r == current || r == Alpha || r == Additive
    ensures r.src == current.src || r.src == SrcAlpha
  {
    if mode == 0 then Alpha
    else if mode == 1 then Additive
    else current
  }

  /** Mode 0 selects (source alpha, one minus source alpha) and mode 1
      selects (source alpha, one), whatever was in force before. */
  lemma KnownModes(current: BlendFunc)
    ensures SetBlendMode(0, current) == BlendFunc(SrcAlpha, OneMinusSrcAlpha)
    ensures SetBlendMode(1, current) == BlendFunc(SrcAlpha, One)
  {
  }

  /** Modes 0 and 1 do not depend on the function in force before. */
  lemma KnownModesForgetPrevious(mode: int, a: BlendFunc, b: BlendFunc)
    requires mode == 0 || mode == 1
    ensures SetBlendMode(mode, a) == SetBlendMode(mode, b)
  {
  }

  /** Any mode other than 0 and 1 leaves the blending function alone. */
  lemma OtherModesKeepCurrent(mode: int, current: BlendFunc)
    requires mode != 0 && mode != 1
    ensures SetBlendMode(mode, current) == current
  {
  }

  /** Setting the same mode twice is the same as setting it once. */
  lemma SetBlendModeIdempotent(mode: int, current: BlendFunc)
    ensures SetBlendMode(mode, SetBlendMode(mode, current)) == SetBlendMode(mode, current)
  {
  }

  /** The two known modes select different functions. */
  lemma KnownModesDiffer(current: BlendFunc)
    ensures SetBlendMode(0, current) != SetBlendMode(1, current)
  {
  }
}
