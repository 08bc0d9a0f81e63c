/**
 * Row and column size configs: the defaults, the screen filter over them and
 * the rows built for the single-column layout.
 */
module SizeConfigs {
  import opened Wrappers
  import opened Screen

  /** A row or column config as written in the `rows`/`cols` options; an absent field is None. */
  datatype RawSizeConfig = RawSizeConfig(
    ratio: Option<real>,
    baseSize: Option<real>,
    minSize: Option<real>,
    maxSize: Option<real>,
    shrink: Option<real>,
    screen: Option<string>)

  /** A config after defaulting: every numeric field is set; `shrink` stays optional. */
  datatype SizeConfig = SizeConfig(ratio: real, baseSize: real, minSize: real, maxSize: real, shrink: Option<real>)

  function ScreenOf(c: RawSizeConfig): Option<string> {
    c.screen
  }

  /** `_createDefaultSizeConfig`. */
  function CreateDefaultSizeConfig(): (c: SizeConfig)
    ensures c.ratio == 1.0 && c.baseSize == 0.0 && c.minSize == 0.0 && c.maxSize == 0.0
    ensures c.shrink == None
  {
    SizeConfig(1.0, 0.0, 0.0, 0.0, None)
  }

  /** `_defaultSizeConfig(size)`: `size` default configs, pushed one by one. */
  method DefaultSizeConfigs(size: nat) returns (r: seq<SizeConfig>)
    ensures |r| == size
    ensures forall i :: 0 <= i < size ==> r[i] == CreateDefaultSizeConfig()
  {
    r := [];
    var i := 0;
    while i < size
      invariant 0 <= i <= size
      invariant |r| == i
      invariant forall j :: 0 <= j < i ==> r[j] == CreateDefaultSizeConfig()
    {
      r := r + [CreateDefaultSizeConfig()];
      i := i + 1;
    }
  }

  /** `extend(this._defaultSizeConfig(), sizeConfig)`: the fields the config sets win. */
  function ApplyDefaults(raw: RawSizeConfig): SizeConfig {
    var d := CreateDefaultSizeConfig();
    SizeConfig(
      raw.ratio.GetOr(d.ratio),
      raw.baseSize.GetOr(d.baseSize),
      raw.minSize.GetOr(d.minSize),
      raw.maxSize.GetOr(d.maxSize),
      raw.shrink)
  }

  function MapDefaults(raws: seq<RawSizeConfig>): (r: seq<SizeConfig>)
    ensures |r| == |raws|
    ensures forall i :: 0 <= i < |raws| ==> r[i] == ApplyDefaults(raws[i])
  {
    if raws == [] then [] else [ApplyDefaults(raws[0])] + MapDefaults(raws[1..])
  }

  /** `_sizesByScreen`: the configs kept for the class, in order, each completed with the defaults. */
  function SizesByScreen(raws: seq<RawSizeConfig>, cls: string): (r: seq<SizeConfig>)
    ensures |r| == |FilterByScreen(raws, ScreenOf, cls)| <= |raws|
    ensures forall i :: 0 <= i < |r| ==>
              exists j :: 0 <= j < |raws| && Keeps(raws[j].screen, cls) && r[i] == ApplyDefaults(raws[j])
    ensures forall i :: 0 <= i < |r| ==>
              && r[i].ratio == FilterByScreen(raws, ScreenOf, cls)[i].ratio.GetOr(1.0)
              && r[i].baseSize == FilterByScreen(raws, ScreenOf, cls)[i].baseSize.GetOr(0.0)
              && r[i].minSize == FilterByScreen(raws, ScreenOf, cls)[i].minSize.GetOr(0.0)
              && r[i].maxSize == FilterByScreen(raws, ScreenOf, cls)[i].maxSize.GetOr(0.0)
              && r[i].shrink == FilterByScreen(raws, ScreenOf, cls)[i].shrink
  {
    var kept := FilterByScreen(raws, ScreenOf, cls);
    var r := MapDefaults(kept);
    assert forall i :: 0 <= i < |r| ==> kept[i] in raws;
    r
  }

  /** The `shrink` of single-column row i: that of the i-th row kept for the class, if any. */
  function SingleColumnShrink(rowsOption: seq<RawSizeConfig>, cls: string, i: nat): Option<real> {
    var filtered := FilterByScreen(rowsOption, ScreenOf, cls);
    if rowsOption != [] && i < |filtered| then filtered[i].shrink else None
  }

  /**
   * `getSingleColumnRows`: one default row per screen item; when the `rows`
   * option is non-empty, row i takes `shrink` from the i-th row kept for the
   * class, when that row exists and sets it.
   */
  method SingleColumnRows(rowsOption: seq<RawSizeConfig>, screenItemsLength: nat, cls: string)
    returns (r: seq<SizeConfig>)
    ensures |r| == screenItemsLength
    ensures forall i :: 0 <= i < |r| ==>
              && r[i].ratio == 1.0 && r[i].baseSize == 0.0 && r[i].minSize == 0.0 && r[i].maxSize == 0.0
    ensures forall i :: 0 <= i < |r| ==> r[i].shrink == SingleColumnShrink(rowsOption, cls, i)
  {
    if |rowsOption| > 0 {
      var filteredRows := FilterByScreen(rowsOption, ScreenOf, cls);
      r := [];
      var i := 0;
      while i < screenItemsLength
        invariant 0 <= i <= screenItemsLength
        invariant |r| == i
        invariant forall j :: 0 <= j < i ==>
                    && r[j].ratio == 1.0 && r[j].baseSize == 0.0 && r[j].minSize == 0.0 && r[j].maxSize == 0.0
                    && r[j].shrink == (if j < |filteredRows| then filteredRows[j].shrink else None)
      {
        var sizeConfig := CreateDefaultSizeConfig();
        if i < |filteredRows| && filteredRows[i].shrink.Some? {
          sizeConfig := sizeConfig.(shrink := filteredRows[i].shrink);
        }
        r := r + [sizeConfig];
        i := i + 1;
      }
    } else {
      r := DefaultSizeConfigs(screenItemsLength);
    }
  }

  /**
   * `_isSingleColumnScreen`: the `singleColumnScreen` option names the class
   * as a token, or the unfiltered `rows` or `cols` option is empty.
   */
  function IsSingleColumnScreen(singleColumnScreen: string, rowsOption: seq<RawSizeConfig>,
                                colsOption: seq<RawSizeConfig>, cls: string): (r: bool)
    ensures r <==> (exists j :: 0 <= j <= |singleColumnScreen| && TokenAt(singleColumnScreen, cls, j))
                   || rowsOption == [] || colsOption == []
  {
    ScreenRegExpTest(singleColumnScreen, cls) || |rowsOption| == 0 || |colsOption| == 0
  }
}
