/**
 * The `apply` step of the colour menu (index.js:277-287): validate, then
 * persist and live-apply, or reject without touching anything.
 */
module ColorMenu {
  import opened Wrappers
  import opened HexColor
  import opened OverlayManager

  /** The world-scoped `acColor` setting of the host's settings store. */
  class ColorSetting {
    var value: string

    constructor (initial: string)
      ensures value == initial
    {
      value := initial;
    }
  }

  /**
   * `apply(hex)`: a rejected value changes neither the stored setting nor
   * the manager; an accepted one is stored and, for a Gamemaster, becomes
   * the manager's colour.
   */
  method Apply(hex: Option<string>, setting: ColorSetting, manager: ACOverlayManager, isGM: bool)
    requires manager.Valid()
    modifies setting, manager
    ensures manager.Valid()
    ensures NormalizeHex(hex).None? ==> unchanged(setting) && unchanged(manager)
    ensures NormalizeHex(hex).Some? ==> setting.value == NormalizeHex(hex).value
    ensures NormalizeHex(hex).Some? && isGM ==>
      manager.color == NormalizeHex(hex).value && manager.overlays == old(manager.overlays)
    ensures NormalizeHex(hex).Some? && isGM ==>
      manager.containerColor == if old(manager.containerColor).Some? then Some(manager.color) else None
    ensures manager.containerColor.Some? == old(manager.containerColor).Some?
    ensures !isGM ==> unchanged(manager)
  {
    var valid := NormalizeHex(hex);
    if valid.None? {
      return;
    }
    setting.value := valid.value;
    if isGM {
      manager.SetColor(valid);
    }
  }
}
