/**
 * The Settings section of the config file and the scalar keys of the
 * Gamepad section: every key is validated before its field of the config
 * record is written. The header constants (bounds, buffer sizes and
 * defaults) are parameters, gathered in `Limits`.
 */
module SettingsSection {
  import opened Wrappers
  import CNumbers
  import CStrings
  import Colors
  import Gamepad

  /** The MIN_*, MAX_*, PERCENT_MAX_CHARS and DEFAULT_* constants of the launcher's header. */
  datatype Limits = Limits(
    minIconSize: int, maxIconSize: int,
    minRxSize: int, maxRxSize: int,
    minSlideshowImageDuration: int, maxSlideshowImageDuration: int,
    minSlideshowTransitionTime: int, maxSlideshowTransitionTime: int,
    percentMaxChars: int,
    defaultScrollIndicators: bool, defaultResetOnBack: bool,
    defaultEscQuit: bool, defaultGamepadEnabled: bool)

  datatype BackgroundMode = ModeColor | ModeImage | ModeSlideshow
  datatype OversizeMode = TextTruncate | TextShrink | TextNone
  datatype OnLaunch = LaunchHide | LaunchNone | LaunchBlank

  /** The scalar part of config_t that the handler writes. */
  datatype Settings = Settings(
    backgroundImage: Option<string>,
    titleFontPath: Option<string>,
    fontSize: nat,
    titleColor: Colors.Color,
    backgroundMode: BackgroundMode,
    backgroundColor: Colors.Color,
    slideshowDirectory: Option<string>,
    iconSize: nat,
    defaultMenu: Option<string>,
    highlightColor: Colors.Color,
    highlightRx: nat,
    titlePadding: int,
    maxButtons: int,
    iconSpacingStr: string,
    iconSpacing: int,
    highlightVPadding: int,
    highlightHPadding: int,
    slideshowImageDuration: nat,
    slideshowTransitionTime: nat,
    titleOpacity: string,
    highlightOpacity: string,
    buttonCenterline: string,
    scrollIndicators: bool,
    scrollIndicatorColor: Colors.Color,
    scrollIndicatorOpacity: string,
    titleOversizeMode: OversizeMode,
    onLaunch: OnLaunch,
    resetOnBack: bool,
    escQuit: bool,
    gamepadEnabled: bool,
    gamepadDevice: int,
    gamepadMappingsFile: Option<string>)

  /**
   * A key name, already compared against the SETTING_* strings. The Gamepad
   * section's binding keys carry the control they bind.
   */
  datatype Key =
    | BackgroundImage | TitleFont | TitleFontSize | TitleColor
    | BackgroundModeKey | BackgroundColor | SlideshowDirectory | IconSize
    | DefaultMenu | HighlightColor | HighlightCornerRadius | TitlePadding
    | MaxButtons | IconSpacing | HighlightVPadding | HighlightHPadding
    | SlideshowImageDuration | SlideshowTransitionTime
    | TitleOpacity | HighlightOpacity | ButtonCenterline
    | ScrollIndicators | ScrollIndicatorColor | ScrollIndicatorOpacity
    | TitleOversizeMode | OnLaunchKey | ResetOnBack | EscQuit
    | GamepadEnabled | GamepadDevice | GamepadMappingsFile
    | Bind(binding: Gamepad.Binding)
    | Unrecognized

  /** The keys whose value is a path: copied, then cleaned in place. */
  predicate IsPathKey(key: Key) {
    key == BackgroundImage || key == TitleFont || key == SlideshowDirectory || key == GamepadMappingsFile
  }

  /** An opacity string: a percentage without a decimal point that fits its buffer. */
  predicate IsPercent(v: string, lim: Limits) {
    '.' !in v && '%' in v && |v| < lim.percentMaxChars
  }

  /** A value the C code treats as "positive or the literal 0". */
  predicate PositiveOrZero(v: string) {
    CNumbers.Atoi(v) > 0 || v == "0"
  }

  /** "Positive or the literal 0" stores a value that is not negative. */
  lemma PositiveOrZeroNotNegative(v: string)
    requires PositiveOrZero(v)
    ensures CNumbers.Atoi(v) >= 0
  {
    if v == "0" {
      CNumbers.AtoiOfDecimal(0);
      assert CNumbers.Decimal(0) == "0";
    }
  }

  /** The number a padding key stores, if its value is positive or the literal 0. */
  function PaddingValue(value: string): (r: Option<int>)
    ensures r.Some? <==> PositiveOrZero(value)
    ensures r.Some? ==> r.value == CNumbers.Atoi(value) && r.value >= 0
  {
    if PositiveOrZero(value) then
      PositiveOrZeroNotNegative(value);
      Some(CNumbers.Atoi(value))
    else None
  }

  /** An icon spacing given as a percentage short enough for its buffer. */
  predicate IsSpacingPercent(v: string) {
    '%' in v && |v| < 6
  }

  /**
   * A path value: copied (never NULL, since the value is not empty) and
   * cleaned, so the stored path is non-empty and is the value itself unless
   * the value was that path enclosed in one pair of quotes.
   */
  function PathValue(value: string): (r: Option<string>)
    requires value != ""
    ensures r.Some? && r.value == CStrings.CleanPath(value)
    ensures r.Some? && r.value != []
    ensures r.Some? && (r.value == value || value == ['"'] + r.value + ['"'])
  {
    Some(CStrings.CleanPath(value))
  }

  /** The background mode words: anything but "Image" or "Slideshow" selects a plain colour. */
  function BackgroundModeOf(value: string): (m: BackgroundMode)
    ensures m == ModeImage <==> value == "Image"
    ensures m == ModeSlideshow <==> value == "Slideshow"
  {
    if value == "Image" then ModeImage
    else if value == "Slideshow" then ModeSlideshow
    else ModeColor
  }

  /** The title oversize words; any other word is ignored. */
  function OversizeModeOf(value: string): (m: Option<OversizeMode>)
    ensures m == Some(TextShrink) <==> value == "Shrink"
    ensures m == Some(TextNone) <==> value == "None"
    ensures m != Some(TextTruncate)
  {
    if value == "Shrink" then Some(TextShrink)
    else if value == "None" then Some(TextNone)
    else None
  }

  /** The on_launch words: anything but "None" or "Blank" hides the launcher. */
  function OnLaunchOf(value: string): (m: OnLaunch)
    ensures m == LaunchNone <==> value == "None"
    ensures m == LaunchBlank <==> value == "Blank"
  {
    if value == "None" then LaunchNone
    else if value == "Blank" then LaunchBlank
    else LaunchHide
  }

  /**
   * One key of the Settings section (the unix build: on_launch is
   * recognised). An empty path value would make copy_string store NULL and
   * clean_path dereference it, so path keys need a non-empty value. No key
   * of this section writes a Gamepad field or the alpha of a colour.
   */
  function ApplySetting(s: Settings, lim: Limits, key: Key, value: string): (r: Settings)
    requires key.BackgroundImage? || key.TitleFont? || key.SlideshowDirectory? ==> value != ""
    ensures r.gamepadEnabled == s.gamepadEnabled && r.gamepadDevice == s.gamepadDevice
    ensures r.gamepadMappingsFile == s.gamepadMappingsFile
    ensures r.titleColor.a == s.titleColor.a && r.backgroundColor.a == s.backgroundColor.a
    ensures r.highlightColor.a == s.highlightColor.a && r.scrollIndicatorColor.a == s.scrollIndicatorColor.a
  {
    match key
    case BackgroundImage => s.(backgroundImage := PathValue(value))
    case TitleFont => s.(titleFontPath := PathValue(value))
    case TitleFontSize => s.(fontSize := CNumbers.ToUint32(CNumbers.Atoi(value)))
    case TitleColor => s.(titleColor := Colors.HexToColor(value, s.titleColor).color)
    case BackgroundModeKey => s.(backgroundMode := BackgroundModeOf(value))
    case BackgroundColor => s.(backgroundColor := Colors.HexToColor(value, s.backgroundColor).color)
    case SlideshowDirectory => s.(slideshowDirectory := PathValue(value))
    case IconSize =>
      var v := CNumbers.ToUint16(CNumbers.Atoi(value));
      if lim.minIconSize <= v <= lim.maxIconSize then s.(iconSize := v) else s
    case DefaultMenu => s.(defaultMenu := CStrings.CopyString(value))
    case HighlightColor => s.(highlightColor := Colors.HexToColor(value, s.highlightColor).color)
    case HighlightCornerRadius =>
      var v := CNumbers.ToUint16(CNumbers.Atoi(value));
      if lim.minRxSize <= v <= lim.maxRxSize then s.(highlightRx := v) else s
    case TitlePadding =>
      var v := CNumbers.Atoi(value);
      if v >= 0 then s.(titlePadding := v) else s
    case MaxButtons =>
      var v := CNumbers.Atoi(value);
      if v > 0 then s.(maxButtons := v) else s
    case IconSpacing =>
      if IsSpacingPercent(value) then s.(iconSpacingStr := value)
      else (match PaddingValue(value)
            case Some(v) => s.(iconSpacing := v)
            case None => s)
    case HighlightVPadding =>
      (match PaddingValue(value)
       case Some(v) => s.(highlightVPadding := v)
       case None => s)
    case HighlightHPadding =>
      (match PaddingValue(value)
       case Some(v) => s.(highlightHPadding := v)
       case None => s)
    case SlideshowImageDuration =>
      var v := CNumbers.ToUint32(CNumbers.Atoi(value));
      if lim.minSlideshowImageDuration <= v <= lim.maxSlideshowImageDuration
      then s.(slideshowImageDuration := v) else s
    case SlideshowTransitionTime =>
      var v := CNumbers.ToUint32(CNumbers.Atoi(value));
      if lim.minSlideshowTransitionTime <= v <= lim.maxSlideshowTransitionTime
      then s.(slideshowTransitionTime := v) else s
    case TitleOpacity => if IsPercent(value, lim) then s.(titleOpacity := value) else s
    case HighlightOpacity => if IsPercent(value, lim) then s.(highlightOpacity := value) else s
    case ButtonCenterline => if |value| < lim.percentMaxChars then s.(buttonCenterline := value) else s
    case ScrollIndicators => s.(scrollIndicators := CStrings.ConvertBool(value, lim.defaultScrollIndicators))
    case ScrollIndicatorColor =>
      s.(scrollIndicatorColor := Colors.HexToColor(value, s.scrollIndicatorColor).color)
    case ScrollIndicatorOpacity =>
      if IsPercent(value, lim) then s.(scrollIndicatorOpacity := value) else s
    case TitleOversizeMode =>
      (match OversizeModeOf(value)
       case Some(m) => s.(titleOversizeMode := m)
       case None => s)
    case OnLaunchKey => s.(onLaunch := OnLaunchOf(value))
    case ResetOnBack => s.(resetOnBack := CStrings.ConvertBool(value, lim.defaultResetOnBack))
    case EscQuit => s.(escQuit := CStrings.ConvertBool(value, lim.defaultEscQuit))
    case _ => s
  }

  /**
   * The scalar keys of the Gamepad section; binding keys are handled by the
   * config record. Only the three Gamepad fields can change, and a device
   * index is stored only when it is not negative.
   */
  function ApplyGamepadSetting(s: Settings, lim: Limits, key: Key, value: string): (r: Settings)
    requires key == GamepadMappingsFile ==> value != ""
    ensures r == s.(gamepadEnabled := r.gamepadEnabled, gamepadDevice := r.gamepadDevice,
                    gamepadMappingsFile := r.gamepadMappingsFile)
    ensures r.gamepadDevice != s.gamepadDevice ==> r.gamepadDevice >= 0
  {
    match key
    case GamepadEnabled => s.(gamepadEnabled := CStrings.ConvertBool(value, lim.defaultGamepadEnabled))
    case GamepadDevice =>
      var v := CNumbers.Atoi(value);
      if v >= 0 then s.(gamepadDevice := v) else s
    case GamepadMappingsFile => s.(gamepadMappingsFile := PathValue(value))
    case _ => s
  }

  /**
   * The bounds the validated keys guarantee for the values they store:
   * sizes, radii and durations in their MIN..MAX ranges, counts and
   * paddings not negative, percentage strings well formed.
   */
  predicate InBounds(s: Settings, lim: Limits) {
    && lim.minIconSize <= s.iconSize <= lim.maxIconSize
    && lim.minRxSize <= s.highlightRx <= lim.maxRxSize
    && s.titlePadding >= 0
    && s.maxButtons > 0
    && s.iconSpacing >= 0
    && |s.iconSpacingStr| < 6
    && s.highlightVPadding >= 0
    && s.highlightHPadding >= 0
    && lim.minSlideshowImageDuration <= s.slideshowImageDuration <= lim.maxSlideshowImageDuration
    && lim.minSlideshowTransitionTime <= s.slideshowTransitionTime <= lim.maxSlideshowTransitionTime
    && IsPercent(s.titleOpacity, lim)
    && IsPercent(s.highlightOpacity, lim)
    && IsPercent(s.scrollIndicatorOpacity, lim)
    && |s.buttonCenterline| < lim.percentMaxChars
    && s.gamepadDevice >= 0
  }

  /** The keys that store a checked number. */
  predicate IsNumericKey(key: Key) {
    key == TitleFontSize || key == IconSize || key == HighlightCornerRadius || key == TitlePadding
    || key == MaxButtons || key == SlideshowImageDuration || key == SlideshowTransitionTime
  }

  /** The keys that accept a positive number or the literal 0. */
  predicate IsPaddingKey(key: Key) {
    key == IconSpacing || key == HighlightVPadding || key == HighlightHPadding
  }

  /** The keys that store a length-checked string. */
  predicate IsPercentKey(key: Key) {
    key == TitleOpacity || key == HighlightOpacity || key == ButtonCenterline || key == ScrollIndicatorOpacity
  }

  /** No key of either section can break the bounds: they are an invariant of the record. */
  lemma ApplySettingKeepsBounds(s: Settings, lim: Limits, key: Key, value: string)
    requires IsPathKey(key) && key != GamepadMappingsFile ==> value != ""
    requires InBounds(s, lim)
    ensures InBounds(ApplySetting(s, lim, key, value), lim)
  {
    if IsNumericKey(key) {
      NumericKeysKeepBounds(s, lim, key, value);
    } else if IsPaddingKey(key) {
      PaddingKeysKeepBounds(s, lim, key, value);
    } else if IsPercentKey(key) {
      PercentKeysKeepBounds(s, lim, key, value);
    } else {
      OtherKeysKeepBounds(s, lim, key, value);
    }
  }

  lemma NumericKeysKeepBounds(s: Settings, lim: Limits, key: Key, value: string)
    requires IsNumericKey(key) && InBounds(s, lim)
    ensures InBounds(ApplySetting(s, lim, key, value), lim)
  {
    match key
    case TitleFontSize =>
    case IconSize =>
    case HighlightCornerRadius =>
    case TitlePadding =>
    case MaxButtons =>
    case SlideshowImageDuration =>
    case SlideshowTransitionTime =>
  }

  lemma PaddingKeysKeepBounds(s: Settings, lim: Limits, key: Key, value: string)
    requires IsPaddingKey(key) && InBounds(s, lim)
    ensures InBounds(ApplySetting(s, lim, key, value), lim)
  {
    match key
    case IconSpacing => IconSpacingKeepsBounds(s, lim, value);
    case HighlightVPadding =>
    case HighlightHPadding =>
  }

  lemma IconSpacingKeepsBounds(s: Settings, lim: Limits, value: string)
    requires InBounds(s, lim)
    ensures InBounds(ApplySetting(s, lim, IconSpacing, value), lim)
  {
    if IsSpacingPercent(value) {
      assert |value| < 6;
    }
  }

  lemma PercentKeysKeepBounds(s: Settings, lim: Limits, key: Key, value: string)
    requires IsPercentKey(key) && InBounds(s, lim)
    ensures InBounds(ApplySetting(s, lim, key, value), lim)
  {
    match key
    case TitleOpacity =>
    case HighlightOpacity =>
    case ButtonCenterline =>
    case ScrollIndicatorOpacity =>
  }

  /** Every other key writes a field the bounds do not mention. */
  lemma OtherKeysKeepBounds(s: Settings, lim: Limits, key: Key, value: string)
    requires !IsNumericKey(key) && !IsPaddingKey(key) && !IsPercentKey(key)
    requires IsPathKey(key) && key != GamepadMappingsFile ==> value != ""
    requires InBounds(s, lim)
    ensures InBounds(ApplySetting(s, lim, key, value), lim)
  {
    if IsPathKey(key) || key == DefaultMenu || key.TitleColor? || key.BackgroundColor? || key.HighlightColor? || key.ScrollIndicatorColor? {
      TextKeysKeepBounds(s, lim, key, value);
    } else {
      ChoiceKeysKeepBounds(s, lim, key, value);
    }
  }

  lemma TextKeysKeepBounds(s: Settings, lim: Limits, key: Key, value: string)
    requires IsPathKey(key) || key == DefaultMenu || key.TitleColor? || key.BackgroundColor? || key.HighlightColor? || key.ScrollIndicatorColor?
    requires IsPathKey(key) && key != GamepadMappingsFile ==> value != ""
    requires InBounds(s, lim)
    ensures InBounds(ApplySetting(s, lim, key, value), lim)
  {
    match key
    case BackgroundImage =>
    case TitleFont =>
    case SlideshowDirectory =>
    case GamepadMappingsFile =>
    case DefaultMenu =>
    case TitleColor =>
    case BackgroundColor =>
    case HighlightColor =>
    case ScrollIndicatorColor =>
  }

  lemma ChoiceKeysKeepBounds(s: Settings, lim: Limits, key: Key, value: string)
    requires !IsNumericKey(key) && !IsPaddingKey(key) && !IsPercentKey(key)
    requires !IsPathKey(key) && key != DefaultMenu && !key.TitleColor? && !key.BackgroundColor? && !key.HighlightColor? && !key.ScrollIndicatorColor?
    requires InBounds(s, lim)
    ensures InBounds(ApplySetting(s, lim, key, value), lim)
  {
    match key
    case BackgroundModeKey =>
    case ScrollIndicators =>
    case TitleOversizeMode =>
    case OnLaunchKey =>
    case ResetOnBack =>
    case EscQuit =>
    case GamepadEnabled =>
    case GamepadDevice =>
    case Bind(_) =>
    case Unrecognized =>
  }

  lemma ApplyGamepadSettingKeepsBounds(s: Settings, lim: Limits, key: Key, value: string)
    requires key == GamepadMappingsFile ==> value != ""
    requires InBounds(s, lim)
    ensures InBounds(ApplyGamepadSetting(s, lim, key, value), lim)
  {
  }

  /**
   * The numeric keys. The font size takes the 32-bit cast of atoi outright.
   * Icon size and corner radius take the 16-bit cast, the slideshow times the
   * 32-bit cast, each stored only inside its MIN..MAX range. Max buttons must be
   * positive and title padding not negative. A value that fails its check
   * leaves the record unchanged, and a stored value changes no other field.
   */
  lemma NumericKeysChecked(s: Settings, lim: Limits, value: string)
    ensures ApplySetting(s, lim, TitleFontSize, value) == s.(fontSize := CNumbers.ToUint32(CNumbers.Atoi(value)))
    ensures var v := CNumbers.ToUint16(CNumbers.Atoi(value));
      && v < CNumbers.UINT16_RANGE
      && ApplySetting(s, lim, IconSize, value) ==
           (if lim.minIconSize <= v <= lim.maxIconSize then s.(iconSize := v) else s)
    ensures var v := CNumbers.ToUint16(CNumbers.Atoi(value));
      && v < CNumbers.UINT16_RANGE
      && ApplySetting(s, lim, HighlightCornerRadius, value) ==
           (if lim.minRxSize <= v <= lim.maxRxSize then s.(highlightRx := v) else s)
    ensures var v := CNumbers.ToUint32(CNumbers.Atoi(value));
      && v < CNumbers.UINT32_RANGE
      && ApplySetting(s, lim, SlideshowImageDuration, value) ==
           (if lim.minSlideshowImageDuration <= v <= lim.maxSlideshowImageDuration then s.(slideshowImageDuration := v) else s)
    ensures var v := CNumbers.ToUint32(CNumbers.Atoi(value));
      && v < CNumbers.UINT32_RANGE
      && ApplySetting(s, lim, SlideshowTransitionTime, value) ==
           (if lim.minSlideshowTransitionTime <= v <= lim.maxSlideshowTransitionTime then s.(slideshowTransitionTime := v) else s)
    ensures var n := CNumbers.Atoi(value);
      ApplySetting(s, lim, MaxButtons, value) == (if n > 0 then s.(maxButtons := n) else s)
    ensures var n := CNumbers.Atoi(value);
      ApplySetting(s, lim, TitlePadding, value) == (if n >= 0 then s.(titlePadding := n) else s)
  {
    FontSizeRule(s, lim, value);
    IconSizeRule(s, lim, value);
    CornerRadiusRule(s, lim, value);
    ImageDurationRule(s, lim, value);
    TransitionTimeRule(s, lim, value);
    MaxButtonsRule(s, lim, value);
    TitlePaddingRule(s, lim, value);
  }

  // The keys of NumericKeysChecked one at a time: a lemma per key keeps each proof small.
  lemma FontSizeRule(s: Settings, lim: Limits, value: string)
    ensures ApplySetting(s, lim, TitleFontSize, value) == s.(fontSize := CNumbers.ToUint32(CNumbers.Atoi(value)))
  {
  }

  lemma IconSizeRule(s: Settings, lim: Limits, value: string)
    ensures var v := CNumbers.ToUint16(CNumbers.Atoi(value));
      && v < CNumbers.UINT16_RANGE
      && ApplySetting(s, lim, IconSize, value) ==
           (if lim.minIconSize <= v <= lim.maxIconSize then s.(iconSize := v) else s)
  {
  }

  lemma CornerRadiusRule(s: Settings, lim: Limits, value: string)
    ensures var v := CNumbers.ToUint16(CNumbers.Atoi(value));
      && v < CNumbers.UINT16_RANGE
      && ApplySetting(s, lim, HighlightCornerRadius, value) ==
           (if lim.minRxSize <= v <= lim.maxRxSize then s.(highlightRx := v) else s)
  {
  }

  lemma ImageDurationRule(s: Settings, lim: Limits, value: string)
    ensures var v := CNumbers.ToUint32(CNumbers.Atoi(value));
      && v < CNumbers.UINT32_RANGE
      && ApplySetting(s, lim, SlideshowImageDuration, value) ==
           (if lim.minSlideshowImageDuration <= v <= lim.maxSlideshowImageDuration then s.(slideshowImageDuration := v) else s)
  {
  }

  lemma TransitionTimeRule(s: Settings, lim: Limits, value: string)
    ensures var v := CNumbers.ToUint32(CNumbers.Atoi(value));
      && v < CNumbers.UINT32_RANGE
      && ApplySetting(s, lim, SlideshowTransitionTime, value) ==
           (if lim.minSlideshowTransitionTime <= v <= lim.maxSlideshowTransitionTime then s.(slideshowTransitionTime := v) else s)
  {
  }

  lemma MaxButtonsRule(s: Settings, lim: Limits, value: string)
    ensures var n := CNumbers.Atoi(value);
      ApplySetting(s, lim, MaxButtons, value) == (if n > 0 then s.(maxButtons := n) else s)
  {
  }

  lemma TitlePaddingRule(s: Settings, lim: Limits, value: string)
    ensures var n := CNumbers.Atoi(value);
      ApplySetting(s, lim, TitlePadding, value) == (if n >= 0 then s.(titlePadding := n) else s)
  {
  }

  /**
   * The padding keys. The highlight paddings take a positive number or the
   * literal "0" and ignore anything else, so a stored padding is never
   * negative. Icon spacing first takes a short percentage for its string field
   * and otherwise follows the same rule for its integer field.
   */
  lemma PaddingKeysChecked(s: Settings, lim: Limits, value: string)
    ensures ApplySetting(s, lim, HighlightVPadding, value) ==
      (if PositiveOrZero(value) then s.(highlightVPadding := CNumbers.Atoi(value)) else s)
    ensures ApplySetting(s, lim, HighlightHPadding, value) ==
      (if PositiveOrZero(value) then s.(highlightHPadding := CNumbers.Atoi(value)) else s)
    ensures var r := ApplySetting(s, lim, IconSpacing, value);
      && ('%' in value && |value| < 6 ==> r == s.(iconSpacingStr := value))
      && (!('%' in value && |value| < 6) && PositiveOrZero(value) ==> r == s.(iconSpacing := CNumbers.Atoi(value)))
      && (!('%' in value && |value| < 6) && !PositiveOrZero(value) ==> r == s)
    ensures PositiveOrZero(value) ==> CNumbers.Atoi(value) >= 0
  {
    VPaddingRule(s, lim, value);
    HPaddingRule(s, lim, value);
    IconSpacingRule(s, lim, value);
    if PositiveOrZero(value) {
      PositiveOrZeroNotNegative(value);
    }
  }

  // The keys of PaddingKeysChecked one at a time: a lemma per key keeps each proof small.
  lemma VPaddingRule(s: Settings, lim: Limits, value: string)
    ensures ApplySetting(s, lim, HighlightVPadding, value) ==
      (if PositiveOrZero(value) then s.(highlightVPadding := CNumbers.Atoi(value)) else s)
  {
  }

  lemma HPaddingRule(s: Settings, lim: Limits, value: string)
    ensures ApplySetting(s, lim, HighlightHPadding, value) ==
      (if PositiveOrZero(value) then s.(highlightHPadding := CNumbers.Atoi(value)) else s)
  {
  }

  lemma IconSpacingRule(s: Settings, lim: Limits, value: string)
    ensures var r := ApplySetting(s, lim, IconSpacing, value);
      && ('%' in value && |value| < 6 ==> r == s.(iconSpacingStr := value))
      && (!('%' in value && |value| < 6) && PositiveOrZero(value) ==> r == s.(iconSpacing := CNumbers.Atoi(value)))
      && (!('%' in value && |value| < 6) && !PositiveOrZero(value) ==> r == s)
  {
  }

  /**
   * The paddings accept a positive number or the literal "0"; "-3", "abc"
   * and "00" are refused.
   */
  lemma PaddingExamples(s: Settings, lim: Limits)
    ensures ApplySetting(s, lim, HighlightVPadding, "0") == s.(highlightVPadding := 0)
    ensures ApplySetting(s, lim, HighlightVPadding, "-3") == s
    ensures ApplySetting(s, lim, HighlightVPadding, "abc") == s
    ensures ApplySetting(s, lim, HighlightHPadding, "00") == s
  {
    AtoiExamples();
    PaddingKeysChecked(s, lim, "0");
    PaddingKeysChecked(s, lim, "-3");
    PaddingKeysChecked(s, lim, "abc");
    PaddingKeysChecked(s, lim, "00");
  }

  lemma AtoiExamples()
    ensures CNumbers.Atoi("0") == 0 && CNumbers.Atoi("-3") == -3
    ensures CNumbers.Atoi("abc") == 0 && CNumbers.Atoi("00") == 0
  {
    AtoiOfZero();
    AtoiOfMinusThree();
    AtoiOfLetters();
    CNumbers.AtoiOfDigits("00");
  }

  lemma AtoiOfZero()
    ensures CNumbers.Atoi("0") == 0
  {
    CNumbers.AtoiOfDecimal(0);
    assert CNumbers.Decimal(0) == "0";
  }

  lemma AtoiOfMinusThree()
    ensures CNumbers.Atoi("-3") == -3
  {
    CNumbers.AtoiOfDecimal(3);
    assert CNumbers.Decimal(3) == "3";
    assert "-3" == "-" + CNumbers.Decimal(3);
  }

  lemma AtoiOfLetters()
    ensures CNumbers.Atoi("abc") == 0
  {
    assert CNumbers.SkipSpace("abc") == "abc";
    assert CNumbers.DecimalPrefix("abc") == [];
  }

  /**
   * The percentage keys. Each opacity string is stored exactly when it is a
   * percentage that fits: a '%', no '.', and shorter than PERCENT_MAX_CHARS.
   * The button centerline only has to fit. Nothing else changes.
   */
  lemma PercentKeysChecked(s: Settings, lim: Limits, value: string)
    ensures var r := ApplySetting(s, lim, TitleOpacity, value);
      && (r != s ==> r == s.(titleOpacity := value))
      && (r.titleOpacity == value <==> IsPercent(value, lim) || s.titleOpacity == value)
    ensures var r := ApplySetting(s, lim, HighlightOpacity, value);
      && (r != s ==> r == s.(highlightOpacity := value))
      && (r.highlightOpacity == value <==> IsPercent(value, lim) || s.highlightOpacity == value)
    ensures var r := ApplySetting(s, lim, ScrollIndicatorOpacity, value);
      && (r != s ==> r == s.(scrollIndicatorOpacity := value))
      && (r.scrollIndicatorOpacity == value <==> IsPercent(value, lim) || s.scrollIndicatorOpacity == value)
    ensures var r := ApplySetting(s, lim, ButtonCenterline, value);
      && (r != s ==> r == s.(buttonCenterline := value))
      && (r.buttonCenterline == value <==> |value| < lim.percentMaxChars || s.buttonCenterline == value)
  {
    TitleOpacityRule(s, lim, value);
    HighlightOpacityRule(s, lim, value);
    ScrollIndicatorOpacityRule(s, lim, value);
    CenterlineRule(s, lim, value);
  }

  // The keys of PercentKeysChecked one at a time: a lemma per key keeps each proof small.
  lemma TitleOpacityRule(s: Settings, lim: Limits, value: string)
    ensures var r := ApplySetting(s, lim, TitleOpacity, value);
      && (r != s ==> r == s.(titleOpacity := value))
      && (r.titleOpacity == value <==> IsPercent(value, lim) || s.titleOpacity == value)
  {
  }

  lemma HighlightOpacityRule(s: Settings, lim: Limits, value: string)
    ensures var r := ApplySetting(s, lim, HighlightOpacity, value);
      && (r != s ==> r == s.(highlightOpacity := value))
      && (r.highlightOpacity == value <==> IsPercent(value, lim) || s.highlightOpacity == value)
  {
  }

  lemma ScrollIndicatorOpacityRule(s: Settings, lim: Limits, value: string)
    ensures var r := ApplySetting(s, lim, ScrollIndicatorOpacity, value);
      && (r != s ==> r == s.(scrollIndicatorOpacity := value))
      && (r.scrollIndicatorOpacity == value <==> IsPercent(value, lim) || s.scrollIndicatorOpacity == value)
  {
  }

  lemma CenterlineRule(s: Settings, lim: Limits, value: string)
    ensures var r := ApplySetting(s, lim, ButtonCenterline, value);
      && (r != s ==> r == s.(buttonCenterline := value))
      && (r.buttonCenterline == value <==> |value| < lim.percentMaxChars || s.buttonCenterline == value)
  {
  }

  /**
   * The mode keys. Background mode and on_launch always write the mode their
   * word selects, so an unknown word selects COLOR or HIDE. The title oversize
   * mode changes only for "Shrink" and "None" and otherwise keeps its value.
   */
  lemma ModeKeys(s: Settings, lim: Limits, value: string)
    ensures ApplySetting(s, lim, BackgroundModeKey, value) == s.(backgroundMode := BackgroundModeOf(value))
    ensures ApplySetting(s, lim, OnLaunchKey, value) == s.(onLaunch := OnLaunchOf(value))
    ensures var r := ApplySetting(s, lim, TitleOversizeMode, value);
      && r == s.(titleOversizeMode := r.titleOversizeMode)
      && (value == "Shrink" ==> r.titleOversizeMode == TextShrink)
      && (value == "None" ==> r.titleOversizeMode == TextNone)
      && (value != "Shrink" && value != "None" ==> r == s)
    ensures value != "Image" && value != "Slideshow" ==>
      ApplySetting(s, lim, BackgroundModeKey, value).backgroundMode == ModeColor
    ensures value != "None" && value != "Blank" ==>
      ApplySetting(s, lim, OnLaunchKey, value).onLaunch == LaunchHide
  {
    BackgroundModeRule(s, lim, value);
    OnLaunchRule(s, lim, value);
    OversizeModeRule(s, lim, value);
  }

  // The keys of ModeKeys one at a time: a lemma per key keeps each proof small.
  lemma BackgroundModeRule(s: Settings, lim: Limits, value: string)
    ensures ApplySetting(s, lim, BackgroundModeKey, value) == s.(backgroundMode := BackgroundModeOf(value))
  {
  }

  lemma OnLaunchRule(s: Settings, lim: Limits, value: string)
    ensures ApplySetting(s, lim, OnLaunchKey, value) == s.(onLaunch := OnLaunchOf(value))
  {
  }

  lemma OversizeModeRule(s: Settings, lim: Limits, value: string)
    ensures var r := ApplySetting(s, lim, TitleOversizeMode, value);
      && r == s.(titleOversizeMode := r.titleOversizeMode)
      && (value == "Shrink" ==> r.titleOversizeMode == TextShrink)
      && (value == "None" ==> r.titleOversizeMode == TextNone)
      && (value != "Shrink" && value != "None" ==> r == s)
  {
  }

  /**
   * The boolean keys (scroll indicators, reset on back, esc quit, and the
   * Gamepad section's enabled flag): "true" and "false" set the flag, any other
   * word restores the key's default, and no other field changes.
   */
  lemma BooleanKeys(s: Settings, lim: Limits, value: string)
    ensures ApplySetting(s, lim, ScrollIndicators, value) == s.(scrollIndicators :=
      if value == "true" then true else if value == "false" then false else lim.defaultScrollIndicators)
    ensures ApplySetting(s, lim, ResetOnBack, value) == s.(resetOnBack :=
      if value == "true" then true else if value == "false" then false else lim.defaultResetOnBack)
    ensures ApplySetting(s, lim, EscQuit, value) == s.(escQuit :=
      if value == "true" then true else if value == "false" then false else lim.defaultEscQuit)
    ensures ApplyGamepadSetting(s, lim, GamepadEnabled, value) == s.(gamepadEnabled :=
      if value == "true" then true else if value == "false" then false else lim.defaultGamepadEnabled)
  {
    ScrollIndicatorsRule(s, lim, value);
    ResetOnBackRule(s, lim, value);
    EscQuitRule(s, lim, value);
    GamepadEnabledRule(s, lim, value);
  }

  // The keys of BooleanKeys one at a time: a lemma per key keeps each proof small.
  lemma ScrollIndicatorsRule(s: Settings, lim: Limits, value: string)
    ensures ApplySetting(s, lim, ScrollIndicators, value) == s.(scrollIndicators :=
      if value == "true" then true else if value == "false" then false else lim.defaultScrollIndicators)
  {
  }

  lemma ResetOnBackRule(s: Settings, lim: Limits, value: string)
    ensures ApplySetting(s, lim, ResetOnBack, value) == s.(resetOnBack :=
      if value == "true" then true else if value == "false" then false else lim.defaultResetOnBack)
  {
  }

  lemma EscQuitRule(s: Settings, lim: Limits, value: string)
    ensures ApplySetting(s, lim, EscQuit, value) == s.(escQuit :=
      if value == "true" then true else if value == "false" then false else lim.defaultEscQuit)
  {
  }

  lemma GamepadEnabledRule(s: Settings, lim: Limits, value: string)
    ensures ApplyGamepadSetting(s, lim, GamepadEnabled, value) == s.(gamepadEnabled :=
      if value == "true" then true else if value == "false" then false else lim.defaultGamepadEnabled)
  {
  }

  /**
   * The colour keys (title, background, highlight, scroll indicator): only
   * the key's own colour changes, its alpha is never written, and a rejected
   * colour text leaves the record unchanged.
   */
  lemma ColorKeys(s: Settings, lim: Limits, value: string)
    ensures var r := ApplySetting(s, lim, TitleColor, value);
      && r == s.(titleColor := r.titleColor) && r.titleColor.a == s.titleColor.a
      && (!Colors.HexToColor(value, s.titleColor).ok ==> r == s)
    ensures var r := ApplySetting(s, lim, BackgroundColor, value);
      && r == s.(backgroundColor := r.backgroundColor) && r.backgroundColor.a == s.backgroundColor.a
      && (!Colors.HexToColor(value, s.backgroundColor).ok ==> r == s)
    ensures var r := ApplySetting(s, lim, HighlightColor, value);
      && r == s.(highlightColor := r.highlightColor) && r.highlightColor.a == s.highlightColor.a
      && (!Colors.HexToColor(value, s.highlightColor).ok ==> r == s)
    ensures var r := ApplySetting(s, lim, ScrollIndicatorColor, value);
      && r == s.(scrollIndicatorColor := r.scrollIndicatorColor) && r.scrollIndicatorColor.a == s.scrollIndicatorColor.a
      && (!Colors.HexToColor(value, s.scrollIndicatorColor).ok ==> r == s)
  {
    TitleColorRule(s, lim, value);
    BackgroundColorRule(s, lim, value);
    HighlightColorRule(s, lim, value);
    ScrollIndicatorColorRule(s, lim, value);
  }

  // The keys of ColorKeys one at a time: a lemma per key keeps each proof small.
  lemma TitleColorRule(s: Settings, lim: Limits, value: string)
    ensures var r := ApplySetting(s, lim, TitleColor, value);
      && r == s.(titleColor := r.titleColor) && r.titleColor.a == s.titleColor.a
      && (!Colors.HexToColor(value, s.titleColor).ok ==> r == s)
  {
  }

  lemma BackgroundColorRule(s: Settings, lim: Limits, value: string)
    ensures var r := ApplySetting(s, lim, BackgroundColor, value);
      && r == s.(backgroundColor := r.backgroundColor) && r.backgroundColor.a == s.backgroundColor.a
      && (!Colors.HexToColor(value, s.backgroundColor).ok ==> r == s)
  {
  }

  lemma HighlightColorRule(s: Settings, lim: Limits, value: string)
    ensures var r := ApplySetting(s, lim, HighlightColor, value);
      && r == s.(highlightColor := r.highlightColor) && r.highlightColor.a == s.highlightColor.a
      && (!Colors.HexToColor(value, s.highlightColor).ok ==> r == s)
  {
  }

  lemma ScrollIndicatorColorRule(s: Settings, lim: Limits, value: string)
    ensures var r := ApplySetting(s, lim, ScrollIndicatorColor, value);
      && r == s.(scrollIndicatorColor := r.scrollIndicatorColor) && r.scrollIndicatorColor.a == s.scrollIndicatorColor.a
      && (!Colors.HexToColor(value, s.scrollIndicatorColor).ok ==> r == s)
  {
  }

  /**
   * The path keys store the cleaned copy of their value and change nothing
   * else; PathValue says what the cleaned copy is.
   */
  lemma PathKeys(s: Settings, lim: Limits, value: string)
    requires value != ""
    ensures ApplySetting(s, lim, BackgroundImage, value) == s.(backgroundImage := Some(CStrings.CleanPath(value)))
    ensures ApplySetting(s, lim, TitleFont, value) == s.(titleFontPath := Some(CStrings.CleanPath(value)))
    ensures ApplySetting(s, lim, SlideshowDirectory, value) == s.(slideshowDirectory := Some(CStrings.CleanPath(value)))
    ensures ApplyGamepadSetting(s, lim, GamepadMappingsFile, value) == s.(gamepadMappingsFile := Some(CStrings.CleanPath(value)))
  {
    BackgroundImageRule(s, lim, value);
    TitleFontRule(s, lim, value);
    SlideshowDirectoryRule(s, lim, value);
    MappingsFileRule(s, lim, value);
  }

  // The keys of PathKeys one at a time: a lemma per key keeps each proof small.
  lemma BackgroundImageRule(s: Settings, lim: Limits, value: string)
    requires value != ""
    ensures ApplySetting(s, lim, BackgroundImage, value) == s.(backgroundImage := Some(CStrings.CleanPath(value)))
  {
  }

  lemma TitleFontRule(s: Settings, lim: Limits, value: string)
    requires value != ""
    ensures ApplySetting(s, lim, TitleFont, value) == s.(titleFontPath := Some(CStrings.CleanPath(value)))
  {
  }

  lemma SlideshowDirectoryRule(s: Settings, lim: Limits, value: string)
    requires value != ""
    ensures ApplySetting(s, lim, SlideshowDirectory, value) == s.(slideshowDirectory := Some(CStrings.CleanPath(value)))
  {
  }

  lemma MappingsFileRule(s: Settings, lim: Limits, value: string)
    requires value != ""
    ensures ApplyGamepadSetting(s, lim, GamepadMappingsFile, value) == s.(gamepadMappingsFile := Some(CStrings.CleanPath(value)))
  {
  }

  /** The keys the Gamepad section reads: its three scalar keys and the bindings. */
  predicate IsGamepadKey(key: Key) {
    key == GamepadEnabled || key == GamepadDevice || key == GamepadMappingsFile || key.Bind?
  }

  /** In the Settings section, Gamepad keys and unrecognised keys change nothing. */
  lemma SettingsIgnoresForeignKeys(s: Settings, lim: Limits, key: Key, value: string)
    requires IsGamepadKey(key) || key == Unrecognized
    ensures ApplySetting(s, lim, key, value) == s
  {
    match key
    case GamepadEnabled =>
    case GamepadDevice =>
    case GamepadMappingsFile =>
    case Bind(_) =>
    case Unrecognized =>
  }

  /**
   * In the Gamepad section only its three scalar keys write the record;
   * Settings keys, bindings and unrecognised keys leave it unchanged.
   */
  lemma GamepadIgnoresOtherKeys(s: Settings, lim: Limits, key: Key, value: string)
    requires key != GamepadEnabled && key != GamepadDevice && key != GamepadMappingsFile
    ensures ApplyGamepadSetting(s, lim, key, value) == s
  {
  }
}
