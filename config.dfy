/**
  The daemon's configuration: key codes, actions, layers, the global settings and
  the per-keyboard overrides, with the rule that derives the effective
  configuration of one keyboard and the content rule for password files.
 */
module Configuration {
  import opened Text

  /** QMK-style key codes, the vocabulary of the configuration file. */
  datatype KeyCode =
    // Letters
    | KC_A | KC_B | KC_C | KC_D | KC_E | KC_F | KC_G | KC_H | KC_I | KC_J | KC_K | KC_L | KC_M
    | KC_N | KC_O | KC_P | KC_Q | KC_R | KC_S | KC_T | KC_U | KC_V | KC_W | KC_X | KC_Y | KC_Z
    // Numbers
    | KC_1 | KC_2 | KC_3 | KC_4 | KC_5 | KC_6 | KC_7 | KC_8 | KC_9 | KC_0
    // Modifiers (KC_LCMD and KC_RCMD are the Command names of the GUI keys)
    | KC_LCTL | KC_LSFT | KC_LALT | KC_LGUI | KC_LCMD | KC_RCTL | KC_RSFT | KC_RALT | KC_RGUI | KC_RCMD
    // Special keys
    | KC_ESC | KC_CAPS | KC_TAB | KC_SPC | KC_ENT | KC_BSPC | KC_DEL | KC_GRV | KC_MINS | KC_EQL
    | KC_LBRC | KC_RBRC | KC_BSLS | KC_SCLN | KC_QUOT | KC_COMM | KC_DOT | KC_SLSH
    // Arrow keys
    | KC_LEFT | KC_DOWN | KC_UP | KC_RGHT
    // Function keys
    | KC_F1 | KC_F2 | KC_F3 | KC_F4 | KC_F5 | KC_F6 | KC_F7 | KC_F8 | KC_F9 | KC_F10 | KC_F11 | KC_F12
    | KC_F13 | KC_F14 | KC_F15 | KC_F16 | KC_F17 | KC_F18 | KC_F19 | KC_F20 | KC_F21 | KC_F22 | KC_F23 | KC_F24
    // Navigation keys
    | KC_PGUP | KC_PGDN | KC_HOME | KC_END | KC_INS | KC_PSCR
    // Numpad keys
    | KC_KP_0 | KC_KP_1 | KC_KP_2 | KC_KP_3 | KC_KP_4 | KC_KP_5 | KC_KP_6 | KC_KP_7 | KC_KP_8 | KC_KP_9
    | KC_KP_SLASH | KC_KP_ASTERISK | KC_KP_MINUS | KC_KP_PLUS | KC_KP_ENTER | KC_KP_DOT | KC_NUM_LOCK
    // Media keys
    | KC_MUTE | KC_VOL_UP | KC_VOL_DN | KC_MEDIA_PLAY_PAUSE | KC_MEDIA_STOP | KC_MEDIA_NEXT_TRACK
    | KC_MEDIA_PREV_TRACK | KC_MEDIA_SELECT
    // System keys
    | KC_PWR | KC_SLEP | KC_WAKE | KC_CALC | KC_MY_COMP | KC_WWW_SEARCH | KC_WWW_HOME | KC_WWW_BACK
    | KC_WWW_FORWARD | KC_WWW_STOP | KC_WWW_REFRESH | KC_WWW_FAVORITES
    // Locking keys
    | KC_SCRL | KC_PAUS
    // Application keys
    | KC_APP | KC_MENU
    // Multimedia keys
    | KC_BRIU | KC_BRID | KC_DISPLAY_OFF | KC_WLAN | KC_BLUETOOTH | KC_KEYBOARD_LAYOUT
    // International keys
    | KC_INTL_BACKSLASH | KC_INTL_YEN | KC_INTL_RO

  /** A layer is identified by its name; "base" and "game_mode" are reserved names. */
  datatype Layer = Layer(name: string)

  const BASE_LAYER_NAME: string := "base"

  predicate IsBase(layer: Layer) {
    layer.name == BASE_LAYER_NAME
  }

  /** The base layer, which always exists. */
  function BaseLayer(): (layer: Layer)
    ensures IsBase(layer)
  {
    Layer(BASE_LAYER_NAME)
  }

  /** Exactly one layer is the base layer: the one named "base". */
  lemma IsBaseExactlyBaseLayer(layer: Layer)
    ensures IsBase(layer) <==> layer == BaseLayer()
  {
  }

  /** What a key does when pressed. */
  datatype Action =
    | Key(KeyCode)                                   // direct key mapping
    | HR(tap: KeyCode, hold: KeyCode)                // home-row mod: tap for a key, hold for a modifier
    | OVERLOAD(tap: KeyCode, hold: KeyCode)          // tap/hold without permissive hold
    | TO(layer: Layer)                               // switch to a layer
    | Socd(thisKey: KeyCode, opposingKey: KeyCode)   // last-input-priority opposing pair
    | Password(id: string)                           // type the password stored under `id`

  type Remaps = map<KeyCode, Action>

  datatype LayerConfig = LayerConfig(remaps: Remaps)

  datatype GameMode = GameMode(remaps: Remaps)

  /** Which tables a keyboard replaces; an absent table is inherited. */
  datatype KeymapOverride = KeymapOverride(
    baseRemaps: Option<Remaps>,
    layers: Option<map<Layer, LayerConfig>>,
    gameModeRemaps: Option<Remaps>)

  /** Which timing settings a keyboard replaces; an absent setting is inherited. */
  datatype SettingsOverride = SettingsOverride(
    tappingTermMs: Option<U32>,
    doubleTapWindowMs: Option<U32>)

  datatype KeyboardOverride = KeyboardOverride(
    keymap: Option<KeymapOverride>,
    settings: Option<SettingsOverride>)

  /** The global configuration; `keyboardOverrides` is keyed by hardware keyboard id. */
  datatype Config = Config(
    tappingTermMs: U32,
    doubleTapWindowMs: Option<U32>,
    enabledKeyboards: Option<seq<string>>,
    remaps: Remaps,
    layers: map<Layer, LayerConfig>,
    gameMode: GameMode,
    keyboardOverrides: map<string, KeyboardOverride>)

  // ---------------------------------------------------------------------------
  // Per-keyboard resolution

  /** The setting a keyboard's override gives for each field, if any (flattened lookups). */
  function TermOverride(c: Config, keyboardId: string): Option<U32> {
    if keyboardId in c.keyboardOverrides && c.keyboardOverrides[keyboardId].settings.Some?
    then c.keyboardOverrides[keyboardId].settings.value.tappingTermMs
    else None
  }

  function WindowOverride(c: Config, keyboardId: string): Option<U32> {
    if keyboardId in c.keyboardOverrides && c.keyboardOverrides[keyboardId].settings.Some?
    then c.keyboardOverrides[keyboardId].settings.value.doubleTapWindowMs
    else None
  }

  function BaseRemapsOverride(c: Config, keyboardId: string): Option<Remaps> {
    if keyboardId in c.keyboardOverrides && c.keyboardOverrides[keyboardId].keymap.Some?
    then c.keyboardOverrides[keyboardId].keymap.value.baseRemaps
    else None
  }

  function LayersOverride(c: Config, keyboardId: string): Option<map<Layer, LayerConfig>> {
    if keyboardId in c.keyboardOverrides && c.keyboardOverrides[keyboardId].keymap.Some?
    then c.keyboardOverrides[keyboardId].keymap.value.layers
    else None
  }

  function GameRemapsOverride(c: Config, keyboardId: string): Option<Remaps> {
    if keyboardId in c.keyboardOverrides && c.keyboardOverrides[keyboardId].keymap.Some?
    then c.keyboardOverrides[keyboardId].keymap.value.gameModeRemaps
    else None
  }

  /** Overwrites the timing settings that `s` names. */
  function ApplySettings(c: Config, s: SettingsOverride): (r: Config)
    ensures r.tappingTermMs == (if s.tappingTermMs.Some? then s.tappingTermMs.value else c.tappingTermMs)
    ensures r.doubleTapWindowMs == (if s.doubleTapWindowMs.Some? then s.doubleTapWindowMs else c.doubleTapWindowMs)
    ensures r.enabledKeyboards == c.enabledKeyboards && r.keyboardOverrides == c.keyboardOverrides
    ensures r.remaps == c.remaps && r.layers == c.layers && r.gameMode == c.gameMode
  {
    var c := if s.tappingTermMs.Some? then c.(tappingTermMs := s.tappingTermMs.value) else c;
    if s.doubleTapWindowMs.Some? then c.(doubleTapWindowMs := Some(s.doubleTapWindowMs.value)) else c
  }

  /** Replaces, wholesale, the tables that `k` names. */
  function ApplyKeymap(c: Config, k: KeymapOverride): (r: Config)
    ensures r.remaps == (if k.baseRemaps.Some? then k.baseRemaps.value else c.remaps)
    ensures r.layers == (if k.layers.Some? then k.layers.value else c.layers)
    ensures r.gameMode == (if k.gameModeRemaps.Some? then GameMode(k.gameModeRemaps.value) else c.gameMode)
    ensures r.tappingTermMs == c.tappingTermMs && r.doubleTapWindowMs == c.doubleTapWindowMs
    ensures r.enabledKeyboards == c.enabledKeyboards && r.keyboardOverrides == c.keyboardOverrides
  {
    var c := if k.baseRemaps.Some? then c.(remaps := k.baseRemaps.value) else c;
    var c := if k.layers.Some? then c.(layers := k.layers.value) else c;
    if k.gameModeRemaps.Some? then c.(gameMode := c.gameMode.(remaps := k.gameModeRemaps.value)) else c
  }

  /**
    The effective configuration of keyboard `keyboardId`: the global one with the
    keyboard's override laid over it field by field. A present field replaces the
    global value (tables are replaced, never merged key by key); an absent one
    inherits it.
   */
  function ForKeyboard(c: Config, keyboardId: string): (r: Config)
    // no override: the global configuration itself
    ensures keyboardId !in c.keyboardOverrides ==> r == c
    // the keyboard list and the overrides are never touched
    ensures r.enabledKeyboards == c.enabledKeyboards
    ensures r.keyboardOverrides == c.keyboardOverrides
    // settings
    ensures TermOverride(c, keyboardId).Some? ==> r.tappingTermMs == TermOverride(c, keyboardId).value
    ensures TermOverride(c, keyboardId).None? ==> r.tappingTermMs == c.tappingTermMs
    ensures WindowOverride(c, keyboardId).Some? ==> r.doubleTapWindowMs == WindowOverride(c, keyboardId)
    ensures WindowOverride(c, keyboardId).None? ==> r.doubleTapWindowMs == c.doubleTapWindowMs
    ensures c.doubleTapWindowMs.Some? ==> r.doubleTapWindowMs.Some?
    // keymap tables
    ensures BaseRemapsOverride(c, keyboardId).Some? ==> r.remaps == BaseRemapsOverride(c, keyboardId).value
    ensures BaseRemapsOverride(c, keyboardId).None? ==> r.remaps == c.remaps
    ensures LayersOverride(c, keyboardId).Some? ==> r.layers == LayersOverride(c, keyboardId).value
    ensures LayersOverride(c, keyboardId).None? ==> r.layers == c.layers
    ensures GameRemapsOverride(c, keyboardId).Some? ==> r.gameMode.remaps == GameRemapsOverride(c, keyboardId).value
    ensures GameRemapsOverride(c, keyboardId).None? ==> r.gameMode == c.gameMode
  {
    var config := c;
    if keyboardId in c.keyboardOverrides then
      var o := c.keyboardOverrides[keyboardId];
      var config := if o.settings.Some? then ApplySettings(config, o.settings.value) else config;
      if o.keymap.Some? then ApplyKeymap(config, o.keymap.value) else config
    else
      config
  }

  /** Resolving a keyboard twice is the same as resolving it once. */
  lemma ForKeyboardIdempotent(c: Config, keyboardId: string)
    ensures ForKeyboard(ForKeyboard(c, keyboardId), keyboardId) == ForKeyboard(c, keyboardId)
  {
  }

  /** Another keyboard's override has no influence on this keyboard's tables and settings. */
  lemma ForKeyboardIgnoresOtherOverrides(c: Config, keyboardId: string, otherId: string, o: KeyboardOverride)
    requires otherId != keyboardId
    ensures var c' := c.(keyboardOverrides := c.keyboardOverrides[otherId := o]);
            ForKeyboard(c', keyboardId) == ForKeyboard(c, keyboardId).(keyboardOverrides := c'.keyboardOverrides)
  {
  }

  // ---------------------------------------------------------------------------
  // Password files

  /** The state of the password file for an id, as the loader finds it. */
  datatype PasswordFile =
    | Missing                    // no file at the path
    | Unreadable                 // no configuration directory, or reading the file fails
    | Present(content: string)

  datatype PasswordLoad = Loaded(password: Option<string>) | LoadFailed

  /**
    Loading a password: a missing file means no password, an unreadable one an
    error, and otherwise the content with surrounding whitespace removed, where a
    blank content again means no password.
   */
  function LoadPassword(file: PasswordFile): (r: PasswordLoad)
    ensures r.LoadFailed? <==> file.Unreadable?
    ensures file.Missing? ==> r == Loaded(None)
    ensures file.Present? ==> (r == Loaded(None) <==> AllSatisfy(file.content, IsWhitespace))
    ensures r.Loaded? && r.password.Some? ==>
              var p := r.password.value;
              p != [] && !IsWhitespace(p[0]) && !IsWhitespace(p[|p| - 1]) && p == Trim(file.content)
  {
    match file
    case Missing => Loaded(None)
    case Unreadable => LoadFailed
    case Present(content) =>
      var trimmed := Trim(content);
      if trimmed == [] then Loaded(None) else Loaded(Some(trimmed))
  }

  /** A password written out with surrounding blank lines or indentation loads back unchanged. */
  lemma LoadPasswordRoundTrip(pre: string, password: string, post: string)
    requires AllSatisfy(pre, IsWhitespace) && AllSatisfy(post, IsWhitespace)
    requires password != [] && !IsWhitespace(password[0]) && !IsWhitespace(password[|password| - 1])
    ensures LoadPassword(Present(pre + password + post)) == Loaded(Some(password))
  {
    TrimWhileFramed(pre, password, post, IsWhitespace);
  }
}
