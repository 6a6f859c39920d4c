/**
  The GUI change compiler (`generate_gui_modifications` in app.py): a free-text
  change description and an optional colour-scheme name become a record of four
  dictionaries (`colors`, `layouts`, `strings`, `images`) plus the raw
  description.

  The compiler is an accumulating rule set: a recognised scheme seeds `colors`,
  then six keyword triggers run one after the other on the lower-cased text,
  each adding at most its own entries. Inside one trigger an `elif` chain fixes
  which modifier wins; across triggers the results add up.
 */
module GuiCompiler {
  import opened Wrappers
  import opened Text
  import opened Dict

  /** What the compiler hands to the patch engine. `images` is always empty: the
      reference image paths are accepted and ignored. */
  datatype Modifications = Modifications(
    colors: Dict,
    layouts: Dict,
    strings: Dict,
    images: Dict,
    description: string)

  const Blue := "#007bff"
  const Green := "#28a745"
  const Red := "#dc3545"
  const Orange := "#fd7e14"

  /** The seven named colour schemes, each giving primary, secondary and accent. */
  function SchemeColors(scheme: string): Option<Dict> {
    if scheme == "blue" then Some([("primary", "#007bff"), ("secondary", "#6c757d"), ("accent", "#17a2b8")])
    else if scheme == "green" then Some([("primary", "#28a745"), ("secondary", "#6c757d"), ("accent", "#20c997")])
    else if scheme == "red" then Some([("primary", "#dc3545"), ("secondary", "#6c757d"), ("accent", "#fd7e14")])
    else if scheme == "purple" then Some([("primary", "#6f42c1"), ("secondary", "#6c757d"), ("accent", "#e83e8c")])
    else if scheme == "orange" then Some([("primary", "#fd7e14"), ("secondary", "#6c757d"), ("accent", "#ffc107")])
    else if scheme == "dark" then Some([("primary", "#343a40"), ("secondary", "#6c757d"), ("accent", "#ffffff")])
    else if scheme == "light" then Some([("primary", "#f8f9fa"), ("secondary", "#e9ecef"), ("accent", "#343a40")])
    else None
  }

  /** The scheme names the table recognises (case-sensitive: the scheme is not lower-cased). */
  const SchemeNames: set<string> := {"blue", "green", "red", "purple", "orange", "dark", "light"}

  // ---------------------------------------------------------------------------
  // Reference semantics of one trigger: an ordered table of modifier words, the
  // first one present in the text wins.

  /** The value of a trigger: nothing unless the trigger fires. */
  function When(fires: bool, o: Option<string>): Option<string> {
    if fires then o else None
  }

  const ControlColors := [("blue", Blue), ("green", Green), ("red", Red), ("orange", Orange)]
  const BasicColors := [("blue", Blue), ("green", Green), ("red", Red)]
  const SizeWords := [("bigger", "large"), ("larger", "large"), ("smaller", "small")]
  const StatusWords := [("connected", "Connected"), ("disconnected", "Disconnected")]
  const StatusColors := [("connected", Green), ("disconnected", Red)]

  predicate ControlFires(t: string) { Contains(t, "knob") || Contains(t, "control") }
  predicate DpadFires(t: string) { Contains(t, "dpad") || Contains(t, "d-pad") }
  predicate GlowFires(t: string) { Contains(t, "glow") || Contains(t, "light") }
  predicate StatusFires(t: string) { Contains(t, "connection") || Contains(t, "status") }
  predicate ButtonFires(t: string) { Contains(t, "button") }
  predicate TextFires(t: string) { Contains(t, "text") }

  // ---------------------------------------------------------------------------
  // The compiler as written: one function per trigger, each an `elif` chain.

  /** The scheme step: `colors` is the scheme's table when the (non-empty) name is
      recognised, and empty otherwise; nothing else is set yet. */
  function SchemeStage(description: string, scheme: string): (m: Modifications)
    ensures m.layouts == [] && m.strings == [] && m.images == [] && m.description == description
    ensures scheme in SchemeNames ==> m.colors == SchemeColors(scheme).value
    ensures scheme !in SchemeNames ==> m.colors == []
  {
    var colors := if scheme != "" && SchemeColors(scheme).Some? then SchemeColors(scheme).value else [];
    Modifications(colors, [], [], [], description)
  }

  /** Knob / control trigger: blue, then green, then red, then orange. */
  function ControlRule(t: string, m: Modifications): (r: Modifications)
    ensures r.layouts == m.layouts && r.strings == m.strings && r.images == m.images && r.description == m.description
  {
    if ControlFires(t) then
      if Contains(t, "blue") then m.(colors := Put(m.colors, "control_color", "#007bff"))
      else if Contains(t, "green") then m.(colors := Put(m.colors, "control_color", "#28a745"))
      else if Contains(t, "red") then m.(colors := Put(m.colors, "control_color", "#dc3545"))
      else if Contains(t, "orange") then m.(colors := Put(m.colors, "control_color", "#fd7e14"))
      else m
    else m
  }

  /** D-pad trigger: "bigger" or "larger" before "smaller". */
  function DpadRule(t: string, m: Modifications): (r: Modifications)
    ensures r.colors == m.colors && r.strings == m.strings && r.images == m.images && r.description == m.description
  {
    if DpadFires(t) then
      if Contains(t, "bigger") || Contains(t, "larger") then m.(layouts := Put(m.layouts, "dpad_size", "large"))
      else if Contains(t, "smaller") then m.(layouts := Put(m.layouts, "dpad_size", "small"))
      else m
    else m
  }

  /** Glow / light trigger: blue, then green, then red. */
  function GlowRule(t: string, m: Modifications): (r: Modifications)
    ensures r.layouts == m.layouts && r.strings == m.strings && r.images == m.images && r.description == m.description
  {
    if GlowFires(t) then
      if Contains(t, "blue") then m.(colors := Put(m.colors, "glow_color", "#007bff"))
      else if Contains(t, "green") then m.(colors := Put(m.colors, "glow_color", "#28a745"))
      else if Contains(t, "red") then m.(colors := Put(m.colors, "glow_color", "#dc3545"))
      else m
    else m
  }

  /** Connection / status trigger, as written: "connected" is tested before
      "disconnected", so the second branch can never be taken. */
  function StatusRule(t: string, m: Modifications): (r: Modifications)
    ensures r.layouts == m.layouts && r.images == m.images && r.description == m.description
  {
    if StatusFires(t) then
      if Contains(t, "connected") then
        m.(strings := Put(m.strings, "connection_status", "Connected"),
           colors := Put(m.colors, "status_color", "#28a745"))
      else if Contains(t, "disconnected") then
        m.(strings := Put(m.strings, "connection_status", "Disconnected"),
           colors := Put(m.colors, "status_color", "#dc3545"))
      else m
    else m
  }

  /** Button trigger: blue, then green, then red. */
  function ButtonRule(t: string, m: Modifications): (r: Modifications)
    ensures r.layouts == m.layouts && r.strings == m.strings && r.images == m.images && r.description == m.description
  {
    if ButtonFires(t) then
      if Contains(t, "blue") then m.(colors := Put(m.colors, "button_color", "#007bff"))
      else if Contains(t, "green") then m.(colors := Put(m.colors, "button_color", "#28a745"))
      else if Contains(t, "red") then m.(colors := Put(m.colors, "button_color", "#dc3545"))
      else m
    else m
  }

  /** Text trigger: "bigger" or "larger" before "smaller". */
  function TextRule(t: string, m: Modifications): (r: Modifications)
    ensures r.colors == m.colors && r.strings == m.strings && r.images == m.images && r.description == m.description
  {
    if TextFires(t) then
      if Contains(t, "bigger") || Contains(t, "larger") then m.(layouts := Put(m.layouts, "text_size", "large"))
      else if Contains(t, "smaller") then m.(layouts := Put(m.layouts, "text_size", "small"))
      else m
    else m
  }

  /** `generate_gui_modifications(description, scheme, imagePaths)`. */
  function GenerateGuiModifications(description: string, scheme: string, imagePaths: seq<string>): (m: Modifications)
    ensures m.images == []
    ensures m.description == description
  {
    var t := Lower(description);
    var m0 := SchemeStage(description, scheme);
    TextRule(t, ButtonRule(t, StatusRule(t, GlowRule(t, DpadRule(t, ControlRule(t, m0))))))
  }

  // ---------------------------------------------------------------------------
  // Properties

  /** Each trigger's `elif` chain is the first-match lookup in its modifier table:
      the table order is the priority order. */
  lemma ControlRuleFollowsTable(t: string, m: Modifications)
    ensures ControlRule(t, m) == m.(colors := PutOpt(m.colors, "control_color", When(ControlFires(t), FirstMatch(ControlColors, t))))
  {
    if Contains(t, "blue") {
      FirstMatchPriority(ControlColors, t, 0);
    } else if Contains(t, "green") {
      FirstMatchPriority(ControlColors, t, 1);
    } else if Contains(t, "red") {
      FirstMatchPriority(ControlColors, t, 2);
    } else if Contains(t, "orange") {
      FirstMatchPriority(ControlColors, t, 3);
    }
  }

  lemma DpadRuleFollowsTable(t: string, m: Modifications)
    ensures DpadRule(t, m) == m.(layouts := PutOpt(m.layouts, "dpad_size", When(DpadFires(t), FirstMatch(SizeWords, t))))
  {
    if Contains(t, "bigger") {
      FirstMatchPriority(SizeWords, t, 0);
    } else if Contains(t, "larger") {
      FirstMatchPriority(SizeWords, t, 1);
    } else if Contains(t, "smaller") {
      FirstMatchPriority(SizeWords, t, 2);
    }
  }

  lemma GlowRuleFollowsTable(t: string, m: Modifications)
    ensures GlowRule(t, m) == m.(colors := PutOpt(m.colors, "glow_color", When(GlowFires(t), FirstMatch(BasicColors, t))))
  {
    if Contains(t, "blue") {
      FirstMatchPriority(BasicColors, t, 0);
    } else if Contains(t, "green") {
      FirstMatchPriority(BasicColors, t, 1);
    } else if Contains(t, "red") {
      FirstMatchPriority(BasicColors, t, 2);
    }
  }

  lemma StatusRuleFollowsTable(t: string, m: Modifications)
    ensures StatusRule(t, m) == m.(
      strings := PutOpt(m.strings, "connection_status", When(StatusFires(t), FirstMatch(StatusWords, t))),
      colors := PutOpt(m.colors, "status_color", When(StatusFires(t), FirstMatch(StatusColors, t))))
  {
    if Contains(t, "connected") {
      FirstMatchPriority(StatusWords, t, 0);
      FirstMatchPriority(StatusColors, t, 0);
    } else if Contains(t, "disconnected") {
      FirstMatchPriority(StatusWords, t, 1);
      FirstMatchPriority(StatusColors, t, 1);
    }
  }

  lemma ButtonRuleFollowsTable(t: string, m: Modifications)
    ensures ButtonRule(t, m) == m.(colors := PutOpt(m.colors, "button_color", When(ButtonFires(t), FirstMatch(BasicColors, t))))
  {
    if Contains(t, "blue") {
      FirstMatchPriority(BasicColors, t, 0);
    } else if Contains(t, "green") {
      FirstMatchPriority(BasicColors, t, 1);
    } else if Contains(t, "red") {
      FirstMatchPriority(BasicColors, t, 2);
    }
  }

  lemma TextRuleFollowsTable(t: string, m: Modifications)
    ensures TextRule(t, m) == m.(layouts := PutOpt(m.layouts, "text_size", When(TextFires(t), FirstMatch(SizeWords, t))))
  {
    if Contains(t, "bigger") {
      FirstMatchPriority(SizeWords, t, 0);
    } else if Contains(t, "larger") {
      FirstMatchPriority(SizeWords, t, 1);
    } else if Contains(t, "smaller") {
      FirstMatchPriority(SizeWords, t, 2);
    }
  }

  /** The compiler's output, trigger by trigger: each dictionary is the seed with
      each trigger's own entry assigned in turn. */
  lemma ResultByTriggers(description: string, scheme: string, imagePaths: seq<string>)
    ensures var m := GenerateGuiModifications(description, scheme, imagePaths);
      var t := Lower(description);
      && m.colors == PutOpt(PutOpt(PutOpt(PutOpt(SchemeStage(description, scheme).colors,
           "control_color", When(ControlFires(t), FirstMatch(ControlColors, t))),
           "glow_color", When(GlowFires(t), FirstMatch(BasicColors, t))),
           "status_color", When(StatusFires(t), FirstMatch(StatusColors, t))),
           "button_color", When(ButtonFires(t), FirstMatch(BasicColors, t)))
      && m.layouts == PutOpt(PutOpt([],
           "dpad_size", When(DpadFires(t), FirstMatch(SizeWords, t))),
           "text_size", When(TextFires(t), FirstMatch(SizeWords, t)))
      && m.strings == PutOpt([], "connection_status", When(StatusFires(t), FirstMatch(StatusWords, t)))
  {
    var t := Lower(description);
    var m0 := SchemeStage(description, scheme);
    var m1 := ControlRule(t, m0);
    var m2 := DpadRule(t, m1);
    var m3 := GlowRule(t, m2);
    var m4 := StatusRule(t, m3);
    var m5 := ButtonRule(t, m4);
    ControlRuleFollowsTable(t, m0);
    DpadRuleFollowsTable(t, m1);
    GlowRuleFollowsTable(t, m2);
    StatusRuleFollowsTable(t, m3);
    ButtonRuleFollowsTable(t, m4);
    TextRuleFollowsTable(t, m5);
  }

  /** One key's value after the four colour triggers have assigned in turn: the last
      assignment to it wins, and only the four trigger keys can be added. */
  lemma LookupAfterColorRules(c0: Dict, control: Option<string>, glow: Option<string>, status: Option<string>, button: Option<string>, q: string)
    ensures var c := PutOpt(PutOpt(PutOpt(PutOpt(c0, "control_color", control), "glow_color", glow), "status_color", status), "button_color", button);
      && Lookup(c, q) == (if q == "button_color" && button.Some? then button
                          else if q == "status_color" && status.Some? then status
                          else if q == "glow_color" && glow.Some? then glow
                          else if q == "control_color" && control.Some? then control
                          else Lookup(c0, q))
  {
    var c1 := PutOpt(c0, "control_color", control);
    var c2 := PutOpt(c1, "glow_color", glow);
    var c3 := PutOpt(c2, "status_color", status);
    LookupPutOpt(c0, "control_color", control, q);
    LookupPutOpt(c1, "glow_color", glow, q);
    LookupPutOpt(c2, "status_color", status, q);
    LookupPutOpt(c3, "button_color", button, q);
  }

  /** The four colour triggers can only add their own keys. */
  lemma KeysAfterColorRules(c0: Dict, control: Option<string>, glow: Option<string>, status: Option<string>, button: Option<string>)
    ensures var c := PutOpt(PutOpt(PutOpt(PutOpt(c0, "control_color", control), "glow_color", glow), "status_color", status), "button_color", button);
      Keys(c) <= Keys(c0) + {"control_color", "glow_color", "status_color", "button_color"}
  {
    var c1 := PutOpt(c0, "control_color", control);
    var c2 := PutOpt(c1, "glow_color", glow);
    var c3 := PutOpt(c2, "status_color", status);
    KeysPutOpt(c0, "control_color", control);
    KeysPutOpt(c1, "glow_color", glow);
    KeysPutOpt(c2, "status_color", status);
    KeysPutOpt(c3, "button_color", button);
  }

  /** The scheme's colours survive the keyword triggers unchanged: no trigger
      overrides primary, secondary or accent. */
  lemma SchemeColorsKept(description: string, scheme: string, imagePaths: seq<string>)
    ensures var m := GenerateGuiModifications(description, scheme, imagePaths);
      var seed := SchemeStage(description, scheme).colors;
      && Lookup(m.colors, "primary") == Lookup(seed, "primary")
      && Lookup(m.colors, "secondary") == Lookup(seed, "secondary")
      && Lookup(m.colors, "accent") == Lookup(seed, "accent")
  {
    ResultByTriggers(description, scheme, imagePaths);
    var t := Lower(description);
    var seed := SchemeStage(description, scheme).colors;
    var control, glow := When(ControlFires(t), FirstMatch(ControlColors, t)), When(GlowFires(t), FirstMatch(BasicColors, t));
    var status, button := When(StatusFires(t), FirstMatch(StatusColors, t)), When(ButtonFires(t), FirstMatch(BasicColors, t));
    LookupAfterColorRules(seed, control, glow, status, button, "primary");
    LookupAfterColorRules(seed, control, glow, status, button, "secondary");
    LookupAfterColorRules(seed, control, glow, status, button, "accent");
  }

  /** Over a scheme seed, each colour trigger's key ends up holding exactly that
      trigger's value. */
  lemma TriggerKeysAssigned(seed: Dict, control: Option<string>, glow: Option<string>, status: Option<string>, button: Option<string>)
    requires Lookup(seed, "control_color") == None && Lookup(seed, "glow_color") == None
    requires Lookup(seed, "status_color") == None && Lookup(seed, "button_color") == None
    ensures var c := PutOpt(PutOpt(PutOpt(PutOpt(seed, "control_color", control), "glow_color", glow), "status_color", status), "button_color", button);
      && Lookup(c, "control_color") == control
      && Lookup(c, "glow_color") == glow
      && Lookup(c, "status_color") == status
      && Lookup(c, "button_color") == button
  {
    LookupAfterColorRules(seed, control, glow, status, button, "control_color");
    LookupAfterColorRules(seed, control, glow, status, button, "glow_color");
    LookupAfterColorRules(seed, control, glow, status, button, "status_color");
    LookupAfterColorRules(seed, control, glow, status, button, "button_color");
  }

  /** Each colour trigger sets its own key, from its own table, and nothing else
      sets it: later triggers never override earlier ones. */
  lemma ColorsByTrigger(description: string, scheme: string, imagePaths: seq<string>)
    ensures var m := GenerateGuiModifications(description, scheme, imagePaths);
      var t := Lower(description);
      && Lookup(m.colors, "control_color") == When(ControlFires(t), FirstMatch(ControlColors, t))
      && Lookup(m.colors, "glow_color") == When(GlowFires(t), FirstMatch(BasicColors, t))
      && Lookup(m.colors, "status_color") == When(StatusFires(t), FirstMatch(StatusColors, t))
      && Lookup(m.colors, "button_color") == When(ButtonFires(t), FirstMatch(BasicColors, t))
  {
    ResultByTriggers(description, scheme, imagePaths);
    var t := Lower(description);
    SeedLacksTriggerKeys(description, scheme);
    TriggerKeysAssigned(SchemeStage(description, scheme).colors,
      When(ControlFires(t), FirstMatch(ControlColors, t)), When(GlowFires(t), FirstMatch(BasicColors, t)),
      When(StatusFires(t), FirstMatch(StatusColors, t)), When(ButtonFires(t), FirstMatch(BasicColors, t)));
  }

  /** The layout and string entries are likewise each set by their own trigger. */
  lemma LayoutsAndStringsByTrigger(description: string, scheme: string, imagePaths: seq<string>)
    ensures var m := GenerateGuiModifications(description, scheme, imagePaths);
      var t := Lower(description);
      && Lookup(m.strings, "connection_status") == When(StatusFires(t), FirstMatch(StatusWords, t))
      && Lookup(m.layouts, "dpad_size") == When(DpadFires(t), FirstMatch(SizeWords, t))
      && Lookup(m.layouts, "text_size") == When(TextFires(t), FirstMatch(SizeWords, t))
  {
    ResultByTriggers(description, scheme, imagePaths);
    var t := Lower(description);
    var dpad := When(DpadFires(t), FirstMatch(SizeWords, t));
    var text := When(TextFires(t), FirstMatch(SizeWords, t));
    var status := When(StatusFires(t), FirstMatch(StatusWords, t));
    var l1 := PutOpt([], "dpad_size", dpad);
    LookupPutOpt([], "dpad_size", dpad, "dpad_size");
    LookupPutOpt(l1, "text_size", text, "dpad_size");
    LookupPutOpt([], "dpad_size", dpad, "text_size");
    LookupPutOpt(l1, "text_size", text, "text_size");
    LookupPutOpt([], "connection_status", status, "connection_status");
  }

  /** No key outside the documented ones ever appears in the result. */
  lemma OnlyKnownKeys(description: string, scheme: string, imagePaths: seq<string>)
    ensures var m := GenerateGuiModifications(description, scheme, imagePaths);
      && Keys(m.colors) <= {"primary", "secondary", "accent", "control_color", "glow_color", "status_color", "button_color"}
      && Keys(m.strings) <= {"connection_status"}
      && Keys(m.layouts) <= {"dpad_size", "text_size"}
  {
    ResultByTriggers(description, scheme, imagePaths);
    var t := Lower(description);
    var seed := SchemeStage(description, scheme).colors;
    SchemeSeedsColors(description, scheme);
    var control, glow := When(ControlFires(t), FirstMatch(ControlColors, t)), When(GlowFires(t), FirstMatch(BasicColors, t));
    var status, button := When(StatusFires(t), FirstMatch(StatusColors, t)), When(ButtonFires(t), FirstMatch(BasicColors, t));
    KeysAfterColorRules(seed, control, glow, status, button);
    var dpad := When(DpadFires(t), FirstMatch(SizeWords, t));
    var text := When(TextFires(t), FirstMatch(SizeWords, t));
    var l1 := PutOpt([], "dpad_size", dpad);
    KeysPutOpt([], "dpad_size", dpad);
    KeysPutOpt(l1, "text_size", text);
    KeysPutOpt([], "connection_status", When(StatusFires(t), FirstMatch(StatusWords, t)));
  }

  /** The scheme never sets a key that a colour trigger owns. */
  lemma SeedLacksTriggerKeys(description: string, scheme: string)
    ensures var seed := SchemeStage(description, scheme).colors;
      && Lookup(seed, "control_color") == None && Lookup(seed, "glow_color") == None
      && Lookup(seed, "status_color") == None && Lookup(seed, "button_color") == None
  {
    var seed := SchemeStage(description, scheme).colors;
    SchemeSeedsColors(description, scheme);
    AbsentFromSeed(seed, "control_color");
    AbsentFromSeed(seed, "glow_color");
    AbsentFromSeed(seed, "status_color");
    AbsentFromSeed(seed, "button_color");
  }

  /** A key outside the scheme keys is absent from a scheme seed. */
  lemma AbsentFromSeed(seed: Dict, q: string)
    requires Keys(seed) <= {"primary", "secondary", "accent"}
    requires q != "primary" && q != "secondary" && q != "accent"
    ensures Lookup(seed, q) == None
  {
  }

  /** A recognised scheme yields exactly primary, secondary and accent in that
      order; an empty or unrecognised scheme leaves `colors` empty before the keyword
      rules run. */
  lemma SchemeSeedsColors(description: string, scheme: string)
    ensures var m := SchemeStage(description, scheme);
      && Keys(m.colors) <= {"primary", "secondary", "accent"}
      && (scheme in SchemeNames ==>
            && Keys(m.colors) == {"primary", "secondary", "accent"}
            && |m.colors| == 3
            && m.colors[0].0 == "primary" && m.colors[1].0 == "secondary" && m.colors[2].0 == "accent")
      && (scheme !in SchemeNames ==> m.colors == [])
  {
  }

  /** With "button", "red" and "blue" all present, the button is blue: the `elif`
      order decides, not which colour word comes first in the text. The same holds
      for the control and glow triggers. */
  lemma BlueWinsEverywhere(description: string, scheme: string, imagePaths: seq<string>)
    requires Contains(Lower(description), "blue")
    ensures var m := GenerateGuiModifications(description, scheme, imagePaths);
      var t := Lower(description);
      && (ButtonFires(t) ==> Lookup(m.colors, "button_color") == Some(Blue))
      && (ControlFires(t) ==> Lookup(m.colors, "control_color") == Some(Blue))
      && (GlowFires(t) ==> Lookup(m.colors, "glow_color") == Some(Blue))
  {
    ColorsByTrigger(description, scheme, imagePaths);
  }

  /** Red only wins when neither blue nor green is mentioned. */
  lemma RedNeedsNoBlueOrGreen(description: string, scheme: string, imagePaths: seq<string>)
    ensures var m := GenerateGuiModifications(description, scheme, imagePaths);
      var t := Lower(description);
      var redButton := ButtonFires(t) && Contains(t, "red") && !Contains(t, "blue") && !Contains(t, "green");
      Lookup(m.colors, "button_color") == Some(Red) <==> redButton
  {
    ColorsByTrigger(description, scheme, imagePaths);
    BasicColorsChain(Lower(description));
  }

  /** The basic colour table read as its `elif` chain. */
  lemma BasicColorsChain(t: string)
    ensures FirstMatch(BasicColors, t)
         == if Contains(t, "blue") then Some(Blue)
            else if Contains(t, "green") then Some(Green)
            else if Contains(t, "red") then Some(Red)
            else None
  {
    if Contains(t, "blue") {
      FirstMatchPriority(BasicColors, t, 0);
    } else if Contains(t, "green") {
      FirstMatchPriority(BasicColors, t, 1);
    } else if Contains(t, "red") {
      FirstMatchPriority(BasicColors, t, 2);
    }
  }

  /** Independent triggers compose: a blue button and bigger text both take effect. */
  lemma TriggersCompose(description: string, scheme: string, imagePaths: seq<string>)
    requires var t := Lower(description);
      Contains(t, "button") && Contains(t, "blue") && Contains(t, "text") && Contains(t, "bigger")
    ensures var m := GenerateGuiModifications(description, scheme, imagePaths);
      Lookup(m.colors, "button_color") == Some(Blue) && Lookup(m.layouts, "text_size") == Some("large")
  {
    ColorsByTrigger(description, scheme, imagePaths);
    LayoutsAndStringsByTrigger(description, scheme, imagePaths);
  }

  /** Any text containing "disconnected" also contains "connected". */
  lemma DisconnectedMentionsConnected(t: string)
    requires Contains(t, "disconnected")
    ensures Contains(t, "connected")
  {
    assert "disconnected" == "dis" + "connected";
    ContainsTail(t, "dis", "connected");
  }

  /** As written, the status trigger can only ever report "Connected" in green: the
      "Disconnected" branch is unreachable. */
  lemma DisconnectedUnreachable(description: string, scheme: string, imagePaths: seq<string>)
    ensures var m := GenerateGuiModifications(description, scheme, imagePaths);
      var t := Lower(description);
      var mentioned := StatusFires(t) && (Contains(t, "connected") || Contains(t, "disconnected"));
      && Lookup(m.strings, "connection_status") == (if mentioned then Some("Connected") else None)
      && Lookup(m.colors, "status_color") == (if mentioned then Some(Green) else None)
  {
    ColorsByTrigger(description, scheme, imagePaths);
    LayoutsAndStringsByTrigger(description, scheme, imagePaths);
    var t := Lower(description);
    if Contains(t, "disconnected") {
      DisconnectedMentionsConnected(t);
    }
  }

  /** The status trigger as evidently intended: the more specific word
      "disconnected" is tested first. */
  function StatusRuleIntended(t: string, m: Modifications): (r: Modifications)
    ensures StatusFires(t) && Contains(t, "disconnected") ==>
      Lookup(r.strings, "connection_status") == Some("Disconnected") && Lookup(r.colors, "status_color") == Some(Red)
    ensures StatusFires(t) && Contains(t, "connected") && !Contains(t, "disconnected") ==>
      Lookup(r.strings, "connection_status") == Some("Connected") && Lookup(r.colors, "status_color") == Some(Green)
    ensures !(StatusFires(t) && Contains(t, "connected")) ==> r == m
    ensures r.layouts == m.layouts && r.images == m.images && r.description == m.description
  {
    if StatusFires(t) then
      if Contains(t, "disconnected") then
        DisconnectedMentionsConnected(t);
        m.(strings := Put(m.strings, "connection_status", "Disconnected"),
           colors := Put(m.colors, "status_color", "#dc3545"))
      else if Contains(t, "connected") then
        m.(strings := Put(m.strings, "connection_status", "Connected"),
           colors := Put(m.colors, "status_color", "#28a745"))
      else m
    else m
  }

  /** The compiler with the intended status rule in place of the one as written. */
  function GenerateGuiModificationsIntended(description: string, scheme: string, imagePaths: seq<string>): (m: Modifications)
    ensures m.images == [] && m.description == description
  {
    var t := Lower(description);
    var m0 := SchemeStage(description, scheme);
    TextRule(t, ButtonRule(t, StatusRuleIntended(t, GlowRule(t, DpadRule(t, ControlRule(t, m0))))))
  }

  /** With the intended rule a "disconnected" status request is honoured. */
  lemma DisconnectedReachableIntended(description: string, scheme: string, imagePaths: seq<string>)
    requires var t := Lower(description); StatusFires(t) && Contains(t, "disconnected")
    ensures Lookup(GenerateGuiModificationsIntended(description, scheme, imagePaths).strings, "connection_status")
         == Some("Disconnected")
  {
  }

  /** As written the strings part is the "Connected" status entry whenever the status
      trigger fires and either word occurs, and nothing otherwise. */
  lemma StatusStrings(description: string, scheme: string, imagePaths: seq<string>)
    ensures var m := GenerateGuiModifications(description, scheme, imagePaths);
      var t := Lower(description);
      m.strings == if StatusFires(t) && (Contains(t, "connected") || Contains(t, "disconnected"))
                   then [("connection_status", "Connected")]
                   else []
  {
    var t := Lower(description);
    var m2 := GlowRule(t, DpadRule(t, ControlRule(t, SchemeStage(description, scheme))));
    assert m2.strings == [];
    assert Keys(m2.strings) == {};
    if Contains(t, "disconnected") {
      DisconnectedMentionsConnected(t);
    }
  }

  /** With the intended rule the strings part is the one status entry the request asks
      for, or nothing. */
  lemma IntendedStatusStrings(description: string, scheme: string, imagePaths: seq<string>)
    ensures var m := GenerateGuiModificationsIntended(description, scheme, imagePaths);
      var t := Lower(description);
      m.strings == if StatusFires(t) && Contains(t, "disconnected") then [("connection_status", "Disconnected")]
                   else if StatusFires(t) && Contains(t, "connected") then [("connection_status", "Connected")]
                   else []
  {
    var t := Lower(description);
    var m2 := GlowRule(t, DpadRule(t, ControlRule(t, SchemeStage(description, scheme))));
    assert m2.strings == [];
    assert Keys(m2.strings) == {};
  }
}
