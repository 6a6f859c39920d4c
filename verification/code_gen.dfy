/**
  Code generation from a free-text prompt: the Gemini reply when one is usable,
  otherwise a fallback made of a fixed header and one canned template chosen by
  keyword. The clock, the environment and the HTTP exchange are parameters.
 */
module CodeGen {
  import opened Wrappers
  import opened Text

  /** The canned templates, one per keyword group. */
  datatype Template = Button | ColorTheme | Icon | Layout | Activity | Generic

  /** The placeholder key used when `GEMINI_API_KEY` is not set. */
  const DummyKey := "AIzaSyDummy_Key_Replace_With_Real_Key"

  const FallbackBanner := "# Generated Android Code (Fallback Mode)\n"
  const AiBanner := "# AI Generated Android Code\n"

  /** The notice that closes the fallback header. */
  const FallbackNotice :=
    "/*\n * AI Generation Notice:\n * This code was generated using fallback templates.\n"
    + " * For advanced AI-powered code generation, please set up your Gemini API key.\n * \n"
    + " * To enable AI features:\n * 1. Get a Gemini API key from Google AI Studio\n"
    + " * 2. Set environment variable: GEMINI_API_KEY=your_api_key\n * 3. Restart the application\n */\n\n"

  /** A text laid out as `banner + lead + x + middle + y + tail` starts with the banner
      and contains both fields. */
  lemma FieldsLaidOut(banner: string, lead: string, x: string, middle: string, y: string, tail: string)
    ensures var s := banner + lead + x + middle + y + tail;
      StartsWith(s, banner) && Contains(s, x) && Contains(s, y)
  {
    var s := banner + lead + x + middle + y + tail;
    assert s[..|banner|] == banner;
    var i := |banner| + |lead|;
    assert s[i..i + |x|] == x;
    ContainsAt(s, x, i);
    var k := i + |x| + |middle|;
    assert s[k..k + |y|] == y;
    ContainsAt(s, y, k);
  }

  /** The fallback header: banner, timestamp, the prompt, and the notice on enabling AI. */
  function FallbackHeader(prompt: string, timestamp: string): (h: string)
    ensures StartsWith(h, FallbackBanner)
    ensures Contains(h, timestamp) && Contains(h, prompt)
  {
    FieldsLaidOut(FallbackBanner, "# Generated at: ", timestamp, "\n# Original request: ", prompt, "\n\n" + FallbackNotice);
    FallbackBanner + "# Generated at: " + timestamp + "\n# Original request: " + prompt + ("\n\n" + FallbackNotice)
  }

  /** The template choice as written: an `elif` chain on the lower-cased prompt. */
  function ChooseTemplate(prompt: string): Template {
    var t := Lower(prompt);
    if Contains(t, "button") then Button
    else if Contains(t, "color") || Contains(t, "theme") then ColorTheme
    else if Contains(t, "icon") then Icon
    else if Contains(t, "layout") then Layout
    else if Contains(t, "activity") || Contains(t, "screen") then Activity
    else Generic
  }

  /** The same choice as data: keywords in priority order. */
  const TemplateKeywords := [
    ("button", Button), ("color", ColorTheme), ("theme", ColorTheme), ("icon", Icon),
    ("layout", Layout), ("activity", Activity), ("screen", Activity)]

  /** The `elif` chain is the first-match lookup in the keyword table, with the generic
      template when no keyword occurs. */
  lemma ChooseTemplateFollowsTable(prompt: string)
    ensures ChooseTemplate(prompt) == FirstMatch(TemplateKeywords, Lower(prompt)).GetOr(Generic)
  {
    var t := Lower(prompt);
    if Contains(t, "button") {
      FirstMatchPriority(TemplateKeywords, t, 0);
    } else if Contains(t, "color") {
      FirstMatchPriority(TemplateKeywords, t, 1);
    } else if Contains(t, "theme") {
      FirstMatchPriority(TemplateKeywords, t, 2);
    } else if Contains(t, "icon") {
      FirstMatchPriority(TemplateKeywords, t, 3);
    } else if Contains(t, "layout") {
      FirstMatchPriority(TemplateKeywords, t, 4);
    } else if Contains(t, "activity") {
      FirstMatchPriority(TemplateKeywords, t, 5);
    } else if Contains(t, "screen") {
      FirstMatchPriority(TemplateKeywords, t, 6);
    }
  }

  /** Each template is chosen exactly when one of its words occurs and no word of an
      earlier template does. */
  lemma TemplatePriority(prompt: string)
    ensures var t := Lower(prompt);
      var button := Contains(t, "button");
      var color := Contains(t, "color") || Contains(t, "theme");
      var icon := Contains(t, "icon");
      var layout := Contains(t, "layout");
      var activity := Contains(t, "activity") || Contains(t, "screen");
      && (ChooseTemplate(prompt) == Button <==> button)
      && (ChooseTemplate(prompt) == ColorTheme <==> !button && color)
      && (ChooseTemplate(prompt) == Icon <==> !button && !color && icon)
      && (ChooseTemplate(prompt) == Layout <==> !button && !color && !icon && layout)
      && (ChooseTemplate(prompt) == Activity <==> !button && !color && !icon && !layout && activity)
      && (ChooseTemplate(prompt) == Generic <==> !button && !color && !icon && !layout && !activity)
  {
  }

  /** `generate_fallback_code`: the header followed by exactly one template body.
      `body` stands for the template generators, whose text is not modelled. */
  function FallbackCode(prompt: string, timestamp: string, body: Template -> string): (r: string)
    ensures StartsWith(r, FallbackBanner)
  {
    var h := FallbackHeader(prompt, timestamp);
    PrefixOfConcat(h, body(ChooseTemplate(prompt)));
    h + body(ChooseTemplate(prompt))
  }

  /** With distinct template bodies, the fallback output is the header plus the body of
      one template and of no other. */
  lemma FallbackHasOneTemplate(prompt: string, timestamp: string, body: Template -> string, tpl: Template)
    requires forall a: Template, b: Template :: a != b ==> body(a) != body(b)
    ensures FallbackCode(prompt, timestamp, body) == FallbackHeader(prompt, timestamp) + body(tpl)
        <==> tpl == ChooseTemplate(prompt)
  {
    var h := FallbackHeader(prompt, timestamp);
    if h + body(tpl) == h + body(ChooseTemplate(prompt)) {
      assert body(tpl) == (h + body(tpl))[|h|..];
      assert body(ChooseTemplate(prompt)) == (h + body(ChooseTemplate(prompt)))[|h|..];
    }
  }

  /** The formatted Gemini reply. */
  function AiCode(prompt: string, timestamp: string, text: string): (r: string)
    ensures StartsWith(r, AiBanner)
    ensures Contains(r, text) && Contains(r, prompt)
  {
    FieldsLaidOut(AiBanner, "# Generated at: " + timestamp + "\n# Prompt: ", prompt, "\n\n", text, "\n\n");
    AiBanner + ("# Generated at: " + timestamp + "\n# Prompt: ") + prompt + "\n\n" + text + "\n\n"
  }

  /** `generate_code_from_prompt`. `envKey` is `GEMINI_API_KEY` if set; `reply` is the
      generated text when the request returned 200 with at least one candidate, and
      `None` for every other outcome (another status, no candidates, a request or
      parsing error), all of which fall back. */
  function GenerateCode(prompt: string, envKey: Option<string>, reply: Option<string>,
                        timestamp: string, body: Template -> string): (r: string)
  {
    var key := envKey.GetOr(DummyKey);
    if key == DummyKey then FallbackCode(prompt, timestamp, body)
    else match reply
      case Some(text) => AiCode(prompt, timestamp, text)
      case None => FallbackCode(prompt, timestamp, body)
  }

  /** The banner tells which path produced the code: the AI one exactly when a real
      key is configured and a usable reply came back. */
  lemma AiOnlyWithKeyAndReply(prompt: string, envKey: Option<string>, reply: Option<string>,
                              timestamp: string, body: Template -> string)
    ensures var r := GenerateCode(prompt, envKey, reply, timestamp, body);
      && (StartsWith(r, AiBanner) <==> envKey.GetOr(DummyKey) != DummyKey && reply.Some?)
      && (StartsWith(r, FallbackBanner) <==> !(envKey.GetOr(DummyKey) != DummyKey && reply.Some?))
  {
    var r := GenerateCode(prompt, envKey, reply, timestamp, body);
    BannersExclusive(r);
  }

  /** No text starts with both banners: they differ in their third character. */
  lemma BannersExclusive(r: string)
    ensures !(StartsWith(r, AiBanner) && StartsWith(r, FallbackBanner))
  {
    if StartsWith(r, AiBanner) && |r| >= |FallbackBanner| {
      assert r[..|AiBanner|][2] == 'A';
      assert r[..|FallbackBanner|][2] == r[2];
    }
  }

  /** Without a configured key the reply is never consulted. */
  lemma NoKeyMeansFallback(prompt: string, reply: Option<string>, timestamp: string, body: Template -> string)
    ensures GenerateCode(prompt, None, reply, timestamp, body) == FallbackCode(prompt, timestamp, body)
    ensures GenerateCode(prompt, Some(DummyKey), reply, timestamp, body) == FallbackCode(prompt, timestamp, body)
  {
  }
}
