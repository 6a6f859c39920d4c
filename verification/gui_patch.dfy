/**
  Applying a modifications dictionary to the decoded resource tree of a
  project: `res/values/colors.xml`, `res/values/strings.xml` and the layout
  files under `res/layout/`. Each part is a plain text rewrite; a part that is
  missing on disk is skipped.
 */
module GuiPatch {
  import opened Wrappers
  import opened Text
  import opened Dict
  import opened GuiCompiler

  // ---------------------------------------------------------------------------
  // colors.xml as written: a literal replace whose search text still holds the
  // regular-expression notation `#[0-9A-Fa-f]{6}`

  /** The opening tag of a colour declaration. */
  function ColorOpen(name: string): string {
    "<color name=\"" + name + "\">"
  }

  const ColorClose := "</color>"

  /** The text that follows the opening tag in the search string, character for character. */
  const HexPlaceholder := "#[0-9A-Fa-f]{6}"

  /** One entry of the colour loop as written. */
  function ApplyColor(content: string, name: string, value: string): string {
    var open := ColorOpen(name);
    if Contains(content, open) then
      ReplaceAll(content, open + HexPlaceholder + ColorClose, open + value + ColorClose)
    else content
  }

  /** The colour loop as written, over the dictionary in insertion order. */
  function ApplyColors(content: string, colors: Dict): string
    decreases |colors|
  {
    if |colors| == 0 then content
    else ApplyColors(ApplyColor(content, colors[0].0, colors[0].1), colors[1..])
  }

  /** As written, the colour loop changes nothing unless the file literally holds the
      text `#[0-9A-Fa-f]{6}</color>`. */
  lemma {:induction false} ColorsInertWithoutPlaceholder(content: string, colors: Dict)
    requires !Contains(content, HexPlaceholder + ColorClose)
    ensures ApplyColors(content, colors) == content
    decreases |colors|
  {
    if |colors| > 0 {
      var open := ColorOpen(colors[0].0);
      if Contains(content, open + HexPlaceholder + ColorClose) {
        assert open + HexPlaceholder + ColorClose == open + (HexPlaceholder + ColorClose);
        ContainsTail(content, open, HexPlaceholder + ColorClose);
        assert false;
      }
      ReplaceAbsent(content, open + HexPlaceholder + ColorClose, open + colors[0].1 + ColorClose);
      ColorsInertWithoutPlaceholder(content, colors[1..]);
    }
  }

  /** A colours file without a `[` — every real one, since colour values are hex
      literals — is never changed by the loop as written. */
  lemma ColorsNeverChangeRealFiles(content: string, colors: Dict)
    requires '[' !in content
    ensures ApplyColors(content, colors) == content
  {
    assert (HexPlaceholder + ColorClose)[1] == '[';
    if Contains(content, HexPlaceholder + ColorClose) {
      ContainsChars(content, HexPlaceholder + ColorClose);
      assert false;
    }
    ColorsInertWithoutPlaceholder(content, colors);
  }

  /** The concrete case: a red button colour is left red when blue is asked for. */
  lemma ButtonColorNotRewritten()
    ensures ApplyColors("<color name=\"button_color\">#ff0000</color>", [("button_color", Blue)])
         == "<color name=\"button_color\">#ff0000</color>"
  {
    ColorsNeverChangeRealFiles("<color name=\"button_color\">#ff0000</color>", [("button_color", Blue)]);
  }

  // ---------------------------------------------------------------------------
  // colors.xml as evidently intended: `re.sub` of `<color name="k">#[0-9A-Fa-f]{6}</color>`

  predicate IsHexDigit(c: char) {
    '0' <= c <= '9' || 'a' <= c <= 'f' || 'A' <= c <= 'F'
  }

  /** A `#rrggbb` literal. */
  predicate HexColor(h: string) {
    |h| == 7 && h[0] == '#' && forall i :: 1 <= i < 7 ==> IsHexDigit(h[i])
  }

  /** `s` starts with a declaration `open#rrggbb</color>`. */
  predicate DeclarationAt(s: string, open: string) {
    && |open| + 7 + |ColorClose| <= |s|
    && s[..|open|] == open
    && HexColor(s[|open|..|open| + 7])
    && s[|open| + 7..|open| + 7 + |ColorClose|] == ColorClose
  }

  /** Every declaration `open#rrggbb</color>`, scanned left to right, gets `value`. */
  function RewriteDeclarations(s: string, open: string, value: string): string
    decreases |s|
  {
    if |s| == 0 then ""
    else if DeclarationAt(s, open) then
      open + value + ColorClose + RewriteDeclarations(s[|open| + 7 + |ColorClose|..], open, value)
    else [s[0]] + RewriteDeclarations(s[1..], open, value)
  }

  /** One entry of the intended colour loop. */
  function ApplyColorIntended(content: string, name: string, value: string): string {
    var open := ColorOpen(name);
    if Contains(content, open) then RewriteDeclarations(content, open, value) else content
  }

  /** The intended colour loop. */
  function ApplyColorsIntended(content: string, colors: Dict): string
    decreases |colors|
  {
    if |colors| == 0 then content
    else ApplyColorsIntended(ApplyColorIntended(content, colors[0].0, colors[0].1), colors[1..])
  }

  /** A declaration at the front is rewritten to the new value and the scan goes on after it. */
  lemma DeclarationRewritten(open: string, hex: string, rest: string, value: string)
    requires HexColor(hex)
    ensures RewriteDeclarations(open + hex + ColorClose + rest, open, value)
         == open + value + ColorClose + RewriteDeclarations(rest, open, value)
  {
    var s := open + hex + ColorClose + rest;
    assert s[..|open|] == open;
    assert s[|open|..|open| + 7] == hex;
    assert s[|open| + 7..|open| + 7 + |ColorClose|] == ColorClose;
    assert s[|open| + 7 + |ColorClose|..] == rest;
  }

  /** Text with no opening tag for the name is left alone. */
  lemma {:induction false} NoDeclarationUnchanged(s: string, open: string, value: string)
    requires !Contains(s, open)
    ensures RewriteDeclarations(s, open, value) == s
    decreases |s|
  {
    if |s| > 0 {
      assert !StartsWith(s, open);
      NoDeclarationUnchanged(s[1..], open, value);
      assert [s[0]] + s[1..] == s;
    }
  }

  /** An opening tag: `<` first, not followed by `/`, and no other `<` inside. */
  predicate TagOpen(open: string) {
    && |open| > 1 && open[0] == '<' && open[1] != '/'
    && forall i :: 0 < i < |open| ==> open[i] != '<'
  }

  /** The colour tag of a name without `<` is an opening tag. */
  lemma ColorOpenIsTag(name: string)
    requires '<' !in name
    ensures TagOpen(ColorOpen(name))
  {
  }

  /** A rewritten declaration at the front puts the opening tag there. */
  lemma RewrittenStart(t: string, open: string, value: string)
    requires TagOpen(open)
    ensures DeclarationAt(t, open) ==>
      var out := RewriteDeclarations(t, open, value);
      |out| > 1 && out[0] == '<' && out[1] == open[1]
  {
    if DeclarationAt(t, open) {
      assert RewriteDeclarations(t, open, value)[..|open|] == open;
    }
  }

  /** Where every `<` of `u` is followed by `/`, a rewritten text that starts with `u`
      comes from a text that already started with `u`: a rewritten declaration starts
      with the opening tag, whose `<` is not followed by `/`. */
  lemma {:induction false} RewrittenPrefix(t: string, open: string, value: string, u: string)
    requires TagOpen(open)
    requires StartsWith(RewriteDeclarations(t, open, value), u)
    requires forall j :: 0 <= j < |u| && u[j] == '<' ==> j + 1 < |u| && u[j + 1] == '/'
    ensures StartsWith(t, u)
    decreases |t|
  {
    var out := RewriteDeclarations(t, open, value);
    RewrittenStart(t, open, value);
    if |u| == 0 {
    } else if DeclarationAt(t, open) {
      assert false;
    } else {
      assert out == [t[0]] + RewriteDeclarations(t[1..], open, value);
      assert u[0] == t[0];
      assert RewriteDeclarations(t[1..], open, value)[..|u| - 1] == u[1..];
      forall j | 0 <= j < |u[1..]| && u[1..][j] == '<'
        ensures j + 1 < |u[1..]| && u[1..][j + 1] == '/'
      {
        assert u[j + 1] == '<';
      }
      RewrittenPrefix(t[1..], open, value, u[1..]);
      assert t[..|u|] == [t[0]] + t[1..][..|u| - 1];
    }
  }

  /** In a declaration, after its first character, every `<` is the one of the closing
      tag and is followed by `/`. */
  lemma DeclarationBrackets(out: string, open: string)
    requires TagOpen(open) && DeclarationAt(out, open)
    ensures var u := out[1..|open| + 7 + |ColorClose|];
      forall j :: 0 <= j < |u| && u[j] == '<' ==> j + 1 < |u| && u[j + 1] == '/'
  {
    var m := |open| + 7;
    var n := m + |ColorClose|;
    assert forall i :: 0 < i < |open| ==> out[i] == out[..|open|][i];
    var hex := out[|open|..m];
    assert forall i :: |open| <= i < m ==> out[i] == hex[i - |open|];
    assert forall i :: m <= i < n ==> out[i] == ColorClose[i - m];
  }

  /** Passing over a character creates no declaration there: if the output of the
      rewrite of `open` starts with a declaration of `seen`, so did the input, since the
      rest of the rewrite can only put opening tags further on. */
  lemma NoDeclarationCreated(s: string, seen: string, open: string, value: string)
    requires TagOpen(seen) && TagOpen(open) && |s| > 0
    ensures DeclarationAt([s[0]] + RewriteDeclarations(s[1..], open, value), seen) ==> DeclarationAt(s, seen)
  {
    var rest := RewriteDeclarations(s[1..], open, value);
    var out := [s[0]] + rest;
    if DeclarationAt(out, seen) {
      var n := |seen| + 7 + |ColorClose|;
      var u := out[1..n];
      DeclarationBrackets(out, seen);
      assert rest[..|u|] == u;
      RewrittenPrefix(s[1..], open, value, u);
      assert s[..n] == [s[0]] + s[1..][..|u|] == out[..n];
      assert s[..|seen|] == out[..|seen|];
      assert s[|seen|..|seen| + 7] == out[|seen|..|seen| + 7];
      assert s[|seen| + 7..n] == out[|seen| + 7..n];
    }
  }

  /** Rewriting the declarations of one name twice is rewriting them once, when the new
      value is itself a hex literal. */
  lemma {:induction false} RewriteDeclarationsIdempotent(s: string, open: string, value: string)
    requires TagOpen(open) && HexColor(value)
    ensures RewriteDeclarations(RewriteDeclarations(s, open, value), open, value)
         == RewriteDeclarations(s, open, value)
    decreases |s|
  {
    if |s| == 0 {
    } else if DeclarationAt(s, open) {
      var rest := s[|open| + 7 + |ColorClose|..];
      RewriteDeclarationsIdempotent(rest, open, value);
      DeclarationRewritten(open, value, RewriteDeclarations(rest, open, value), value);
    } else {
      var out := RewriteDeclarations(s, open, value);
      NoDeclarationCreated(s, open, open, value);
      RewriteDeclarationsIdempotent(s[1..], open, value);
      assert out[1..] == RewriteDeclarations(s[1..], open, value);
    }
  }

  // The intended loop over several names: each name's rewrite leaves every other
  // name's declarations as they are, so the whole loop is idempotent.

  /** A colour name that can neither end its opening tag early nor start another tag. */
  predicate PlainName(name: string) {
    '"' !in name && '<' !in name
  }

  /** Distinct plain names give opening tags neither of which starts the other. */
  lemma DistinctColorOpens(a: string, b: string)
    requires a != b && '"' !in a && '"' !in b
    ensures |ColorOpen(a)| <= |ColorOpen(b)| ==> ColorOpen(b)[..|ColorOpen(a)|] != ColorOpen(a)
  {
    var oa, ob := ColorOpen(a), ColorOpen(b);
    var p := "<color name=\"";
    assert oa == p + a + "\">" && ob == p + b + "\">";
    assert oa[|p|..|p| + |a|] == a && ob[|p|..|p| + |b|] == b;
    if |a| < |b| {
      assert oa[|p| + |a|] == '"';
      assert ob[|p| + |a|] == b[|a|];
    }
  }

  /** A declaration of one name is not a declaration of another. */
  lemma OneNamePerDeclaration(s: string, a: string, b: string)
    requires a != b && '"' !in a && '"' !in b
    ensures DeclarationAt(s, ColorOpen(a)) ==> !DeclarationAt(s, ColorOpen(b))
  {
    var oa, ob := ColorOpen(a), ColorOpen(b);
    DistinctColorOpens(a, b);
    DistinctColorOpens(b, a);
    if |oa| <= |s| && |ob| <= |s| {
      var n := if |oa| <= |ob| then |oa| else |ob|;
      assert s[..|oa|][..n] == s[..n] && s[..|ob|][..n] == s[..n];
    }
  }

  /** Past its first character no declaration of any name starts inside a declaration:
      there every `<` is followed by `/`. */
  lemma NoDeclarationInside(s: string, seen: string, open: string, i: nat)
    requires TagOpen(seen) && TagOpen(open) && DeclarationAt(s, seen)
    requires 0 < i < |seen| + 7 + |ColorClose|
    ensures !DeclarationAt(s[i..], open)
  {
    var n := |seen| + 7 + |ColorClose|;
    DeclarationBrackets(s, seen);
    assert s[1..n][i - 1] == s[i];
    if i + 1 < n {
      assert s[1..n][i] == s[i + 1];
    }
    if i + 1 < |s| {
      assert s[i..][0] == s[i] && s[i..][1] == s[i + 1];
    }
  }

  /** Where no declaration starts, the rewrite copies one character. */
  lemma RewriteCharStep(t: string, open: string, value: string)
    requires |t| > 0 && !DeclarationAt(t, open)
    ensures RewriteDeclarations(t, open, value) == [t[0]] + RewriteDeclarations(t[1..], open, value)
  {
  }

  /** Copying the text after the first character up to `q - 1` extends to copying the
      whole text up to `q` when no declaration starts at the front. */
  lemma RewriteCopiesLead(t: string, open: string, value: string, q: nat)
    requires 0 < q <= |t| && !DeclarationAt(t, open)
    requires RewriteDeclarations(t[1..], open, value) == t[1..][..q - 1] + RewriteDeclarations(t[1..][q - 1..], open, value)
    ensures RewriteDeclarations(t, open, value) == t[..q] + RewriteDeclarations(t[q..], open, value)
  {
    RewriteCharStep(t, open, value);
    SplitAfterHead(t, q, RewriteDeclarations(t[q..], open, value));
  }

  /** Up to the first declaration the rewrite copies the text. */
  lemma {:induction false} RewriteUpTo(t: string, open: string, value: string, q: nat)
    requires q <= |t|
    requires forall k :: 0 <= k < q ==> !DeclarationAt(t[k..], open)
    ensures RewriteDeclarations(t, open, value) == t[..q] + RewriteDeclarations(t[q..], open, value)
    decreases q
  {
    if q == 0 {
      assert t[..0] + t[0..] == t;
    } else {
      assert !DeclarationAt(t[0..], open);
      assert t[0..] == t;
      forall k | 0 <= k < q - 1
        ensures !DeclarationAt(t[1..][k..], open)
      {
        assert t[1..][k..] == t[k + 1..];
      }
      RewriteUpTo(t[1..], open, value, q - 1);
      RewriteCopiesLead(t, open, value, q);
    }
  }

  /** The rewrite of one name copies a declaration of another name unchanged. */
  lemma OtherDeclarationCopied(t: string, a: string, va: string, b: string)
    requires PlainName(a) && PlainName(b) && a != b
    requires DeclarationAt(t, ColorOpen(b))
    ensures var n := |ColorOpen(b)| + 7 + |ColorClose|;
      RewriteDeclarations(t, ColorOpen(a), va) == t[..n] + RewriteDeclarations(t[n..], ColorOpen(a), va)
  {
    var oa, ob := ColorOpen(a), ColorOpen(b);
    var n := |ob| + 7 + |ColorClose|;
    ColorOpenIsTag(a);
    ColorOpenIsTag(b);
    OneNamePerDeclaration(t, b, a);
    forall k | 0 <= k < n
      ensures !DeclarationAt(t[k..], oa)
    {
      if k == 0 {
        assert t[k..] == t;
      } else {
        NoDeclarationInside(t, ob, oa, k);
      }
    }
    RewriteUpTo(t, oa, va, n);
  }

  /** `value` is already the colour of every declaration of `name` in `content`. */
  predicate Settled(content: string, name: string, value: string) {
    RewriteDeclarations(content, ColorOpen(name), value) == content
  }

  /** Over a declaration of `b` at the front: the text after it is settled for `a`, and
      once the rewrite of `b` keeps that rest settled it keeps the whole text settled. */
  lemma OtherDeclarationStep(s: string, a: string, va: string, b: string, vb: string)
    requires PlainName(a) && PlainName(b) && a != b && HexColor(vb)
    requires DeclarationAt(s, ColorOpen(b)) && Settled(s, a, va)
    ensures Settled(s[|ColorOpen(b)| + 7 + |ColorClose|..], a, va)
    ensures var done := RewriteDeclarations(s[|ColorOpen(b)| + 7 + |ColorClose|..], ColorOpen(b), vb);
      Settled(done, a, va) ==> Settled(RewriteDeclarations(s, ColorOpen(b), vb), a, va)
  {
    var oa, ob := ColorOpen(a), ColorOpen(b);
    var n := |ob| + 7 + |ColorClose|;
    var rest := s[n..];
    OtherDeclarationCopied(s, a, va, b);
    assert (s[..n] + RewriteDeclarations(rest, oa, va))[n..] == RewriteDeclarations(rest, oa, va);
    var done := RewriteDeclarations(rest, ob, vb);
    var out := ob + vb + ColorClose + done;
    assert RewriteDeclarations(s, ob, vb) == out;
    assert out[..|ob|] == ob && out[|ob|..|ob| + 7] == vb && out[|ob| + 7..n] == ColorClose;
    OtherDeclarationCopied(out, a, va, b);
    assert out[..n] + out[n..] == out && out[n..] == done;
  }

  /** Over a settled declaration of `a` at the front: its value is already `va`, the
      rewrite of `b` copies it, and the rewrite of `a` keeps it. */
  lemma SettledDeclarationStep(s: string, a: string, va: string, b: string, vb: string)
    requires PlainName(a) && PlainName(b) && a != b && HexColor(va)
    requires DeclarationAt(s, ColorOpen(a)) && Settled(s, a, va)
    ensures Settled(s[|ColorOpen(a)| + 7 + |ColorClose|..], a, va)
    ensures var done := RewriteDeclarations(s[|ColorOpen(a)| + 7 + |ColorClose|..], ColorOpen(b), vb);
      Settled(done, a, va) ==> Settled(RewriteDeclarations(s, ColorOpen(b), vb), a, va)
  {
    var oa, ob := ColorOpen(a), ColorOpen(b);
    var n := |oa| + 7 + |ColorClose|;
    var rest := s[n..];
    var hex := s[|oa|..|oa| + 7];
    assert s == oa + hex + ColorClose + rest;
    DeclarationRewritten(oa, hex, rest, va);
    var front := oa + va + ColorClose + RewriteDeclarations(rest, oa, va);
    assert front[|oa|..|oa| + 7] == va;
    assert front[n..] == RewriteDeclarations(rest, oa, va);
    OtherDeclarationCopied(s, b, vb, a);
    var done := RewriteDeclarations(rest, ob, vb);
    assert s[..n] == oa + va + ColorClose;
    DeclarationRewritten(oa, va, done, va);
  }

  /** Over a character that starts no declaration of either name. */
  lemma SettledCharStep(s: string, a: string, va: string, b: string, vb: string)
    requires PlainName(a) && PlainName(b) && |s| > 0
    requires !DeclarationAt(s, ColorOpen(a)) && !DeclarationAt(s, ColorOpen(b)) && Settled(s, a, va)
    ensures Settled(s[1..], a, va)
    ensures var done := RewriteDeclarations(s[1..], ColorOpen(b), vb);
      Settled(done, a, va) ==> Settled(RewriteDeclarations(s, ColorOpen(b), vb), a, va)
  {
    var oa, ob := ColorOpen(a), ColorOpen(b);
    ColorOpenIsTag(a);
    ColorOpenIsTag(b);
    assert RewriteDeclarations(s, oa, va) == [s[0]] + RewriteDeclarations(s[1..], oa, va);
    assert ([s[0]] + RewriteDeclarations(s[1..], oa, va))[1..] == RewriteDeclarations(s[1..], oa, va);
    var done := RewriteDeclarations(s[1..], ob, vb);
    var out := [s[0]] + done;
    assert RewriteDeclarations(s, ob, vb) == out;
    NoDeclarationCreated(s, oa, ob, vb);
    assert out[1..] == done;
  }

  /** Rewriting the declarations of `b` keeps a text settled for another name `a`. */
  lemma {:induction false} RewriteKeepsSettled(s: string, a: string, va: string, b: string, vb: string)
    requires PlainName(a) && PlainName(b) && a != b && HexColor(va) && HexColor(vb)
    requires Settled(s, a, va)
    ensures Settled(RewriteDeclarations(s, ColorOpen(b), vb), a, va)
    decreases |s|
  {
    if |s| == 0 {
    } else if DeclarationAt(s, ColorOpen(b)) {
      OtherDeclarationStep(s, a, va, b, vb);
      RewriteKeepsSettled(s[|ColorOpen(b)| + 7 + |ColorClose|..], a, va, b, vb);
    } else if DeclarationAt(s, ColorOpen(a)) {
      SettledDeclarationStep(s, a, va, b, vb);
      RewriteKeepsSettled(s[|ColorOpen(a)| + 7 + |ColorClose|..], a, va, b, vb);
    } else {
      SettledCharStep(s, a, va, b, vb);
      RewriteKeepsSettled(s[1..], a, va, b, vb);
    }
  }

  /** A colours dictionary the intended loop can apply: distinct plain names with hex values. */
  predicate ColorTable(colors: Dict) {
    && DistinctKeys(colors)
    && forall p :: p in colors ==> PlainName(p.0) && HexColor(p.1)
  }

  /** One entry of the intended loop is the rewrite of its name's declarations, whether
      or not the opening tag occurs. */
  lemma ColorIntendedIsRewrite(content: string, name: string, value: string)
    ensures ApplyColorIntended(content, name, value) == RewriteDeclarations(content, ColorOpen(name), value)
  {
    if !Contains(content, ColorOpen(name)) {
      NoDeclarationUnchanged(content, ColorOpen(name), value);
    }
  }

  /** A text settled for every entry passes through the loop unchanged. */
  lemma {:induction false} SettledLoopUnchanged(content: string, colors: Dict)
    requires forall p :: p in colors ==> Settled(content, p.0, p.1)
    ensures ApplyColorsIntended(content, colors) == content
    decreases |colors|
  {
    if |colors| > 0 {
      ColorIntendedIsRewrite(content, colors[0].0, colors[0].1);
      assert colors[0] in colors;
      assert forall p :: p in colors[1..] ==> p in colors;
      SettledLoopUnchanged(content, colors[1..]);
    }
  }

  /** The loop over other names keeps a text settled for `a`. */
  lemma {:induction false} LoopKeepsSettled(content: string, colors: Dict, a: string, va: string)
    requires PlainName(a) && HexColor(va) && Settled(content, a, va)
    requires a !in Keys(colors)
    requires forall p :: p in colors ==> PlainName(p.0) && HexColor(p.1)
    ensures Settled(ApplyColorsIntended(content, colors), a, va)
    decreases |colors|
  {
    if |colors| > 0 {
      var b, vb := colors[0].0, colors[0].1;
      ColorIntendedIsRewrite(content, b, vb);
      assert colors[0] in colors;
      RewriteKeepsSettled(content, a, va, b, vb);
      assert forall p :: p in colors[1..] ==> p in colors;
      LoopKeepsSettled(ApplyColorIntended(content, b, vb), colors[1..], a, va);
    }
  }

  /** After the loop every entry of a colour table is settled. */
  lemma {:induction false} LoopSettlesAll(content: string, colors: Dict)
    requires ColorTable(colors)
    ensures forall p :: p in colors ==> Settled(ApplyColorsIntended(content, colors), p.0, p.1)
    decreases |colors|
  {
    if |colors| > 0 {
      var a, va := colors[0].0, colors[0].1;
      var c1 := ApplyColorIntended(content, a, va);
      var r := ApplyColorsIntended(content, colors);
      assert r == ApplyColorsIntended(c1, colors[1..]);
      assert colors[0] in colors;
      ColorIntendedIsRewrite(content, a, va);
      ColorOpenIsTag(a);
      RewriteDeclarationsIdempotent(content, ColorOpen(a), va);
      assert forall p :: p in colors[1..] ==> p in colors;
      LoopSettlesAll(c1, colors[1..]);
      LoopKeepsSettled(c1, colors[1..], a, va);
      forall p | p in colors
        ensures Settled(r, p.0, p.1)
      {
        var i :| 0 <= i < |colors| && colors[i] == p;
        if i > 0 {
          assert colors[1..][i - 1] == p;
        }
      }
    }
  }

  /** The intended colour loop, run twice with the same colour table, is run once. */
  lemma ApplyColorsIntendedIdempotent(content: string, colors: Dict)
    requires ColorTable(colors)
    ensures ApplyColorsIntended(ApplyColorsIntended(content, colors), colors) == ApplyColorsIntended(content, colors)
  {
    LoopSettlesAll(content, colors);
    SettledLoopUnchanged(ApplyColorsIntended(content, colors), colors);
  }

  /** Assigning a hex value to a plain name keeps a colour table one. */
  lemma PutColor(d: Dict, k: string, v: string)
    requires ColorTable(d) && PlainName(k) && HexColor(v)
    ensures ColorTable(Put(d, k, v))
  {
    PutPairs(d, k, v);
  }

  /** A seven-character literal `#` plus six hex digits is a hex colour. */
  lemma HexLiteral(h: string)
    requires |h| == 7 && h[0] == '#'
    requires IsHexDigit(h[1]) && IsHexDigit(h[2]) && IsHexDigit(h[3])
    requires IsHexDigit(h[4]) && IsHexDigit(h[5]) && IsHexDigit(h[6])
    ensures HexColor(h)
  {
  }

  /** The colours the keyword triggers assign are hex literals. */
  lemma TriggerPalette()
    ensures HexColor(Blue) && HexColor(Green) && HexColor(Red) && HexColor(Orange)
  {
    HexLiteral(Blue);
    HexLiteral(Green);
    HexLiteral(Red);
    HexLiteral(Orange);
  }

  /** A scheme-shaped table of three hex values is a colour table. */
  lemma SchemeShapedTable(primary: string, secondary: string, accent: string)
    requires HexColor(primary) && HexColor(secondary) && HexColor(accent)
    ensures ColorTable([("primary", primary), ("secondary", secondary), ("accent", accent)])
  {
    var d := [("primary", primary), ("secondary", secondary), ("accent", accent)];
    assert PlainName("primary") && PlainName("secondary") && PlainName("accent");
    assert d[1..][1..][1..] == [];
    assert Keys(d[1..][1..]) == {"accent"};
    assert Keys(d[1..]) == {"secondary", "accent"};
    assert "primary"[0] == 'p' && "secondary"[0] == 's' && "accent"[0] == 'a';
    assert DistinctKeys(d[1..][1..]) && DistinctKeys(d[1..]);
  }

  /** Every colour scheme's table is a colour table. */
  lemma SchemeTable(scheme: string)
    requires SchemeColors(scheme).Some?
    ensures ColorTable(SchemeColors(scheme).value)
  {
    var d := SchemeColors(scheme).value;
    HexLiteral(d[0].1);
    HexLiteral(d[1].1);
    HexLiteral(d[2].1);
    SchemeShapedTable(d[0].1, d[1].1, d[2].1);
  }

  /** The control trigger keeps a colour table one. */
  lemma ControlKeepsTable(t: string, m: Modifications)
    requires ColorTable(m.colors)
    ensures ColorTable(ControlRule(t, m).colors)
  {
    TriggerPalette();
    assert PlainName("control_color");
    if ControlFires(t) {
      if Contains(t, "blue") {
        PutColor(m.colors, "control_color", Blue);
      } else if Contains(t, "green") {
        PutColor(m.colors, "control_color", Green);
      } else if Contains(t, "red") {
        PutColor(m.colors, "control_color", Red);
      } else if Contains(t, "orange") {
        PutColor(m.colors, "control_color", Orange);
      }
    }
  }

  /** The glow trigger keeps a colour table one. */
  lemma GlowKeepsTable(t: string, m: Modifications)
    requires ColorTable(m.colors)
    ensures ColorTable(GlowRule(t, m).colors)
  {
    TriggerPalette();
    assert PlainName("glow_color");
    if GlowFires(t) {
      if Contains(t, "blue") {
        PutColor(m.colors, "glow_color", Blue);
      } else if Contains(t, "green") {
        PutColor(m.colors, "glow_color", Green);
      } else if Contains(t, "red") {
        PutColor(m.colors, "glow_color", Red);
      }
    }
  }

  /** The intended status trigger keeps a colour table one. */
  lemma StatusKeepsTable(t: string, m: Modifications)
    requires ColorTable(m.colors)
    ensures ColorTable(StatusRuleIntended(t, m).colors)
  {
    TriggerPalette();
    assert PlainName("status_color");
    if StatusFires(t) {
      if Contains(t, "disconnected") {
        PutColor(m.colors, "status_color", Red);
      } else if Contains(t, "connected") {
        PutColor(m.colors, "status_color", Green);
      }
    }
  }

  /** The button trigger keeps a colour table one. */
  lemma ButtonKeepsTable(t: string, m: Modifications)
    requires ColorTable(m.colors)
    ensures ColorTable(ButtonRule(t, m).colors)
  {
    TriggerPalette();
    assert PlainName("button_color");
    if ButtonFires(t) {
      if Contains(t, "blue") {
        PutColor(m.colors, "button_color", Blue);
      } else if Contains(t, "green") {
        PutColor(m.colors, "button_color", Green);
      } else if Contains(t, "red") {
        PutColor(m.colors, "button_color", Red);
      }
    }
  }

  /** The intended compiler always hands the colour loop a colour table. */
  lemma IntendedColorTable(description: string, scheme: string, imagePaths: seq<string>)
    ensures ColorTable(GenerateGuiModificationsIntended(description, scheme, imagePaths).colors)
  {
    var t := Lower(description);
    var m0 := SchemeStage(description, scheme);
    if scheme in SchemeNames {
      SchemeTable(scheme);
    }
    var m1 := ControlRule(t, m0);
    ControlKeepsTable(t, m0);
    var m3 := GlowRule(t, DpadRule(t, m1));
    GlowKeepsTable(t, DpadRule(t, m1));
    var m4 := StatusRuleIntended(t, m3);
    StatusKeepsTable(t, m3);
    ButtonKeepsTable(t, m4);
  }

  /** The intended loop rewrites a one-declaration file to the requested value. */
  lemma SingleDeclarationRewritten(name: string, hex: string, value: string)
    requires HexColor(hex)
    ensures ApplyColorsIntended(ColorOpen(name) + hex + ColorClose, [(name, value)])
         == ColorOpen(name) + value + ColorClose
  {
    var open := ColorOpen(name);
    var content := open + hex + ColorClose;
    ContainsMiddle("", open, hex + ColorClose);
    assert "" + open + (hex + ColorClose) == content;
    assert content == open + hex + ColorClose + "";
    DeclarationRewritten(open, hex, "", value);
    assert ApplyColorIntended(content, name, value) == open + value + ColorClose + "";
    assert [(name, value)][1..] == [];
  }

  /** The loop as written leaves that same one-declaration file untouched. */
  lemma SingleDeclarationKept(name: string, hex: string, value: string)
    requires HexColor(hex) && '[' !in name
    ensures ApplyColors(ColorOpen(name) + hex + ColorClose, [(name, value)])
         == ColorOpen(name) + hex + ColorClose
  {
    var content := ColorOpen(name) + hex + ColorClose;
    assert '[' !in content by {
      assert forall i :: 1 <= i < 7 ==> IsHexDigit(hex[i]);
    }
    ColorsNeverChangeRealFiles(content, [(name, value)]);
  }

  // ---------------------------------------------------------------------------
  // strings.xml: `re.sub('<string name="k">.*?</string>', '<string name="k">v</string>', content)`

  /** The opening tag of a string resource. */
  function StringOpen(name: string): string {
    "<string name=\"" + name + "\">"
  }

  const StringClose := "</string>"

  /** `s` has a closing tag at `j` that the lazy match reaches: no line break before it
      and no earlier closing tag. */
  predicate CloseAt(s: string, j: nat) {
    && j + |StringClose| <= |s|
    && s[j..j + |StringClose|] == StringClose
    && '\n' !in s[..j]
    && forall k :: 0 <= k < j ==> !StartsWith(s[k..], StringClose)
  }

  /** No closing tag is reachable in `s` without crossing a line break. */
  predicate NoCloseReachable(s: string) {
    forall k :: 0 <= k <= |s| && '\n' !in s[..k] ==> !StartsWith(s[k..], StringClose)
  }

  /** Where the lazy `.*?</string>` stops: the first closing tag, provided no line
      break comes before it (`.` does not match a newline). */
  function FindClose(s: string): (r: Option<nat>)
    ensures r.Some? ==> r.value + |StringClose| <= |s|
    decreases |s|
  {
    if StartsWith(s, StringClose) then Some(0)
    else if |s| == 0 || s[0] == '\n' then None
    else
      match FindClose(s[1..])
      case Some(j) => Some(j + 1)
      case None => None
  }

  /** `FindClose` finds the reachable closing tag when there is one, and reports none
      only when none is reachable. */
  lemma {:induction false} FindCloseSound(s: string)
    ensures FindClose(s).Some? ==> CloseAt(s, FindClose(s).value)
    ensures FindClose(s).None? ==> NoCloseReachable(s)
    decreases |s|
  {
    if StartsWith(s, StringClose) {
    } else if |s| == 0 || s[0] == '\n' {
      NoCloseBeforeBreak(s);
    } else {
      FindCloseSound(s[1..]);
      match FindClose(s[1..])
      case Some(j) =>
        CloseAtShift(s, j);
      case None =>
        NoCloseShift(s);
    }
  }

  /** A text that is empty or starts with a line break reaches no closing tag but at 0. */
  lemma NoCloseBeforeBreak(s: string)
    requires !StartsWith(s, StringClose)
    requires |s| == 0 || s[0] == '\n'
    ensures NoCloseReachable(s)
  {
    assert forall k :: 0 < k <= |s| ==> s[..k][0] == '\n';
  }

  /** One character in front that is neither a line break nor the start of a closing tag
      moves the reachable closing tag one place on. */
  lemma CloseAtShift(s: string, j: nat)
    requires |s| > 0 && s[0] != '\n' && !StartsWith(s, StringClose)
    requires CloseAt(s[1..], j)
    ensures CloseAt(s, j + 1)
  {
    assert s[j + 1..j + 1 + |StringClose|] == s[1..][j..j + |StringClose|];
    assert s[..j + 1] == [s[0]] + s[1..][..j];
    forall k | 1 <= k < j + 1
      ensures !StartsWith(s[k..], StringClose)
    {
      assert s[k..] == s[1..][k - 1..];
    }
  }

  /** Likewise when no closing tag is reachable after the first character. */
  lemma NoCloseShift(s: string)
    requires |s| > 0 && s[0] != '\n' && !StartsWith(s, StringClose)
    requires NoCloseReachable(s[1..])
    ensures NoCloseReachable(s)
  {
    forall k | 1 <= k <= |s| && '\n' !in s[..k]
      ensures !StartsWith(s[k..], StringClose)
    {
      assert s[k..] == s[1..][k - 1..];
      assert s[..k] == [s[0]] + s[1..][..k - 1];
    }
  }

  /** The pattern matches at the front of `s`: the opening tag, then a reachable closing tag. */
  predicate EntryAt(s: string, open: string) {
    StartsWith(s, open) && FindClose(s[|open|..]).Some?
  }

  /** The text after a match at the front: past its closing tag. */
  function AfterEntry(s: string, open: string): (r: string)
    requires EntryAt(s, open)
    ensures |r| < |s|
  {
    s[|open| + FindClose(s[|open|..]).value + |StringClose|..]
  }

  /** The lazy substitution, scanning left to right without overlap. */
  function SubLazy(s: string, open: string, value: string): string
    decreases |s|
  {
    if |s| == 0 then ""
    else if EntryAt(s, open) then open + value + StringClose + SubLazy(AfterEntry(s, open), open, value)
    else [s[0]] + SubLazy(s[1..], open, value)
  }

  /** One entry of the string loop: the substitution only runs when the opening tag occurs. */
  function ApplyString(content: string, name: string, value: string): string {
    var open := StringOpen(name);
    if Contains(content, open) then SubLazy(content, open, value) else content
  }

  /** The string loop over the dictionary in insertion order. */
  function ApplyStrings(content: string, strings: Dict): string
    decreases |strings|
  {
    if |strings| == 0 then content
    else ApplyStrings(ApplyString(content, strings[0].0, strings[0].1), strings[1..])
  }

  /** `prior + "</string>" + rest` with `prior` non-empty starts with a closing tag only
      when `prior` holds one: two closing tags cannot overlap. */
  lemma LeadingCloseInPrior(prior: string, rest: string)
    requires |prior| > 0
    ensures StartsWith(prior + StringClose + rest, StringClose) ==> Contains(prior, StringClose)
  {
    var s := prior + StringClose + rest;
    if StartsWith(s, StringClose) {
      assert s[|prior|..|prior| + |StringClose|] == StringClose;
      assert s[0..|StringClose|] == StringClose;
      ClosingTagsDoNotOverlap(s, 0, |prior|);
      assert prior[0..|StringClose|] == s[0..|StringClose|];
      ContainsAt(prior, StringClose, 0);
    }
  }

  /** In `prior + "</string>" + rest`, with no closing tag inside `prior`, the first closing
      tag is the one right after `prior`. */
  lemma {:induction false} FirstCloseAfter(prior: string, rest: string)
    requires '\n' !in prior && !Contains(prior, StringClose)
    ensures FindClose(prior + StringClose + rest) == Some(|prior|)
    decreases |prior|
  {
    var s := prior + StringClose + rest;
    if |prior| == 0 {
      assert s[..|StringClose|] == StringClose;
    } else {
      LeadingCloseInPrior(prior, rest);
      assert s[0] == prior[0];
      assert s[1..] == prior[1..] + StringClose + rest;
      FirstCloseAfter(prior[1..], rest);
    }
  }

  /** Two occurrences of the closing tag never overlap. */
  lemma ClosingTagsDoNotOverlap(s: string, i: nat, k: nat)
    requires i < k && k + |StringClose| <= |s|
    requires s[i..i + |StringClose|] == StringClose && s[k..k + |StringClose|] == StringClose
    ensures i + |StringClose| <= k
  {
    var m := if k < i + |StringClose| then k - i else 0;
    assert s[i..i + |StringClose|][m] == s[i + m];
  }

  /** An entry `<string name="k">prior</string>` at the front takes the new value, and the
      scan continues after it. */
  lemma EntryReplaced(open: string, prior: string, rest: string, value: string)
    requires '\n' !in prior && !Contains(prior, StringClose)
    ensures SubLazy(open + prior + StringClose + rest, open, value)
         == open + value + StringClose + SubLazy(rest, open, value)
  {
    var s := open + prior + StringClose + rest;
    assert s[|open|..] == prior + StringClose + rest;
    FirstCloseAfter(prior, rest);
    assert s[|open| + |prior| + |StringClose|..] == rest;
    if |s| > 0 {
      assert StartsWith(s, open);
    }
  }

  /** Text without the opening tag is left alone. */
  lemma {:induction false} NoEntryUnchanged(s: string, open: string, value: string)
    requires !Contains(s, open)
    ensures SubLazy(s, open, value) == s
    decreases |s|
  {
    if |s| > 0 {
      assert !StartsWith(s, open);
      NoEntryUnchanged(s[1..], open, value);
      assert [s[0]] + s[1..] == s;
    }
  }

  /** Every suffix of `t` past the first character is a suffix of `t[1..]`. */
  lemma SuffixesShift(t: string)
    requires |t| > 0
    ensures forall k :: 1 <= k <= |t| ==> t[k..] == t[1..][k - 1..]
  {
  }

  /** Where the next match of the lazy pattern starts, if anywhere. */
  function NextEntry(t: string, open: string): (r: Option<nat>)
    ensures r.Some? ==> r.value < |t| && EntryAt(t[r.value..], open)
    ensures r.Some? ==> forall k :: 0 <= k < r.value ==> !EntryAt(t[k..], open)
    ensures r.None? ==> forall k :: 0 <= k < |t| ==> !EntryAt(t[k..], open)
    decreases |t|
  {
    if |t| == 0 then None
    else if EntryAt(t, open) then
      assert t[0..] == t;
      Some(0)
    else
      assert t[0..] == t;
      SuffixesShift(t);
      match NextEntry(t[1..], open)
      case Some(j) => Some(j + 1)
      case None => None
  }

  /** Copying the text after the first character up to `q - 1` extends to copying the
      whole text up to `q` when no match starts at the front. */
  lemma SubLazyCopiesLead(t: string, open: string, value: string, q: nat)
    requires 0 < q <= |t| && !EntryAt(t, open)
    requires SubLazy(t[1..], open, value) == t[1..][..q - 1] + SubLazy(t[1..][q - 1..], open, value)
    ensures SubLazy(t, open, value) == t[..q] + SubLazy(t[q..], open, value)
  {
    assert SubLazy(t, open, value) == [t[0]] + SubLazy(t[1..], open, value);
    SplitAfterHead(t, q, SubLazy(t[q..], open, value));
  }

  /** Up to the first match the substitution copies the text. */
  lemma {:induction false} SubLazyUpTo(t: string, open: string, value: string, q: nat)
    requires q <= |t|
    requires forall k :: 0 <= k < q ==> !EntryAt(t[k..], open)
    ensures SubLazy(t, open, value) == t[..q] + SubLazy(t[q..], open, value)
    decreases q
  {
    if q == 0 {
      assert t[..0] + t[0..] == t;
    } else {
      assert !EntryAt(t[0..], open);
      assert t[0..] == t;
      forall k | 0 <= k < q - 1
        ensures !EntryAt(t[1..][k..], open)
      {
        assert t[1..][k..] == t[k + 1..];
      }
      SubLazyUpTo(t[1..], open, value, q - 1);
      SubLazyCopiesLead(t, open, value, q);
    }
  }

  /** Up to the first match further on, the substitution copies the text, and the first
      substituted entry starts with `<`. */
  lemma FirstEntryShape(s: string, open: string, value: string, q0: nat)
    requires TagOpen(open) && |s| > 0 && q0 < |s| - 1
    requires forall k :: 0 <= k < q0 ==> !EntryAt(s[1..][k..], open)
    requires EntryAt(s[1..][q0..], open)
    ensures var out := [s[0]] + SubLazy(s[1..], open, value);
      q0 + 1 < |out| && out[..q0 + 1] == s[..q0 + 1] && out[q0 + 1] == '<'
  {
    var t := s[1..];
    SubLazyUpTo(t, open, value, q0);
    EntryOutput(t[q0..], open, value);
    assert [s[0]] + t[..q0] == s[..q0 + 1];
  }

  /** A match at the front becomes the opening tag, the value and the closing tag. */
  lemma EntryOutput(e: string, open: string, value: string)
    requires EntryAt(e, open) && |open| > 0
    ensures SubLazy(e, open, value) == open + value + StringClose + SubLazy(AfterEntry(e, open), open, value)
  {
  }

  /** A `<` that an opening tag at the front reaches into must be its first character. */
  lemma LeadOfOpen(out: string, open: string, d: nat)
    requires TagOpen(open) && StartsWith(out, open)
    requires 0 < d < |out| && out[d] == '<'
    ensures d >= |open|
  {
    var g := if d < |open| then d else 0;
    assert out[..|open|][g] == out[g];
  }

  /** A `<` cannot fall strictly inside a closing tag. */
  lemma NoLeadInsideClose(y: string, j: nat, d: nat)
    requires j + |StringClose| <= |y| && y[j..j + |StringClose|] == StringClose
    requires d < |y| && y[d] == '<'
    ensures !(j < d < j + |StringClose|)
  {
    assert forall i :: 0 < i < |StringClose| ==> StringClose[i] != '<';
    var h := if j < d < j + |StringClose| then d - j else 0;
    assert y[j..j + |StringClose|][h] == y[j + h];
  }

  /** A closing tag reachable after a stretch without line breaks is reachable from the front. */
  lemma {:induction false} FindCloseThrough(x: string, k: nat)
    requires k <= |x| && '\n' !in x[..k] && FindClose(x[k..]).Some?
    ensures FindClose(x).Some?
    decreases k
  {
    if k == 0 {
      assert x[0..] == x;
    } else if !StartsWith(x, StringClose) {
      assert x[0] == x[..k][0];
      assert x[1..][k - 1..] == x[k..];
      assert x[1..][..k - 1] == x[..k][1..];
      FindCloseThrough(x[1..], k - 1);
    }
  }

  /** Two texts agree up to `d`, where `y` has a `<`. If `y` reaches a closing tag, either
      `x` reaches one inside the shared text or that text has no line break. */
  lemma {:induction false} FindCloseOrClear(x: string, y: string, d: nat)
    requires d < |y| && d <= |x| && y[..d] == x[..d] && y[d] == '<'
    requires FindClose(y).Some?
    ensures FindClose(x).Some? || '\n' !in x[..d]
    decreases d
  {
    if d == 0 {
    } else if StartsWith(y, StringClose) {
      NoLeadInsideClose(y, 0, d);
      assert x[..|StringClose|] == y[..d][..|StringClose|];
    } else {
      assert x[0] == x[..d][0];
      assert y[1..][..d - 1] == y[..d][1..];
      assert x[1..][..d - 1] == x[..d][1..];
      FindCloseOrClear(x[1..], y[1..], d - 1);
      assert x[..d] == [x[0]] + x[1..][..d - 1];
    }
  }

  /** A match further on, with no line break before it, makes a closing tag reachable
      from the front. */
  lemma InputReachesClose(x: string, d: nat, open: string)
    requires '\n' !in open && d <= |x| && EntryAt(x[d..], open) && '\n' !in x[..d]
    ensures FindClose(x).Some?
  {
    FindCloseThrough(x[d..], |open|);
    FindCloseThrough(x, d);
  }

  /** When the output agrees with the input up to a `<` at `d0` where the input matches,
      a match at the front of the output is one of the input. */
  lemma EntryCreatedLater(s: string, out: string, open: string, d0: nat)
    requires TagOpen(open) && '\n' !in open
    requires 0 < d0 < |out| && d0 <= |s| && out[..d0] == s[..d0] && out[d0] == '<'
    requires EntryAt(s[d0..], open)
    ensures EntryAt(out, open) ==> EntryAt(s, open)
  {
    if EntryAt(out, open) {
      LeadOfOpen(out, open, d0);
      assert s[..|open|] == out[..d0][..|open|];
      var x := s[|open|..];
      var y := out[|open|..];
      var d := d0 - |open|;
      SharedStretch(s, out, |open|, d0);
      assert y[d] == out[d0];
      FindCloseOrClear(x, y, d);
      assert x[d..] == s[d0..];
      if FindClose(x).None? {
        InputReachesClose(x, d, open);
      }
    }
  }

  /** Passing over a character creates no match there: if the output matches at the
      front, so did the input. The first substituted entry further on starts with `<`,
      which the opening tag holds only in front, and its closing tag was reachable from
      the front of the input unless a line break came before it. */
  lemma NoEntryCreated(s: string, open: string, value: string)
    requires TagOpen(open) && '\n' !in open && |s| > 0
    ensures EntryAt([s[0]] + SubLazy(s[1..], open, value), open) ==> EntryAt(s, open)
  {
    var t := s[1..];
    var out := [s[0]] + SubLazy(t, open, value);
    var nx := NextEntry(t, open);
    if nx.None? {
      SubLazyUpTo(t, open, value, |t|);
      assert out == [s[0]] + t == s;
    } else {
      FirstEntryShape(s, open, value, nx.value);
      assert s[nx.value + 1..] == t[nx.value..];
      EntryCreatedLater(s, out, open, nx.value + 1);
    }
  }

  /** A substituted entry at the front is matched again and keeps its value. */
  lemma EntryStep(s: string, open: string, value: string)
    requires EntryAt(s, open)
    requires '\n' !in value && !Contains(value, StringClose)
    requires SubLazy(SubLazy(AfterEntry(s, open), open, value), open, value) == SubLazy(AfterEntry(s, open), open, value)
    ensures SubLazy(SubLazy(s, open, value), open, value) == SubLazy(s, open, value)
  {
    var rest := SubLazy(AfterEntry(s, open), open, value);
    assert SubLazy(s, open, value) == open + value + StringClose + rest;
    EntryReplaced(open, value, rest, value);
  }

  /** A character copied over stays copied. */
  lemma CharStep(s: string, open: string, value: string)
    requires TagOpen(open) && '\n' !in open && |s| > 0 && !EntryAt(s, open)
    requires SubLazy(SubLazy(s[1..], open, value), open, value) == SubLazy(s[1..], open, value)
    ensures SubLazy(SubLazy(s, open, value), open, value) == SubLazy(s, open, value)
  {
    var rest := SubLazy(s[1..], open, value);
    assert SubLazy(s, open, value) == [s[0]] + rest;
    NoEntryCreated(s, open, value);
    assert ([s[0]] + rest)[1..] == rest;
  }

  /** Substituting the same value twice is substituting it once, when the value holds no
      line break and no closing tag and the opening tag holds no line break. */
  lemma {:induction false} SubLazyIdempotent(s: string, open: string, value: string)
    requires TagOpen(open) && '\n' !in open
    requires '\n' !in value && !Contains(value, StringClose)
    ensures SubLazy(SubLazy(s, open, value), open, value) == SubLazy(s, open, value)
    decreases |s|
  {
    if |s| == 0 {
    } else if EntryAt(s, open) {
      SubLazyIdempotent(AfterEntry(s, open), open, value);
      EntryStep(s, open, value);
    } else {
      SubLazyIdempotent(s[1..], open, value);
      CharStep(s, open, value);
    }
  }

  /** The string tag of a name without `<` or line break is an opening tag without a
      line break. */
  lemma StringOpenIsTag(name: string)
    requires '<' !in name && '\n' !in name
    ensures TagOpen(StringOpen(name)) && '\n' !in StringOpen(name)
  {
  }

  /** A value without `<` holds no closing tag. */
  lemma NoCloseInPlainText(value: string)
    requires '<' !in value
    ensures !Contains(value, StringClose)
  {
    assert StringClose[0] == '<';
    if Contains(value, StringClose) {
      ContainsChars(value, StringClose);
      assert false;
    }
  }

  /** One entry of the string loop, applied twice, is applied once. */
  lemma ApplyStringIdempotent(content: string, name: string, value: string)
    requires '<' !in name && '\n' !in name && '<' !in value && '\n' !in value
    ensures ApplyString(ApplyString(content, name, value), name, value) == ApplyString(content, name, value)
  {
    StringOpenIsTag(name);
    NoCloseInPlainText(value);
    SubLazyIdempotent(content, StringOpen(name), value);
  }

  /** A one-entry strings file takes the new value. */
  lemma SingleEntryRewritten(name: string, prior: string, value: string)
    requires '\n' !in prior && !Contains(prior, StringClose)
    ensures ApplyStrings(StringOpen(name) + prior + StringClose, [(name, value)])
         == StringOpen(name) + value + StringClose
  {
    var open := StringOpen(name);
    var content := open + prior + StringClose;
    ContainsMiddle("", open, prior + StringClose);
    assert "" + open + (prior + StringClose) == content;
    assert content == open + prior + StringClose + "";
    EntryReplaced(open, prior, "", value);
    assert SubLazy("", open, value) == "";
    assert ApplyString(content, name, value) == open + value + StringClose;
    assert [(name, value)][1..] == [];
  }

  /** A text that starts with `p` has `p`'s first two characters in front. */
  lemma LeadOfStart(x: string, p: string)
    ensures StartsWith(x, p) && |p| > 0 ==> x[0] == p[0]
    ensures StartsWith(x, p) && |p| > 1 ==> x[1] == p[1]
  {
    if StartsWith(x, p) && |p| > 1 {
      assert x[..|p|][1] == x[1];
    }
    if StartsWith(x, p) && |p| > 0 {
      assert x[..|p|][0] == x[0];
    }
  }

  /** A line break reached before any `<` stops the lazy match: no closing tag is found. */
  lemma {:induction false} FindCloseBlocked(x: string, m: nat)
    requires m < |x| && x[m] == '\n'
    requires forall i :: 0 <= i < m ==> x[i] != '<'
    ensures FindClose(x).None?
    decreases m
  {
    LeadOfStart(x, StringClose);
    if m > 0 && x[0] != '\n' {
      forall i | 0 <= i < m - 1
        ensures x[1..][i] != '<'
      {
        assert x[1..][i] == x[i + 1];
      }
      FindCloseBlocked(x[1..], m - 1);
    }
  }

  /** In an entry whose old value has a line break and no `<`, no match starts anywhere:
      at the front the line break blocks the lazy match, and elsewhere no opening tag
      starts. */
  lemma NoEntryInMultiLine(open: string, p: string, k: nat)
    requires TagOpen(open) && '<' !in p && '\n' in p
    requires k < |open| + |p| + |StringClose|
    ensures !EntryAt((open + p + StringClose)[k..], open)
  {
    var s := open + p + StringClose;
    var x := s[k..];
    LeadOfStart(x, open);
    if k == 0 {
      assert x == s;
      assert s[|open|..] == p + StringClose;
      var m :| 0 <= m < |p| && p[m] == '\n';
      FindCloseBlocked(p + StringClose, m);
    } else if k < |open| {
      assert x[0] == open[k];
    } else if k < |open| + |p| {
      assert x[0] == p[k - |open|];
    } else {
      var j := k - |open| - |p|;
      assert x[0] == StringClose[j];
      if j == 0 {
        assert x[1] == StringClose[1];
      }
    }
  }

  /** An entry whose old value has a line break and no `<` is left as it is: `.*?` does
      not cross the line break. */
  lemma MultiLineEntryKept(name: string, p: string, value: string)
    requires '<' !in name && '\n' !in name && '<' !in p && '\n' in p
    ensures ApplyStrings(StringOpen(name) + p + StringClose, [(name, value)]) == StringOpen(name) + p + StringClose
  {
    var open := StringOpen(name);
    var s := open + p + StringClose;
    StringOpenIsTag(name);
    forall k | 0 <= k < |s|
      ensures !EntryAt(s[k..], open)
    {
      NoEntryInMultiLine(open, p, k);
    }
    SubLazyUpTo(s, open, value, |s|);
    assert s[..|s|] == s && s[|s|..] == "";
    assert SubLazy("", open, value) == "";
    assert [(name, value)][1..] == [];
  }

  /** Read in text mode, a one-entry strings file whose old value has no carriage return
      is taken as it is. */
  lemma PlainEntryRead(name: string, prior: string)
    requires '\r' !in name && '\r' !in prior
    ensures ReadText(StringOpen(name) + prior + StringClose) == StringOpen(name) + prior + StringClose
  {
    ReadTextFixed(StringOpen(name) + prior + StringClose);
  }

  /** A one-entry strings file whose old value holds a carriage return and no `<` keeps
      that value: the text-mode read turns the carriage return into a line break, which
      the lazy match cannot cross. Only the line endings change. */
  lemma CarriageReturnEntryKept(name: string, prior: string, value: string)
    requires '<' !in name && '\n' !in name && '\r' !in name
    requires '<' !in prior && '\r' in prior
    ensures ApplyStrings(ReadText(StringOpen(name) + prior + StringClose), [(name, value)])
         == StringOpen(name) + ReadText(prior) + StringClose
  {
    var open := StringOpen(name);
    ReadTextPlain(open, prior + StringClose);
    ReadTextThenPlain(prior, StringClose);
    ConcatAssoc(open, prior, StringClose);
    ConcatAssoc(open, ReadText(prior), StringClose);
    ReadTextBreak(prior);
    ReadTextKeepsOut(prior, '<');
    MultiLineEntryKept(name, ReadText(prior), value);
  }

  // ---------------------------------------------------------------------------
  // Layout files: the textSize rewrite

  const Sp12 := "android:textSize=\"12sp\""
  const Sp14 := "android:textSize=\"14sp\""
  const Sp16 := "android:textSize=\"16sp\""
  const Sp18 := "android:textSize=\"18sp\""
  const Sp20 := "android:textSize=\"20sp\""

  /** `text_size == 'large'`: 14sp becomes 18sp, then 16sp becomes 20sp. */
  function Enlarge(s: string): string {
    ReplaceAll(ReplaceAll(s, Sp14, Sp18), Sp16, Sp20)
  }

  /** `text_size == 'small'`: 16sp becomes 12sp, then 18sp becomes 14sp. */
  function Shrink(s: string): string {
    ReplaceAll(ReplaceAll(s, Sp16, Sp12), Sp18, Sp14)
  }

  /** One layout file: only the `text_size` entry matters, and only "large" or "small". */
  function RewriteLayout(content: string, layouts: Dict): string {
    match Lookup(layouts, "text_size")
    case Some(size) =>
      if size == "large" then Enlarge(content)
      else if size == "small" then Shrink(content)
      else content
    case None => content
  }

  /** The five size attributes are pairwise apart and have no border: the leading `a`
      occurs nowhere else in them. */
  lemma SizesApart()
    ensures Apart(Sp18, Sp14) && Apart(Sp20, Sp14) && Apart(Sp20, Sp16) && Apart(Sp18, Sp20)
    ensures Apart(Sp12, Sp16) && Apart(Sp14, Sp16) && Apart(Sp14, Sp18) && Apart(Sp12, Sp14)
    ensures Unbordered(Sp12) && Unbordered(Sp14) && Unbordered(Sp18) && Unbordered(Sp20)
  {
    LeadOnlyAtFront(Sp12);
    LeadOnlyAtFront(Sp14);
    LeadOnlyAtFront(Sp16);
    LeadOnlyAtFront(Sp18);
    LeadOnlyAtFront(Sp20);
    ApartByLead(Sp18, Sp14);
    ApartByLead(Sp20, Sp14);
    ApartByLead(Sp20, Sp16);
    ApartByLead(Sp18, Sp20);
    ApartByLead(Sp12, Sp16);
    ApartByLead(Sp14, Sp16);
    ApartByLead(Sp14, Sp18);
    ApartByLead(Sp12, Sp14);
    UnborderedByLead(Sp12);
    UnborderedByLead(Sp14);
    UnborderedByLead(Sp18);
    UnborderedByLead(Sp20);
  }

  /** Every size attribute is `a` followed by text without an `a`. */
  lemma LeadOnlyAtFront(q: string)
    requires q in {Sp12, Sp14, Sp16, Sp18, Sp20}
    ensures |q| == |Sp14| && q[0] == 'a'
    ensures forall i :: 0 < i < |q| ==> q[i] != 'a'
  {
  }

  /** After enlarging no 14sp or 16sp attribute is left, and a file holding neither
      is unchanged. */
  lemma EnlargeMapping(s: string)
    ensures !Contains(Enlarge(s), Sp14) && !Contains(Enlarge(s), Sp16)
    ensures !Contains(s, Sp14) && !Contains(s, Sp16) ==> Enlarge(s) == s
  {
    SizesApart();
    var s1 := ReplaceAll(s, Sp14, Sp18);
    ReplaceNoNew(s, Sp14, Sp18, Sp14);
    ReplaceNoNew(s1, Sp16, Sp20, Sp14);
    ReplaceNoNew(s1, Sp16, Sp20, Sp16);
    if !Contains(s, Sp14) && !Contains(s, Sp16) {
      ReplaceAbsent(s, Sp14, Sp18);
      ReplaceAbsent(s, Sp16, Sp20);
    }
  }

  /** After shrinking no 16sp or 18sp attribute is left, and a file holding neither
      is unchanged. */
  lemma ShrinkMapping(s: string)
    ensures !Contains(Shrink(s), Sp16) && !Contains(Shrink(s), Sp18)
    ensures !Contains(s, Sp16) && !Contains(s, Sp18) ==> Shrink(s) == s
  {
    SizesApart();
    var s1 := ReplaceAll(s, Sp16, Sp12);
    ReplaceNoNew(s, Sp16, Sp12, Sp16);
    ReplaceNoNew(s1, Sp18, Sp14, Sp16);
    ReplaceNoNew(s1, Sp18, Sp14, Sp18);
    if !Contains(s, Sp16) && !Contains(s, Sp18) {
      ReplaceAbsent(s, Sp16, Sp12);
      ReplaceAbsent(s, Sp18, Sp14);
    }
  }

  /** Enlarging twice is enlarging once. */
  lemma EnlargeIdempotent(s: string)
    ensures Enlarge(Enlarge(s)) == Enlarge(s)
  {
    EnlargeMapping(s);
    EnlargeMapping(Enlarge(s));
  }

  /** Shrinking twice is shrinking once. */
  lemma ShrinkIdempotent(s: string)
    ensures Shrink(Shrink(s)) == Shrink(s)
  {
    ShrinkMapping(s);
    ShrinkMapping(Shrink(s));
  }

  /** Nothing but the size attributes changes: when the file holds no 18sp or 20sp
      attribute of its own, mapping 20sp back to 16sp and 18sp back to 14sp restores it. */
  lemma EnlargeUndone(s: string)
    requires !Contains(s, Sp18) && !Contains(s, Sp20)
    ensures ReplaceAll(ReplaceAll(Enlarge(s), Sp20, Sp16), Sp18, Sp14) == s
  {
    SizesApart();
    var s1 := ReplaceAll(s, Sp14, Sp18);
    ReplaceNoNew(s, Sp14, Sp18, Sp20);
    ReplaceRoundTrip(s1, Sp16, Sp20);
    ReplaceRoundTrip(s, Sp14, Sp18);
  }

  /** Likewise for shrinking: mapping 14sp back to 18sp and 12sp back to 16sp restores
      a file that held no 12sp or 14sp attribute of its own. */
  lemma ShrinkUndone(s: string)
    requires !Contains(s, Sp12) && !Contains(s, Sp14)
    ensures ReplaceAll(ReplaceAll(Shrink(s), Sp14, Sp18), Sp12, Sp16) == s
  {
    SizesApart();
    var s1 := ReplaceAll(s, Sp16, Sp12);
    ReplaceNoNew(s, Sp16, Sp12, Sp14);
    ReplaceRoundTrip(s1, Sp18, Sp14);
    ReplaceRoundTrip(s, Sp16, Sp12);
  }

  /** Rewriting a layout file twice with the same modifications is rewriting it once. */
  lemma RewriteLayoutIdempotent(content: string, layouts: Dict)
    ensures RewriteLayout(RewriteLayout(content, layouts), layouts) == RewriteLayout(content, layouts)
  {
    EnlargeIdempotent(content);
    ShrinkIdempotent(content);
  }

  // ---------------------------------------------------------------------------
  // Rewrites bring in no carriage return

  /** A hex colour holds neither a carriage return nor a line break. */
  lemma HexColorPlain(h: string)
    requires HexColor(h)
    ensures '\r' !in h && '\n' !in h
  {
    assert forall i :: 0 <= i < |h| ==> h[i] != '\r' && h[i] != '\n';
  }

  /** A layout rewrite puts in only the size attributes, none of which holds a carriage return. */
  lemma LayoutKeepsOut(content: string, layouts: Dict)
    requires '\r' !in content
    ensures '\r' !in RewriteLayout(content, layouts)
  {
    ReplaceKeepsOut(content, Sp14, Sp18, '\r');
    ReplaceKeepsOut(ReplaceAll(content, Sp14, Sp18), Sp16, Sp20, '\r');
    ReplaceKeepsOut(content, Sp16, Sp12, '\r');
    ReplaceKeepsOut(ReplaceAll(content, Sp16, Sp12), Sp18, Sp14, '\r');
  }

  /** The substitution copies the opening tags it finds and adds only the value and the
      closing tag. */
  lemma {:induction false} SubLazyKeepsOut(s: string, open: string, value: string, c: char)
    requires c !in s && c !in value && c !in StringClose
    ensures c !in SubLazy(s, open, value)
    decreases |s|
  {
    if |s| > 0 {
      if EntryAt(s, open) {
        assert forall x :: x in s[..|open|] ==> x in s;
        var a := AfterEntry(s, open);
        assert forall x :: x in a ==> x in s;
        SubLazyKeepsOut(a, open, value, c);
      } else {
        assert forall x :: x in s[1..] ==> x in s;
        SubLazyKeepsOut(s[1..], open, value, c);
      }
    }
  }

  /** The string loop brings in only characters of the values. */
  lemma {:induction false} ApplyStringsKeepsOut(content: string, strings: Dict, c: char)
    requires c !in content && c !in StringClose
    requires forall i :: 0 <= i < |strings| ==> c !in strings[i].1
    ensures c !in ApplyStrings(content, strings)
    decreases |strings|
  {
    if |strings| > 0 {
      var (name, value) := strings[0];
      if Contains(content, StringOpen(name)) {
        SubLazyKeepsOut(content, StringOpen(name), value, c);
      }
      ApplyStringsKeepsOut(ApplyString(content, name, value), strings[1..], c);
    }
  }

  /** The corrected colour rewrite copies the opening tags it finds and adds only the
      value and the closing tag. */
  lemma {:induction false} RewriteKeepsOut(s: string, open: string, value: string, c: char)
    requires c !in s && c !in value && c !in ColorClose
    ensures c !in RewriteDeclarations(s, open, value)
    decreases |s|
  {
    if |s| > 0 {
      if DeclarationAt(s, open) {
        assert forall x :: x in s[..|open|] ==> x in s;
        var a := s[|open| + 7 + |ColorClose|..];
        assert forall x :: x in a ==> x in s;
        RewriteKeepsOut(a, open, value, c);
      } else {
        assert forall x :: x in s[1..] ==> x in s;
        RewriteKeepsOut(s[1..], open, value, c);
      }
    }
  }

  /** The corrected colour loop brings in only characters of the values. */
  lemma {:induction false} ColorsIntendedKeepOut(content: string, colors: Dict, c: char)
    requires c !in content && c !in ColorClose
    requires forall i :: 0 <= i < |colors| ==> c !in colors[i].1
    ensures c !in ApplyColorsIntended(content, colors)
    decreases |colors|
  {
    if |colors| > 0 {
      var (name, value) := colors[0];
      if Contains(content, ColorOpen(name)) {
        RewriteKeepsOut(content, ColorOpen(name), value, c);
      }
      ColorsIntendedKeepOut(ApplyColorIntended(content, name, value), colors[1..], c);
    }
  }

  /** A colour table's values hold no carriage return. */
  lemma ColorTablePlain(colors: Dict)
    requires ColorTable(colors)
    ensures forall i :: 0 <= i < |colors| ==> '\r' !in colors[i].1
  {
    forall i | 0 <= i < |colors|
      ensures '\r' !in colors[i].1
    {
      assert colors[i] in colors;
      HexColorPlain(colors[i].1);
    }
  }

  // ---------------------------------------------------------------------------
  // The resource tree

  /** The three parts of the decoded tree the rewrite touches; `None` is a missing file
      or directory, and the layout directory maps file names to contents. */
  datatype ResourceTree = ResourceTree(
    colorsXml: Option<string>,
    stringsXml: Option<string>,
    layoutDir: Option<map<string, string>>)

  /** The layout loop: every `.xml` entry of the directory is read in text mode and
      rewritten; the other entries are not read. */
  function ApplyLayouts(dir: map<string, string>, layouts: Dict): (r: map<string, string>)
    ensures r.Keys == dir.Keys
    ensures forall name :: name in dir && !EndsWith(name, ".xml") ==> r[name] == dir[name]
    ensures forall name :: name in dir && EndsWith(name, ".xml") ==> r[name] == RewriteLayout(ReadText(dir[name]), layouts)
  {
    map name | name in dir :: if EndsWith(name, ".xml") then RewriteLayout(ReadText(dir[name]), layouts) else dir[name]
  }

  /** Only a `text_size` of "large" or "small" changes what a layout says: under any other
      modification, `dpad_size` among them, each `.xml` file only has its line endings
      normalised by the text-mode read, and a directory without carriage returns is
      left exactly as it was. */
  lemma LayoutsNeedTextSize(dir: map<string, string>, layouts: Dict)
    requires Lookup(layouts, "text_size") != Some("large") && Lookup(layouts, "text_size") != Some("small")
    ensures forall name :: name in dir ==>
      ApplyLayouts(dir, layouts)[name] == if EndsWith(name, ".xml") then ReadText(dir[name]) else dir[name]
    ensures (forall name :: name in dir ==> '\r' !in dir[name]) ==> ApplyLayouts(dir, layouts) == dir
  {
    var r := ApplyLayouts(dir, layouts);
    forall name | name in dir
      ensures r[name] == if EndsWith(name, ".xml") then ReadText(dir[name]) else dir[name]
    {
      assert RewriteLayout(ReadText(dir[name]), layouts) == ReadText(dir[name]);
    }
    if forall name :: name in dir ==> '\r' !in dir[name] {
      forall name | name in dir
        ensures r[name] == dir[name]
      {
        ReadTextFixed(dir[name]);
      }
    }
  }

  /** After the layout loop with `text_size` "large" no `.xml` layout holds a 14sp or 16sp
      size, and with "small" none holds a 16sp or 18sp size. */
  lemma LayoutSizesMapped(dir: map<string, string>, layouts: Dict)
    ensures var r := ApplyLayouts(dir, layouts);
      Lookup(layouts, "text_size") == Some("large") ==>
        forall name :: name in r && EndsWith(name, ".xml") ==> !Contains(r[name], Sp14) && !Contains(r[name], Sp16)
    ensures var r := ApplyLayouts(dir, layouts);
      Lookup(layouts, "text_size") == Some("small") ==>
        forall name :: name in r && EndsWith(name, ".xml") ==> !Contains(r[name], Sp16) && !Contains(r[name], Sp18)
  {
    var r := ApplyLayouts(dir, layouts);
    forall name | name in r && EndsWith(name, ".xml")
      ensures Lookup(layouts, "text_size") == Some("large") ==> !Contains(r[name], Sp14) && !Contains(r[name], Sp16)
      ensures Lookup(layouts, "text_size") == Some("small") ==> !Contains(r[name], Sp16) && !Contains(r[name], Sp18)
    {
      EnlargeMapping(ReadText(dir[name]));
      ShrinkMapping(ReadText(dir[name]));
    }
  }

  /** `apply_gui_modifications` as written: each non-empty part of the modifications
      reads its file in text mode and writes it back rewritten, when that file exists. */
  function ApplyGuiModifications(tree: ResourceTree, mods: Modifications): (r: ResourceTree)
    ensures r.colorsXml.Some? <==> tree.colorsXml.Some?
    ensures r.stringsXml.Some? <==> tree.stringsXml.Some?
    ensures r.layoutDir.Some? <==> tree.layoutDir.Some?
    ensures r.layoutDir.Some? ==> r.layoutDir.value.Keys == tree.layoutDir.value.Keys
  {
    ResourceTree(
      if mods.colors != [] && tree.colorsXml.Some? then Some(ApplyColors(ReadText(tree.colorsXml.value), mods.colors)) else tree.colorsXml,
      if mods.strings != [] && tree.stringsXml.Some? then Some(ApplyStrings(ReadText(tree.stringsXml.value), mods.strings)) else tree.stringsXml,
      if mods.layouts != [] && tree.layoutDir.Some? then Some(ApplyLayouts(tree.layoutDir.value, mods.layouts)) else tree.layoutDir)
  }

  /** The same with the intended colour rewrite. */
  function ApplyGuiModificationsIntended(tree: ResourceTree, mods: Modifications): (r: ResourceTree)
    ensures r.stringsXml == ApplyGuiModifications(tree, mods).stringsXml
    ensures r.layoutDir == ApplyGuiModifications(tree, mods).layoutDir
    ensures r.colorsXml.Some? <==> tree.colorsXml.Some?
  {
    ApplyGuiModifications(tree, mods).(colorsXml :=
      if mods.colors != [] && tree.colorsXml.Some? then Some(ApplyColorsIntended(ReadText(tree.colorsXml.value), mods.colors)) else tree.colorsXml)
  }

  /** Empty modifications leave the whole tree as it was. */
  lemma NothingToApply(tree: ResourceTree, description: string)
    ensures ApplyGuiModifications(tree, Modifications([], [], [], [], description)) == tree
  {
  }

  /** A missing file or directory stays missing, and the present ones are rewritten
      only by their own part of the modifications. */
  lemma MissingPartsSkipped(tree: ResourceTree, mods: Modifications)
    ensures var r := ApplyGuiModifications(tree, mods);
      && (tree.colorsXml.None? || mods.colors == [] ==> r.colorsXml == tree.colorsXml)
      && (tree.stringsXml.None? || mods.strings == [] ==> r.stringsXml == tree.stringsXml)
      && (tree.layoutDir.None? || mods.layouts == [] ==> r.layoutDir == tree.layoutDir)
  {
  }

  /** Applying the same modifications twice leaves the layout files as applying them once:
      the first pass leaves no carriage return for the second read to change. */
  lemma LayoutsIdempotent(tree: ResourceTree, mods: Modifications)
    ensures ApplyGuiModifications(ApplyGuiModifications(tree, mods), mods).layoutDir
         == ApplyGuiModifications(tree, mods).layoutDir
  {
    if mods.layouts != [] && tree.layoutDir.Some? {
      var dir := tree.layoutDir.value;
      var once := ApplyLayouts(dir, mods.layouts);
      var twice := ApplyLayouts(once, mods.layouts);
      forall name | name in dir
        ensures twice[name] == once[name]
      {
        if EndsWith(name, ".xml") {
          var x := ReadText(dir[name]);
          LayoutKeepsOut(x, mods.layouts);
          ReadTextFixed(once[name]);
          RewriteLayoutIdempotent(x, mods.layouts);
        }
      }
      assert twice == once;
    }
  }

  /** A strings part of at most one entry, applied twice, is applied once: the entry is
      already substituted, and the first pass leaves no carriage return for the second
      read to change. */
  lemma StringsTwiceOneEntry(tree: ResourceTree, mods: Modifications, name: string, value: string)
    requires mods.strings == [] || mods.strings == [(name, value)]
    requires '<' !in name && '\n' !in name && '<' !in value && '\n' !in value && '\r' !in value
    ensures ApplyGuiModifications(ApplyGuiModifications(tree, mods), mods).stringsXml
         == ApplyGuiModifications(tree, mods).stringsXml
  {
    if mods.strings != [] && tree.stringsXml.Some? {
      var c := ReadText(tree.stringsXml.value);
      var c1 := ApplyString(c, name, value);
      assert mods.strings[0] == (name, value) && mods.strings[1..] == [];
      assert ApplyStrings(c, mods.strings) == ApplyStrings(c1, []) == c1;
      ApplyStringsKeepsOut(c, mods.strings, '\r');
      ReadTextFixed(c1);
      assert ApplyStrings(c1, mods.strings) == ApplyStrings(ApplyString(c1, name, value), []);
      ApplyStringIdempotent(c, name, value);
    }
  }

  /** As written, the colour loop leaves a colours file without `[` (every real one) as
      the text-mode read gave it: unchanged, unless it held carriage returns, which
      become line breaks. */
  lemma ColorsFileUntouched(tree: ResourceTree, mods: Modifications)
    requires tree.colorsXml.Some? ==> '[' !in tree.colorsXml.value
    ensures var r := ApplyGuiModifications(tree, mods).colorsXml;
      && (tree.colorsXml.None? || mods.colors == [] ==> r == tree.colorsXml)
      && (tree.colorsXml.Some? && mods.colors != [] ==> r == Some(ReadText(tree.colorsXml.value)))
    ensures tree.colorsXml.Some? && '\r' !in tree.colorsXml.value ==>
      ApplyGuiModifications(tree, mods).colorsXml == tree.colorsXml
  {
    if mods.colors != [] && tree.colorsXml.Some? {
      var c := tree.colorsXml.value;
      ReadTextKeepsOut(c, '[');
      ColorsNeverChangeRealFiles(ReadText(c), mods.colors);
      if '\r' !in c {
        ReadTextFixed(c);
      }
    }
  }

  /** Modifications with at most one string entry, applied twice, are applied once, for
      a colours file without `[` (every real one): the colours file is only re-read, the
      entry is already substituted, and the layout sizes are already mapped. */
  lemma ApplyTwiceOneString(tree: ResourceTree, mods: Modifications, name: string, value: string)
    requires tree.colorsXml.Some? ==> '[' !in tree.colorsXml.value
    requires mods.strings == [] || mods.strings == [(name, value)]
    requires '<' !in name && '\n' !in name && '<' !in value && '\n' !in value && '\r' !in value
    ensures ApplyGuiModifications(ApplyGuiModifications(tree, mods), mods) == ApplyGuiModifications(tree, mods)
  {
    var once := ApplyGuiModifications(tree, mods);
    ColorsFileUntouched(tree, mods);
    if tree.colorsXml.Some? {
      ReadTextKeepsOut(tree.colorsXml.value, '[');
    }
    ColorsFileUntouched(once, mods);
    LayoutsIdempotent(tree, mods);
    StringsTwiceOneEntry(tree, mods, name, value);
  }

  /** The intended colour loop, applied to its own output after the text-mode read, with
      a colour table, changes nothing. */
  lemma ColorsTwiceIntended(tree: ResourceTree, mods: Modifications)
    requires ColorTable(mods.colors)
    ensures ApplyGuiModificationsIntended(ApplyGuiModificationsIntended(tree, mods), mods).colorsXml
         == ApplyGuiModificationsIntended(tree, mods).colorsXml
  {
    if mods.colors != [] && tree.colorsXml.Some? {
      var c := ReadText(tree.colorsXml.value);
      var c1 := ApplyColorsIntended(c, mods.colors);
      ColorTablePlain(mods.colors);
      ColorsIntendedKeepOut(c, mods.colors, '\r');
      ReadTextFixed(c1);
      ApplyColorsIntendedIdempotent(c, mods.colors);
    }
  }

  /** The intended pipeline, with a colour table and at most one string entry, applied
      twice is applied once, whatever the colours file holds: every declaration of
      every listed name already holds its value. */
  lemma ApplyTwiceOneStringIntended(tree: ResourceTree, mods: Modifications, name: string, value: string)
    requires ColorTable(mods.colors)
    requires mods.strings == [] || mods.strings == [(name, value)]
    requires '<' !in name && '\n' !in name && '<' !in value && '\n' !in value && '\r' !in value
    ensures ApplyGuiModificationsIntended(ApplyGuiModificationsIntended(tree, mods), mods)
         == ApplyGuiModificationsIntended(tree, mods)
  {
    var once := ApplyGuiModificationsIntended(tree, mods);
    var plain := ApplyGuiModifications(tree, mods);
    StringsTwiceOneEntry(tree, mods, name, value);
    LayoutsIdempotent(tree, mods);
    assert ApplyGuiModifications(once, mods).stringsXml == ApplyGuiModifications(plain, mods).stringsXml;
    assert ApplyGuiModifications(once, mods).layoutDir == ApplyGuiModifications(plain, mods).layoutDir;
    ColorsTwiceIntended(tree, mods);
  }

  /** Applying what the compiler produced a second time changes nothing more. */
  lemma ApplyTwiceIsApplyOnce(tree: ResourceTree, description: string, scheme: string, imagePaths: seq<string>)
    requires tree.colorsXml.Some? ==> '[' !in tree.colorsXml.value
    ensures var mods := GenerateGuiModifications(description, scheme, imagePaths);
      ApplyGuiModifications(ApplyGuiModifications(tree, mods), mods) == ApplyGuiModifications(tree, mods)
  {
    StatusStrings(description, scheme, imagePaths);
    StatusEntryPlain();
    ApplyTwiceOneString(tree, GenerateGuiModifications(description, scheme, imagePaths), "connection_status", "Connected");
  }

  /** The status entry's name holds no `<`, no line break and no carriage return. */
  lemma StatusNamePlain()
    ensures '<' !in "connection_status" && '\n' !in "connection_status" && '\r' !in "connection_status"
  {
  }

  /** Neither status value holds a `<`, a line break or a carriage return. */
  lemma StatusValuesPlain()
    ensures '<' !in "Connected" && '\n' !in "Connected" && '\r' !in "Connected"
    ensures '<' !in "Disconnected" && '\n' !in "Disconnected" && '\r' !in "Disconnected"
  {
  }

  /** The status entry's name and both of its values hold no `<`, no line break and no
      carriage return. */
  lemma StatusEntryPlain()
    ensures '<' !in "connection_status" && '\n' !in "connection_status" && '\r' !in "connection_status"
    ensures '<' !in "Connected" && '\n' !in "Connected" && '\r' !in "Connected"
    ensures '<' !in "Disconnected" && '\n' !in "Disconnected" && '\r' !in "Disconnected"
  {
    StatusNamePlain();
    StatusValuesPlain();
  }

  /** Applying what the intended compiler produced a second time, through the intended
      pipeline, changes nothing more. */
  lemma ApplyTwiceIsApplyOnceIntended(tree: ResourceTree, description: string, scheme: string, imagePaths: seq<string>)
    ensures var mods := GenerateGuiModificationsIntended(description, scheme, imagePaths);
      ApplyGuiModificationsIntended(ApplyGuiModificationsIntended(tree, mods), mods)
      == ApplyGuiModificationsIntended(tree, mods)
  {
    var t := Lower(description);
    IntendedStatusStrings(description, scheme, imagePaths);
    IntendedColorTable(description, scheme, imagePaths);
    var v := if StatusFires(t) && Contains(t, "disconnected") then "Disconnected" else "Connected";
    StatusEntryPlain();
    ApplyTwiceOneStringIntended(tree, GenerateGuiModificationsIntended(description, scheme, imagePaths), "connection_status", v);
  }
}
