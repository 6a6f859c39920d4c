/**
  Saving the Gemini API key: the submitted key is stripped, a blank key is
  refused, and otherwise the `.env` file gets a `GEMINI_API_KEY=` line — every
  existing such line is replaced, or one is appended when there was none — and
  the process environment takes the new key.
 */
module EnvKey {
  import opened Wrappers
  import opened Text

  const KeyPrefix := "GEMINI_API_KEY="

  /** The line that records `key`. */
  function KeyLine(key: string): string {
    KeyPrefix + key
  }

  /** Some line assigns the key. */
  predicate HasKeyLine(lines: seq<string>) {
    exists i :: 0 <= i < |lines| && StartsWith(lines[i], KeyPrefix)
  }

  /** The line loop, one line at a time: `updated` holds the lines built so far and
      `found` says whether one of them assigned the key. The result is the finished
      list, one line longer than `updated` for each line seen, and the final flag;
      `UpsertLoopLines` and `UpsertLoopFlag` state what they hold. */
  function UpsertLoop(lines: seq<string>, key: string, updated: seq<string>, found: bool): (r: (seq<string>, bool))
    ensures |r.0| == |updated| + |lines|
    decreases |lines|
  {
    if |lines| == 0 then (updated, found)
    else if StartsWith(lines[0], KeyPrefix) then UpsertLoop(lines[1..], key, updated + [KeyLine(key)], true)
    else UpsertLoop(lines[1..], key, updated + [lines[0]], found)
  }

  /** The loop keeps the lines already built, turns each line starting with the prefix
      into the new key line and keeps the others. */
  lemma {:induction false} UpsertLoopLines(lines: seq<string>, key: string, updated: seq<string>, found: bool)
    ensures var r := UpsertLoop(lines, key, updated, found).0;
      && (forall i :: 0 <= i < |updated| ==> r[i] == updated[i])
      && (forall i :: 0 <= i < |lines| ==>
            r[|updated| + i] == if StartsWith(lines[i], KeyPrefix) then KeyLine(key) else lines[i])
    decreases |lines|
  {
    if |lines| > 0 {
      var hit := StartsWith(lines[0], KeyPrefix);
      var next := updated + [if hit then KeyLine(key) else lines[0]];
      var r := UpsertLoop(lines, key, updated, found).0;
      assert r == UpsertLoop(lines[1..], key, next, found || hit).0;
      UpsertLoopLines(lines[1..], key, next, found || hit);
      forall i | 0 <= i < |lines|
        ensures r[|updated| + i] == if StartsWith(lines[i], KeyPrefix) then KeyLine(key) else lines[i]
      {
        if i == 0 {
          assert r[|updated|] == next[|updated|];
        } else {
          assert lines[1..][i - 1] == lines[i];
          assert r[|next| + (i - 1)] == r[|updated| + i];
        }
      }
    }
  }

  /** The loop's flag ends up set exactly when it started set or some line assigns
      the key. */
  lemma {:induction false} UpsertLoopFlag(lines: seq<string>, key: string, updated: seq<string>, found: bool)
    ensures UpsertLoop(lines, key, updated, found).1 == (found || HasKeyLine(lines))
    decreases |lines|
  {
    if |lines| > 0 {
      var hit := StartsWith(lines[0], KeyPrefix);
      UpsertLoopFlag(lines[1..], key, updated + [if hit then KeyLine(key) else lines[0]], found || hit);
      if HasKeyLine(lines[1..]) {
        var j :| 0 <= j < |lines[1..]| && StartsWith(lines[1..][j], KeyPrefix);
        assert lines[1..][j] == lines[j + 1];
      }
      if HasKeyLine(lines) && !hit {
        var j :| 0 <= j < |lines| && StartsWith(lines[j], KeyPrefix);
        assert lines[1..][j - 1] == lines[j];
      }
    }
  }

  /** The whole loop: run over the lines from nothing, then the key line is appended
      only when no line matched. */
  function UpsertLines(lines: seq<string>, key: string): (r: seq<string>)
    ensures |r| == if HasKeyLine(lines) then |lines| else |lines| + 1
    ensures forall i :: 0 <= i < |lines| ==>
      r[i] == if StartsWith(lines[i], KeyPrefix) then KeyLine(key) else lines[i]
    ensures !HasKeyLine(lines) ==> r[|lines|] == KeyLine(key)
  {
    UpsertLoopFlag(lines, key, [], false);
    UpsertLoopLines(lines, key, [], false);
    var done := UpsertLoop(lines, key, [], false);
    if done.1 then done.0 else done.0 + [KeyLine(key)]
  }

  /** The new `.env` text: just the key line when there was no file, otherwise the
      file's lines (split on `\n`) upserted and joined back. */
  function UpsertEnv(existing: Option<string>, key: string): string {
    match existing
    case None => KeyLine(key) + "\n"
    case Some(content) => Join(UpsertLines(Split(content, '\n'), key), '\n')
  }

  /** The `.env` file as the handler sees it: absent, or its content read in text mode. */
  function ReadEnv(onDisk: Option<string>): (r: Option<string>)
    ensures r.Some? <==> onDisk.Some?
    ensures r.Some? ==> '\r' !in r.value
  {
    match onDisk
    case None => None
    case Some(disk) => Some(ReadText(disk))
  }

  /** What `save_gemini_key` leaves behind on success: the `.env` text and the value of
      `GEMINI_API_KEY` in the process environment. */
  datatype Saved = Saved(envFile: string, environment: string)

  const BlankKeyMessage := "Please enter a valid API key"

  /** `save_gemini_key`: the stripped key, refused when blank. `onDisk` is the `.env`
      file as stored, if it exists. */
  function SaveGeminiKey(raw: string, onDisk: Option<string>): (r: Result<Saved, string>)
    ensures r.Failure? <==> forall i :: 0 <= i < |raw| ==> IsSpace(raw[i])
    ensures r.Failure? ==> r.error == BlankKeyMessage
    ensures r.Success? ==> r.value.environment == Strip(raw) && Strip(raw) != ""
  {
    var key := Strip(raw);
    StripBlank(raw);
    if key == "" then Failure(BlankKeyMessage)
    else Success(Saved(UpsertEnv(ReadEnv(onDisk), key), key))
  }

  // ---------------------------------------------------------------------------
  // Properties

  /** After an upsert every key line carries the new key and there is at least one. */
  lemma UpsertLinesRecordsKey(lines: seq<string>, key: string)
    ensures var r := UpsertLines(lines, key);
      && HasKeyLine(r)
      && forall i :: 0 <= i < |r| && StartsWith(r[i], KeyPrefix) ==> r[i] == KeyLine(key)
  {
    var r := UpsertLines(lines, key);
    PrefixOfKeyLine(key);
    if HasKeyLine(lines) {
      var i :| 0 <= i < |lines| && StartsWith(lines[i], KeyPrefix);
      assert r[i] == KeyLine(key);
    } else {
      assert r[|lines|] == KeyLine(key);
    }
    forall i | 0 <= i < |r| && StartsWith(r[i], KeyPrefix)
      ensures r[i] == KeyLine(key)
    {
      if i < |lines| {
        assert StartsWith(lines[i], KeyPrefix);
      }
    }
  }

  lemma PrefixOfKeyLine(key: string)
    ensures StartsWith(KeyLine(key), KeyPrefix)
  {
    assert KeyLine(key)[..|KeyPrefix|] == KeyPrefix;
  }

  /** Lines that already assign the key, and only to `key`, are left as they are. */
  lemma UpsertKeepsRecorded(lines: seq<string>, key: string)
    requires HasKeyLine(lines)
    requires forall i :: 0 <= i < |lines| && StartsWith(lines[i], KeyPrefix) ==> lines[i] == KeyLine(key)
    ensures UpsertLines(lines, key) == lines
  {
    var r := UpsertLines(lines, key);
    assert |r| == |lines|;
    forall i | 0 <= i < |lines|
      ensures r[i] == lines[i]
    {
      assert r[i] == if StartsWith(lines[i], KeyPrefix) then KeyLine(key) else lines[i];
    }
  }

  /** Upserting the same key again changes nothing. */
  lemma UpsertLinesIdempotent(lines: seq<string>, key: string)
    ensures UpsertLines(UpsertLines(lines, key), key) == UpsertLines(lines, key)
  {
    UpsertLinesRecordsKey(lines, key);
    UpsertKeepsRecorded(UpsertLines(lines, key), key);
  }

  /** The key line is appended exactly when no line already assigned the key, and the
      other lines are kept in place. */
  lemma UpsertAppendsOnlyWhenMissing(lines: seq<string>, key: string)
    ensures var r := UpsertLines(lines, key);
      && (|r| == |lines| + 1 <==> !HasKeyLine(lines))
      && forall i :: 0 <= i < |lines| && !StartsWith(lines[i], KeyPrefix) ==> r[i] == lines[i]
  {
    var r := UpsertLines(lines, key);
    assert |lines| <= |r|;
  }

  /** With a key free of line breaks, the saved file read back line by line is exactly
      the upserted lines. */
  lemma SavedLinesReadBack(existing: Option<string>, key: string)
    requires '\n' !in key
    ensures Split(UpsertEnv(existing, key), '\n')
         == (match existing
             case None => [KeyLine(key), ""]
             case Some(content) => UpsertLines(Split(content, '\n'), key))
  {
    assert '\n' !in KeyLine(key) by {
      assert forall i :: 0 <= i < |KeyLine(key)| ==> KeyLine(key)[i] != '\n';
    }
    match existing
    case None =>
      assert KeyLine(key) + "\n" == KeyLine(key) + ['\n'] + "";
      SplitConcat(KeyLine(key), '\n', "");
      SplitFree("", '\n');
    case Some(content) =>
      var lines := UpsertLines(Split(content, '\n'), key);
      assert forall i :: 0 <= i < |lines| ==> '\n' !in lines[i];
      SplitJoin(lines, '\n');
  }

  /** Upserting the written text again, read back unchanged, gives the same text,
      provided the key holds no line break. */
  lemma UpsertEnvTwice(existing: Option<string>, key: string)
    requires '\n' !in key
    ensures UpsertEnv(Some(UpsertEnv(existing, key)), key) == UpsertEnv(existing, key)
  {
    SavedLinesReadBack(existing, key);
    var once := UpsertEnv(existing, key);
    var lines := Split(once, '\n');
    UpsertLinesIdempotent(match existing
                          case None => [KeyLine(key), ""]
                          case Some(content) => Split(content, '\n'), key);
    match existing
    case None =>
      PrefixOfKeyLine(key);
      assert UpsertLines(lines, key) == lines;
      JoinSplit(once, '\n');
    case Some(content) =>
      JoinSplit(once, '\n');
  }

  /** The text written holds a carriage return only if the key does. */
  lemma UpsertEnvNoCarriageReturn(existing: Option<string>, key: string)
    requires existing.Some? ==> '\r' !in existing.value
    requires '\r' !in key
    ensures '\r' !in UpsertEnv(existing, key)
  {
    assert '\r' !in KeyLine(key) by {
      assert forall i :: 0 <= i < |KeyLine(key)| ==> KeyLine(key)[i] != '\r';
    }
    match existing
    case None =>
      assert forall i :: 0 <= i < |KeyLine(key) + "\n"| ==> (KeyLine(key) + "\n")[i] != '\r';
    case Some(content) =>
      SplitKeepsOut(content, '\n', '\r');
      JoinKeepsOut(UpsertLines(Split(content, '\n'), key), '\n', '\r');
  }

  /** Saving the same key twice leaves the same file as saving it once: the second save
      reads the first one's file in text mode. This needs a key without line breaks
      and without carriage returns. */
  lemma UpsertEnvIdempotent(onDisk: Option<string>, key: string)
    requires '\n' !in key && '\r' !in key
    ensures var once := UpsertEnv(ReadEnv(onDisk), key);
      UpsertEnv(ReadEnv(Some(once)), key) == once
  {
    var once := UpsertEnv(ReadEnv(onDisk), key);
    UpsertEnvNoCarriageReturn(ReadEnv(onDisk), key);
    ReadTextPlain(once, "");
    assert once + "" == once;
    UpsertEnvTwice(ReadEnv(onDisk), key);
  }

  /** Read back as a key line, a second line and an empty last line, the saved file
      grows when saved again: the key line is rewritten and the second line stays. */
  lemma ThreeLinesGrow(head: string, b: string, key: string)
    requires StartsWith(head, KeyPrefix)
    ensures |Join(UpsertLines([head, b, ""], key), '\n')| >= |KeyLine(key)| + 2
  {
    var lines := [head, b, ""];
    assert StartsWith(lines[0], KeyPrefix);
    assert HasKeyLine(lines);
    var up := UpsertLines(lines, key);
    assert |up| == 3 && up[0] == KeyLine(key);
    assert up[1..][1..] == up[2..] && |up[2..]| == 1;
    assert Join(up[1..], '\n') == up[1] + ['\n'] + up[2];
    assert Join(up, '\n') == up[0] + ['\n'] + (up[1] + ['\n'] + up[2]);
  }

  /** Read in text mode, a carriage return between two plain texts becomes a line break. */
  lemma CarriageReturnRead(head: string, b: string)
    requires '\r' !in head && '\r' !in b && '\n' !in b && b != ""
    ensures ReadText(head + ("\r" + (b + "\n"))) == head + ['\n'] + (b + ['\n'] + "")
  {
    var x := "\r" + (b + "\n");
    ReadTextPlain(head, x);
    assert x[1] == b[0] && x[1..] == b + "\n";
    assert ReadText(x) == "\n" + ReadText(b + "\n");
    ReadTextPlain(b, "\n");
    assert ReadText("\n") == "\n" + ReadText("");
    ConcatAssoc(head, ['\n'], b + ['\n'] + "");
  }

  /** A key holding a carriage return is not idempotent: text-mode reading turns it into
      a line break, so the second save leaves an extra line behind (for "a\rb":
      "GEMINI_API_KEY=a\rb\nb\n" instead of "GEMINI_API_KEY=a\rb\n"). */
  lemma CarriageReturnKeyNotIdempotent(a: string, b: string)
    requires '\n' !in a && '\r' !in a && '\n' !in b && '\r' !in b && b != ""
    ensures var key := a + "\r" + b;
      var once := UpsertEnv(None, key);
      UpsertEnv(ReadEnv(Some(once)), key) != once
  {
    var key := a + "\r" + b;
    var once := UpsertEnv(None, key);
    var head := KeyPrefix + a;
    assert '\r' !in head && '\n' !in head by {
      assert forall i :: 0 <= i < |head| ==> head[i] != '\r' && head[i] != '\n';
    }
    assert once == head + ("\r" + (b + "\n"));
    CarriageReturnRead(head, b);
    var read := ReadText(once);
    SplitConcat(head, '\n', b + ['\n'] + "");
    SplitConcat(b, '\n', "");
    SplitFree("", '\n');
    var lines := Split(read, '\n');
    assert lines == [head, b, ""];
    assert head[..|KeyPrefix|] == KeyPrefix;
    ThreeLinesGrow(head, b, key);
  }

  /** A key with an embedded line break is not idempotent: saving `a\nb` twice leaves an
      extra line behind (for "a\nb": "GEMINI_API_KEY=a\nb\nb\n" instead of
      "GEMINI_API_KEY=a\nb\n"). */
  lemma LineBreakKeyNotIdempotent(a: string, b: string)
    requires '\n' !in a && '\n' !in b && '\r' !in a && '\r' !in b
    ensures var key := a + "\n" + b;
      var once := UpsertEnv(None, key);
      UpsertEnv(ReadEnv(Some(once)), key) != once
  {
    var key := a + "\n" + b;
    var once := UpsertEnv(None, key);
    UpsertEnvNoCarriageReturn(None, key);
    ReadTextPlain(once, "");
    assert once + "" == once;
    assert '\n' !in KeyPrefix + a by {
      assert forall i :: 0 <= i < |KeyPrefix + a| ==> (KeyPrefix + a)[i] != '\n';
    }
    assert once == (KeyPrefix + a) + ['\n'] + (b + ['\n'] + "");
    SplitConcat(KeyPrefix + a, '\n', b + ['\n'] + "");
    SplitConcat(b, '\n', "");
    SplitFree("", '\n');
    var lines := Split(once, '\n');
    assert lines == [KeyPrefix + a, b, ""];
    assert (KeyPrefix + a)[..|KeyPrefix|] == KeyPrefix;
    ThreeLinesGrow(KeyPrefix + a, b, key);
  }
}
