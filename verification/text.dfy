/**
  The handful of Python `str` operations the application relies on, written
  over `seq<char>`: `startswith`/`endswith`, the `in` substring test, `lower`,
  `strip`, `replace`, `split` and `join`.
 */
module Text {
  import opened Wrappers

  /** Python's `s.startswith(p)`. */
  predicate StartsWith(s: string, p: string) {
    |p| <= |s| && s[..|p|] == p
  }

  /** Python's `s.endswith(p)`. */
  predicate EndsWith(s: string, p: string) {
    |p| <= |s| && s[|s| - |p|..] == p
  }

  /** Python's `p in s`: `p` occurs somewhere in `s`. */
  predicate Contains(s: string, p: string)
    decreases |s|
  {
    StartsWith(s, p) || (|s| > 0 && Contains(s[1..], p))
  }

  /** Two strings agree on their common length: one is a prefix of the other. */
  ghost predicate Compatible(a: string, b: string) {
    forall k :: 0 <= k < |a| && k < |b| ==> a[k] == b[k]
  }

  /**
    No occurrence of `r` can overlap an occurrence of `q` without being equal to
    it at every shared position, whatever the relative offset. This is what keeps
    `replace(p, q)` from manufacturing a fresh `r`.
   */
  ghost predicate Apart(q: string, r: string) {
    && (forall i :: 0 <= i < |q| ==> !Compatible(q[i..], r))
    && (forall j :: 0 < j < |r| ==> !Compatible(r[j..], q))
  }

  /** `q` has no proper border: no shifted copy of `q` agrees with `q`. */
  ghost predicate Unbordered(q: string) {
    forall j :: 0 < j < |q| ==> !Compatible(q[j..], q)
  }

  // ---------------------------------------------------------------------------
  // Substring facts

  lemma {:induction false} ContainsAt(s: string, p: string, i: nat)
    requires i + |p| <= |s| && s[i..i + |p|] == p
    ensures Contains(s, p)
    decreases i
  {
    if i == 0 {
      assert s[..|p|] == p;
    } else {
      assert s[1..][i - 1..i - 1 + |p|] == s[i..i + |p|];
      ContainsAt(s[1..], p, i - 1);
    }
  }

  /** A text written as `a + p + b` contains `p`. */
  lemma ContainsMiddle(a: string, p: string, b: string)
    ensures Contains(a + p + b, p)
  {
    var s := a + p + b;
    assert s[|a|..|a| + |p|] == p;
    ContainsAt(s, p, |a|);
  }

  /** `a` is a prefix of `a + b`. */
  lemma PrefixOfConcat(a: string, b: string)
    ensures StartsWith(a + b, a)
  {
    assert (a + b)[..|a|] == a;
  }

  /** The first `q` characters are the first one followed by the next `q - 1`, whatever
      follows them. */
  lemma SplitAfterHead(t: string, q: nat, u: string)
    requires 0 < q <= |t|
    ensures [t[0]] + (t[1..][..q - 1] + u) == t[..q] + u && t[1..][q - 1..] == t[q..]
  {
    assert [t[0]] + t[1..][..q - 1] == t[..q];
  }

  /** Concatenation is associative. */
  lemma ConcatAssoc(a: string, b: string, c: string)
    ensures a + (b + c) == a + b + c
  {
  }

  /** Strings that agree on a prefix agree on every stretch inside it. */
  lemma SharedStretch(x: string, y: string, a: nat, b: nat)
    requires a <= b <= |x| && b <= |y| && x[..b] == y[..b]
    ensures x[a..][..b - a] == y[a..][..b - a]
  {
    assert x[a..][..b - a] == x[..b][a..];
    assert y[a..][..b - a] == y[..b][a..];
  }

  /** An occurrence in a suffix is an occurrence in the whole. */
  lemma {:induction false} ContainsInSuffix(s: string, p: string, k: nat)
    requires k <= |s| && Contains(s[k..], p)
    ensures Contains(s, p)
    decreases k
  {
    if k > 0 {
      assert s[1..][k - 1..] == s[k..];
      ContainsInSuffix(s[1..], p, k - 1);
    }
  }

  /** Containing `a + b` implies containing its tail `b`. */
  lemma {:induction false} ContainsTail(s: string, a: string, b: string)
    requires Contains(s, a + b)
    ensures Contains(s, b)
    decreases |s|
  {
    if StartsWith(s, a + b) {
      assert s[|a|..|a| + |b|] == (a + b)[|a|..];
      ContainsAt(s, b, |a|);
    } else {
      ContainsTail(s[1..], a, b);
    }
  }

  /** Containing `a + b` implies containing its head `a`. */
  lemma {:induction false} ContainsHead(s: string, a: string, b: string)
    requires Contains(s, a + b)
    ensures Contains(s, a)
    decreases |s|
  {
    if StartsWith(s, a + b) {
      assert s[..|a|] == (a + b)[..|a|];
    } else {
      ContainsHead(s[1..], a, b);
    }
  }

  /** Every character of an occurring pattern is a character of the text. */
  lemma {:induction false} ContainsChars(s: string, p: string)
    requires Contains(s, p)
    ensures forall i :: 0 <= i < |p| ==> p[i] in s
    decreases |s|
  {
    if StartsWith(s, p) {
      forall i | 0 <= i < |p|
        ensures p[i] in s
      {
        assert s[i] == p[i];
      }
    } else {
      ContainsChars(s[1..], p);
      forall i | 0 <= i < |p|
        ensures p[i] in s
      {
        var k :| 0 <= k < |s[1..]| && s[1..][k] == p[i];
        assert s[k + 1] == p[i];
      }
    }
  }

  /** An occurrence in `q + rest` lies in `rest` unless it overlaps `q`. */
  lemma {:induction false} NoStraddle(q: string, rest: string, r: string)
    requires forall i :: 0 <= i < |q| ==> !Compatible(q[i..], r)
    requires !Contains(rest, r)
    ensures !Contains(q + rest, r)
    decreases |q|
  {
    if |q| == 0 {
      assert q + rest == rest;
    } else {
      var s := q + rest;
      assert q[0..] == q;
      assert s[1..] == q[1..] + rest;
      forall i | 0 <= i < |q[1..]|
        ensures !Compatible(q[1..][i..], r)
      {
        assert q[1..][i..] == q[i + 1..];
      }
      NoStraddle(q[1..], rest, r);
    }
  }

  // ---------------------------------------------------------------------------
  // Lower-casing

  predicate IsUpper(c: char) {
    'A' <= c <= 'Z'
  }

  /** Python's `str.lower` on one character, restricted to the ASCII letters. */
  function LowerChar(c: char): (r: char)
    ensures !IsUpper(r)
    ensures !IsUpper(c) ==> r == c
  {
    if IsUpper(c) then (c as int + 32) as char else c
  }

  /** Python's `str.lower`, restricted to the ASCII letters. */
  function Lower(s: string): (r: string)
    ensures |r| == |s|
    ensures forall i :: 0 <= i < |s| ==> r[i] == LowerChar(s[i])
  {
    seq(|s|, i requires 0 <= i < |s| => LowerChar(s[i]))
  }

  /** A word with no upper-case letter. */
  predicate NoUpper(w: string) {
    forall i :: 0 <= i < |w| ==> !IsUpper(w[i])
  }

  /** A lower-case keyword found in a text is still found after lower-casing it. */
  lemma {:induction false} LowerKeepsKeyword(s: string, w: string)
    requires NoUpper(w)
    requires Contains(s, w)
    ensures Contains(Lower(s), w)
    decreases |s|
  {
    if StartsWith(s, w) {
      assert Lower(s)[..|w|] == w;
    } else {
      LowerKeepsKeyword(s[1..], w);
      assert Lower(s)[1..] == Lower(s[1..]);
    }
  }

  // ---------------------------------------------------------------------------
  // Stripping white space

  /** Python's `str.isspace` on one character. */
  predicate IsSpace(c: char) {
    || c == ' ' || c == '\t' || c == '\n' || c == '\r' || c == '\U{0B}' || c == '\U{0C}'
    || ('\U{1C}' <= c <= '\U{1F}') || c == '\U{85}' || c == '\U{A0}' || c == '\U{1680}'
    || ('\U{2000}' <= c <= '\U{200A}') || c == '\U{2028}' || c == '\U{2029}'
    || c == '\U{202F}' || c == '\U{205F}' || c == '\U{3000}'
  }

  /** Python's `s.lstrip()`: the suffix left after dropping leading white space. */
  function TrimStart(s: string): (r: string)
    ensures |r| <= |s| && r == s[|s| - |r|..]
    ensures forall i :: 0 <= i < |s| - |r| ==> IsSpace(s[i])
    ensures |r| > 0 ==> !IsSpace(r[0])
    decreases |s|
  {
    if |s| > 0 && IsSpace(s[0]) then TrimStart(s[1..]) else s
  }

  /** Python's `s.rstrip()`: the prefix left after dropping trailing white space. */
  function TrimEnd(s: string): (r: string)
    ensures |r| <= |s| && r == s[..|r|]
    ensures forall i :: |r| <= i < |s| ==> IsSpace(s[i])
    ensures |r| > 0 ==> !IsSpace(r[|r| - 1])
    decreases |s|
  {
    if |s| > 0 && IsSpace(s[|s| - 1]) then TrimEnd(s[..|s| - 1]) else s
  }

  /** Python's `s.strip()`. */
  function Strip(s: string): string {
    TrimEnd(TrimStart(s))
  }

  /** A text is blank after `strip` exactly when every character is white space. */
  lemma StripBlank(s: string)
    ensures Strip(s) == "" <==> forall i :: 0 <= i < |s| ==> IsSpace(s[i])
  {
    var t := TrimStart(s);
  }

  // ---------------------------------------------------------------------------
  // Literal replacement

  /** Python's `s.replace(p, q)`: every occurrence of `p`, scanned left to right
      without overlap, becomes `q`. */
  function ReplaceAll(s: string, p: string, q: string): string
    requires |p| > 0
    decreases |s|
  {
    if |s| == 0 then ""
    else if StartsWith(s, p) then q + ReplaceAll(s[|p|..], p, q)
    else [s[0]] + ReplaceAll(s[1..], p, q)
  }

  /** Replacing a pattern that does not occur changes nothing. */
  lemma {:induction false} ReplaceAbsent(s: string, p: string, q: string)
    requires |p| > 0
    requires !Contains(s, p)
    ensures ReplaceAll(s, p, q) == s
    decreases |s|
  {
    if |s| > 0 {
      ReplaceAbsent(s[1..], p, q);
      assert [s[0]] + s[1..] == s;
    }
  }

  /** If the rewritten text starts with `u`, and `q` cannot start anywhere inside `u`,
      then the original text already started with `u`. */
  lemma {:induction false} ReplacedPrefix(t: string, p: string, q: string, u: string)
    requires |p| > 0
    requires StartsWith(ReplaceAll(t, p, q), u)
    requires forall j :: 0 <= j < |u| ==> !Compatible(u[j..], q)
    ensures StartsWith(t, u)
    decreases |t|
  {
    var out := ReplaceAll(t, p, q);
    if |u| > 0 {
      assert !Compatible(u, q) by {
        assert u[0..] == u;
      }
    }
    if |u| == 0 || |t| == 0 {
    } else if StartsWith(t, p) {
      assert false;
    } else {
      var rest := ReplaceAll(t[1..], p, q);
      assert out == [t[0]] + rest;
      assert u[0] == out[0] == t[0];
      assert rest[..|u| - 1] == out[1..|u|] == u[1..];
      forall j | 0 <= j < |u[1..]|
        ensures !Compatible(u[1..][j..], q)
      {
        assert u[1..][j..] == u[j + 1..];
      }
      ReplacedPrefix(t[1..], p, q, u[1..]);
      assert t[..|u|] == [t[0]] + t[1..][..|u| - 1];
    }
  }

  /** `replace(p, q)` creates no occurrence of a pattern `r` that is apart from `q`:
      if `r` was absent it stays absent, and `p` itself never survives. */
  lemma {:induction false} ReplaceNoNew(s: string, p: string, q: string, r: string)
    requires |p| > 0 && |r| > 0
    requires Apart(q, r)
    requires !Contains(s, r) || r == p
    ensures !Contains(ReplaceAll(s, p, q), r)
    decreases |s|
  {
    if |s| == 0 {
    } else if StartsWith(s, p) {
      if Contains(s[|p|..], r) && r != p {
        ContainsInSuffix(s, r, |p|);
      }
      ReplaceNoNew(s[|p|..], p, q, r);
      NoStraddle(q, ReplaceAll(s[|p|..], p, q), r);
    } else {
      var rest := ReplaceAll(s[1..], p, q);
      var out := [s[0]] + rest;
      assert out == ReplaceAll(s, p, q);
      ReplaceNoNew(s[1..], p, q, r);
      assert out[1..] == rest;
      if StartsWith(out, r) {
        assert rest[..|r| - 1] == out[1..|r|] == r[1..];
        forall j | 0 <= j < |r[1..]|
          ensures !Compatible(r[1..][j..], q)
        {
          assert r[1..][j..] == r[j + 1..];
        }
        ReplacedPrefix(s[1..], p, q, r[1..]);
        assert false;
      }
    }
  }

  /** Replacing `p` by `q` and then `q` by `p` restores the text, provided `q` did not
      occur in it and has no border: the rewrite touches the occurrences of `p` and
      nothing else. */
  lemma {:induction false} ReplaceRoundTrip(s: string, p: string, q: string)
    requires |p| > 0 && |q| > 0
    requires Unbordered(q)
    requires !Contains(s, q)
    ensures ReplaceAll(ReplaceAll(s, p, q), q, p) == s
    decreases |s|
  {
    if |s| == 0 {
    } else if StartsWith(s, p) {
      var rest := ReplaceAll(s[|p|..], p, q);
      if Contains(s[|p|..], q) {
        ContainsInSuffix(s, q, |p|);
      }
      ReplaceRoundTrip(s[|p|..], p, q);
      var out := q + rest;
      assert StartsWith(out, q);
      assert out[|q|..] == rest;
      assert ReplaceAll(out, q, p) == p + s[|p|..];
      assert s[..|p|] == p;
      assert p + s[|p|..] == s;
    } else {
      var rest := ReplaceAll(s[1..], p, q);
      var out := [s[0]] + rest;
      ReplaceRoundTrip(s[1..], p, q);
      if StartsWith(out, q) {
        assert rest[..|q| - 1] == out[1..|q|] == q[1..];
        forall j | 0 <= j < |q[1..]|
          ensures !Compatible(q[1..][j..], q)
        {
          assert q[1..][j..] == q[j + 1..];
        }
        ReplacedPrefix(s[1..], p, q, q[1..]);
        assert false;
      }
      assert out[1..] == rest;
      assert ReplaceAll(out, q, p) == [s[0]] + s[1..];
      assert [s[0]] + s[1..] == s;
    }
  }

  /** Two same-length, different patterns that share their first character, which
      occurs nowhere else in either, are apart. */
  lemma ApartByLead(q: string, r: string)
    requires |q| == |r| > 0 && q != r && q[0] == r[0]
    requires forall i :: 0 < i < |q| ==> q[i] != q[0]
    requires forall i :: 0 < i < |r| ==> r[i] != q[0]
    ensures Apart(q, r)
  {
    assert q[0..] == q;
    forall i | 0 < i < |q|
      ensures !Compatible(q[i..], r)
    {
      assert q[i..][0] != r[0];
    }
    forall j | 0 < j < |r|
      ensures !Compatible(r[j..], q)
    {
      assert r[j..][0] != q[0];
    }
  }

  /** A pattern whose first character occurs nowhere else in it has no border. */
  lemma UnborderedByLead(q: string)
    requires forall i :: 0 < i < |q| ==> q[i] != q[0]
    ensures Unbordered(q)
  {
    forall j | 0 < j < |q|
      ensures !Compatible(q[j..], q)
    {
      assert q[j..][0] != q[0];
    }
  }

  // ---------------------------------------------------------------------------
  // Splitting into lines and joining them back

  /** Python's `s.split(sep)` for a one-character separator: always at least one part,
      and no part contains the separator. */
  function Split(s: string, sep: char): (parts: seq<string>)
    ensures |parts| > 0
    ensures forall i :: 0 <= i < |parts| ==> sep !in parts[i]
    decreases |s|
  {
    if |s| == 0 then [""]
    else
      var rest := Split(s[1..], sep);
      if s[0] == sep then [""] + rest
      else [[s[0]] + rest[0]] + rest[1..]
  }

  /** Python's `sep.join(parts)`. */
  function Join(parts: seq<string>, sep: char): string
    decreases |parts|
  {
    if |parts| == 0 then ""
    else if |parts| == 1 then parts[0]
    else parts[0] + [sep] + Join(parts[1..], sep)
  }

  /** Joining the parts of a split gives back the original text. */
  lemma {:induction false} JoinSplit(s: string, sep: char)
    ensures Join(Split(s, sep), sep) == s
    decreases |s|
  {
    if |s| > 0 {
      var rest := Split(s[1..], sep);
      JoinSplit(s[1..], sep);
      if s[0] == sep {
        assert ([""] + rest)[1..] == rest;
        assert [s[0]] + s[1..] == s;
      } else {
        var parts := [[s[0]] + rest[0]] + rest[1..];
        if |rest| == 1 {
          assert [s[0]] + s[1..] == s;
        } else {
          assert parts[1..] == rest[1..];
          assert Join(rest, sep) == rest[0] + [sep] + Join(rest[1..], sep);
          assert [s[0]] + s[1..] == s;
        }
      }
    }
  }

  /** A text without the separator splits into itself alone. */
  lemma {:induction false} SplitFree(s: string, sep: char)
    requires sep !in s
    ensures Split(s, sep) == [s]
    decreases |s|
  {
    if |s| > 0 {
      assert sep !in s[1..];
      SplitFree(s[1..], sep);
      assert [s[0]] + s[1..] == s;
    }
  }

  /** A character absent from the text is absent from every part of its split. */
  lemma {:induction false} SplitKeepsOut(s: string, sep: char, c: char)
    requires c !in s
    ensures forall i :: 0 <= i < |Split(s, sep)| ==> c !in Split(s, sep)[i]
    decreases |s|
  {
    if |s| > 0 {
      assert c !in s[1..];
      SplitKeepsOut(s[1..], sep, c);
    }
  }

  /** A character other than the separator that no part holds is absent from the join. */
  lemma {:induction false} JoinKeepsOut(parts: seq<string>, sep: char, c: char)
    requires c != sep
    requires forall i :: 0 <= i < |parts| ==> c !in parts[i]
    ensures c !in Join(parts, sep)
    decreases |parts|
  {
    if |parts| > 1 {
      JoinKeepsOut(parts[1..], sep, c);
    }
  }

  /** Splitting `a + sep + b` where `a` is separator-free peels off `a`. */
  lemma {:induction false} SplitConcat(a: string, sep: char, b: string)
    requires sep !in a
    ensures Split(a + [sep] + b, sep) == [a] + Split(b, sep)
    decreases |a|
  {
    var s := a + [sep] + b;
    if |a| == 0 {
      assert s[1..] == b;
    } else {
      assert s[1..] == a[1..] + [sep] + b;
      assert sep !in a[1..];
      SplitConcat(a[1..], sep, b);
      assert [a[0]] + a[1..] == a;
    }
  }

  /** Splitting the join of separator-free parts gives back the parts. */
  lemma {:induction false} SplitJoin(parts: seq<string>, sep: char)
    requires |parts| > 0
    requires forall i :: 0 <= i < |parts| ==> sep !in parts[i]
    ensures Split(Join(parts, sep), sep) == parts
    decreases |parts|
  {
    if |parts| == 1 {
      SplitFree(parts[0], sep);
    } else {
      SplitJoin(parts[1..], sep);
      SplitConcat(parts[0], sep, Join(parts[1..], sep));
      assert [parts[0]] + parts[1..] == parts;
    }
  }

  // ---------------------------------------------------------------------------
  // Reading a file in text mode

  /** Reading a file in text mode: universal newlines turn every `\r\n` and every lone
      `\r` into `\n`, so the text read never holds a carriage return. */
  function ReadText(disk: string): (r: string)
    ensures '\r' !in r
    decreases |disk|
  {
    if |disk| == 0 then ""
    else if disk[0] == '\r' then
      "\n" + ReadText(if |disk| > 1 && disk[1] == '\n' then disk[2..] else disk[1..])
    else [disk[0]] + ReadText(disk[1..])
  }

  /** Text without carriage returns reads back as written. */
  lemma {:induction false} ReadTextPlain(u: string, t: string)
    requires '\r' !in u
    ensures ReadText(u + t) == u + ReadText(t)
    decreases |u|
  {
    if |u| > 0 {
      assert (u + t)[0] == u[0] && u[0] != '\r' && '\r' !in u[1..];
      assert (u + t)[1..] == u[1..] + t;
      ReadTextPlain(u[1..], t);
      assert ReadText(u + t) == [u[0]] + ReadText(u[1..] + t);
      assert [u[0]] + (u[1..] + ReadText(t)) == u + ReadText(t);
    } else {
      assert u + t == t;
    }
  }

  /** Text without carriage returns reads back unchanged. */
  lemma ReadTextFixed(t: string)
    requires '\r' !in t
    ensures ReadText(t) == t
  {
    ReadTextPlain(t, "");
    assert t + "" == t;
  }

  /** Reading never brings in a character other than a line break. */
  lemma {:induction false} ReadTextKeepsOut(disk: string, c: char)
    requires c != '\n' && c !in disk
    ensures c !in ReadText(disk)
    decreases |disk|
  {
    if |disk| > 0 {
      var rest := if disk[0] == '\r' && |disk| > 1 && disk[1] == '\n' then disk[2..] else disk[1..];
      assert forall x :: x in rest ==> x in disk;
      ReadTextKeepsOut(rest, c);
    }
  }

  /** Reading text followed by a stretch without carriage returns that does not start
      with a line break reads the two separately. */
  lemma {:induction false} ReadTextThenPlain(t: string, u: string)
    requires '\r' !in u && (|u| > 0 ==> u[0] != '\n')
    ensures ReadText(t + u) == ReadText(t) + u
    decreases |t|
  {
    var s := t + u;
    if |t| == 0 {
      assert s == u;
      ReadTextFixed(u);
    } else {
      var lead := if t[0] == '\r' then "\n" else [t[0]];
      var skip := if t[0] == '\r' && |t| > 1 && t[1] == '\n' then 2 else 1;
      assert s[0] == t[0];
      assert |s| > 1 && s[1] == '\n' <==> |t| > 1 && t[1] == '\n';
      assert ReadText(s) == lead + ReadText(s[skip..]);
      assert ReadText(t) == lead + ReadText(t[skip..]);
      assert s[skip..] == t[skip..] + u;
      ReadTextThenPlain(t[skip..], u);
      ConcatAssoc(lead, ReadText(t[skip..]), u);
    }
  }

  /** A carriage return reads as a line break. */
  lemma {:induction false} ReadTextBreak(disk: string)
    requires '\r' in disk
    ensures '\n' in ReadText(disk)
    decreases |disk|
  {
    if disk[0] != '\r' {
      assert '\r' in disk[1..];
      ReadTextBreak(disk[1..]);
    }
  }

  /** A replacement whose text lacks a character never brings that character in. */
  lemma {:induction false} ReplaceKeepsOut(s: string, p: string, q: string, c: char)
    requires |p| > 0 && c !in s && c !in q
    ensures c !in ReplaceAll(s, p, q)
    decreases |s|
  {
    if |s| > 0 {
      if StartsWith(s, p) {
        assert forall x :: x in s[|p|..] ==> x in s;
        ReplaceKeepsOut(s[|p|..], p, q, c);
      } else {
        assert forall x :: x in s[1..] ==> x in s;
        ReplaceKeepsOut(s[1..], p, q, c);
      }
    }
  }

  // ---------------------------------------------------------------------------
  // Keyword tables: an `if 'w1' in t: ... elif 'w2' in t: ...` chain as data

  /** The value of the first entry of `table` whose word occurs in `t`. */
  function FirstMatch<V>(table: seq<(string, V)>, t: string): (r: Option<V>)
    ensures r.Some? ==> exists i :: 0 <= i < |table| && r.value == table[i].1 && Contains(t, table[i].0)
    ensures r.None? ==> forall i :: 0 <= i < |table| ==> !Contains(t, table[i].0)
    decreases |table|
  {
    if |table| == 0 then None
    else if Contains(t, table[0].0) then Some(table[0].1)
    else FirstMatch(table[1..], t)
  }

  /** `FirstMatch` picks entry `i` exactly when its word is present and no earlier
      word is: priority follows the table, not the position of words in the text. */
  lemma {:induction false} FirstMatchPriority<V>(table: seq<(string, V)>, t: string, i: nat)
    requires i < |table|
    requires Contains(t, table[i].0)
    requires forall j :: 0 <= j < i ==> !Contains(t, table[j].0)
    ensures FirstMatch(table, t) == Some(table[i].1)
    decreases i
  {
    if i > 0 {
      FirstMatchPriority(table[1..], t, i - 1);
    }
  }
}
