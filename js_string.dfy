/**
 The JavaScript string built-ins the application relies on, over `seq<char>`:
 `String.prototype.trim`, `String.prototype.split` with a one-character separator,
 `Array.prototype.join` as its inverse, `Array.prototype.pop` on the split result,
 and string truthiness.
 */
module JsString {
  import opened Wrappers
  import opened JsArray

  /** The characters `trim` removes: ECMAScript WhiteSpace and LineTerminator code points. */
  predicate IsWhitespace(c: char) {
    || c == '\t' || c == '\n' || c == '\U{000B}' || c == '\U{000C}' || c == '\r' || c == ' '
    || c == '\U{00A0}' || c == '\U{1680}' || ('\U{2000}' <= c <= '\U{200A}')
    || c == '\U{2028}' || c == '\U{2029}' || c == '\U{202F}' || c == '\U{205F}'
    || c == '\U{3000}' || c == '\U{FEFF}'
  }

  predicate AllWhitespace(s: string) {
    forall i :: 0 <= i < |s| ==> IsWhitespace(s[i])
  }

  /** Neither end of `s` is whitespace: what `trim` returns. */
  predicate Trimmed(s: string) {
    s == [] || (!IsWhitespace(s[0]) && !IsWhitespace(s[|s| - 1]))
  }

  /** A string in a boolean context: `undefined` and "" are falsy, every other string is truthy. */
  predicate Truthy(s: Option<string>) {
    s.Some? && s.value != ""
  }

  /** The falsy strings are exactly `undefined` and "". */
  lemma FalsyStrings(s: Option<string>)
    ensures !Truthy(s) <==> s == None || s == Some("")
  {
  }

  /** `String.prototype.trimStart`: drops the leading whitespace. */
  function TrimStart(s: string): string {
    if s != [] && IsWhitespace(s[0]) then TrimStart(s[1..]) else s
  }

  /** `TrimStart` gives the longest suffix that does not start with whitespace. */
  lemma {:induction false} TrimStartSpec(s: string)
    ensures var r := TrimStart(s);
      && |r| <= |s| && r == s[|s| - |r|..]
      && AllWhitespace(s[..|s| - |r|])
      && (r == [] || !IsWhitespace(r[0]))
  {
    if s != [] && IsWhitespace(s[0]) {
      TrimStartSpec(s[1..]);
      var r := TrimStart(s[1..]);
      assert s[..|s| - |r|] == [s[0]] + s[1..][..|s| - 1 - |r|];
    }
  }

  /** `String.prototype.trimEnd`: drops the trailing whitespace. */
  function TrimEnd(s: string): string {
    if s != [] && IsWhitespace(s[|s| - 1]) then TrimEnd(s[..|s| - 1]) else s
  }

  /** `TrimEnd` gives the longest prefix that does not end with whitespace. */
  lemma {:induction false} TrimEndSpec(s: string)
    ensures var r := TrimEnd(s);
      && |r| <= |s| && r == s[..|r|]
      && AllWhitespace(s[|r|..])
      && (r == [] || !IsWhitespace(r[|r| - 1]))
  {
    if s != [] && IsWhitespace(s[|s| - 1]) {
      TrimEndSpec(s[..|s| - 1]);
      var r := TrimEnd(s[..|s| - 1]);
      assert s[|r|..] == s[..|s| - 1][|r|..] + [s[|s| - 1]];
    }
  }

  /** `String.prototype.trim`: drops the whitespace at both ends. */
  function Trim(s: string): string {
    TrimEnd(TrimStart(s))
  }

  /** What `trim` returns has whitespace at neither end, and is empty exactly when `s` is all whitespace. */
  lemma TrimSpec(s: string)
    ensures Trimmed(Trim(s))
    ensures Trim(s) == [] <==> AllWhitespace(s)
  {
    var t := TrimStart(s);
    var r := TrimEnd(t);
    TrimStartSpec(s);
    TrimEndSpec(t);
    assert r == [] ==> s == s[..|s| - |t|] + t[|r|..];
  }

  /** `s` is `r` framed by two runs of whitespace, the first of length `i`. */
  predicate Framed(s: string, i: nat, r: string) {
    && i + |r| <= |s|
    && s[i..i + |r|] == r
    && AllWhitespace(s[..i])
    && AllWhitespace(s[i + |r|..])
  }

  /** `trim` only drops whitespace: `s` is the result framed by two runs of whitespace. */
  lemma TrimFrame(s: string) returns (i: nat)
    ensures Framed(s, i, Trim(s))
  {
    var t := TrimStart(s);
    TrimStartSpec(s);
    TrimEndSpec(t);
    i := |s| - |t|;
    FramedByParts(s, i, t, TrimEnd(t));
  }

  /** Whitespace, then `t` whose prefix `r` is followed by whitespace: `r` is framed in `s`. */
  lemma FramedByParts(s: string, i: nat, t: string, r: string)
    requires i <= |s| && t == s[i..] && AllWhitespace(s[..i])
    requires |r| <= |t| && r == t[..|r|] && AllWhitespace(t[|r|..])
    ensures Framed(s, i, r)
  {
    assert s[i..i + |r|] == r;
    assert s[i + |r|..] == t[|r|..];
  }

  /** Leading whitespace in front of a non-whitespace start is exactly what `TrimStart` drops. */
  lemma {:induction false} TrimStartDrops(prefix: string, u: string)
    requires AllWhitespace(prefix)
    requires u == [] || !IsWhitespace(u[0])
    ensures TrimStart(prefix + u) == u
  {
    if prefix != [] {
      assert (prefix + u)[1..] == prefix[1..] + u;
      TrimStartDrops(prefix[1..], u);
    }
  }

  /** Trailing whitespace after a non-whitespace end is exactly what `TrimEnd` drops. */
  lemma {:induction false} TrimEndDrops(u: string, suffix: string)
    requires AllWhitespace(suffix)
    requires u == [] || !IsWhitespace(u[|u| - 1])
    ensures TrimEnd(u + suffix) == u
  {
    if suffix != [] {
      var s := u + suffix;
      assert s[..|s| - 1] == u + suffix[..|suffix| - 1];
      TrimEndDrops(u, suffix[..|suffix| - 1]);
    }
  }

  /** Any whitespace-framed, trimmed infix of `s` is what `Trim` returns: `Trim` has one possible result. */
  lemma TrimUnique(s: string, prefix: string, core: string, suffix: string)
    requires s == prefix + core + suffix
    requires AllWhitespace(prefix) && AllWhitespace(suffix) && Trimmed(core)
    ensures Trim(s) == core
  {
    if core == [] {
      assert AllWhitespace(s) by {
        forall k | 0 <= k < |s| ensures IsWhitespace(s[k]) {
          if k < |prefix| { assert s[k] == prefix[k]; } else { assert s[k] == suffix[k - |prefix|]; }
        }
      }
      TrimSpec(s);
    } else {
      assert s == prefix + (core + suffix);
      TrimStartDrops(prefix, core + suffix);
      TrimEndDrops(core, suffix);
    }
  }

  /** `trim` is idempotent: trimming the trimmed string changes nothing. */
  lemma TrimIdempotent(s: string)
    ensures Trim(Trim(s)) == Trim(s)
  {
    var t := Trim(s);
    TrimSpec(s);
    assert t == [] + t + [];
    TrimUnique(t, [], t, []);
  }

  /**
   `s.trim()` in a boolean context: the trimmed text when it is truthy, nothing when `s` is blank.
   What it yields is never empty and has whitespace at neither end.
   */
  function NonBlankTrim(s: string): (t: Option<string>)
    ensures t.None? || t.value != ""
  {
    var r := Trim(s);
    if r == "" then None else Some(r)
  }

  /** Nothing exactly for blank input; otherwise the trimmed text, which is non-empty and trimmed. */
  lemma NonBlankTrimSpec(s: string)
    ensures NonBlankTrim(s).None? <==> AllWhitespace(s)
    ensures NonBlankTrim(s).Some? ==> var t := NonBlankTrim(s).value; t == Trim(s) && t != "" && Trimmed(t)
  {
    TrimSpec(s);
  }

  /** What `NonBlankTrim` yields is its own result: passing it on and trimming again changes nothing. */
  lemma NonBlankTrimIdempotent(s: string)
    requires NonBlankTrim(s).Some?
    ensures NonBlankTrim(NonBlankTrim(s).value) == NonBlankTrim(s)
  {
    TrimIdempotent(s);
  }

  /** `s.split(sep)` for a one-character separator: the pieces between the separators, in order. */
  function Split(s: string, sep: char): (parts: seq<string>)
    ensures |parts| >= 1
    ensures forall i :: 0 <= i < |parts| ==> sep !in parts[i]
    ensures Join(parts, sep) == s
  {
    if s == [] then
      [[]]
    else
      var rest := Split(s[1..], sep);
      if s[0] == sep then
        assert Join([[]] + rest, sep) == [] + [sep] + Join(rest, sep);
        [[]] + rest
      else
        var parts := [[s[0]] + rest[0]] + rest[1..];
        assert [s[0]] + s[1..] == s;
        assert |rest| > 1 ==> parts[1..] == rest[1..];
        parts
  }

  /** `parts.join(sep)`: the pieces with one separator between each pair. */
  function Join(parts: seq<string>, sep: char): string
    requires |parts| >= 1
  {
    if |parts| == 1 then parts[0] else parts[0] + [sep] + Join(parts[1..], sep)
  }

  /** Splitting a joined list gives the list back when no piece contains the separator. */
  lemma {:induction false} SplitJoin(parts: seq<string>, sep: char)
    requires |parts| >= 1
    requires forall i :: 0 <= i < |parts| ==> sep !in parts[i]
    ensures Split(Join(parts, sep), sep) == parts
  {
    if |parts| == 1 {
      SplitWithoutSeparator(parts[0], sep);
    } else {
      SplitJoin(parts[1..], sep);
      SplitPrefix(parts[0], Join(parts[1..], sep), sep);
    }
  }

  /** A string without the separator splits into itself alone. */
  lemma {:induction false} SplitWithoutSeparator(s: string, sep: char)
    requires sep !in s
    ensures Split(s, sep) == [s]
  {
    if s != [] {
      SplitWithoutSeparator(s[1..], sep);
    }
  }

  /** Splitting `p + [sep] + rest` where `p` has no separator: `p` is the first piece. */
  lemma {:induction false} SplitPrefix(p: string, rest: string, sep: char)
    requires sep !in p
    ensures Split(p + [sep] + rest, sep) == [p] + Split(rest, sep)
  {
    var s := p + [sep] + rest;
    if p == [] {
      assert s[1..] == rest;
    } else {
      assert s[1..] == p[1..] + [sep] + rest;
      SplitPrefix(p[1..], rest, sep);
      assert [p[0]] + p[1..] == p;
    }
  }

  /**
   `s.split(sep).pop()` is the text after the last separator: it holds no separator, it ends `s`,
   it is all of `s` when `s` has no separator, and otherwise a separator comes right before it.
   */
  lemma LastPieceIsTail(s: string, sep: char)
    ensures var r := Last(Split(s, sep));
      && sep !in r
      && |r| <= |s| && r == s[|s| - |r|..]
      && (sep !in s ==> r == s)
      && (sep in s ==> s[|s| - |r| - 1] == sep)
  {
    var parts := Split(s, sep);
    var r := Last(parts);
    assert sep !in r;
    if |parts| >= 2 {
      JoinLast(parts, sep);
      var init := Join(parts[..|parts| - 1], sep);
      assert s == init + [sep] + r;
      assert s[|s| - |r|..] == r;
      assert s[|s| - |r| - 1] == sep;
    } else {
      assert s == Join(parts, sep) == r;
    }
  }

  /** The last piece of a join comes after the last separator it inserts. */
  lemma {:induction false} JoinLast(parts: seq<string>, sep: char)
    requires |parts| >= 2
    ensures Join(parts, sep) == Join(parts[..|parts| - 1], sep) + [sep] + Last(parts)
  {
    if |parts| > 2 {
      JoinLast(parts[1..], sep);
      assert parts[1..][..|parts| - 2] == parts[..|parts| - 1][1..];
    }
  }

  /** Only one string has the properties of `LastPieceIsTail`, so they define the last piece. */
  lemma TailIsLastPiece(s: string, sep: char, r: string)
    requires sep !in r
    requires |r| <= |s| && r == s[|s| - |r|..]
    requires sep !in s ==> r == s
    requires sep in s ==> s[|s| - |r| - 1] == sep
    ensures r == Last(Split(s, sep))
  {
    LastPieceIsTail(s, sep);
    var q := Last(Split(s, sep));
    if sep in s {
      SeparatorBeforeTail(s, sep, q, |s| - |r| - 1);
      SeparatorBeforeTail(s, sep, r, |s| - |q| - 1);
      assert |q| == |r|;
    }
  }

  /** A separator in `s` lies before any separator-free suffix of `s`. */
  lemma SeparatorBeforeTail(s: string, sep: char, q: string, k: nat)
    requires |q| <= |s| && q == s[|s| - |q|..] && sep !in q
    requires k < |s| && s[k] == sep
    ensures k < |s| - |q|
  {
    assert forall p :: |s| - |q| <= p < |s| ==> s[p] == q[p - (|s| - |q|)];
  }
}
