/** `escapeHtml`, the helper that makes a record's fields safe to splice into the
    table's HTML, and the proof that it loses nothing: undoing the five entities
    in the opposite order gives back the original text. */
module Escape {

  /** JavaScript's `s.replaceAll(pat, rep)` for a string pattern: a left-to-right
      scan that replaces non-overlapping occurrences; an empty pattern matches
      before every character and at the end. */
  function ReplaceAll(s: string, pat: string, rep: string): string
    decreases |s|
  {
    if pat == [] then
      (if s == [] then rep else rep + [s[0]] + ReplaceAll(s[1..], pat, rep))
    else if |s| < |pat| then s
    else if s[..|pat|] == pat then rep + ReplaceAll(s[|pat|..], pat, rep)
    else [s[0]] + ReplaceAll(s[1..], pat, rep)
  }

  /** The helper as written: ampersands first, then the four other special characters. */
  function EscapeHtml(text: string): string {
    ReplaceAll(ReplaceAll(ReplaceAll(ReplaceAll(ReplaceAll(
      text, "&", "&amp;"), "<", "&lt;"), ">", "&gt;"), "\"", "&quot;"), "'", "&#039;")
  }

  /** The inverse a reader of the escaped text would apply: the four entities,
      then `&amp;` last. */
  function UnescapeHtml(html: string): string {
    ReplaceAll(ReplaceAll(ReplaceAll(ReplaceAll(ReplaceAll(
      html, "&lt;", "<"), "&gt;", ">"), "&quot;", "\""), "&#039;", "'"), "&amp;", "&")
  }

  predicate IsSpecial(c: char) {
    c == '&' || c == '<' || c == '>' || c == '"' || c == '\''
  }

  /** The entity `escapeHtml` writes for a special character; other characters stand for themselves. */
  function Entity(c: char): string {
    match c
    case '&' => "&amp;"
    case '<' => "&lt;"
    case '>' => "&gt;"
    case '"' => "&quot;"
    case '\'' => "&#039;"
    case _ => [c]
  }

  /** The reference definition of escaping: each character replaced by its entity. */
  function EscapeEach(s: string): string {
    if s == [] then [] else Entity(s[0]) + EscapeEach(s[1..])
  }

  // The ten `replaceAll` calls of EscapeHtml followed by UnescapeHtml are
  // stages 0 to 9 below. Before stage p every character c of the original text
  // is spelt Token(p, c): the characters already escaped by stage p are spelt as
  // entities, and later the characters already decoded are spelt as themselves.

  const Patterns: seq<string> :=
    ["&", "<", ">", "\"", "'", "&lt;", "&gt;", "&quot;", "&#039;", "&amp;"]
  const Replacements: seq<string> :=
    ["&amp;", "&lt;", "&gt;", "&quot;", "&#039;", "<", ">", "\"", "'", "&"]
  /** Position of a special character in the escaping order `& < > " '`. */
  function EscapeRank(c: char): nat {
    match c
    case '&' => 0
    case '<' => 1
    case '>' => 2
    case '"' => 3
    case _ => 4
  }

  /** Position of a special character in the decoding order `< > " ' &`. */
  function DecodeRank(c: char): nat {
    match c
    case '<' => 0
    case '>' => 1
    case '"' => 2
    case '\'' => 3
    case _ => 4
  }

  function Token(p: nat, c: char): string
    requires p <= 10
  {
    if !IsSpecial(c) then [c]
    else if p <= 5 then (if EscapeRank(c) < p then Entity(c) else [c])
    else (if DecodeRank(c) < p - 5 then [c] else Entity(c))
  }

  function Staged(p: nat, s: string): string
    requires p <= 10
  {
    if s == [] then [] else Token(p, s[0]) + Staged(p, s[1..])
  }

  /** A character that cannot start the pattern is copied. */
  lemma ReplaceSkipOne(c: char, v: string, pat: string, rep: string)
    requires pat != [] && pat[0] != c
    ensures ReplaceAll([c] + v, pat, rep) == [c] + ReplaceAll(v, pat, rep)
  {
    var w := [c] + v;
    assert w[1..] == v;
    if |w| >= |pat| {
      assert w[..|pat|][0] == c;
    } else {
      assert ReplaceAll(v, pat, rep) == v;
    }
  }

  /** Scanning over text that cannot start the pattern copies it. */
  lemma {:induction false} ReplaceSkip(x: string, u: string, pat: string, rep: string)
    requires pat != [] && pat[0] !in x
    ensures ReplaceAll(x + u, pat, rep) == x + ReplaceAll(u, pat, rep)
    decreases |x|
  {
    if x != [] {
      ReplaceSkip(x[1..], u, pat, rep);
      assert x + u == [x[0]] + (x[1..] + u);
      ReplaceSkipOne(x[0], x[1..] + u, pat, rep);
      assert x == [x[0]] + x[1..];
    } else {
      assert x + u == u;
    }
  }

  /** An entity other than the pattern, both starting with '&', differs from it at
      its second character, so the scan copies it whole. */
  lemma ReplaceMiss(t: string, u: string, pat: string, rep: string)
    requires |t| >= 2 && |pat| >= 2 && t[0] == pat[0] && t[1] != pat[1] && pat[0] !in t[1..]
    ensures ReplaceAll(t + u, pat, rep) == t + ReplaceAll(u, pat, rep)
  {
    if |t + u| >= |pat| {
      assert (t + u)[..|pat|][1] == t[1];
      assert (t + u)[1..] == t[1..] + u;
      ReplaceSkip(t[1..], u, pat, rep);
      assert t == [t[0]] + t[1..];
    }
  }

  /** One token of stage p is rewritten into the same character's token of stage p + 1. */
  lemma TokenStep(p: nat, c: char, u: string)
    requires p < 10
    ensures ReplaceAll(Token(p, c) + u, Patterns[p], Replacements[p])
         == Token(p + 1, c) + ReplaceAll(u, Patterns[p], Replacements[p])
  {
    var t, pat, rep := Token(p, c), Patterns[p], Replacements[p];
    if !IsSpecial(c) {
      assert t == [c] && Token(p + 1, c) == [c];
      ReplaceSkip(t, u, pat, rep);
    } else if t == pat {
      assert (t + u)[..|pat|] == pat && (t + u)[|pat|..] == u;
      assert Token(p + 1, c) == rep;
    } else if p < 5 {
      assert Token(p + 1, c) == t && pat[0] !in t;
      ReplaceSkip(t, u, pat, rep);
    } else if |t| == 1 {
      assert Token(p + 1, c) == t && pat[0] !in t;
      ReplaceSkip(t, u, pat, rep);
    } else {
      assert Token(p + 1, c) == t;
      ReplaceMiss(t, u, pat, rep);
    }
  }

  /** One `replaceAll` call moves the whole text from stage p to stage p + 1. */
  lemma {:induction false} StageStep(p: nat, s: string)
    requires p < 10
    ensures ReplaceAll(Staged(p, s), Patterns[p], Replacements[p]) == Staged(p + 1, s)
  {
    if s != [] {
      TokenStep(p, s[0], Staged(p, s[1..]));
      StageStep(p, s[1..]);
    }
  }

  /** Nothing is escaped before stage 0 and everything is decoded after stage 9. */
  lemma {:induction false} StagedEnds(s: string)
    ensures Staged(0, s) == s && Staged(10, s) == s
  {
    if s != [] {
      assert Token(0, s[0]) == [s[0]] && Token(10, s[0]) == [s[0]];
      StagedEnds(s[1..]);
    }
  }

  /** Between the two halves every character is spelt as its entity. */
  lemma {:induction false} StagedMiddle(s: string)
    ensures Staged(5, s) == EscapeEach(s)
  {
    if s != [] {
      StagedMiddle(s[1..]);
    }
  }

  /** Replacing '&' first makes the chain of `replaceAll` calls escape each
      character independently. */
  lemma EscapeHtmlIsEscapeEach(s: string)
    ensures EscapeHtml(s) == EscapeEach(s)
  {
    StagedEnds(s);
    StageStep(0, s);
    StageStep(1, s);
    StageStep(2, s);
    StageStep(3, s);
    StageStep(4, s);
    StagedMiddle(s);
  }

  /** Escaped text never contains a character that HTML could read as markup or
      as the end of an attribute value. */
  lemma {:induction false} EscapeEachSafe(s: string)
    ensures forall i :: 0 <= i < |EscapeEach(s)| ==>
      var c := EscapeEach(s)[i]; c != '<' && c != '>' && c != '"' && c != '\''
  {
    if s != [] {
      EscapeEachSafe(s[1..]);
      var e, rest := Entity(s[0]), EscapeEach(s[1..]);
      forall i | 0 <= i < |e + rest|
        ensures var c := (e + rest)[i]; c != '<' && c != '>' && c != '"' && c != '\''
      {
        if i >= |e| { assert (e + rest)[i] == rest[i - |e|]; }
      }
    }
  }

  lemma EscapeHtmlSafe(s: string)
    ensures forall i :: 0 <= i < |EscapeHtml(s)| ==>
      var c := EscapeHtml(s)[i]; c != '<' && c != '>' && c != '"' && c != '\''
  {
    EscapeHtmlIsEscapeEach(s);
    EscapeEachSafe(s);
  }

  /** Round trip: decoding the entities in the order above recovers the input exactly. */
  lemma EscapeRoundTrip(s: string)
    ensures UnescapeHtml(EscapeHtml(s)) == s
  {
    EscapeHtmlIsEscapeEach(s);
    StagedMiddle(s);
    StageStep(5, s);
    StageStep(6, s);
    StageStep(7, s);
    StageStep(8, s);
    StageStep(9, s);
    StagedEnds(s);
  }
}
