/** String helpers behind the ledger's input handling and search box:
    `String.prototype.trim`, `toLowerCase` (ASCII letters only) and `includes`. */
module Text {

  /** The code points JavaScript's `trim` strips: WhiteSpace (tab, vertical tab,
      form feed, space, no-break space, the byte-order mark and the Zs category)
      and LineTerminator (line feed, carriage return, U+2028, U+2029). */
  predicate IsSpace(c: char) {
    c == '\t' || c == '\n' || c == '\U{B}' || c == '\U{C}' || c == '\r' || c == ' '
    || c == '\U{A0}' || c == '\U{1680}' || ('\U{2000}' <= c <= '\U{200A}')
    || c == '\U{2028}' || c == '\U{2029}' || c == '\U{202F}' || c == '\U{205F}'
    || c == '\U{3000}' || c == '\U{FEFF}'
  }

  /** Every character of `s` from index `lo` up to `hi` is white space. */
  predicate SpaceBetween(s: string, lo: int, hi: int) {
    forall i :: lo <= i < hi && 0 <= i < |s| ==> IsSpace(s[i])
  }

  predicate AllSpace(s: string) {
    SpaceBetween(s, 0, |s|)
  }

  /** `s` with its leading white space removed. */
  function TrimStart(s: string): (r: string)
    ensures |r| <= |s|
    ensures r == [] || !IsSpace(r[0])
  {
    if s != [] && IsSpace(s[0]) then TrimStart(s[1..]) else s
  }

  /** `s` with its trailing white space removed. */
  function TrimEnd(s: string): (r: string)
    ensures |r| <= |s| && (r != [] ==> r[0] == s[0])
    ensures s != [] && !IsSpace(s[0]) ==> r != []
    ensures r == [] || !IsSpace(r[|r| - 1])
  {
    if s != [] && IsSpace(s[|s| - 1]) then TrimEnd(s[..|s| - 1]) else s
  }

  /** What TrimStart removes is white space, and it keeps a suffix of the input. */
  lemma {:induction false} TrimStartSuffix(s: string)
    ensures var r := TrimStart(s); r == s[|s| - |r|..] && SpaceBetween(s, 0, |s| - |r|)
    decreases |s|
  {
    if s != [] && IsSpace(s[0]) {
      TrimStartSuffix(s[1..]);
      var r := TrimStart(s);
      assert s[1..][|s| - 1 - |r|..] == s[|s| - |r|..];
      assert forall i :: 1 <= i < |s| ==> s[i] == s[1..][i - 1];
    }
  }

  /** What TrimEnd removes is white space, and it keeps a prefix of the input. */
  lemma {:induction false} TrimEndPrefix(s: string)
    ensures var r := TrimEnd(s); r == s[..|r|] && SpaceBetween(s, |r|, |s|)
    decreases |s|
  {
    if s != [] && IsSpace(s[|s| - 1]) {
      TrimEndPrefix(s[..|s| - 1]);
      var r := TrimEnd(s);
      assert s[..|s| - 1][..|r|] == s[..|r|];
      assert forall i :: 0 <= i < |s| - 1 ==> s[i] == s[..|s| - 1][i];
    }
  }

  /** Neither starts nor ends with white space. */
  predicate Trimmed(s: string) {
    s == [] || (!IsSpace(s[0]) && !IsSpace(s[|s| - 1]))
  }

  /** JavaScript's `s.trim()`: neither starts nor ends with white space. */
  function Trim(s: string): (r: string)
    ensures |r| <= |s| && Trimmed(r)
  {
    TrimEnd(TrimStart(s))
  }

  /** What trimming cuts off on either side is white space, and what it keeps is
      one contiguous piece of the input. */
  lemma TrimInfix(s: string)
    ensures var lo := |s| - |TrimStart(s)|; var r := Trim(s);
      lo + |r| <= |s| && r == s[lo..lo + |r|]
      && SpaceBetween(s, 0, lo) && SpaceBetween(s, lo + |r|, |s|)
  {
    var t := TrimStart(s);
    var r := TrimEnd(t);
    var lo := |s| - |t|;
    TrimStartSuffix(s);
    TrimEndPrefix(t);
    assert t[..|r|] == s[lo..lo + |r|];
    forall i | lo + |r| <= i < |s| ensures IsSpace(s[i]) {
      assert s[i] == t[i - lo];
    }
  }

  /** A string trims to nothing exactly when it is all white space. */
  lemma TrimEmptyIff(s: string)
    ensures Trim(s) == [] <==> AllSpace(s)
  {
    TrimInfix(s);
    var lo := |s| - |TrimStart(s)|;
    if Trim(s) != [] {
      assert s[lo] == Trim(s)[0];
    }
  }

  /** Trimming leaves exactly the trimmed strings unchanged. */
  lemma TrimFixes(s: string)
    ensures Trim(s) == s <==> Trimmed(s)
  {
    if Trimmed(s) && s != [] {
      assert TrimStart(s) == s;
      assert TrimEnd(s) == s;
    }
  }

  /** Trimming twice is trimming once. */
  lemma TrimIdempotent(s: string)
    ensures Trim(Trim(s)) == Trim(s)
  {
    var r := Trim(s);
    if r != [] {
      assert TrimStart(r) == r;
      assert TrimEnd(r) == r;
    }
  }

  /** JavaScript's `toLowerCase` on ASCII letters; every other code point is kept. */
  function LowerChar(c: char): char {
    if 'A' <= c <= 'Z' then (c as int - 'A' as int + 'a' as int) as char else c
  }

  /** Each ASCII capital becomes its own small letter (32 code points on) and
      every other character stays, so no ASCII capital is left. */
  function Lower(s: string): (r: string)
    ensures |r| == |s|
    ensures forall i :: 0 <= i < |s| ==>
      if 'A' <= s[i] <= 'Z' then r[i] as int == s[i] as int + 32 else r[i] == s[i]
    ensures forall i :: 0 <= i < |r| ==> !('A' <= r[i] <= 'Z')
  {
    seq(|s|, i requires 0 <= i < |s| => LowerChar(s[i]))
  }

  /** Two characters that are equal, or the same ASCII letter in two cases. */
  predicate SameLetter(a: char, b: char) {
    a == b
    || ('A' <= a <= 'Z' && b as int == a as int + 32)
    || ('A' <= b <= 'Z' && a as int == b as int + 32)
  }

  /** Lower-casing identifies exactly the strings that differ only in the case
      of ASCII letters. */
  lemma LowerSameIff(a: string, b: string)
    ensures Lower(a) == Lower(b)
        <==> |a| == |b| && forall i :: 0 <= i < |a| ==> SameLetter(a[i], b[i])
  {
    if |a| == |b| {
      if Lower(a) == Lower(b) {
        forall i | 0 <= i < |a| ensures SameLetter(a[i], b[i]) {
          assert Lower(a)[i] == Lower(b)[i];
        }
      }
      if forall i :: 0 <= i < |a| ==> SameLetter(a[i], b[i]) {
        forall i | 0 <= i < |a| ensures Lower(a)[i] == Lower(b)[i] {
          assert SameLetter(a[i], b[i]);
        }
      }
    }
  }

  /** Lower-casing is idempotent and leaves white space where it was. */
  lemma LowerIdempotent(s: string)
    ensures Lower(Lower(s)) == Lower(s)
  {
  }

  /** Lower-casing commutes with trimming, since no white space is an upper-case letter. */
  lemma {:induction false} TrimStartLower(s: string)
    ensures TrimStart(Lower(s)) == Lower(TrimStart(s))
    decreases |s|
  {
    var ls := Lower(s);
    if s != [] {
      assert IsSpace(ls[0]) == IsSpace(s[0]);
    }
    if s != [] && IsSpace(s[0]) {
      assert ls[1..] == Lower(s[1..]);
      TrimStartLower(s[1..]);
    }
  }

  lemma {:induction false} TrimEndLower(s: string)
    ensures TrimEnd(Lower(s)) == Lower(TrimEnd(s))
    decreases |s|
  {
    var ls := Lower(s);
    if s != [] {
      assert IsSpace(ls[|s| - 1]) == IsSpace(s[|s| - 1]);
    }
    if s != [] && IsSpace(s[|s| - 1]) {
      assert ls[..|s| - 1] == Lower(s[..|s| - 1]);
      TrimEndLower(s[..|s| - 1]);
    }
  }

  lemma TrimLower(s: string)
    ensures Trim(Lower(s)) == Lower(Trim(s))
  {
    TrimStartLower(s);
    TrimEndLower(TrimStart(s));
  }

  /** `s` begins with `sub`. */
  predicate StartsWith(s: string, sub: string) {
    |sub| <= |s| && s[..|sub|] == sub
  }

  /** JavaScript's `s.includes(sub)`: a left-to-right scan for a position where `sub` starts. */
  function Contains(s: string, sub: string): bool
    decreases |s|
  {
    StartsWith(s, sub) || (s != [] && Contains(s[1..], sub))
  }

  predicate OccursAt(s: string, sub: string, i: int) {
    0 <= i && i + |sub| <= |s| && s[i..i + |sub|] == sub
  }

  /** The scan finds `sub` exactly when `sub` occurs somewhere in `s`. */
  lemma {:induction false} ContainsIff(s: string, sub: string)
    ensures Contains(s, sub) <==> exists i :: OccursAt(s, sub, i)
    decreases |s|
  {
    if StartsWith(s, sub) {
      assert OccursAt(s, sub, 0);
    } else if s != [] {
      ContainsIff(s[1..], sub);
      forall i | 1 <= i
        ensures OccursAt(s, sub, i) <==> OccursAt(s[1..], sub, i - 1)
      {
        if i + |sub| <= |s| {
          assert s[1..][i - 1..i - 1 + |sub|] == s[i..i + |sub|];
        }
      }
      if Contains(s[1..], sub) {
        var i :| OccursAt(s[1..], sub, i);
        assert OccursAt(s, sub, i + 1);
      }
    }
  }

  /** Every string includes the empty string. */
  lemma ContainsEmpty(s: string)
    ensures Contains(s, [])
  {
    assert StartsWith(s, []);
  }
}
