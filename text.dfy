/**
 * String operations the scraper relies on: substring search (Python's `in` on str),
 * case-insensitive substring search (a literal pattern searched with re.I),
 * and whitespace splitting (str.split() with no argument).
 */
module Text {

  /** `p` occurs in `s` starting at index `i`. */
  predicate OccursAt(s: string, p: string, i: int) {
    0 <= i && i + |p| <= |s| && s[i..i + |p|] == p
  }

  /** `p` occurs in `s` as a contiguous substring (Python's `p in s`). */
  predicate Contains(s: string, p: string) {
    exists i :: 0 <= i <= |s| && OccursAt(s, p, i)
  }

  lemma {:induction false} ContainsTransitive(a: string, b: string, c: string)
    requires Contains(c, b) && Contains(b, a)
    ensures Contains(c, a)
  {
    var i :| 0 <= i <= |c| && OccursAt(c, b, i);
    var j :| 0 <= j <= |b| && OccursAt(b, a, j);
    assert c[i + j..i + j + |a|] == a by {
      forall k | 0 <= k < |a| ensures c[i + j + k] == a[k] {
        assert b[j + k] == a[k];
        assert c[i + (j + k)] == b[j + k];
      }
    }
    assert OccursAt(c, a, i + j);
  }

  lemma ContainsItself(s: string)
    ensures Contains(s, s)
  {
    assert OccursAt(s, s, 0);
  }

  /** ASCII case folding; every other character is its own lower case. */
  function LowerChar(c: char): (d: char)
    ensures 'A' <= c <= 'Z' ==> 'a' <= d <= 'z'
    ensures !('A' <= c <= 'Z') ==> d == c
  {
    if 'A' <= c <= 'Z' then (c as int + 32) as char else c
  }

  function Lower(s: string): (r: string)
    ensures |r| == |s|
    ensures forall i :: 0 <= i < |s| ==> r[i] == LowerChar(s[i])
  {
    seq(|s|, i requires 0 <= i < |s| => LowerChar(s[i]))
  }

  /** No ASCII letter of either case occurs in `s`. */
  predicate NoAsciiLetter(s: string) {
    forall i :: 0 <= i < |s| ==> !('A' <= s[i] <= 'Z') && !('a' <= s[i] <= 'z')
  }

  /** A string without ASCII letters is equal, ignoring ASCII case, only to itself. */
  lemma LowerMatchesOnlyItself(k: string, p: string)
    requires NoAsciiLetter(p)
    ensures Lower(k) == Lower(p) <==> k == p
  {
    if Lower(k) == Lower(p) {
      assert |k| == |p|;
      forall i | 0 <= i < |k| ensures k[i] == p[i] {
        assert LowerChar(k[i]) == LowerChar(p[i]) == p[i];
      }
    }
  }

  lemma {:induction false} LowerSlice(s: string, i: int, j: int)
    requires 0 <= i <= j <= |s|
    ensures Lower(s)[i..j] == Lower(s[i..j])
  {
  }

  /** Case-insensitive search of the literal `term` in `name` (re.search(re.escape(term), name, re.I)). */
  predicate ContainsIgnoreCase(name: string, term: string) {
    Contains(Lower(name), Lower(term))
  }

  /** Case folding preserves substrings, so a plain occurrence is also a case-insensitive one. */
  lemma {:induction false} ContainsLower(s: string, p: string)
    requires Contains(s, p)
    ensures Contains(Lower(s), Lower(p))
  {
    var i :| 0 <= i <= |s| && OccursAt(s, p, i);
    LowerSlice(s, i, i + |p|);
    assert OccursAt(Lower(s), Lower(p), i);
  }

  /** Python's str.isspace() characters: the separators of str.split() with no argument. */
  predicate IsSpace(c: char) {
    || ('\t' <= c <= '\r')
    || ('\U{1C}' <= c <= ' ')
    || c == '\U{85}' || c == '\U{A0}' || c == '\U{1680}'
    || ('\U{2000}' <= c <= '\U{200A}')
    || c == '\U{2028}' || c == '\U{2029}' || c == '\U{202F}' || c == '\U{205F}' || c == '\U{3000}'
  }

  predicate AllSpace(s: string) {
    forall i :: 0 <= i < |s| ==> IsSpace(s[i])
  }

  predicate NoSpace(s: string) {
    forall i :: 0 <= i < |s| ==> !IsSpace(s[i])
  }

  /** Length of the longest prefix of `s` free of whitespace. */
  function TokenLen(s: string): (n: nat)
    ensures n <= |s|
    ensures NoSpace(s[..n])
    ensures n == |s| || IsSpace(s[n])
  {
    if s == [] || IsSpace(s[0]) then 0
    else
      var m := TokenLen(s[1..]);
      assert s[..1 + m] == [s[0]] + s[1..][..m];
      1 + m
  }

  /** The whitespace-delimited tokens of `s`, left to right (Python's s.split()). */
  function Split(s: string): (ts: seq<string>)
    ensures forall i :: 0 <= i < |ts| ==> ts[i] != [] && NoSpace(ts[i])
    decreases |s|
  {
    if s == [] then []
    else if IsSpace(s[0]) then Split(s[1..])
    else
      var n := TokenLen(s);
      [s[..n]] + Split(s[n..])
  }

  /** Splitting yields no token exactly when the text is blank. */
  lemma {:induction false} SplitEmptyIff(s: string)
    ensures Split(s) == [] <==> AllSpace(s)
    decreases |s|
  {
    if s != [] && IsSpace(s[0]) {
      SplitEmptyIff(s[1..]);
      if AllSpace(s[1..]) {
        forall i | 0 <= i < |s| ensures IsSpace(s[i]) {
          if i > 0 { assert s[i] == s[1..][i - 1]; }
        }
      }
    }
  }

  /** A text that contains a word starting with a non-space character has at least one token. */
  lemma ContainsWordHasToken(s: string, w: string)
    requires Contains(s, w) && w != [] && !IsSpace(w[0])
    ensures Split(s) != []
  {
    var i :| 0 <= i <= |s| && OccursAt(s, w, i);
    assert s[i] == w[0];
    SplitEmptyIff(s);
  }

  /** Tokens joined by single spaces. */
  function JoinSpaced(ts: seq<string>): (r: string) {
    if ts == [] then []
    else if |ts| == 1 then ts[0]
    else ts[0] + " " + JoinSpaced(ts[1..])
  }

  lemma {:induction false} TokenLenOfWord(t: string, u: string)
    requires t != [] && NoSpace(t)
    requires u == [] || IsSpace(u[0])
    ensures TokenLen(t + u) == |t|
    decreases |t|
  {
    if |t| > 1 {
      TokenLenOfWord(t[1..], u);
      assert (t + u)[1..] == t[1..] + u;
    } else {
      assert (t + u)[1..] == u;
    }
  }

  /** Splitting undoes joining, for tokens that are non-empty and whitespace-free. */
  lemma {:induction false} SplitJoinSpaced(ts: seq<string>)
    requires forall i :: 0 <= i < |ts| ==> ts[i] != [] && NoSpace(ts[i])
    ensures Split(JoinSpaced(ts)) == ts
  {
    if ts == [] {
    } else if |ts| == 1 {
      var t := ts[0];
      TokenLenOfWord(t, []);
      assert t + [] == t;
      assert t[|t|..] == [];
    } else {
      var t, rest := ts[0], JoinSpaced(ts[1..]);
      var s := t + " " + rest;
      TokenLenOfWord(t, " " + rest);
      assert s == t + (" " + rest);
      assert s[..|t|] == t;
      assert s[|t|..] == " " + rest;
      assert (" " + rest)[1..] == rest;
      SplitJoinSpaced(ts[1..]);
    }
  }

  /**
   * The text read character by character with leading whitespace dropped and every later
   * run of whitespace shrunk to one space, a trailing run dropped.
   */
  function Squeeze(s: string): (r: string)
    decreases |s|, 0
  {
    if s == [] then []
    else if IsSpace(s[0]) then Squeeze(s[1..])
    else [s[0]] + SqueezeInWord(s[1..])
  }

  /** `Squeeze` continued just after a non-space character. */
  function SqueezeInWord(s: string): (r: string)
    decreases |s|, 1
  {
    if s == [] then []
    else if !IsSpace(s[0]) then [s[0]] + SqueezeInWord(s[1..])
    else
      var r := Squeeze(s[1..]);
      if r == [] then [] else " " + r
  }

  lemma {:induction false} SqueezeInWordAfterWord(w: string, u: string)
    requires NoSpace(w)
    ensures SqueezeInWord(w + u) == w + SqueezeInWord(u)
    decreases |w|
  {
    if w != [] {
      SqueezeInWordAfterWord(w[1..], u);
      assert (w + u)[0] == w[0] && (w + u)[1..] == w[1..] + u;
      assert w == [w[0]] + w[1..];
    } else {
      assert w + u == u;
    }
  }

  lemma JoinSpacedEmptyIff(ts: seq<string>)
    requires forall i :: 0 <= i < |ts| ==> ts[i] != []
    ensures JoinSpaced(ts) == [] <==> ts == []
  {
  }

  /**
   * Splitting and re-joining with single spaces trims the text and shrinks each run of
   * whitespace to one space: every text is its tokens separated by runs of whitespace.
   */
  lemma {:induction false} SplitIsSqueeze(s: string)
    ensures JoinSpaced(Split(s)) == Squeeze(s)
    decreases |s|
  {
    if s != [] && IsSpace(s[0]) {
      SplitIsSqueeze(s[1..]);
    } else if s != [] {
      var n := TokenLen(s);
      var w, u := s[..n], s[n..];
      assert s == w + u;
      SplitIsSqueeze(u);
      assert n > 0;
      assert s[1..] == w[1..] + u;
      SqueezeInWordAfterWord(w[1..], u);
      assert Squeeze(s) == w + SqueezeInWord(u);
      JoinSpacedEmptyIff(Split(u));
      if u == [] {
        assert Split(u) == [];
      } else {
        assert SqueezeInWord(u) == (if Squeeze(u[1..]) == [] then [] else " " + Squeeze(u[1..]));
        assert Squeeze(u) == Squeeze(u[1..]);
      }
      assert Split(s) == [w] + Split(u);
    }
  }
}
