/**
 The handful of Python `str` operations the answer pipeline relies on, over
 `string` (a sequence of Unicode scalar values, as Python's `str` is a sequence
 of code points): whitespace `split()`, `strip()`, `split(sep)`, `sep.join`,
 the `in` substring test and `replace`.
 */
module Text {

  /** Python's `str.isspace()` for one character: the characters that
      `split()` and `strip()` treat as whitespace. */
  predicate IsSpace(c: char) {
    || ('\t' <= c <= '\r')
    || ('\U{1C}' <= c <= ' ')
    || c == '\U{85}' || c == '\U{A0}' || c == '\U{1680}'
    || ('\U{2000}' <= c <= '\U{200A}')
    || c == '\U{2028}' || c == '\U{2029}' || c == '\U{202F}' || c == '\U{205F}'
    || c == '\U{3000}'
  }

  /** No character of `s` is whitespace. */
  predicate NoSpace(s: string) {
    forall i :: 0 <= i < |s| ==> !IsSpace(s[i])
  }

  /** Every character of `s` is whitespace (this includes the empty string). */
  predicate AllSpace(s: string) {
    forall i :: 0 <= i < |s| ==> IsSpace(s[i])
  }

  /** A word as `split()` produces it: non-empty and free of whitespace. */
  predicate IsWord(w: string) {
    w != [] && NoSpace(w)
  }

  /** Length of the run of non-whitespace characters that starts `s`. */
  function WordLength(s: string): (n: nat)
    requires s != [] && !IsSpace(s[0])
    ensures 1 <= n <= |s|
    ensures NoSpace(s[..n])
    ensures n < |s| ==> IsSpace(s[n])
  {
    if |s| == 1 || IsSpace(s[1]) then 1 else 1 + WordLength(s[1..])
  }

  /** `s.split()`: the maximal runs of non-whitespace characters, in order. */
  function Words(s: string): (r: seq<string>)
    ensures forall i :: 0 <= i < |r| ==> IsWord(r[i])
    ensures r == [] <==> AllSpace(s)
    decreases |s|
  {
    if s == [] then []
    else if IsSpace(s[0]) then Words(s[1..])
    else
      var n := WordLength(s);
      [s[..n]] + Words(s[n..])
  }

  /** `sep.join(parts)`. */
  function Join(parts: seq<string>, sep: string): string {
    if parts == [] then []
    else if |parts| == 1 then parts[0]
    else parts[0] + sep + Join(parts[1..], sep)
  }

  /** A character that occurs neither in the parts nor in the separator does
      not occur in their join. */
  lemma {:induction false} JoinAvoids(parts: seq<string>, sep: string, c: char)
    requires forall i :: 0 <= i < |parts| ==> c !in parts[i]
    requires c !in sep
    ensures c !in Join(parts, sep)
  {
    if |parts| > 1 {
      JoinAvoids(parts[1..], sep, c);
    }
  }

  /** The join of two or more parts starts with the first part, the separator
      and the second part. */
  lemma JoinStart(parts: seq<string>, sep: string)
    requires |parts| >= 2
    ensures parts[0] + sep + parts[1] <= Join(parts, sep)
  {
  }

  /** Splitting the single-space join of words gives the words back. */
  lemma {:induction false} WordsOfJoin(ws: seq<string>)
    requires forall i :: 0 <= i < |ws| ==> IsWord(ws[i])
    ensures Words(Join(ws, " ")) == ws
  {
    if |ws| == 0 {
    } else if |ws| == 1 {
      WordsOfWordThen(ws[0], []);
      assert ws[0] + [] == ws[0];
      assert Words([]) == [];
    } else {
      WordsOfJoin(ws[1..]);
      WordsOfWordThen(ws[0], " " + Join(ws[1..], " "));
      assert ws[0] + " " + Join(ws[1..], " ") == ws[0] + (" " + Join(ws[1..], " "));
      assert Words(" " + Join(ws[1..], " ")) == Words(Join(ws[1..], " "));
    }
  }

  /** A word followed by nothing or by whitespace is split off as the first word. */
  lemma {:induction false} WordsOfWordThen(w: string, rest: string)
    requires IsWord(w)
    requires rest == [] || IsSpace(rest[0])
    ensures Words(w + rest) == [w] + Words(rest)
  {
    var s := w + rest;
    WordLengthOfWordThen(w, rest);
    assert s[..|w|] == w;
    assert s[|w|..] == rest;
  }

  lemma {:induction false} WordLengthOfWordThen(w: string, rest: string)
    requires IsWord(w)
    requires rest == [] || IsSpace(rest[0])
    ensures WordLength(w + rest) == |w|
    decreases |w|
  {
    var s := w + rest;
    if |w| == 1 {
    } else {
      assert !IsSpace(s[1]);
      assert s[1..] == w[1..] + rest;
      WordLengthOfWordThen(w[1..], rest);
    }
  }

  /** The first index of `c` in `s`. */
  function IndexOf(s: string, c: char): (k: nat)
    requires c in s
    ensures k < |s| && s[k] == c
    ensures c !in s[..k]
  {
    if s[0] == c then 0
    else
      assert c in s[1..];
      var k := 1 + IndexOf(s[1..], c);
      assert s[..k] == [s[0]] + s[1..][..k - 1];
      k
  }

  /** `s.split(c)` for a one-character separator: the pieces between
      occurrences of `c`, empty pieces included. */
  function SplitOn(s: string, c: char): (r: seq<string>)
    ensures |r| == multiset(s)[c] + 1
    ensures forall i :: 0 <= i < |r| ==> c !in r[i]
    ensures Join(r, [c]) == s
    decreases |s|
  {
    if c !in s then
      assert multiset(s)[c] == 0;
      [s]
    else
      var k := IndexOf(s, c);
      var rest := SplitOn(s[k + 1..], c);
      assert s == s[..k] + [c] + s[k + 1..];
      assert multiset(s)[c] == multiset(s[..k])[c] + 1 + multiset(s[k + 1..])[c];
      assert multiset(s[..k])[c] == 0;
      [s[..k]] + rest
  }

  /** Two pieces around one separator split back into the two pieces. */
  lemma SplitOnTwo(a: string, b: string, c: char)
    requires c !in a && c !in b
    ensures SplitOn(a + [c] + b, c) == [a, b]
  {
    var s := a + [c] + b;
    assert s[|a|] == c;
    var k := IndexOf(s, c);
    assert k <= |a| by {
      assert s[..|a| + 1][|a|] == c;
    }
    assert k >= |a| by {
      assert forall i :: 0 <= i < |a| ==> s[i] == a[i];
    }
    assert s[..k] == a && s[k + 1..] == b;
  }

  /** `s.lstrip()`: drops the leading whitespace. */
  function StripStart(s: string): (r: string)
    ensures |r| <= |s| && r == s[|s| - |r|..]
    ensures r == [] || !IsSpace(r[0])
    ensures AllSpace(s[..|s| - |r|])
  {
    if s != [] && IsSpace(s[0]) then StripStart(s[1..]) else s
  }

  /** `s.rstrip()`: drops the trailing whitespace. */
  function StripEnd(s: string): (r: string)
    ensures |r| <= |s| && r == s[..|r|]
    ensures r == [] || !IsSpace(r[|r| - 1])
    ensures AllSpace(s[|r|..])
  {
    if s != [] && IsSpace(s[|s| - 1]) then
      var r := StripEnd(s[..|s| - 1]);
      assert s[|r|..] == s[..|s| - 1][|r|..] + [s[|s| - 1]];
      r
    else s
  }

  /** `s.strip()`: a slice of `s` that neither starts nor ends with
      whitespace, with only whitespace cut away on either side. */
  function Strip(s: string): (r: string)
    ensures exists a, b :: 0 <= a <= b <= |s| && r == s[a..b]
                           && AllSpace(s[..a]) && AllSpace(s[b..])
    ensures r == [] || (!IsSpace(r[0]) && !IsSpace(r[|r| - 1]))
    ensures forall c :: c in r ==> c in s
  {
    var t := StripStart(s);
    var r := StripEnd(t);
    var a := |s| - |t|;
    assert r == s[a..a + |r|];
    assert s[a + |r|..] == t[|r|..];
    r
  }

  /** `pat in s`: `pat` occurs in `s` at some position. */
  predicate Contains(s: string, pat: string) {
    pat <= s || (s != [] && Contains(s[1..], pat))
  }

  /** `pat` occurs in `s` starting at position `k`. */
  predicate OccursAt(s: string, pat: string, k: nat) {
    k + |pat| <= |s| && s[k..k + |pat|] == pat
  }

  /** `Contains` holds exactly when `pat` occurs at some position of `s`: the
      meaning of Python's substring test `pat in s`. */
  lemma {:induction false} ContainsIffOccurs(s: string, pat: string)
    ensures Contains(s, pat) <==> exists k: nat :: OccursAt(s, pat, k)
    decreases |s|
  {
    if pat <= s {
      assert OccursAt(s, pat, 0);
    } else if s == [] {
    } else {
      ContainsIffOccurs(s[1..], pat);
      if Contains(s[1..], pat) {
        var k: nat :| OccursAt(s[1..], pat, k);
        assert s[k + 1..k + 1 + |pat|] == s[1..][k..k + |pat|];
        assert OccursAt(s, pat, k + 1);
      }
      if exists k: nat :: OccursAt(s, pat, k) {
        var k: nat :| OccursAt(s, pat, k);
        assert k != 0;
        assert s[1..][k - 1..k - 1 + |pat|] == s[k..k + |pat|];
        assert OccursAt(s[1..], pat, k - 1);
      }
    }
  }

  /** `s.replace(pat, rep)` for a non-empty pattern: a left-to-right scan that
      replaces every non-overlapping occurrence of `pat` by `rep`. */
  function Replace(s: string, pat: string, rep: string): (r: string)
    requires pat != []
    ensures !Contains(s, pat) ==> r == s
    ensures |pat| == |rep| ==> |r| == |s|
    decreases |s|
  {
    if s == [] then []
    else if pat <= s then rep + Replace(s[|pat|..], pat, rep)
    else [s[0]] + Replace(s[1..], pat, rep)
  }

  /** Position `i` of `s` holds a hyphen directly after the letters `IT`. */
  predicate HyphenAfterIT(s: string, i: nat)
    requires i < |s|
  {
    2 <= i && s[i - 2] == 'I' && s[i - 1] == 'T' && s[i] == '-'
  }

  /** `s.replace("IT-", "IT ")` changes exactly the hyphens that follow `IT`
      into spaces and keeps every other character in place. */
  lemma {:induction false} ReplaceItHyphen(s: string)
    ensures var r := Replace(s, "IT-", "IT ");
            |r| == |s| && forall i :: 0 <= i < |s| ==> r[i] == (if HyphenAfterIT(s, i) then ' ' else s[i])
    decreases |s|
  {
    var r := Replace(s, "IT-", "IT ");
    if s == [] {
    } else if "IT-" <= s {
      var t := s[3..];
      ReplaceItHyphen(t);
      assert r == "IT " + Replace(t, "IT-", "IT ");
      forall i | 0 <= i < |s|
        ensures r[i] == (if HyphenAfterIT(s, i) then ' ' else s[i])
      {
        if i >= 3 {
          assert r[i] == Replace(t, "IT-", "IT ")[i - 3];
          assert HyphenAfterIT(s, i) == HyphenAfterIT(t, i - 3);
        }
      }
    } else {
      var t := s[1..];
      ReplaceItHyphen(t);
      assert r == [s[0]] + Replace(t, "IT-", "IT ");
      forall i | 0 <= i < |s|
        ensures r[i] == (if HyphenAfterIT(s, i) then ' ' else s[i])
      {
        if i == 2 {
          assert s[..3] == [s[0], s[1], s[2]];
          assert !HyphenAfterIT(s, i);
        } else if i >= 1 {
          assert r[i] == Replace(t, "IT-", "IT ")[i - 1];
          assert HyphenAfterIT(s, i) == HyphenAfterIT(t, i - 1);
        }
      }
    }
  }
}
