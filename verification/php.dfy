/** The PHP string built-ins the finder is written with, restated on strings of
    code points: `str_replace`, `str_contains`, `ltrim` with a one-character list,
    `mb_substr`, `strlen` of the UTF-8 encoding, `explode(" ", ..)[0]` and `empty`. */
module Php {
  import opened Wrappers

  /** `p` is a prefix of `s`. */
  predicate HasPrefix(s: string, p: string)
  {
    |p| <= |s| && s[..|p|] == p
  }

  /** `pat` is a non-empty search string found at the very start of `s`; an empty
      search string never matches, as `str_replace` leaves the subject alone for it. */
  predicate MatchesAtStart(s: string, pat: string)
  {
    0 < |pat| && HasPrefix(s, pat)
  }

  /** `pat` occurs in `s` starting at index `k`. */
  predicate OccursAt(s: string, pat: string, k: nat)
  {
    k + |pat| <= |s| && s[k..k + |pat|] == pat
  }

  /** The least index at or after `from` where `pat` occurs in `s`. */
  function IndexOf(s: string, pat: string, from: nat): (r: Option<nat>)
    ensures r.Some? ==> from <= r.value && OccursAt(s, pat, r.value)
    ensures r.Some? ==> forall k :: from <= k < r.value ==> !OccursAt(s, pat, k)
    ensures r.None? ==> forall k :: from <= k ==> !OccursAt(s, pat, k)
    decreases |s| - from
  {
    if from + |pat| > |s| then None
    else if OccursAt(s, pat, from) then Some(from)
    else IndexOf(s, pat, from + 1)
  }

  /** PHP `str_contains(haystack, needle)`: an empty needle is contained in every haystack. */
  function StrContains(haystack: string, needle: string): (r: bool)
    ensures r <==> exists k :: OccursAt(haystack, needle, k)
  {
    IndexOf(haystack, needle, 0).Some?
  }

  /** One left-to-right pass of `str_replace(pat, rep, s)`: every occurrence of `pat`
      found while scanning is replaced, and scanning resumes after the replaced text,
      so the replaced occurrences never overlap. */
  function ReplaceAll(s: string, pat: string, rep: string): (r: string)
    decreases |s|
  {
    if |s| == 0 then []
    else if MatchesAtStart(s, pat) then rep + ReplaceAll(s[|pat|..], pat, rep)
    else [s[0]] + ReplaceAll(s[1..], pat, rep)
  }

  /** `str_replace` with an array of search strings: one full pass per pair, in order,
      each pass working on the output of the previous one. */
  function StrReplace(s: string, pairs: seq<(string, string)>): string
    decreases |pairs|
  {
    if |pairs| == 0 then s
    else StrReplace(ReplaceAll(s, pairs[0].0, pairs[0].1), pairs[1..])
  }

  /** `ltrim(s, c)` for a one-character list: drops the whole leading run of `c`. */
  function LTrimChar(s: string, c: char): (r: string)
    ensures |r| <= |s| && r == s[|s| - |r|..]
    ensures forall i :: 0 <= i < |s| - |r| ==> s[i] == c
    ensures |r| == 0 || r[0] != c
  {
    if |s| > 0 && s[0] == c then LTrimChar(s[1..], c) else s
  }

  /** `mb_substr(s, start, len)` for a non-negative start: the characters from `start`,
      at most `len` of them, and nothing when `start` is past the end. */
  function MbSubstr(s: string, start: nat, len: nat): (r: string)
    ensures |r| <= len
    ensures start + len <= |s| ==> r == s[start..start + len]
  {
    if start >= |s| then []
    else if start + len <= |s| then s[start..start + len]
    else s[start..]
  }

  /** Where `mb_substr(s, start, …)` begins for any integer start: a negative start
      counts back from the end, and one reaching before the beginning is clamped to 0. */
  function MbStart(s: string, start: int): (k: nat)
    ensures 0 <= start ==> k == start
    ensures -|s| <= start < 0 ==> k == |s| + start
    ensures start < -|s| ==> k == 0
  {
    if 0 <= start then start else if |s| + start < 0 then 0 else |s| + start
  }

  /** Number of bytes of the UTF-8 encoding of one code point. */
  function Utf8Width(c: char): (n: nat)
    ensures 1 <= n <= 4
    ensures n == 1 <==> (c as int) < 0x80
  {
    if (c as int) < 0x80 then 1
    else if (c as int) < 0x800 then 2
    else if (c as int) < 0x10000 then 3
    else 4
  }

  /** `strlen`: the byte length of the UTF-8 encoding (`mb_strlen` is `|s|`). */
  function StrLen(s: string): nat
  {
    if |s| == 0 then 0 else Utf8Width(s[0]) + StrLen(s[1..])
  }

  /** `explode(" ", s)[0]`: everything before the first ASCII space. */
  function FirstToken(s: string): (r: string)
    ensures HasPrefix(s, r)
    ensures ' ' !in r
    ensures r == s || s[|r|] == ' '
  {
    match IndexOf(s, " ", 0)
    case Some(k) =>
      assert forall i :: 0 <= i < k ==> s[i] != ' ' by {
        forall i | 0 <= i < k ensures s[i] != ' ' {
          assert !OccursAt(s, " ", i);
          assert s[i..i + 1] == [s[i]];
        }
      }
      s[..k]
    case None =>
      assert forall i :: 0 <= i < |s| ==> s[i] != ' ' by {
        forall i | 0 <= i < |s| ensures s[i] != ' ' {
          assert !OccursAt(s, " ", i);
          assert s[i..i + 1] == [s[i]];
        }
      }
      s
  }

  /** PHP `empty()` on a string: true for "" and also for "0". */
  predicate IsEmpty(s: string)
  {
    s == "" || s == "0"
  }

  /** An occurrence inside a slice is an occurrence in the whole string, shifted. */
  lemma OccursInSlice(s: string, a: nat, b: nat, pat: string, k: nat)
    requires a <= b <= |s| && k + |pat| <= b - a
    ensures OccursAt(s[a..b], pat, k) <==> OccursAt(s, pat, a + k)
  {
    var n := |pat|;
    var x, y := s[a..b][k..k + n], s[a + k..a + k + n];
    assert x == y by {
      forall i | 0 <= i < n ensures x[i] == y[i] {
        assert s[a..b][k + i] == s[a + k + i];
      }
    }
  }

  /** A one-character search string occurs exactly where its character stands. */
  lemma OccursAtChar(s: string, c: char, k: nat)
    ensures OccursAt(s, [c], k) <==> k < |s| && s[k] == c
  {
    if k < |s| {
      assert s[k..k + 1] == [s[k]];
    }
  }

  /** A search string does not occur where its first character is missing. */
  lemma NotOccursAt(s: string, pat: string, k: nat)
    requires 0 < |pat| && (|s| <= k || s[k] != pat[0])
    ensures !OccursAt(s, pat, k)
  {
    if k + |pat| <= |s| {
      assert s[k..k + |pat|][0] == s[k];
    }
  }

  /** The first occurrence at or after `from` is found. */
  lemma IndexOfIs(s: string, pat: string, from: nat, k: nat)
    requires from <= k && OccursAt(s, pat, k)
    requires forall j :: from <= j < k ==> !OccursAt(s, pat, j)
    ensures IndexOf(s, pat, from) == Some(k)
  {
  }

  /** `explode(" ", s)[0]` ends at `k` when `k` is the end or the first space. */
  lemma FirstTokenAt(s: string, k: nat)
    requires k <= |s| && ' ' !in s[..k] && (k == |s| || s[k] == ' ')
    ensures FirstToken(s) == s[..k]
  {
    var r := FirstToken(s);
    assert forall i :: 0 <= i < k ==> s[..k][i] == s[i];
    assert forall i :: 0 <= i < |r| ==> r[i] == s[i];
  }

  /** `pat` occurs right after `a` in `a + pat + b`. */
  lemma OccursAtJoin(a: string, pat: string, b: string)
    ensures OccursAt(a + pat + b, pat, |a|)
  {
    var s := a + pat + b;
    forall i | 0 <= i < |pat| ensures s[|a| + i] == pat[i] {
    }
    assert s[|a|..|a| + |pat|] == pat;
  }

  /** Concatenation regroups freely. */
  lemma Associative(x: string, y: string, z: string)
    ensures (x + y) + z == x + (y + z)
  {
  }

  /** An occurrence in either part of a concatenation is one in the whole, shifted past
      the first part when it lies in the second. */
  lemma OccursInConcat(a: string, b: string, pat: string, k: nat)
    ensures OccursAt(a, pat, k) ==> OccursAt(a + b, pat, k)
    ensures OccursAt(b, pat, k) ==> OccursAt(a + b, pat, |a| + k)
  {
    var n := |pat|;
    if OccursAt(a, pat, k) {
      assert (a + b)[k..k + n] == a[k..k + n];
    }
    if OccursAt(b, pat, k) {
      assert (a + b)[|a| + k..|a| + k + n] == b[k..k + n];
    }
  }

  // Laws of a single replacement pass.

  /** Text without the first character of the search string passes unchanged. */
  lemma ReplaceAllUntouched(q: string, pat: string, rep: string)
    requires 0 < |pat| && pat[0] !in q
    ensures ReplaceAll(q, pat, rep) == q
  {
    ReplaceAllPassThrough(q, [], pat, rep);
    assert q + [] == q;
  }

  /** Text that starts with the search string has that occurrence replaced first. */
  lemma ReplaceAllLeading(pat: string, y: string, rep: string)
    requires 0 < |pat|
    ensures ReplaceAll(pat + y, pat, rep) == rep + ReplaceAll(y, pat, rep)
  {
    assert (pat + y)[..|pat|] == pat;
    assert (pat + y)[|pat|..] == y;
  }

  /** The passes of `a + b` are the passes of `a` followed by those of `b`. */
  lemma {:induction false} StrReplaceAppend(s: string, a: seq<(string, string)>, b: seq<(string, string)>)
    ensures StrReplace(s, a + b) == StrReplace(StrReplace(s, a), b)
    decreases |a|
  {
    if |a| == 0 {
      assert a + b == b;
    } else {
      assert (a + b)[0] == a[0];
      assert (a + b)[1..] == a[1..] + b;
      StrReplaceAppend(ReplaceAll(s, a[0].0, a[0].1), a[1..], b);
    }
  }

  /** Text none of whose characters can begin the search string is copied unchanged. */
  lemma {:induction false} ReplaceAllPassThrough(q: string, y: string, pat: string, rep: string)
    requires 0 < |pat| && pat[0] !in q
    ensures ReplaceAll(q + y, pat, rep) == q + ReplaceAll(y, pat, rep)
    decreases |q|
  {
    if |q| > 0 {
      assert (q + y)[0] == q[0];
      assert (q + y)[1..] == q[1..] + y;
      ReplaceAllPassThrough(q[1..], y, pat, rep);
    } else {
      assert q + y == y;
    }
  }

  /** A pass over text where the search string never occurs copies it. */
  lemma {:induction false} ReplaceAllAbsent(s: string, pat: string, rep: string)
    requires 0 < |pat| && forall k :: 0 <= k < |s| ==> !OccursAt(s, pat, k)
    ensures ReplaceAll(s, pat, rep) == s
    decreases |s|
  {
    if |s| > 0 {
      assert !OccursAt(s, pat, 0);
      forall k | 0 <= k < |s[1..]| ensures !OccursAt(s[1..], pat, k) {
        assert !OccursAt(s, pat, k + 1);
        if k + |pat| <= |s[1..]| {
          OccursInSlice(s, 1, |s|, pat, k);
        }
      }
      ReplaceAllAbsent(s[1..], pat, rep);
      assert s == [s[0]] + s[1..];
    }
  }

  /** A pass for a one-character search string works character by character,
      so it distributes over concatenation. */
  lemma {:induction false} ReplaceAllSingleConcat(a: string, b: string, pat: string, rep: string)
    requires |pat| == 1
    ensures ReplaceAll(a + b, pat, rep) == ReplaceAll(a, pat, rep) + ReplaceAll(b, pat, rep)
    decreases |a|
  {
    if |a| == 0 {
      assert a + b == b;
    } else {
      assert (a + b)[0] == a[0];
      assert (a + b)[1..] == a[1..] + b;
      ReplaceAllSingleConcat(a[1..], b, pat, rep);
    }
  }

  /** If the output of a pass begins with `p`, and `p` shares no character with the
      replacement and none with the head of the search string, the input began with `p`. */
  lemma {:induction false} ReplaceAllReflectsPrefix(y: string, p: string, pat: string, rep: string)
    requires 0 < |pat| && 0 < |rep| && pat[0] !in p
    requires forall c :: c in p ==> c !in rep
    requires HasPrefix(ReplaceAll(y, pat, rep), p)
    ensures HasPrefix(y, p)
    decreases |p|
  {
    if |p| > 0 {
      var r := ReplaceAll(y, pat, rep);
      assert r[0] == p[0] && p[0] in p;
      assert rep[0] in rep;
      assert !MatchesAtStart(y, pat);
      {
        assert r == [y[0]] + ReplaceAll(y[1..], pat, rep);
        assert y[0] == p[0];
        assert HasPrefix(ReplaceAll(y[1..], pat, rep), p[1..]) by {
          assert ReplaceAll(y[1..], pat, rep) == r[1..];
        }
        ReplaceAllReflectsPrefix(y[1..], p[1..], pat, rep);
        assert y == [y[0]] + y[1..];
      }
    }
  }

  // Characters a pass can neither bring in nor leave behind.

  /** A character absent from the subject and from the replacement is absent after
      the pass. */
  lemma {:induction false} ReplaceAllKeepsAbsent(s: string, pat: string, rep: string, c: char)
    requires c !in s && c !in rep
    ensures c !in ReplaceAll(s, pat, rep)
    decreases |s|
  {
    if |s| > 0 {
      if MatchesAtStart(s, pat) {
        assert forall j :: 0 <= j < |s[|pat|..]| ==> s[|pat|..][j] == s[|pat| + j];
        ReplaceAllKeepsAbsent(s[|pat|..], pat, rep, c);
      } else {
        assert forall j :: 0 <= j < |s[1..]| ==> s[1..][j] == s[1 + j];
        ReplaceAllKeepsAbsent(s[1..], pat, rep, c);
      }
    }
  }

  /** A pass whose search string is the single character `c`, and whose replacement
      does not hold it, leaves no `c` behind. */
  lemma {:induction false} ReplaceAllRemovesChar(s: string, c: char, rep: string)
    requires c !in rep
    ensures c !in ReplaceAll(s, [c], rep)
    decreases |s|
  {
    if |s| > 0 {
      ReplaceAllRemovesChar(s[1..], c, rep);
      if !MatchesAtStart(s, [c]) {
        assert s[..1] == [s[0]];
      }
    }
  }

  /** The array form: a character absent from the subject and from every replacement is
      absent after all passes. */
  lemma {:induction false} StrReplaceKeepsAbsent(s: string, pairs: seq<(string, string)>, c: char)
    requires c !in s && forall k :: 0 <= k < |pairs| ==> c !in pairs[k].1
    ensures c !in StrReplace(s, pairs)
    decreases |pairs|
  {
    if |pairs| > 0 {
      ReplaceAllKeepsAbsent(s, pairs[0].0, pairs[0].1, c);
      assert forall k :: 0 <= k < |pairs[1..]| ==> pairs[1..][k] == pairs[k + 1];
      StrReplaceKeepsAbsent(ReplaceAll(s, pairs[0].0, pairs[0].1), pairs[1..], c);
    }
  }

  /** The array form: once the pass for the single character `c` has run, no later
      pass brings it back unless its replacement holds it. */
  lemma {:induction false} StrReplaceRemovesChar(s: string, pairs: seq<(string, string)>, i: nat, c: char)
    requires i < |pairs| && pairs[i].0 == [c]
    requires forall k :: i <= k < |pairs| ==> c !in pairs[k].1
    ensures c !in StrReplace(s, pairs)
    decreases |pairs|
  {
    var t := ReplaceAll(s, pairs[0].0, pairs[0].1);
    assert forall k :: 0 <= k < |pairs[1..]| ==> pairs[1..][k] == pairs[k + 1];
    if i == 0 {
      ReplaceAllRemovesChar(s, c, pairs[0].1);
      StrReplaceKeepsAbsent(t, pairs[1..], c);
    } else {
      StrReplaceRemovesChar(t, pairs[1..], i - 1, c);
    }
  }
}
