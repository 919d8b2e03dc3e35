/** `str_replace` with an array of search strings runs one pass per pair. When the
    pairs cannot disturb one another, the chain of passes equals a single
    left-to-right scan that, at each position, replaces whichever search string
    starts there. That scan is the reference reading used for the nbsp cleanup and
    for the tag sentinels. */
module Passes {
  import opened Wrappers
  import opened Php

  /** The first pair, at index `k` or later, whose search string starts `s`. */
  function FirstMatchFrom(s: string, pairs: seq<(string, string)>, k: nat): (r: Option<nat>)
    ensures r.Some? ==> k <= r.value < |pairs| && MatchesAtStart(s, pairs[r.value].0)
    ensures r.Some? ==> forall j :: k <= j < r.value ==> !MatchesAtStart(s, pairs[j].0)
    ensures r.None? ==> forall j :: k <= j < |pairs| ==> !MatchesAtStart(s, pairs[j].0)
    decreases |pairs| - k
  {
    if k >= |pairs| then None
    else if MatchesAtStart(s, pairs[k].0) then Some(k)
    else FirstMatchFrom(s, pairs, k + 1)
  }

  /** One scan that replaces, at each position, the first search string found there,
      and otherwise copies one character. */
  function ReplaceSimultaneously(s: string, pairs: seq<(string, string)>): string
    decreases |s|
  {
    if |s| == 0 then []
    else match FirstMatchFrom(s, pairs, 0)
      case Some(k) => pairs[k].1 + ReplaceSimultaneously(s[|pairs[k].0|..], pairs)
      case None => [s[0]] + ReplaceSimultaneously(s[1..], pairs)
  }

  predicate NoCommonChar(a: string, b: string)
  {
    forall c :: c in a ==> c !in b
  }

  /** Neither string is a prefix of the other, so they never both match at one place. */
  predicate Incompatible(a: string, b: string)
  {
    !HasPrefix(a, b) && !HasPrefix(b, a)
  }

  /** The conditions under which the passes do not disturb one another: search and
      replacement strings are non-empty, no two search strings can match at the same
      place, an earlier search string cannot start inside a later one, and an earlier
      replacement shares no character with a later search string. */
  predicate Independent(pairs: seq<(string, string)>)
  {
    && (forall i :: 0 <= i < |pairs| ==> 0 < |pairs[i].0| && 0 < |pairs[i].1|)
    && (forall i, j :: 0 <= i < |pairs| && 0 <= j < |pairs| && i != j ==>
          Incompatible(pairs[i].0, pairs[j].0))
    && (forall i, j :: 0 <= i < j < |pairs| ==>
          pairs[i].0[0] !in pairs[j].0[1..] && NoCommonChar(pairs[i].1, pairs[j].0))
  }

  /** Strings differing at a common index are incompatible. */
  lemma IncompatibleAt(a: string, b: string, k: nat)
    requires k < |a| && k < |b| && a[k] != b[k]
    ensures Incompatible(a, b)
  {
    assert |b| <= |a| ==> a[..|b|][k] == a[k];
    assert |a| <= |b| ==> b[..|a|][k] == b[k];
  }

  /** The conditions of `Independent` for the two pairs at `i < j`. */
  predicate IndependentPair(pairs: seq<(string, string)>, i: nat, j: nat)
    requires i < j < |pairs| && 0 < |pairs[i].0|
  {
    && Incompatible(pairs[i].0, pairs[j].0)
    && pairs[i].0[0] !in pairs[j].0[1..]
    && NoCommonChar(pairs[i].1, pairs[j].0)
  }

  /** Independence of a list of four pairs, checked pair by pair. */
  lemma IndependentFour(pairs: seq<(string, string)>)
    requires |pairs| == 4
    requires forall i :: 0 <= i < 4 ==> 0 < |pairs[i].0| && 0 < |pairs[i].1|
    requires IndependentPair(pairs, 0, 1) && IndependentPair(pairs, 0, 2) && IndependentPair(pairs, 0, 3)
    requires IndependentPair(pairs, 1, 2) && IndependentPair(pairs, 1, 3) && IndependentPair(pairs, 2, 3)
    ensures Independent(pairs)
  {
    forall i, j | 0 <= i < 4 && 0 <= j < 4 && i != j ensures Incompatible(pairs[i].0, pairs[j].0) {
      if i < j {
        assert IndependentPair(pairs, i, j);
      } else {
        assert IndependentPair(pairs, j, i);
      }
    }
    forall i, j | 0 <= i < j < 4
      ensures pairs[i].0[0] !in pairs[j].0[1..] && NoCommonChar(pairs[i].1, pairs[j].0)
    {
      assert IndependentPair(pairs, i, j);
    }
  }

  lemma {:induction false} IndependentTail(pairs: seq<(string, string)>)
    requires 0 < |pairs| && Independent(pairs)
    ensures Independent(pairs[1..])
  {
    var t := pairs[1..];
    forall i | 0 <= i < |t| ensures 0 < |t[i].0| && 0 < |t[i].1| {
      assert t[i] == pairs[i + 1];
    }
    forall i, j | 0 <= i < |t| && 0 <= j < |t| && i != j
      ensures Incompatible(t[i].0, t[j].0)
    {
      assert t[i] == pairs[i + 1] && t[j] == pairs[j + 1];
    }
    forall i, j | 0 <= i < j < |t|
      ensures t[i].0[0] !in t[j].0[1..] && NoCommonChar(t[i].1, t[j].0)
    {
      assert t[i] == pairs[i + 1] && t[j] == pairs[j + 1];
    }
  }

  /** With no pairs the scan copies its input. */
  lemma {:induction false} ReplaceSimultaneouslyNoPairs(s: string)
    ensures ReplaceSimultaneously(s, []) == s
    decreases |s|
  {
    if |s| > 0 {
      ReplaceSimultaneouslyNoPairs(s[1..]);
      assert s == [s[0]] + s[1..];
    }
  }

  /** Text holding no first character of a search string is copied unchanged. */
  lemma {:induction false} SimultaneousCopiesPlain(q: string, x: string, pairs: seq<(string, string)>)
    requires forall k :: 0 <= k < |pairs| && 0 < |pairs[k].0| ==> pairs[k].0[0] !in q
    ensures ReplaceSimultaneously(q + x, pairs) == q + ReplaceSimultaneously(x, pairs)
    decreases |q|
  {
    if |q| == 0 {
      assert q + x == x;
    } else {
      var s := q + x;
      assert s[0] == q[0] && q[0] in q;
      assert FirstMatchFrom(s, pairs, 0) == None;
      assert s[1..] == q[1..] + x;
      assert forall c :: c in q[1..] ==> c in q;
      SimultaneousCopiesPlain(q[1..], x, pairs);
    }
  }

  /** Two prefixes of one string are comparable. */
  lemma PrefixesComparable(t: string, a: string, b: string)
    requires HasPrefix(t, a) && HasPrefix(t, b) && |a| <= |b|
    ensures HasPrefix(b, a)
  {
    assert b[..|a|] == t[..|b|][..|a|] == t[..|a|];
  }

  /** The first pass followed by a scan over the remaining pairs equals one scan
      over all the pairs. */
  lemma {:induction false} HeadPass(s: string, pairs: seq<(string, string)>)
    requires 0 < |pairs| && Independent(pairs)
    ensures ReplaceSimultaneously(ReplaceAll(s, pairs[0].0, pairs[0].1), pairs[1..])
         == ReplaceSimultaneously(s, pairs)
    decreases |s|, 1
  {
    if |s| == 0 {
      assert ReplaceAll(s, pairs[0].0, pairs[0].1) == [];
    } else if MatchesAtStart(s, pairs[0].0) {
      HeadPassFirstMatches(s, pairs);
    } else if FirstMatchFrom(s, pairs, 0).Some? {
      HeadPassLaterMatches(s, pairs);
    } else {
      HeadPassNoneMatches(s, pairs);
    }
  }

  lemma {:induction false} HeadPassFirstMatches(s: string, pairs: seq<(string, string)>)
    requires 0 < |pairs| && Independent(pairs) && MatchesAtStart(s, pairs[0].0)
    ensures ReplaceSimultaneously(ReplaceAll(s, pairs[0].0, pairs[0].1), pairs[1..])
         == ReplaceSimultaneously(s, pairs)
    decreases |s|, 0
  {
    var pat, rep, rest := pairs[0].0, pairs[0].1, pairs[1..];
    var y := s[|pat|..];
    assert FirstMatchFrom(s, pairs, 0) == Some(0);
    assert ReplaceAll(s, pat, rep) == rep + ReplaceAll(y, pat, rep);
    forall k | 0 <= k < |rest| && 0 < |rest[k].0| ensures rest[k].0[0] !in rep {
      assert rest[k] == pairs[k + 1];
      assert rest[k].0[0] in rest[k].0;
    }
    SimultaneousCopiesPlain(rep, ReplaceAll(y, pat, rep), rest);
    HeadPass(y, pairs);
  }

  lemma {:induction false} HeadPassLaterMatches(s: string, pairs: seq<(string, string)>)
    requires 0 < |pairs| && Independent(pairs) && !MatchesAtStart(s, pairs[0].0)
    requires FirstMatchFrom(s, pairs, 0).Some?
    ensures ReplaceSimultaneously(ReplaceAll(s, pairs[0].0, pairs[0].1), pairs[1..])
         == ReplaceSimultaneously(s, pairs)
    decreases |s|, 0
  {
    var pat, rep, rest := pairs[0].0, pairs[0].1, pairs[1..];
    var k := FirstMatchFrom(s, pairs, 0).value;
    var pj := pairs[k].0;
    var y := s[|pj|..];
    assert 0 < k;
    assert s == pj + y;
    // the first pass copies the later search string untouched
    assert pat[0] !in pj[1..];
    assert ReplaceAll(s, pat, rep) == pj + ReplaceAll(y, pat, rep) by {
      assert s[1..] == pj[1..] + y;
      ReplaceAllPassThrough(pj[1..], y, pat, rep);
      assert pj == [pj[0]] + pj[1..];
    }
    var t := ReplaceAll(s, pat, rep);
    assert rest[k - 1] == pairs[k];
    assert MatchesAtStart(t, rest[k - 1].0);
    var m := FirstMatchFrom(t, rest, 0);
    assert m == Some(k - 1) by {
      assert m.Some?;
      var other := rest[m.value].0;
      assert other == pairs[m.value + 1].0;
      if |other| <= |pj| {
        PrefixesComparable(t, other, pj);
      } else {
        PrefixesComparable(t, pj, other);
      }
      assert !Incompatible(other, pj);
    }
    assert t[|pj|..] == ReplaceAll(y, pat, rep);
    HeadPass(y, pairs);
  }

  lemma {:induction false} HeadPassNoneMatches(s: string, pairs: seq<(string, string)>)
    requires 0 < |pairs| && Independent(pairs) && 0 < |s|
    requires FirstMatchFrom(s, pairs, 0).None?
    ensures ReplaceSimultaneously(ReplaceAll(s, pairs[0].0, pairs[0].1), pairs[1..])
         == ReplaceSimultaneously(s, pairs)
    decreases |s|, 0
  {
    var pat, rep, rest := pairs[0].0, pairs[0].1, pairs[1..];
    var t := ReplaceAll(s, pat, rep);
    assert !MatchesAtStart(s, pat);
    assert t == [s[0]] + ReplaceAll(s[1..], pat, rep);
    assert FirstMatchFrom(t, rest, 0) == None by {
      forall j | 0 <= j < |rest| ensures !MatchesAtStart(t, rest[j].0) {
        var pj := rest[j].0;
        assert pj == pairs[j + 1].0;
        assert !MatchesAtStart(s, pj);
        MatchSurvivesPass(s, pj, pat, rep);
      }
    }
    assert t[1..] == ReplaceAll(s[1..], pat, rep);
    HeadPass(s[1..], pairs);
  }

  /** A later search string found at the head of a pass's output that copied the
      first character was already at the head of the input. */
  lemma MatchSurvivesPass(s: string, pj: string, pat: string, rep: string)
    requires 0 < |s| && 0 < |pat| && 0 < |rep| && 0 < |pj| && !MatchesAtStart(s, pat)
    requires pat[0] !in pj[1..] && NoCommonChar(rep, pj)
    ensures MatchesAtStart([s[0]] + ReplaceAll(s[1..], pat, rep), pj) ==> MatchesAtStart(s, pj)
  {
    var t := [s[0]] + ReplaceAll(s[1..], pat, rep);
    if MatchesAtStart(t, pj) {
      assert pj[0] == s[0];
      assert HasPrefix(ReplaceAll(s[1..], pat, rep), pj[1..]) by {
        assert ReplaceAll(s[1..], pat, rep) == t[1..];
        assert t[1..][..|pj| - 1] == t[..|pj|][1..];
      }
      forall c | c in pj[1..] ensures c !in rep {
        assert c in pj;
      }
      ReplaceAllReflectsPrefix(s[1..], pj[1..], pat, rep);
      assert s[..|pj|] == [s[0]] + s[1..][..|pj| - 1];
      assert pj == [pj[0]] + pj[1..];
    }
  }

  /** A prefix of the scan's output made of characters that no replacement contains
      was copied from the input. */
  lemma {:induction false} SimultaneousReflectsPrefix(x: string, p: string, pairs: seq<(string, string)>)
    requires forall k :: 0 <= k < |pairs| ==> 0 < |pairs[k].1| && NoCommonChar(p, pairs[k].1)
    ensures HasPrefix(ReplaceSimultaneously(x, pairs), p) ==> HasPrefix(x, p)
    decreases |p|
  {
    var r := ReplaceSimultaneously(x, pairs);
    if |p| > 0 && HasPrefix(r, p) {
      assert |x| > 0;
      assert p[0] in p;
      assert forall k :: 0 <= k < |pairs| ==> pairs[k].1[0] in pairs[k].1;
      assert FirstMatchFrom(x, pairs, 0).None?;
      assert r == [x[0]] + ReplaceSimultaneously(x[1..], pairs);
      assert HasPrefix(ReplaceSimultaneously(x[1..], pairs), p[1..]) by {
        assert ReplaceSimultaneously(x[1..], pairs) == r[1..];
        assert r[1..][..|p| - 1] == r[..|p|][1..];
      }
      forall k | 0 <= k < |pairs| ensures NoCommonChar(p[1..], pairs[k].1) {
        forall c | c in p[1..] ensures c !in pairs[k].1 {
          assert c in p;
        }
      }
      SimultaneousReflectsPrefix(x[1..], p[1..], pairs);
      assert x[..|p|] == [x[0]] + x[1..][..|p| - 1];
      assert p == [p[0]] + p[1..];
    }
  }

  /** Main law: for independent pairs, PHP's chain of passes is one simultaneous scan. */
  lemma {:induction false} StrReplaceIsSimultaneous(s: string, pairs: seq<(string, string)>)
    requires Independent(pairs)
    ensures StrReplace(s, pairs) == ReplaceSimultaneously(s, pairs)
    decreases |pairs|
  {
    if |pairs| == 0 {
      ReplaceSimultaneouslyNoPairs(s);
    } else {
      IndependentTail(pairs);
      StrReplaceIsSimultaneous(ReplaceAll(s, pairs[0].0, pairs[0].1), pairs[1..]);
      HeadPass(s, pairs);
    }
  }
}
