/** The tag finder used by the protection step: all matches, left to right, of the
    fixed pattern `&lt;(.*?)&gt;|<(.*?)>` with dot matching newlines. At each position
    the escaped alternative is tried first and takes text up to the first following
    `&gt;`; otherwise a `<` takes text up to the first following `>`; after a match the
    scan resumes where the match ended, so matches never overlap. The pattern has no
    UTF-8 flag, but every boundary it can match is an ASCII character, so scanning code
    points finds the same matches as PCRE scanning bytes. */
module TagSpans {
  import opened Wrappers
  import opened Php

  /** A match occupies `s[start..end]`. */
  datatype Span = Span(start: nat, end: nat)

  /** `t` is an escaped tag as the lazy alternative takes it: `&lt;`, then text holding
      no `&gt;`, then the first `&gt;`. */
  predicate IsEscapedTag(t: string)
  {
    && 8 <= |t| && HasPrefix(t, "&lt;") && OccursAt(t, "&gt;", |t| - 4)
    && forall k :: 4 <= k < |t| - 4 ==> !OccursAt(t, "&gt;", k)
  }

  /** `t` is a raw tag as the lazy alternative takes it: `<`, text without `>`, `>`. */
  predicate IsRawTag(t: string)
  {
    2 <= |t| && t[0] == '<' && t[|t| - 1] == '>' && '>' !in t[1..|t| - 1]
  }

  predicate IsTagSpan(s: string, sp: Span)
  {
    sp.start < sp.end <= |s| && (IsEscapedTag(s[sp.start..sp.end]) || IsRawTag(s[sp.start..sp.end]))
  }

  /** An `&lt;` at `p` closed by the first `&gt;` after it is an escaped tag. */
  lemma EscapedMatchIsTag(s: string, p: nat, q: nat)
    requires OccursAt(s, "&lt;", p) && IndexOf(s, "&gt;", p + 4) == Some(q)
    ensures IsTagSpan(s, Span(p, q + 4)) && IsEscapedTag(s[p..q + 4])
  {
    var t := s[p..q + 4];
    OccursInSlice(s, p, q + 4, "&lt;", 0);
    OccursInSlice(s, p, q + 4, "&gt;", |t| - 4);
    EscapedInterior(s, p, q, t);
  }

  /** Between the `&lt;` at `p` and the first `&gt;` at `q` the slice holds no `&gt;`. */
  lemma EscapedInterior(s: string, p: nat, q: nat, t: string)
    requires p + 4 <= q && q + 4 <= |s| && t == s[p..q + 4]
    requires forall k :: p + 4 <= k < q ==> !OccursAt(s, "&gt;", k)
    ensures forall k :: 4 <= k < |t| - 4 ==> !OccursAt(t, "&gt;", k)
  {
    forall k | 4 <= k < |t| - 4 ensures !OccursAt(t, "&gt;", k) {
      OccursInSlice(s, p, q + 4, "&gt;", k);
    }
  }

  /** A `<` at `p` closed by the first `>` after it is a raw tag. */
  lemma RawMatchIsTag(s: string, p: nat, q: nat)
    requires p < |s| && s[p] == '<' && IndexOf(s, ">", p + 1) == Some(q)
    ensures IsTagSpan(s, Span(p, q + 1)) && IsRawTag(s[p..q + 1])
  {
    var t := s[p..q + 1];
    assert s[q..q + 1] == [s[q]];
    forall k | 1 <= k < |t| - 1 ensures t[k] != '>' {
      assert !OccursAt(s, ">", p + k);
      assert s[p + k..p + k + 1] == [t[k]];
    }
  }

  /** One of the two alternatives matches at `i`: an `&lt;` with a later `&gt;`, or a
      `<` with a later `>`. */
  predicate MatchStartsAt(s: string, i: nat)
  {
    && i < |s|
    && ((OccursAt(s, "&lt;", i) && IndexOf(s, "&gt;", i + 4).Some?) || (s[i] == '<' && IndexOf(s, ">", i + 1).Some?))
  }

  /** Position `i` lies inside one of the spans. */
  predicate Covered(spans: seq<Span>, i: nat)
  {
    exists k :: 0 <= k < |spans| && spans[k].start <= i < spans[k].end
  }

  /** The matches found by scanning `s` from position `p` on: tag spans, left to right
      and disjoint, and no position from `p` on where a match could start is left
      outside them. */
  function SpansFrom(s: string, p: nat): (r: seq<Span>)
    ensures forall k :: 0 <= k < |r| ==> p <= r[k].start && IsTagSpan(s, r[k])
    ensures forall k :: 0 < k < |r| ==> r[k - 1].end <= r[k].start
    ensures forall i :: p <= i && MatchStartsAt(s, i) ==> Covered(r, i)
    decreases |s| - p
  {
    if p >= |s| then []
    else if OccursAt(s, "&lt;", p) && IndexOf(s, "&gt;", p + 4).Some? then
      var q := IndexOf(s, "&gt;", p + 4).value;
      EscapedMatchIsTag(s, p, q);
      CoverCons(s, Span(p, q + 4), SpansFrom(s, q + 4));
      [Span(p, q + 4)] + SpansFrom(s, q + 4)
    else if s[p] == '<' && IndexOf(s, ">", p + 1).Some? then
      var q := IndexOf(s, ">", p + 1).value;
      RawMatchIsTag(s, p, q);
      CoverCons(s, Span(p, q + 1), SpansFrom(s, q + 1));
      [Span(p, q + 1)] + SpansFrom(s, q + 1)
    else SpansFrom(s, p + 1)
  }

  /** A span in front of spans that cover every match start from its end on covers
      every match start from its start on. */
  lemma CoverCons(s: string, sp: Span, rest: seq<Span>)
    requires forall i :: sp.end <= i && MatchStartsAt(s, i) ==> Covered(rest, i)
    ensures forall i :: sp.start <= i && MatchStartsAt(s, i) ==> Covered([sp] + rest, i)
  {
    var r := [sp] + rest;
    forall i | sp.start <= i && MatchStartsAt(s, i) ensures Covered(r, i) {
      if i < sp.end {
        assert r[0] == sp;
      } else {
        var k :| 0 <= k < |rest| && rest[k].start <= i < rest[k].end;
        assert r[k + 1] == rest[k];
      }
    }
  }

  /** A stretch without `<` and without `&lt;` is skipped by the scan. */
  lemma {:induction false} NoTagsBetween(s: string, p: nat, q: nat)
    requires p <= q <= |s|
    requires forall i :: p <= i < q ==> s[i] != '<' && !OccursAt(s, "&lt;", i)
    ensures SpansFrom(s, p) == SpansFrom(s, q)
    decreases q - p
  {
    if p < q {
      NoTagsBetween(s, p + 1, q);
    }
  }

  /** A `<` that is not the start of an `&lt;` and is closed by a `>` at `q` is the
      next match. */
  lemma RawSpanStep(s: string, p: nat, q: nat)
    requires p < |s| && s[p] == '<' && !OccursAt(s, "&lt;", p) && IndexOf(s, ">", p + 1) == Some(q)
    ensures SpansFrom(s, p) == [Span(p, q + 1)] + SpansFrom(s, q + 1)
  {
  }

  /** A `<` whose first following `>` is at `q` starts the next match. */
  lemma RawSpanAt(s: string, p: nat, q: nat)
    requires p < q < |s| && s[p] == '<' && s[q] == '>'
    requires forall j :: p < j < q ==> s[j] != '>'
    ensures SpansFrom(s, p) == [Span(p, q + 1)] + SpansFrom(s, q + 1)
  {
    NotOccursAt(s, "&lt;", p);
    forall j | p + 1 <= j < q ensures !OccursAt(s, ">", j) {
      OccursAtChar(s, '>', j);
    }
    OccursAtChar(s, '>', q);
    IndexOfIs(s, ">", p + 1, q);
  }

  /** An `&lt;` followed, with no `&` in between, by an `&gt;` at `q` starts the next
      match. */
  lemma EscapedSpanAt(s: string, p: nat, q: nat)
    requires p + 4 <= q && OccursAt(s, "&lt;", p) && OccursAt(s, "&gt;", q)
    requires forall j :: p + 4 <= j < q ==> s[j] != '&'
    ensures SpansFrom(s, p) == [Span(p, q + 4)] + SpansFrom(s, q + 4)
  {
    forall j | p + 4 <= j < q ensures !OccursAt(s, "&gt;", j) {
      NotOccursAt(s, "&gt;", j);
    }
    IndexOfIs(s, "&gt;", p + 4, q);
  }

  /** A stretch holding neither `<` nor `&` holds no match. */
  lemma PlainStretch(s: string, p: nat, q: nat)
    requires p <= q <= |s|
    requires forall i :: p <= i < q ==> s[i] != '<' && s[i] != '&'
    ensures SpansFrom(s, p) == SpansFrom(s, q)
  {
    forall i | p <= i < q ensures s[i] != '<' && !OccursAt(s, "&lt;", i) {
      NotOccursAt(s, "&lt;", i);
    }
    NoTagsBetween(s, p, q);
  }

  /** A raw tag running to the end of `s` is the last match. */
  lemma LastRawTag(s: string, p: nat)
    requires p < |s| - 1 && s[p] == '<' && s[|s| - 1] == '>'
    requires forall j :: p < j < |s| - 1 ==> s[j] != '>'
    ensures SpansFrom(s, p) == [Span(p, |s|)]
  {
    RawSpanAt(s, p, |s| - 1);
    assert SpansFrom(s, |s|) == [];
  }

  /** An escaped tag running to the end of `s` is the last match. */
  lemma LastEscapedTag(s: string, p: nat)
    requires p + 8 <= |s| && OccursAt(s, "&lt;", p) && OccursAt(s, "&gt;", |s| - 4)
    requires forall j :: p + 4 <= j < |s| - 4 ==> s[j] != '&'
    ensures SpansFrom(s, p) == [Span(p, |s|)]
  {
    EscapedSpanAt(s, p, |s| - 4);
    assert SpansFrom(s, |s|) == [];
  }

  /** A raw tag `s[..q + 1]`, text without `<` or `&`, and a raw tag running to the end
      are the only matches. */
  lemma TwoRawSpans(s: string, q: nat, p: nat)
    requires 0 < q < p < |s| - 1
    requires s[0] == '<' && s[q] == '>' && s[p] == '<' && s[|s| - 1] == '>'
    requires forall j :: 0 < j < q ==> s[j] != '>'
    requires forall i :: q < i < p ==> s[i] != '<' && s[i] != '&'
    requires forall j :: p < j < |s| - 1 ==> s[j] != '>'
    ensures Spans(s) == [Span(0, q + 1), Span(p, |s|)]
  {
    LastRawTag(s, p);
    PlainStretch(s, q + 1, p);
    RawSpanAt(s, 0, q);
  }

  /** An escaped tag `s[..q + 4]`, text without `<` or `&`, and an escaped tag running
      to the end are the only matches. */
  lemma TwoEscapedSpans(s: string, q: nat, p: nat)
    requires 4 <= q && q + 4 <= p && p + 8 <= |s|
    requires OccursAt(s, "&lt;", 0) && OccursAt(s, "&gt;", q)
    requires OccursAt(s, "&lt;", p) && OccursAt(s, "&gt;", |s| - 4)
    requires forall j :: 4 <= j < q ==> s[j] != '&'
    requires forall i :: q + 4 <= i < p ==> s[i] != '<' && s[i] != '&'
    requires forall j :: p + 4 <= j < |s| - 4 ==> s[j] != '&'
    ensures Spans(s) == [Span(0, q + 4), Span(p, |s|)]
  {
    LastEscapedTag(s, p);
    PlainStretch(s, q + 4, p);
    EscapedSpanAt(s, 0, q);
  }

  /** The matched texts of two raw tags around plain text. */
  lemma TwoRawTags(s: string, q: nat, p: nat)
    requires 0 < q < p < |s| - 1
    requires s[0] == '<' && s[q] == '>' && s[p] == '<' && s[|s| - 1] == '>'
    requires forall j :: 0 < j < q ==> s[j] != '>'
    requires forall i :: q < i < p ==> s[i] != '<' && s[i] != '&'
    requires forall j :: p < j < |s| - 1 ==> s[j] != '>'
    ensures Elements(s) == [s[..q + 1], s[p..]]
  {
    TwoRawSpans(s, q, p);
    var r := Elements(s);
    assert r[0] == s[..q + 1] && r[1] == s[p..];
  }

  /** The matched texts of two escaped tags around plain text. */
  lemma TwoEscapedTags(s: string, q: nat, p: nat)
    requires 4 <= q && q + 4 <= p && p + 8 <= |s|
    requires OccursAt(s, "&lt;", 0) && OccursAt(s, "&gt;", q)
    requires OccursAt(s, "&lt;", p) && OccursAt(s, "&gt;", |s| - 4)
    requires forall j :: 4 <= j < q ==> s[j] != '&'
    requires forall i :: q + 4 <= i < p ==> s[i] != '<' && s[i] != '&'
    requires forall j :: p + 4 <= j < |s| - 4 ==> s[j] != '&'
    ensures Elements(s) == [s[..q + 4], s[p..]]
  {
    TwoEscapedSpans(s, q, p);
    var r := Elements(s);
    assert r[0] == s[..q + 4] && r[1] == s[p..];
  }

  /** All matches of the tag pattern in `s`, in order. */
  function Spans(s: string): (r: seq<Span>)
    ensures forall k :: 0 <= k < |r| ==> IsTagSpan(s, r[k])
    ensures forall k :: 0 < k < |r| ==> r[k - 1].end <= r[k].start
    ensures forall i :: MatchStartsAt(s, i) ==> Covered(r, i)
  {
    SpansFrom(s, 0)
  }

  /** The matched texts, `$matches[0]` in the source. */
  function Elements(s: string): (r: seq<string>)
    ensures |r| == |Spans(s)|
    ensures forall k :: 0 <= k < |r| ==> r[k] == s[Spans(s)[k].start..Spans(s)[k].end]
  {
    var sp := Spans(s);
    seq(|sp|, k requires 0 <= k < |sp| => s[sp[k].start..sp[k].end])
  }
}
