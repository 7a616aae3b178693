/** The two patterns that extractFullURLs applies to a response body, and
    Go's FindAllString(body, -1) over each: the leftmost match, then the
    leftmost match after it, and so on, without overlap.

    The body is a sequence of characters. Both patterns name only ASCII
    characters, so matching decoded characters and matching UTF-8 bytes put
    the match boundaries in the same places. */
module Patterns {

  /** Absolute is `https?://[^\s"'>]+`; Relative is `(?m)^/[\w/.-]+/$`. */
  datatype Pattern = Absolute | Relative

  /** The positions [start, end) of one match in the body. */
  datatype Span = Span(start: nat, end: nat)

  /** RE2's `\s`: tab, newline, form feed, carriage return and space. */
  predicate IsSpace(c: char)
  {
    c == '\t' || c == '\n' || c == '\U{C}' || c == '\r' || c == ' '
  }

  /** A character the absolute pattern cannot take: `\s`, `"`, `'` or `>`. */
  predicate IsTerminator(c: char)
  {
    IsSpace(c) || c == '"' || c == '\'' || c == '>'
  }

  /** RE2's `\w`: ASCII letters, digits and underscore. */
  predicate IsWordChar(c: char)
  {
    ('a' <= c <= 'z') || ('A' <= c <= 'Z') || ('0' <= c <= '9') || c == '_'
  }

  /** The class `[\w/.-]` of the relative pattern. */
  predicate IsPathChar(c: char)
  {
    IsWordChar(c) || c == '/' || c == '.' || c == '-'
  }

  /** `w` occurs in `s` at position `k`. */
  predicate HasPrefixAt(s: string, k: nat, w: string)
  {
    k + |w| <= |s| && s[k..k + |w|] == w
  }

  /** s[i..j] is the match that the pattern makes when it starts at i.
      An absolute match takes the longest run of non-terminators after the
      scheme, so it ends at a terminator or at the end of the body. A
      relative match is a whole line, so it starts at the beginning of the
      body or after a newline and ends at a newline or at the end. */
  ghost predicate IsMatch(p: Pattern, s: string, i: nat, j: nat)
  {
    match p
    case Absolute =>
      && j <= |s|
      && ((HasPrefixAt(s, i, "http://") && i + 7 < j) || (HasPrefixAt(s, i, "https://") && i + 8 < j))
      && (forall k :: i <= k < j ==> !IsTerminator(s[k]))
      && (j == |s| || IsTerminator(s[j]))
    case Relative =>
      && i + 3 <= j <= |s|
      && (i == 0 || s[i - 1] == '\n')
      && s[i] == '/' && s[j - 1] == '/'
      && (forall k :: i <= k < j ==> IsPathChar(s[k]))
      && (j == |s| || s[j] == '\n')
  }

  /** The first position at or after `k` that holds a terminator, or |s|. */
  function RunEnd(s: string, k: nat): (e: nat)
    requires k <= |s|
    ensures k <= e <= |s|
    ensures forall m :: k <= m < e ==> !IsTerminator(s[m])
    ensures e == |s| || IsTerminator(s[e])
    decreases |s| - k
  {
    if k == |s| || IsTerminator(s[k]) then k else RunEnd(s, k + 1)
  }

  /** The first position at or after `k` that holds a character outside
      `[\w/.-]`, or |s|. */
  function PathRunEnd(s: string, k: nat): (e: nat)
    requires k <= |s|
    ensures k <= e <= |s|
    ensures forall m :: k <= m < e ==> IsPathChar(s[m])
    ensures e == |s| || !IsPathChar(s[e])
    decreases |s| - k
  {
    if k == |s| || !IsPathChar(s[k]) then k else PathRunEnd(s, k + 1)
  }

  /** PathRunEnd(s, k) is the only position that bounds a run of `[\w/.-]`
      from `k` with another character or the end of the body. */
  lemma PathRunEndIs(s: string, k: nat, e: nat)
    requires k <= e <= |s|
    requires forall m :: k <= m < e ==> IsPathChar(s[m])
    requires e == |s| || !IsPathChar(s[e])
    ensures PathRunEnd(s, k) == e
  {
  }

  /** The length of the scheme `https://` or `http://` at `k`, or 0. */
  function SchemeLength(s: string, k: nat): nat
  {
    if HasPrefixAt(s, k, "https://") then 8
    else if HasPrefixAt(s, k, "http://") then 7
    else 0
  }

  /** The pattern has a match starting at `k`. */
  predicate StartsAt(p: Pattern, s: string, k: nat)
    requires k <= |s|
  {
    match p
    case Absolute =>
      var n := SchemeLength(s, k);
      n > 0 && k + n < |s| && !IsTerminator(s[k + n])
    case Relative =>
      && k < |s| && (k == 0 || s[k - 1] == '\n') && s[k] == '/'
      && var e := PathRunEnd(s, k);
      k + 3 <= e && s[e - 1] == '/' && (e == |s| || s[e] == '\n')
  }

  /** Where the match starting at `k` ends. */
  function EndAt(p: Pattern, s: string, k: nat): (e: nat)
    requires k <= |s| && StartsAt(p, s, k)
    ensures k < e <= |s|
  {
    match p
    case Absolute => RunEnd(s, k + SchemeLength(s, k))
    case Relative => PathRunEnd(s, k)
  }

  /** For each position of `s`, where the match starting there ends, or 0
      when the pattern has no match there. */
  function MatchEnds(p: Pattern, s: string): (t: seq<nat>)
    ensures |t| == |s|
    ensures forall k :: 0 <= k < |t| ==> t[k] <= |t|
  {
    seq(|s|, k requires 0 <= k < |s| => if StartsAt(p, s, k) then EndAt(p, s, k) else 0)
  }

  /** Every entry of a table of match ends is a position of the body. */
  ghost predicate ValidEnds(t: seq<nat>)
  {
    forall k :: 0 <= k < |t| ==> t[k] <= |t|
  }

  /** Reference definition of FindAllString, given the table of match ends:
      the spans of the matches found by searching from `from`, each search
      resuming where the last match ended. */
  function SpansOf(t: seq<nat>, from: nat): (r: seq<Span>)
    requires ValidEnds(t) && from <= |t|
    ensures forall n :: 0 <= n < |r| ==> from <= r[n].start < r[n].end <= |t|
    decreases |t| - from
  {
    if from == |t| then []
    else if t[from] > from then [Span(from, t[from])] + SpansOf(t, t[from])
    else SpansOf(t, from + 1)
  }

  /** The spans FindAllString reports for pattern `p` in `s`. */
  function Spans(p: Pattern, s: string): (r: seq<Span>)
    ensures forall n :: 0 <= n < |r| ==> r[n].start < r[n].end <= |s|
  {
    SpansOf(MatchEnds(p, s), 0)
  }

  /** The texts of the given spans of `s`. */
  function Texts(s: string, spans: seq<Span>): seq<string>
    requires forall n :: 0 <= n < |spans| ==> spans[n].start <= spans[n].end <= |s|
  {
    seq(|spans|, n requires 0 <= n < |spans| => s[spans[n].start..spans[n].end])
  }

  /** FindAllString(s, -1) for pattern `p`. */
  function FindAllString(p: Pattern, s: string): seq<string>
  {
    Texts(s, Spans(p, s))
  }

  /** No character of a scheme is a terminator. */
  lemma SchemeHasNoTerminator(s: string, i: nat, w: string, j: nat)
    requires w == "http://" || w == "https://"
    requires HasPrefixAt(s, i, w) && i <= j < i + |w|
    ensures !IsTerminator(s[j])
  {
    assert s[j] == s[i..i + |w|][j - i] == w[j - i];
  }

  /** `http://` and `https://` cannot both occur at one position. */
  lemma SchemesExclusive(s: string, i: nat)
    ensures !(HasPrefixAt(s, i, "http://") && HasPrefixAt(s, i, "https://"))
  {
    if HasPrefixAt(s, i, "http://") {
      assert s[i + 4] == s[i..i + 7][4];
    }
    if HasPrefixAt(s, i, "https://") {
      assert s[i + 4] == s[i..i + 8][4];
    }
  }

  /** StartsAt finds the match IsMatch describes. */
  lemma MatchAt(p: Pattern, s: string, i: nat)
    requires i <= |s| && StartsAt(p, s, i)
    ensures IsMatch(p, s, i, EndAt(p, s, i))
  {
    if p.Absolute? {
      var n := SchemeLength(s, i);
      var w := if n == 8 then "https://" else "http://";
      forall k | i <= k < i + n
        ensures !IsTerminator(s[k])
      {
        SchemeHasNoTerminator(s, i, w, k);
      }
    }
  }

  /** A match starting at `i` is the one StartsAt and EndAt find: the end of
      a match is determined by its start. */
  lemma MatchDetermined(p: Pattern, s: string, i: nat, j: nat)
    requires IsMatch(p, s, i, j)
    ensures i <= |s| && StartsAt(p, s, i) && j == EndAt(p, s, i)
  {
    SchemesExclusive(s, i);
    if p.Absolute? {
      var n := SchemeLength(s, i);
      assert !IsTerminator(s[i + n]);
    }
  }

  /** Where the n-th gap between the spans begins: at `from` before the
      first span, and after the end of span n - 1 otherwise. */
  function GapStart(from: nat, spans: seq<Span>, n: nat): nat
    requires n <= |spans|
  {
    if n == 0 then from else spans[n - 1].end
  }

  /** Where the n-th gap ends: at the start of span n, or at `limit` after
      the last span. */
  function GapEnd(spans: seq<Span>, n: nat, limit: nat): nat
    requires n <= |spans|
  {
    if n == |spans| then limit else spans[n].start
  }

  /** `spans` is what a FindAll that starts searching at `from` must return:
      each span is a match at or after `from`; the spans come in body order
      and do not overlap; and no match starts in a gap between them (before
      the first, between two, or after the last), so no match was skipped. */
  ghost predicate IsFindAllResultFrom(p: Pattern, s: string, from: nat, spans: seq<Span>)
  {
    && (forall n :: 0 <= n < |spans| ==> from <= spans[n].start && IsMatch(p, s, spans[n].start, spans[n].end))
    && (forall m, n :: 0 <= m < n < |spans| ==> spans[m].end <= spans[n].start)
    && (forall n, i, j :: 0 <= n <= |spans| && GapStart(from, spans, n) <= i < GapEnd(spans, n, |s|)
          ==> !IsMatch(p, s, i, j))
  }

  /** The same description in terms of a table of match ends. */
  ghost predicate ScanResultFrom(t: seq<nat>, from: nat, spans: seq<Span>)
  {
    && (forall n :: 0 <= n < |spans| ==>
          from <= spans[n].start < |t| && spans[n].start < spans[n].end == t[spans[n].start])
    && (forall m, n :: 0 <= m < n < |spans| ==> spans[m].end <= spans[n].start)
    && (forall n, i :: 0 <= n <= |spans| && GapStart(from, spans, n) <= i < GapEnd(spans, n, |t|)
          ==> t[i] <= i)
  }

  /** MatchEnds(p, s) tabulates IsMatch: there is a match s[i..j] exactly
      when the table says that the match at i ends at j. */
  lemma MatchEndsAgree(p: Pattern, s: string, i: nat, j: nat)
    ensures IsMatch(p, s, i, j) <==> i < |s| && i < j && MatchEnds(p, s)[i] == j
  {
    if IsMatch(p, s, i, j) {
      MatchDetermined(p, s, i, j);
    }
    if i < |s| && i < j && MatchEnds(p, s)[i] == j {
      assert StartsAt(p, s, i);
      MatchAt(p, s, i);
    }
  }

  /** The two descriptions agree on the table MatchEnds(p, s). */
  lemma ScanResultIsFindAllResult(p: Pattern, s: string, from: nat, spans: seq<Span>)
    ensures IsFindAllResultFrom(p, s, from, spans) <==> ScanResultFrom(MatchEnds(p, s), from, spans)
  {
    var t := MatchEnds(p, s);
    if IsFindAllResultFrom(p, s, from, spans) {
      forall n | 0 <= n < |spans|
        ensures from <= spans[n].start < |t| && spans[n].start < spans[n].end == t[spans[n].start]
      {
        MatchEndsAgree(p, s, spans[n].start, spans[n].end);
      }
      forall n, i | 0 <= n <= |spans| && GapStart(from, spans, n) <= i < GapEnd(spans, n, |t|)
        ensures t[i] <= i
      {
        MatchEndsAgree(p, s, i, t[i]);
      }
    }
    if ScanResultFrom(t, from, spans) {
      forall n | 0 <= n < |spans|
        ensures IsMatch(p, s, spans[n].start, spans[n].end)
      {
        MatchEndsAgree(p, s, spans[n].start, spans[n].end);
      }
      forall n, i, j: nat | 0 <= n <= |spans| && GapStart(from, spans, n) <= i < GapEnd(spans, n, |s|)
        ensures !IsMatch(p, s, i, j)
      {
        MatchEndsAgree(p, s, i, j);
      }
    }
  }

  /** A match at `from` followed by the result of searching from its end is
      the result of searching from `from`. */
  lemma ScanResultCons(t: seq<nat>, from: nat, rest: seq<Span>)
    requires from < |t| && from < t[from]
    requires ScanResultFrom(t, t[from], rest)
    ensures ScanResultFrom(t, from, [Span(from, t[from])] + rest)
  {
    var r := [Span(from, t[from])] + rest;
    forall n | 0 < n < |r|
      ensures r[n] == rest[n - 1]
    {
    }
    forall n | 0 < n <= |r|
      ensures GapStart(from, r, n) == GapStart(t[from], rest, n - 1)
      ensures GapEnd(r, n, |t|) == GapEnd(rest, n - 1, |t|)
    {
    }
  }

  /** Without a match at `from`, searching from `from` finds what searching
      from `from + 1` finds. */
  lemma ScanResultSkip(t: seq<nat>, from: nat, r: seq<Span>)
    requires from < |t| && t[from] <= from
    requires ScanResultFrom(t, from + 1, r)
    ensures ScanResultFrom(t, from, r)
  {
    forall n, i | 0 <= n <= |r| && GapStart(from, r, n) <= i < GapEnd(r, n, |t|)
      ensures t[i] <= i
    {
      if i > from {
        assert GapStart(from + 1, r, n) <= i;
      }
    }
  }

  /** The reference spans meet the description. */
  lemma {:induction false} SpansAreScanResult(t: seq<nat>, from: nat)
    requires ValidEnds(t) && from <= |t|
    ensures ScanResultFrom(t, from, SpansOf(t, from))
    decreases |t| - from
  {
    if from < |t| && t[from] > from {
      SpansAreScanResult(t, t[from]);
      ScanResultCons(t, from, SpansOf(t, t[from]));
    } else if from < |t| {
      SpansAreScanResult(t, from + 1);
      ScanResultSkip(t, from, SpansOf(t, from + 1));
    }
  }

  /** Where a match starts at `from`, spans that meet the description begin
      with that match, and the rest meet it from the match's end. */
  lemma ScanResultHead(t: seq<nat>, from: nat, spans: seq<Span>)
    requires from < |t| && t[from] > from
    requires ScanResultFrom(t, from, spans)
    ensures spans != [] && spans[0] == Span(from, t[from])
    ensures ScanResultFrom(t, t[from], spans[1..])
  {
    assert GapStart(from, spans, 0) <= from;
    assert spans != [] && spans[0].start == from;
    var rest := spans[1..];
    forall n | 0 <= n < |rest|
      ensures rest[n] == spans[n + 1] && t[from] <= rest[n].start
    {
      assert spans[0].end <= spans[n + 1].start;
    }
    forall n | 0 <= n <= |rest|
      ensures GapStart(t[from], rest, n) == GapStart(from, spans, n + 1)
      ensures GapEnd(rest, n, |t|) == GapEnd(spans, n + 1, |t|)
    {
    }
  }

  /** Where no match starts at `from`, spans that meet the description from
      `from` meet it from `from + 1`. */
  lemma ScanResultNext(t: seq<nat>, from: nat, spans: seq<Span>)
    requires from < |t| && t[from] <= from
    requires ScanResultFrom(t, from, spans)
    ensures ScanResultFrom(t, from + 1, spans)
  {
    forall n | 0 <= n < |spans|
      ensures from + 1 <= spans[n].start
    {
    }
  }

  /** Any spans that meet the description are the reference spans. */
  lemma {:induction false} ScanResultUnique(t: seq<nat>, from: nat, spans: seq<Span>)
    requires ValidEnds(t) && from <= |t|
    requires ScanResultFrom(t, from, spans)
    ensures spans == SpansOf(t, from)
    decreases |t| - from
  {
    if from == |t| {
      if spans != [] {
        assert false;
      }
    } else if t[from] > from {
      ScanResultHead(t, from, spans);
      ScanResultUnique(t, t[from], spans[1..]);
      assert spans == [spans[0]] + spans[1..];
    } else {
      ScanResultNext(t, from, spans);
      ScanResultUnique(t, from + 1, spans);
    }
  }

  /** FindAllString(s, -1) and the description of its result agree: the
      reference spans meet it, and no other spans do. */
  lemma FindAllCharacterized(p: Pattern, s: string, spans: seq<Span>)
    ensures IsFindAllResultFrom(p, s, 0, Spans(p, s))
    ensures IsFindAllResultFrom(p, s, 0, spans) <==> spans == Spans(p, s)
  {
    var t := MatchEnds(p, s);
    SpansAreScanResult(t, 0);
    ScanResultIsFindAllResult(p, s, 0, Spans(p, s));
    ScanResultIsFindAllResult(p, s, 0, spans);
    if ScanResultFrom(t, 0, spans) {
      ScanResultUnique(t, 0, spans);
    }
  }

  /** Tries the pattern at `pos`: returns the end of the match starting
      there, or 0 when there is none. */
  method TryMatch(p: Pattern, s: string, pos: nat) returns (end: nat)
    requires pos < |s|
    ensures end > pos ==> IsMatch(p, s, pos, end)
    ensures end <= pos ==> forall j: nat :: !IsMatch(p, s, pos, j)
  {
    end := 0;
    match p
    case Absolute =>
      SchemesExclusive(s, pos);
      var n := 0;
      if pos + 8 <= |s| && s[pos..pos + 8] == "https://" {
        n := 8;
      } else if pos + 7 <= |s| && s[pos..pos + 7] == "http://" {
        n := 7;
      }
      if n > 0 && pos + n < |s| && !IsTerminator(s[pos + n]) {
        var e := pos + n + 1;
        while e < |s| && !IsTerminator(s[e])
          invariant pos + n < e <= |s|
          invariant forall m :: pos + n <= m < e ==> !IsTerminator(s[m])
        {
          e := e + 1;
        }
        var w := if n == 8 then "https://" else "http://";
        forall k | pos <= k < pos + n
          ensures !IsTerminator(s[k])
        {
          SchemeHasNoTerminator(s, pos, w, k);
        }
        end := e;
      }
    case Relative =>
      if (pos == 0 || s[pos - 1] == '\n') && s[pos] == '/' {
        var e := pos + 1;
        while e < |s| && IsPathChar(s[e])
          invariant pos < e <= |s|
          invariant forall m :: pos <= m < e ==> IsPathChar(s[m])
        {
          e := e + 1;
        }
        if pos + 3 <= e && s[e - 1] == '/' && (e == |s| || s[e] == '\n') {
          end := e;
        } else {
          forall j: nat | IsMatch(p, s, pos, j)
            ensures false
          {
          }
        }
      }
  }

  /** The text of an absolute match: a scheme, then at least one character,
      and no terminator anywhere. */
  predicate IsAbsoluteURL(m: string)
  {
    && ((|m| > 7 && m[..7] == "http://") || (|m| > 8 && m[..8] == "https://"))
    && (forall k :: 0 <= k < |m| ==> !IsTerminator(m[k]))
  }

  /** The text of a relative match: at least three characters of
      `[\w/.-]`, the first and the last a slash. */
  predicate IsRelativePath(m: string)
  {
    && |m| >= 3 && m[0] == '/' && m[|m| - 1] == '/'
    && (forall k :: 0 <= k < |m| ==> IsPathChar(m[k]))
  }

  /** Each string FindAllString returns is one of the spans it reports. */
  lemma FoundTextIsMatch(p: Pattern, s: string, m: string) returns (i: nat, j: nat)
    requires m in FindAllString(p, s)
    ensures IsMatch(p, s, i, j) && i <= j <= |s| && m == s[i..j]
  {
    var spans := Spans(p, s);
    FindAllCharacterized(p, s, spans);
    var n :| 0 <= n < |spans| && Texts(s, spans)[n] == m;
    i, j := spans[n].start, spans[n].end;
  }

  /** Every absolute match is an http or https URL without terminators. */
  lemma AbsoluteMatchShape(s: string, m: string)
    requires m in FindAllString(Absolute, s)
    ensures IsAbsoluteURL(m)
  {
    var i, j := FoundTextIsMatch(Absolute, s, m);
    if HasPrefixAt(s, i, "http://") && i + 7 < j {
      assert m[..7] == s[i..i + 7];
    } else {
      assert m[..8] == s[i..i + 8];
    }
    forall k | 0 <= k < |m|
      ensures !IsTerminator(m[k])
    {
      assert m[k] == s[i + k];
    }
  }

  /** Every relative match is a slash-delimited path of `[\w/.-]`, and it
      fills a whole line of the body. */
  lemma RelativeMatchShape(s: string, m: string)
    requires m in FindAllString(Relative, s)
    ensures IsRelativePath(m)
    ensures exists i: nat :: HasPrefixAt(s, i, m) && (i == 0 || s[i - 1] == '\n') &&
                             (i + |m| == |s| || s[i + |m|] == '\n')
  {
    var i, j := FoundTextIsMatch(Relative, s, m);
    forall k | 0 <= k < |m|
      ensures IsPathChar(m[k])
    {
      assert m[k] == s[i + k];
    }
    assert HasPrefixAt(s, i, m);
  }

  /** Every match has at least one character. */
  lemma MatchNonEmpty(p: Pattern, s: string, i: nat, j: nat)
    requires IsMatch(p, s, i, j)
    ensures i < j
  {
  }

  /** No span of an ordered, non-overlapping list of non-empty spans starts
      inside one of its gaps. */
  lemma GapHoldsNoStart(spans: seq<Span>, from: nat, limit: nat, n: nat, i: nat, m: nat)
    requires forall k :: 0 <= k < |spans| ==> spans[k].start < spans[k].end
    requires forall k, l :: 0 <= k < l < |spans| ==> spans[k].end <= spans[l].start
    requires n <= |spans| && GapStart(from, spans, n) <= i < GapEnd(spans, n, limit)
    requires m < |spans|
    ensures spans[m].start != i
  {
    if m < n {
      assert spans[m].end <= spans[n - 1].end;
    } else {
      assert spans[n].start <= spans[m].start;
    }
  }

  /** When no match starts anywhere except at the starts of the given
      matches, which come in order without overlap, those matches are what
      FindAllString reports. */
  lemma SpansFromStarts(p: Pattern, s: string, spans: seq<Span>)
    requires forall n :: 0 <= n < |spans| ==> IsMatch(p, s, spans[n].start, spans[n].end)
    requires forall m, n :: 0 <= m < n < |spans| ==> spans[m].end <= spans[n].start
    requires forall i :: 0 <= i < |s| && (forall n :: 0 <= n < |spans| ==> spans[n].start != i) ==>
               MatchEnds(p, s)[i] == 0
    ensures Spans(p, s) == spans
  {
    forall k | 0 <= k < |spans|
      ensures spans[k].start < spans[k].end
    {
      MatchNonEmpty(p, s, spans[k].start, spans[k].end);
    }
    forall n, i, j | 0 <= n <= |spans| && GapStart(0, spans, n) <= i < GapEnd(spans, n, |s|)
      ensures !IsMatch(p, s, i, j)
    {
      forall m | 0 <= m < |spans|
        ensures spans[m].start != i
      {
        GapHoldsNoStart(spans, 0, |s|, n, i, m);
      }
      MatchEndsAgree(p, s, i, j);
    }
    FindAllCharacterized(p, s, spans);
  }

  /** An absolute match can start only at the letter h. */
  lemma AbsoluteStartsAtH(s: string, i: nat)
    requires i < |s|
    ensures MatchEnds(Absolute, s)[i] != 0 ==> s[i] == 'h'
  {
    if HasPrefixAt(s, i, "https://") {
      assert s[i] == s[i..i + 8][0];
    } else if HasPrefixAt(s, i, "http://") {
      assert s[i] == s[i..i + 7][0];
    }
  }

  /** A relative match can start only at a slash that begins a line. */
  lemma RelativeStartsAtLine(s: string, i: nat)
    requires i < |s|
    ensures MatchEnds(Relative, s)[i] != 0 ==> s[i] == '/' && (i == 0 || s[i - 1] == '\n')
  {
  }

  /** What TryMatch reports is the entry of the table of match ends. */
  lemma TryMatchAgrees(p: Pattern, s: string, pos: nat, end: nat)
    requires pos < |s|
    requires end > pos ==> IsMatch(p, s, pos, end)
    requires end <= pos ==> forall j: nat :: !IsMatch(p, s, pos, j)
    ensures end > pos ==> MatchEnds(p, s)[pos] == end
    ensures end <= pos ==> MatchEnds(p, s)[pos] <= pos
  {
    MatchEndsAgree(p, s, pos, if end > pos then end else MatchEnds(p, s)[pos]);
  }

  /** The scan so far, `done`, followed by the reference scan from `pos`,
      is the whole reference list `all`; every span in `done` ends by `pos`. */
  ghost predicate ScanState(t: seq<nat>, all: seq<Span>, done: seq<Span>, pos: nat)
  {
    && ValidEnds(t) && pos <= |t|
    && (forall n :: 0 <= n < |done| ==> done[n].start <= done[n].end <= pos)
    && done + SpansOf(t, pos) == all
  }

  /** Taking the match that starts at `pos` keeps the scan state. */
  lemma ScanTake(t: seq<nat>, all: seq<Span>, done: seq<Span>, pos: nat)
    requires ScanState(t, all, done, pos) && pos < |t| && t[pos] > pos
    ensures ScanState(t, all, done + [Span(pos, t[pos])], t[pos])
  {
    assert SpansOf(t, pos) == [Span(pos, t[pos])] + SpansOf(t, t[pos]);
    assert done + SpansOf(t, pos) == (done + [Span(pos, t[pos])]) + SpansOf(t, t[pos]);
  }

  /** Moving past a position where no match starts keeps the scan state. */
  lemma ScanSkip(t: seq<nat>, all: seq<Span>, done: seq<Span>, pos: nat)
    requires ScanState(t, all, done, pos) && pos < |t| && t[pos] <= pos
    ensures ScanState(t, all, done, pos + 1)
  {
    assert SpansOf(t, pos) == SpansOf(t, pos + 1);
  }

  /** FindAllString(s, -1): scans the body from left to right, taking each
      match and resuming the search where it ends. */
  method FindAll(p: Pattern, s: string) returns (matches: seq<string>)
    ensures matches == FindAllString(p, s)
  {
    ghost var t := MatchEnds(p, s);
    ghost var all := Spans(p, s);
    var pos := 0;
    matches := [];
    ghost var done: seq<Span> := [];
    while pos < |s|
      invariant |t| == |s|
      invariant ScanState(t, all, done, pos)
      invariant |matches| == |done|
      invariant forall n :: 0 <= n < |done| ==> matches[n] == s[done[n].start..done[n].end]
    {
      var end := TryMatch(p, s, pos);
      TryMatchAgrees(p, s, pos, end);
      if end > pos {
        ScanTake(t, all, done, pos);
        matches := matches + [s[pos..end]];
        done := done + [Span(pos, end)];
        pos := end;
      } else {
        ScanSkip(t, all, done, pos);
        pos := pos + 1;
      }
    }
    assert done == all;
    assert matches == Texts(s, done);
  }
}
