/** The filename taken from a `content-disposition` header (Api.ts, `downloadJobResult`).

    The source matches the header against the regular expression
        filename[^;=\n]*=((['"]).*?\2|[^;\n]*)
    and uses capture group 1. This module re-expresses that match as a scanner:
    the leftmost position where the literal `filename` is followed, after a run of
    characters other than `;`, `=` and line feed, by an `=`; then the value after the
    `=`, which is a quoted string when a matching closing quote follows before any line
    terminator, and otherwise the longest run of characters other than `;` and line feed. */
module Disposition {
  import opened Js
  import opened Text

  const DefaultFilename := "rfp_analysis.xlsx"
  const Keyword := "filename"

  /** The characters a regular-expression `.` does not match. */
  predicate IsLineTerminator(c: char) {
    c == '\n' || c == '\r' || c == '\U{2028}' || c == '\U{2029}'
  }

  /** Characters outside `[^;=\n]`. */
  predicate EndsName(c: char) {
    c == ';' || c == '=' || c == '\n'
  }

  /** Characters outside `[^;\n]`. */
  predicate EndsValue(c: char) {
    c == ';' || c == '\n'
  }

  // ---------------------------------------------------------------------
  // What the regular expression means
  // ---------------------------------------------------------------------

  /** `filename[^;=\n]*=` matches at `k`, its `=` being at index `eq`. */
  ghost predicate NameThenEquals(s: string, k: nat, eq: nat) {
    && OccursAt(s, k, Keyword)
    && k + |Keyword| <= eq < |s|
    && s[eq] == '='
    && forall i :: k + |Keyword| <= i < eq ==> !EndsName(s[i])
  }

  /** The whole expression matches starting at `k` (its value part always matches). */
  ghost predicate MatchesAt(s: string, k: nat) {
    exists eq: nat :: NameThenEquals(s, k, eq)
  }

  /** `(['"]).*?\2` with the opening quote `q` just before `from` ends at `m`:
      `m` holds the first `q` after the opening one, and no line terminator comes between. */
  ghost predicate Closes(s: string, q: char, from: nat, m: nat) {
    && from <= m < |s|
    && s[m] == q
    && forall i :: from <= i < m ==> s[i] != q && !IsLineTerminator(s[i])
  }

  /** The quote at `v` opens a quoted value that the quote at `m` closes. */
  ghost predicate QuotedSpan(s: string, v: nat, m: nat) {
    v < |s| && IsQuote(s[v]) && Closes(s, s[v], v + 1, m)
  }

  /** The match starting at `p` is the leftmost one. */
  ghost predicate LeftmostMatch(s: string, p: nat) {
    MatchesAt(s, p) && forall i :: 0 <= i < p ==> !MatchesAt(s, i)
  }

  // ---------------------------------------------------------------------
  // The scanner
  // ---------------------------------------------------------------------

  /** The first index at or after `from` holding a character outside `[^;=\n]`, or |s|. */
  function NameEnd(s: string, from: nat): (e: nat)
    requires from <= |s|
    ensures from <= e <= |s|
    ensures forall i :: from <= i < e ==> !EndsName(s[i])
    ensures e < |s| ==> EndsName(s[e])
    decreases |s| - from
  {
    if from == |s| || EndsName(s[from]) then from else NameEnd(s, from + 1)
  }

  /** The first index at or after `from` holding a character outside `[^;\n]`, or |s|. */
  function ValueEnd(s: string, from: nat): (e: nat)
    requires from <= |s|
    ensures from <= e <= |s|
    ensures forall i :: from <= i < e ==> !EndsValue(s[i])
    ensures e < |s| ==> EndsValue(s[e])
    decreases |s| - from
  {
    if from == |s| || EndsValue(s[from]) then from else ValueEnd(s, from + 1)
  }

  /** The index of the quote closing a quoted value whose text starts at `from`, if any. */
  function ClosingQuote(s: string, q: char, from: nat): (r: Option<nat>)
    requires from <= |s|
    ensures r.Some? ==> Closes(s, q, from, r.value)
    ensures r.None? ==> forall m :: !Closes(s, q, from, m)
    decreases |s| - from
  {
    if from == |s| then None
    else if s[from] == q then Some(from)
    else if IsLineTerminator(s[from]) then None
    else
      var r := ClosingQuote(s, q, from + 1);
      assert forall m :: Closes(s, q, from, m) ==> m != from && Closes(s, q, from + 1, m);
      r
  }

  /** Capture group 1 when the value part starts at `v`. */
  function Capture(s: string, v: nat): (g: string)
    requires v <= |s|
    ensures forall m :: QuotedSpan(s, v, m) ==> g == s[v..m + 1]
    ensures (forall m :: !QuotedSpan(s, v, m)) ==> g == s[v..ValueEnd(s, v)]
  {
    if v < |s| && IsQuote(s[v]) then
      match ClosingQuote(s, s[v], v + 1)
      case Some(m) =>
        assert QuotedSpan(s, v, m);
        assert forall m' :: QuotedSpan(s, v, m') ==> m' == m;
        s[v..m + 1]
      case None => s[v..ValueEnd(s, v)]
    else s[v..ValueEnd(s, v)]
  }

  /** The scanner's test at one position agrees with the regular expression. */
  lemma MatchesAtByScan(s: string, k: nat)
    requires k <= |s|
    ensures MatchesAt(s, k) <==>
      && OccursAt(s, k, Keyword)
      && NameEnd(s, k + |Keyword|) < |s|
      && s[NameEnd(s, k + |Keyword|)] == '='
  {
    if OccursAt(s, k, Keyword) {
      var e := NameEnd(s, k + |Keyword|);
      if e < |s| && s[e] == '=' {
        assert NameThenEquals(s, k, e);
      }
      forall eq: nat | NameThenEquals(s, k, eq)
        ensures eq == e
      {
      }
    }
  }

  /** The leftmost match at or after `k`. */
  function FirstMatch(s: string, k: nat): (r: Option<nat>)
    requires k <= |s|
    ensures r.Some? ==> k <= r.value < |s| && MatchesAt(s, r.value)
    ensures r.Some? ==> forall i :: k <= i < r.value ==> !MatchesAt(s, i)
    ensures r.None? ==> forall i :: k <= i <= |s| ==> !MatchesAt(s, i)
    decreases |s| - k
  {
    MatchesAtByScan(s, k);
    if OccursAt(s, k, Keyword) && NameEnd(s, k + |Keyword|) < |s|
       && s[NameEnd(s, k + |Keyword|)] == '='
    then
      Some(k)
    else if k == |s| then
      None
    else
      FirstMatch(s, k + 1)
  }

  /** Capture group 1 of the match starting at `p`. */
  function Group(s: string, p: nat): (g: string)
    requires p < |s| && MatchesAt(s, p)
    ensures forall eq: nat :: NameThenEquals(s, p, eq) ==> g == Capture(s, eq + 1)
  {
    EqualsIsNameEnd(s, p);
    Capture(s, NameEnd(s, p + |Keyword|) + 1)
  }

  /** The download's filename: the default unless the header is present and its leftmost
      match captured something, in which case the capture with every quote removed. */
  function FilenameFrom(disposition: Option<string>): (name: string)
    ensures QuoteFree(name)
    ensures !Truthy(disposition) ==> name == DefaultFilename
    ensures (Truthy(disposition) && forall i :: 0 <= i <= |disposition.value| ==> !MatchesAt(disposition.value, i))
              ==> name == DefaultFilename
    ensures forall p :: Truthy(disposition) && 0 <= p < |disposition.value| && LeftmostMatch(disposition.value, p) ==>
              name == (if Group(disposition.value, p) == "" then DefaultFilename
                       else StripQuotes(Group(disposition.value, p)))
  {
    if !Truthy(disposition) then DefaultFilename
    else
      var s := disposition.value;
      match FirstMatch(s, 0)
      case None => DefaultFilename
      case Some(p) =>
        assert forall i :: 0 <= i < |s| && LeftmostMatch(s, i) ==> i == p;
        var g := Group(s, p);
        if g == "" then DefaultFilename else StripQuotes(g)
  }

  // ---------------------------------------------------------------------
  // Properties and examples
  // ---------------------------------------------------------------------

  /** The `=` that ends the name part of a match is the first character outside `[^;=\n]`,
      so there is at most one. */
  lemma EqualsIsNameEnd(s: string, k: nat)
    requires k <= |s|
    ensures forall eq: nat :: NameThenEquals(s, k, eq) ==> eq == NameEnd(s, k + |Keyword|)
  {
  }

  /** When no `filename` occurs before position `p` and a match starts at `p` with its `=`
      at `eq`, the filename is read from the value that follows that `=`. */
  lemma FilenameFromLeftmost(s: string, p: nat, eq: nat)
    requires s != ""
    requires forall i :: 0 <= i < p ==> !OccursAt(s, i, Keyword)
    requires NameThenEquals(s, p, eq)
    ensures FilenameFrom(Some(s)) ==
      (if Capture(s, eq + 1) == "" then DefaultFilename else StripQuotes(Capture(s, eq + 1)))
  {
    assert MatchesAt(s, p);
    assert forall i :: 0 <= i < p ==> !MatchesAt(s, i);
    assert LeftmostMatch(s, p);
    assert Group(s, p) == Capture(s, eq + 1);
  }

  /** Nothing in `head` can start the keyword. */
  lemma NoKeywordIn(head: string, rest: string)
    requires 'f' !in head
    ensures forall i :: 0 <= i < |head| ==> !OccursAt(head + rest, i, Keyword)
  {
    forall i | 0 <= i < |head|
      ensures !OccursAt(head + rest, i, Keyword)
    {
      assert (head + rest)[i] == head[i] != Keyword[0];
    }
  }

  /** Stripping the quotes around a quote-free value gives the value back. */
  lemma StripSurroundingQuotes(value: string)
    requires QuoteFree(value)
    ensures StripQuotes("\"" + value + "\"") == value
  {
    assert StripQuotes("\"") == "";
    assert "\"" + value + "\"" == "\"" + (value + "\"");
    StripQuotesAppend("\"", value + "\"");
    StripQuotesAppend(value, "\"");
    StripQuotesKeepsQuoteFree(value);
  }

  /** A value in double quotes with no quote or line terminator inside is captured whole. */
  lemma CaptureOfQuoted(s: string, v: nat, value: string)
    requires v + |value| + 2 <= |s|
    requires s[v..v + |value| + 2] == "\"" + value + "\""
    requires QuoteFree(value)
    requires forall i :: 0 <= i < |value| ==> !IsLineTerminator(value[i])
    ensures Capture(s, v) == "\"" + value + "\""
  {
    var quoted := "\"" + value + "\"";
    var m := v + |value| + 1;
    assert s[v] == quoted[0] == '"';
    assert s[m] == quoted[|value| + 1] == '"';
    forall i | v + 1 <= i < m
      ensures s[i] == value[i - v - 1]
    {
      assert s[i] == quoted[i - v];
    }
    assert QuotedSpan(s, v, m);
    assert s[v..m + 1] == quoted;
  }

  /** After the first `filename=`, a quoted value is returned without its quotes. */
  lemma QuotedFilename(head: string, value: string)
    requires 'f' !in head
    requires value != "" && QuoteFree(value)
    requires forall i :: 0 <= i < |value| ==> !IsLineTerminator(value[i])
    ensures FilenameFrom(Some(head + Keyword + "=\"" + value + "\"")) == value
  {
    var quoted := "\"" + value + "\"";
    var s := head + Keyword + "=" + quoted;
    assert s == head + Keyword + "=\"" + value + "\"";
    var p, eq := |head|, |head| + |Keyword|;
    NoKeywordIn(head, Keyword + "=" + quoted);
    assert s == head + (Keyword + "=" + quoted);
    assert s[p..p + |Keyword|] == Keyword;
    assert s[eq] == '=';
    assert NameThenEquals(s, p, eq);
    assert s[eq + 1..eq + 1 + |value| + 2] == quoted;
    CaptureOfQuoted(s, eq + 1, value);
    StripSurroundingQuotes(value);
    FilenameFromLeftmost(s, p, eq);
  }

  /** After the first `filename=`, an unquoted value runs up to the next `;` or line feed. */
  lemma UnquotedFilename(head: string, value: string, tail: string)
    requires 'f' !in head
    requires value != "" && QuoteFree(value)
    requires forall i :: 0 <= i < |value| ==> !EndsValue(value[i])
    requires tail == "" || EndsValue(tail[0])
    ensures FilenameFrom(Some(head + Keyword + "=" + value + tail)) == value
  {
    var s := head + Keyword + "=" + value + tail;
    var p, eq := |head|, |head| + |Keyword|;
    NoKeywordIn(head, Keyword + "=" + value + tail);
    assert s == head + (Keyword + "=" + value + tail);
    assert s[p..p + |Keyword|] == Keyword;
    assert s[eq] == '=';
    assert NameThenEquals(s, p, eq);
    var v := eq + 1;
    assert s[v..v + |value|] == value;
    assert s[v] == value[0];
    assert ValueEnd(s, v) == v + |value|;
    assert Capture(s, v) == value;
    StripQuotesKeepsQuoteFree(value);
    FilenameFromLeftmost(s, p, eq);
  }

  /** An empty value after the first `filename=` gives the default name, even when a
      later parameter would have matched. */
  lemma EmptyValueGivesDefault(head: string, rest: string)
    requires 'f' !in head
    ensures FilenameFrom(Some(head + Keyword + "=;" + rest)) == DefaultFilename
  {
    var s := head + Keyword + "=;" + rest;
    var p, eq := |head|, |head| + |Keyword|;
    NoKeywordIn(head, Keyword + "=;" + rest);
    assert s == head + (Keyword + "=;" + rest);
    assert s[p..p + |Keyword|] == Keyword;
    assert s[eq] == '=';
    assert NameThenEquals(s, p, eq);
    assert s[eq + 1] == ';';
    assert Capture(s, eq + 1) == "";
    FilenameFromLeftmost(s, p, eq);
  }

  /** An empty quoted value is captured as two quotes, which stripping turns into an
      empty filename rather than the default one. */
  lemma EmptyQuotedValueGivesEmptyName(head: string)
    requires 'f' !in head
    ensures FilenameFrom(Some(head + Keyword + "=\"\"")) == ""
  {
    var s := head + Keyword + "=\"\"";
    var p, eq := |head|, |head| + |Keyword|;
    NoKeywordIn(head, Keyword + "=\"\"");
    assert s == head + (Keyword + "=\"\"");
    assert s[p..p + |Keyword|] == Keyword;
    assert s[eq] == '=';
    assert NameThenEquals(s, p, eq);
    assert QuotedSpan(s, eq + 1, eq + 2);
    assert Capture(s, eq + 1) == "\"\"";
    assert StripQuotes("\"\"") == "";
    FilenameFromLeftmost(s, p, eq);
  }

  /** The example of a download reply header. */
  lemma QuotedFilenameExample()
    ensures FilenameFrom(Some("attachment; filename=\"report.xlsx\"")) == "report.xlsx"
  {
    assert "attachment; filename=\"report.xlsx\"" == "attachment; " + Keyword + "=\"" + "report.xlsx" + "\"";
    QuotedFilename("attachment; ", "report.xlsx");
  }
}
