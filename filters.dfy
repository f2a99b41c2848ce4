/**
 * The display filters of the bundle: `highlightMatched`, which marks the
 * matched part of a prediction's first term, `unmatchedTermsOnly`, which
 * keeps the terms past the first match, and `trailingComma`.
 */
module Filters {
  import opened Wrappers
  import opened JsString
  import opened Seqs
  import opened Places
  import opened CustomMatch

  /** The markup that opens and closes the highlighted portion. */
  const MatchedOpen: string := "<span class=\"pac-matched\">"
  const MatchedClose: string := "</span>"

  /**
   * The matched and unmatched portions `highlightMatched` cuts from the first
   * term: both empty without matches or terms; otherwise the first match's
   * offset (a fragment number, used as a character position) and length
   * select the matched portion, and the unmatched portion is the rest.
   */
  function HighlightPortions(p: Prediction): (r: (string, string))
    ensures |p.matchedSubstrings| == 0 || |p.terms| == 0 ==> r == ("", "")
    ensures |p.matchedSubstrings| > 0 && |p.terms| > 0 ==>
      var m := p.matchedSubstrings[0];
      r.0 + r.1 == Substr(p.terms[0].value, m.offset, None) && |r.0| == Min(m.length, |r.0 + r.1|)
  {
    if |p.matchedSubstrings| > 0 && |p.terms| > 0 then
      var m := p.matchedSubstrings[0];
      var v := p.terms[0].value;
      SubstrSplit(v, m.offset, m.length);
      (Substr(v, m.offset, Some(m.length)), Substr(v, m.offset + m.length, None))
    else
      ("", "")
  }

  /** `highlightMatched(prediction)`: the matched portion wrapped in its span, then the unmatched portion. */
  function HighlightMatched(p: Prediction): (r: string)
    ensures MatchedOpen <= r
    ensures |r| == |MatchedOpen| + |MatchedClose| + |HighlightPortions(p).0| + |HighlightPortions(p).1|
  {
    var (matched, unmatched) := HighlightPortions(p);
    MatchedOpen + matched + MatchedClose + unmatched
  }

  /**
   * The highlighted text opens with the span and closes it after `k`
   * characters: the first match's length, or fewer when the term runs out
   * first. With the markup taken out it reads
   * `terms[0].value.substr(offset)`; without matches or terms it is the
   * empty span.
   */
  lemma HighlightMatchedReadsTerm(p: Prediction) returns (k: nat)
    ensures var r := HighlightMatched(p);
      var n := |MatchedOpen| + k;
      n + |MatchedClose| <= |r|
      && r[..|MatchedOpen|] == MatchedOpen
      && r[n..n + |MatchedClose|] == MatchedClose
      && r[|MatchedOpen|..n] + r[n + |MatchedClose|..]
         == (if |p.matchedSubstrings| > 0 && |p.terms| > 0
             then Substr(p.terms[0].value, p.matchedSubstrings[0].offset, None) else "")
    ensures |p.matchedSubstrings| > 0 && |p.terms| > 0 ==>
      k == Min(p.matchedSubstrings[0].length, |Substr(p.terms[0].value, p.matchedSubstrings[0].offset, None)|)
    ensures |p.matchedSubstrings| == 0 || |p.terms| == 0 ==> k == 0
    ensures |p.matchedSubstrings| == 0 || |p.terms| == 0 ==> HighlightMatched(p) == MatchedOpen + MatchedClose
  {
    var (matched, unmatched) := HighlightPortions(p);
    k := |matched|;
    var r := HighlightMatched(p);
    var n := |MatchedOpen| + k;
    assert r == MatchedOpen + matched + MatchedClose + unmatched;
    assert r[..|MatchedOpen|] == MatchedOpen;
    assert r[|MatchedOpen|..n] == matched;
    assert r[n..n + |MatchedClose|] == MatchedClose;
    assert r[n + |MatchedClose|..] == unmatched;
  }

  /**
   * For a custom prediction, the highlight covers exactly the first match's
   * length of the first fragment, and that portion agrees with the start of
   * the typed query once both are lower-cased.
   */
  lemma CustomHighlightIsQueryPrefix(query: string, place: Place)
    requires HasMatch(query, place)
    ensures var p := PredictionFor(query, place);
      var portion := HighlightPortions(p).0;
      |portion| == p.matchedSubstrings[0].length <= |query|
      && LowerCase(portion) == LowerCase(query)[..|portion|]
  {
    var address := place.formattedAddress;
    var p := PredictionFor(query, place);
    var m := p.matchedSubstrings[0];
    FirstMatchIsQueryPrefix(query, address);
    FragmentAt(address, 0);
    var f := Fragments(address)[0];
    assert TermsOf(address)[..1] == [Term(f, IndexOf(address, f))];
    assert p.terms[0].value == f;
    var portion := HighlightPortions(p).0;
    assert portion == f[..m.length];
    assert LowerCase(portion) == LowerCase(f)[..m.length];
  }

  // ----- unmatchedTermsOnly -----

  /** A term `unmatchedTermsOnly` keeps: its offset lies past the first match's length. */
  predicate Unmatched(t: Term, p: Prediction) {
    |p.matchedSubstrings| > 0 && t.offset > p.matchedSubstrings[0].length
  }

  /** What `unmatchedTermsOnly(terms, prediction)` returns. */
  function UnmatchedTerms(terms: seq<Term>, p: Prediction): (r: seq<Term>)
    ensures |r| <= |terms|
  {
    Filter(terms, t => Unmatched(t, p))
  }

  /** `unmatchedTermsOnly`: one pass over the terms, pushing those past the first match. */
  method UnmatchedTermsOnly(terms: seq<Term>, p: Prediction) returns (filtered: seq<Term>)
    ensures filtered == UnmatchedTerms(terms, p)
  {
    filtered := [];
    var i := 0;
    while i < |terms|
      invariant 0 <= i <= |terms|
      invariant filtered == UnmatchedTerms(terms[..i], p)
    {
      var term := terms[i];
      var matchedSubstrings := p.matchedSubstrings;
      assert terms[..i + 1][..i] == terms[..i];
      if |matchedSubstrings| > 0 && term.offset > matchedSubstrings[0].length {
        filtered := filtered + [term];
      }
      i := i + 1;
    }
    assert terms[..i] == terms;
  }

  /**
   * `unmatchedTermsOnly` keeps, in their order, exactly the terms whose
   * offset exceeds the first match's length, and no others.
   */
  lemma UnmatchedTermsExact(terms: seq<Term>, p: Prediction) returns (idx: seq<nat>)
    ensures |idx| == |UnmatchedTerms(terms, p)|
    ensures Increasing(idx)
    ensures forall k :: 0 <= k < |idx| ==> idx[k] < |terms| && UnmatchedTerms(terms, p)[k] == terms[idx[k]]
    ensures forall j :: 0 <= j < |terms| ==>
      (|p.matchedSubstrings| > 0 && terms[j].offset > p.matchedSubstrings[0].length <==> j in idx)
  {
    idx := FilterIndices(terms, t => Unmatched(t, p));
  }

  /** Without matched substrings, `unmatchedTermsOnly` keeps nothing. */
  lemma {:induction false} UnmatchedTermsWithoutMatches(terms: seq<Term>, p: Prediction)
    requires |p.matchedSubstrings| == 0
    ensures UnmatchedTerms(terms, p) == []
  {
    if |terms| > 0 {
      UnmatchedTermsWithoutMatches(terms[..|terms| - 1], p);
    }
  }

  // ----- trailingComma -----

  /** `trailingComma(input, condition)`: a comma appended to `input` when `condition` holds. */
  function TrailingComma(input: string, condition: bool): (r: string)
    ensures |r| == |input| + (if condition then 1 else 0)
    ensures r[..|input|] == input
    ensures condition ==> r[|input|] == ','
  {
    if condition then input + "," else input
  }
}
