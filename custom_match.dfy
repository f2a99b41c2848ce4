/**
 * The custom-place matcher of the `gPlacesAutocomplete` directive: how a
 * typed query is matched against the comma-separated fragments of a custom
 * place's `formatted_address`, and how matching places become predictions.
 */
module CustomMatch {
  import opened Wrappers
  import opened JsString
  import opened Seqs
  import opened Places

  /** The label a custom prediction shows when its place does not bring one. */
  const DefaultLabel: string := "(Custom Non-Google Result)"

  /** `toLower`: a null string lower-cases to the empty string. */
  function ToLower(s: Option<string>): (r: string)
    ensures s.None? ==> r == ""
    ensures s.Some? ==> |r| == |s.value|
  {
    match s
    case None => ""
    case Some(t) => LowerCase(t)
  }

  /**
   * `startsWith(string1, string2)`: `toLower(string1).lastIndexOf(toLower(string2), 0) === 0`.
   */
  function StartsWith(string1: string, string2: string): bool {
    LastIndexOf(ToLower(Some(string1)), ToLower(Some(string2)), 0) == 0
  }

  /**
   * `startsWith` is a case-insensitive prefix test; in particular every
   * string starts with the empty string.
   */
  lemma StartsWithIsPrefix(string1: string, string2: string)
    ensures StartsWith(string1, string2) <==> LowerCase(string2) <= LowerCase(string1)
    ensures StartsWith(string1, "")
  {
    var a, b := ToLower(Some(string1)), ToLower(Some(string2));
    LastIndexOfLast(a, b, 0);
    assert OccursAt(a, b, 0) <==> b <= a;
    assert OccursAt(a, [], 0);
  }

  /** The matcher's running state: what is left of the query, and the matches recorded so far. */
  datatype Matching = Matching(q: string, matched: seq<MatchedSubstring>)

  /** What is left of the query once a matched fragment is cut from it: `q.replace(fragment, '').trim()`. */
  function Consume(q: string, fragment: string): (r: string)
    ensures |r| <= |q|
  {
    Trim(ReplaceFirst(q, fragment, ""))
  }

  /**
   * The two string operations the matcher relies on: the prefix test and
   * what is left of the query once a fragment is cut from it. The matcher's
   * shape does not depend on what they compute, so its structural lemmas
   * hold for any pair; `JsOps` is the pair the directive uses.
   */
  datatype StringOps = StringOps(startsWith: (string, string) -> bool, consume: (string, string) -> string)

  const JsOps: StringOps := StringOps(StartsWith, Consume)

  /** The loop body of `getCustomPlaceMatches` applied to fragment number `i`. */
  function MatchStep(ops: StringOps, st: Matching, fragment: string, i: nat): (r: Matching)
    ensures st.matched <= r.matched && |r.matched| <= |st.matched| + 1
  {
    if |st.q| > 0 then
      if |fragment| >= |st.q| then
        var matched := if ops.startsWith(fragment, st.q)
                       then st.matched + [MatchedSubstring(|st.q|, i)] else st.matched;
        Matching("", matched)
      else if ops.startsWith(st.q, fragment) then
        Matching(ops.consume(st.q, fragment), st.matched + [MatchedSubstring(|fragment|, i)])
      else
        Matching("", st.matched)
    else
      st
  }

  /** The trimmed comma-separated fragments of an address. */
  function Fragments(address: string): (r: seq<string>)
    ensures |r| == |Split(address, ',')| > 0
  {
    var pieces := Split(address, ',');
    seq(|pieces|, j requires 0 <= j < |pieces| => Trim(pieces[j]))
  }

  /** The matcher's state after the first `i` fragments. */
  function MatchState(ops: StringOps, query: string, fragments: seq<string>, i: nat): Matching
    requires i <= |fragments|
  {
    if i == 0 then Matching(query, [])
    else MatchStep(ops, MatchState(ops, query, fragments, i - 1), fragments[i - 1], i - 1)
  }

  /** The terms of an address: each fragment with the first position it occurs at. */
  function TermsOf(address: string): (r: seq<Term>)
    ensures |r| == |Fragments(address)|
  {
    var fs := Fragments(address);
    seq(|fs|, j requires 0 <= j < |fs| => Term(fs[j], IndexOf(address, fs[j])))
  }

  /** What `getCustomPlaceMatches(query, place)` returns for a place with this address. */
  function CustomPlaceMatches(query: string, address: string): PlaceMatch {
    var fs := Fragments(address);
    PlaceMatch(MatchState(JsOps, query, fs, |fs|).matched, TermsOf(address))
  }

  /**
   * One pass of the `getCustomPlaceMatches` loop body: from the matcher's
   * state after `i` fragments to its state after fragment `i` too.
   */
  method MatchFragment(ghost query: string, ghost fragments: seq<string>,
                       q: string, matched: seq<MatchedSubstring>, fragment: string, i: nat)
    returns (q': string, matched': seq<MatchedSubstring>)
    requires i < |fragments| && fragment == fragments[i]
    requires Matching(q, matched) == MatchState(JsOps, query, fragments, i)
    ensures Matching(q', matched') == MatchState(JsOps, query, fragments, i + 1)
  {
    q', matched' := q, matched;
    if |q| > 0 {
      if |fragment| >= |q| {
        if StartsWith(fragment, q) {
          matched' := matched + [MatchedSubstring(|q|, i)];
        }
        q' := "";
      } else {
        if StartsWith(q, fragment) {
          matched' := matched + [MatchedSubstring(|fragment|, i)];
          q' := Consume(q, fragment);
        } else {
          q' := "";
        }
      }
    }
  }

  /**
   * Fragment `i` of an address is its trimmed piece `i`, and the terms up to
   * `i` extend those before it by that fragment at its first position.
   */
  lemma FragmentAt(address: string, i: nat)
    requires i < |Split(address, ',')|
    ensures |Fragments(address)| == |TermsOf(address)| == |Split(address, ',')|
    ensures Fragments(address)[i] == Trim(Split(address, ',')[i])
    ensures var f := Trim(Split(address, ',')[i]);
      TermsOf(address)[..i + 1] == TermsOf(address)[..i] + [Term(f, IndexOf(address, f))]
  {
    var terms := TermsOf(address);
    assert terms[..i + 1] == terms[..i] + [terms[i]];
  }

  /** `getCustomPlaceMatches`: walks the fragments while consuming a copy of the query. */
  method GetCustomPlaceMatches(query: string, place: Place) returns (m: PlaceMatch)
    ensures m == CustomPlaceMatches(query, place.formattedAddress)
  {
    var q := query;
    var terms: seq<Term> := [];
    var matched: seq<MatchedSubstring> := [];
    var termFragments := Split(place.formattedAddress, ',');
    ghost var fs := Fragments(place.formattedAddress);
    ghost var allTerms := TermsOf(place.formattedAddress);
    var i := 0;
    while i < |termFragments|
      invariant 0 <= i <= |termFragments| == |fs| == |allTerms|
      invariant Matching(q, matched) == MatchState(JsOps, query, fs, i)
      invariant terms == allTerms[..i]
    {
      var fragment := Trim(termFragments[i]);
      FragmentAt(place.formattedAddress, i);
      q, matched := MatchFragment(query, fs, q, matched, fragment, i);
      terms := terms + [Term(fragment, IndexOf(place.formattedAddress, fragment))];
      i := i + 1;
    }
    assert allTerms[..i] == allTerms;
    m := PlaceMatch(matched, terms);
  }

  // ----- Properties of the matcher -----

  /**
   * There is one term per comma-separated piece of the address, in order; its
   * value is the trimmed piece and its offset is the first position at which
   * that value occurs in the address, never -1.
   */
  lemma TermsOnePerPiece(address: string)
    ensures |TermsOf(address)| == |Split(address, ',')|
    ensures forall j :: 0 <= j < |TermsOf(address)| ==>
      var t := TermsOf(address)[j];
      t.value == Trim(Split(address, ',')[j]) && 0 <= t.offset && OccursAt(address, t.value, t.offset)
      && forall k :: 0 <= k < t.offset ==> !OccursAt(address, t.value, k)
  {
    var pieces := Split(address, ',');
    var terms := TermsOf(address);
    forall j | 0 <= j < |terms|
      ensures terms[j].value == Trim(pieces[j])
      ensures 0 <= terms[j].offset && OccursAt(address, terms[j].value, terms[j].offset)
      ensures forall k :: 0 <= k < terms[j].offset ==> !OccursAt(address, terms[j].value, k)
    {
      var p := SplitPieceAt(address, ',', j);
      var piece := pieces[j];
      var p' := TrimWithin(piece);
      var v := Trim(piece);
      assert terms[j] == Term(v, IndexOf(address, v));
      OccursWithin(address, piece, v, p, p');
      IndexOfFirst(address, v);
    }
  }

  /** While the query is empty, nothing is matched: an empty query matches no fragment. */
  lemma {:induction false} EmptyQueryState(ops: StringOps, fragments: seq<string>, i: nat)
    requires i <= |fragments|
    ensures MatchState(ops, "", fragments, i) == Matching("", [])
  {
    if i > 0 {
      EmptyQueryState(ops, fragments, i - 1);
    }
  }

  /** An empty query yields no matched substrings, whatever the address. */
  lemma EmptyQueryMatchesNothing(address: string)
    ensures CustomPlaceMatches("", address).matchedSubstrings == []
  {
    EmptyQueryState(JsOps, Fragments(address), |Fragments(address)|);
  }

  /**
   * After `i` fragments the matches cover fragments 0, 1, ..., k-1 for some
   * k <= i, one each; and once a fragment went unmatched the query is spent.
   */
  lemma {:induction false} MatchesContiguous(ops: StringOps, query: string, fragments: seq<string>, i: nat)
    requires i <= |fragments|
    ensures var st := MatchState(ops, query, fragments, i);
      |st.matched| <= i
      && (forall j :: 0 <= j < |st.matched| ==> st.matched[j].offset == j)
      && (|st.matched| < i ==> st.q == "")
  {
    if i > 0 {
      MatchesContiguous(ops, query, fragments, i - 1);
    }
  }

  /** The matches after `i` fragments are a prefix of those after any later fragment. */
  lemma {:induction false} MatchesGrow(ops: StringOps, query: string, fragments: seq<string>, i: nat, n: nat)
    requires i <= n <= |fragments|
    ensures MatchState(ops, query, fragments, i).matched <= MatchState(ops, query, fragments, n).matched
    decreases n - i
  {
    if i < n {
      MatchesGrow(ops, query, fragments, i, n - 1);
    }
  }

  /**
   * Matching stops for good at the first fragment that fails: once fewer
   * fragments than were visited have matched, no later fragment adds a match.
   */
  lemma {:induction false} MatchingStopsForGood(ops: StringOps, query: string, fragments: seq<string>, i: nat, n: nat)
    requires i <= n <= |fragments|
    requires |MatchState(ops, query, fragments, i).matched| < i
    ensures MatchState(ops, query, fragments, n) == MatchState(ops, query, fragments, i).(q := "")
    decreases n - i
  {
    if i == n {
      MatchesContiguous(ops, query, fragments, i);
    } else {
      MatchingStopsForGood(ops, query, fragments, i, n - 1);
    }
  }

  /** Every match is at most as long as its fragment. */
  lemma {:induction false} MatchLengthsFit(ops: StringOps, query: string, fragments: seq<string>, i: nat)
    requires i <= |fragments|
    ensures var st := MatchState(ops, query, fragments, i);
      |st.matched| <= i
      && forall j :: 0 <= j < |st.matched| ==> st.matched[j].length <= |fragments[j]|
  {
    if i > 0 {
      MatchLengthsFit(ops, query, fragments, i - 1);
      MatchesContiguous(ops, query, fragments, i - 1);
    }
  }

  /**
   * A match taken because the fragment was at least as long as what was left
   * of the query is the last one: the query is spent and no later fragment
   * changes the state.
   */
  lemma {:induction false} LongBranchIsLast(ops: StringOps, query: string, fragments: seq<string>, i: nat, n: nat)
    requires i < n <= |fragments|
    requires var st := MatchState(ops, query, fragments, i); |st.q| > 0 && |fragments[i]| >= |st.q|
    ensures MatchState(ops, query, fragments, n) == MatchState(ops, query, fragments, i + 1)
    ensures MatchState(ops, query, fragments, n).q == ""
    decreases n
  {
    if n > i + 1 {
      LongBranchIsLast(ops, query, fragments, i, n - 1);
    }
  }

  /**
   * Only the last match can be shorter than its fragment (a match taken
   * because the fragment was at least as long as what was left of the query
   * ends the matching), and while query text remains the last match covers
   * its whole fragment.
   */
  lemma {:induction false} MatchLengthsWhole(ops: StringOps, query: string, fragments: seq<string>, i: nat)
    requires i <= |fragments|
    ensures var st := MatchState(ops, query, fragments, i);
      |st.matched| <= i
      && (forall j :: 0 <= j < |st.matched| - 1 ==> st.matched[j].length == |fragments[j]|)
      && (|st.matched| > 0 && st.q != "" ==> st.matched[|st.matched| - 1].length == |fragments[|st.matched| - 1]|)
  {
    if i > 0 {
      MatchLengthsWhole(ops, query, fragments, i - 1);
      MatchesContiguous(ops, query, fragments, i - 1);
    }
  }

  /**
   * The matched substrings of a place: one per fragment from the first on,
   * the offset of each being its fragment's number, none longer than its
   * fragment and all but the last covering their fragment whole.
   */
  lemma MatchedSubstringsShape(query: string, address: string)
    ensures var ms := CustomPlaceMatches(query, address).matchedSubstrings;
      var fs := Fragments(address);
      |ms| <= |fs|
      && (forall j :: 0 <= j < |ms| ==> ms[j].offset == j && ms[j].length <= |fs[j]|)
      && (forall j :: 0 <= j < |ms| - 1 ==> ms[j].length == |fs[j]|)
  {
    var fs := Fragments(address);
    MatchesContiguous(JsOps, query, fs, |fs|);
    MatchLengthsFit(JsOps, query, fs, |fs|);
    MatchLengthsWhole(JsOps, query, fs, |fs|);
  }

  /**
   * A fragment that is literally how the rest of the query starts is cut
   * from its front, and what follows is trimmed.
   */
  lemma ConsumeLiteralPrefix(q: string, fragment: string)
    requires fragment <= q
    ensures Consume(q, fragment) == Trim(q[|fragment|..])
  {
    ReplaceFirstFacts(q, fragment, "");
    assert "" + q[|fragment|..] == q[|fragment|..];
  }

  /**
   * The prefix test ignores case but the cut does not: a shorter fragment
   * that starts the query only up to case is recorded as a match, yet the
   * query keeps its text (only trimmed) for the next fragment.
   */
  lemma CaseMismatchKeepsQuery(st: Matching, fragment: string, i: nat)
    requires |fragment| < |st.q|
    requires StartsWith(st.q, fragment)
    requires IndexOf(st.q, fragment) == -1
    ensures MatchStep(JsOps, st, fragment, i) == Matching(Trim(st.q), st.matched + [MatchedSubstring(|fragment|, i)])
  {
    ReplaceFirstFacts(st.q, fragment, "");
  }

  /** No fragment of an address holds a comma. */
  lemma FragmentsCommaFree(address: string)
    ensures forall j :: 0 <= j < |Fragments(address)| ==> ',' !in Fragments(address)[j]
  {
    var pieces := Split(address, ',');
    SplitPiecesFree(address, ',');
    forall j | 0 <= j < |pieces|
      ensures ',' !in Fragments(address)[j]
    {
      var piece := pieces[j];
      var p := TrimWithin(piece);
      var f := Trim(piece);
      assert Fragments(address)[j] == f;
      forall k | 0 <= k < |f|
        ensures f[k] != ','
      {
        assert f[k] == piece[p + k];
      }
    }
  }

  /**
   * The cut need not be at the front: with the query `aA`, the fragment `A`
   * passes the prefix test, and `replace` cuts the later literal `A`.
   */
  lemma LiteralCopyCutLater()
    ensures MatchStep(JsOps, Matching("aA", []), "A", 0) == Matching("a", [MatchedSubstring(1, 0)])
  {
    StartsWithIsPrefix("aA", "A");
    assert LowerCase("A") == "a" && LowerCase("aA") == "aa";
    assert "aA"[0..1] != "A" && "aA"[1..2] == "A";
    assert IndexOf("aA", "A") == 1;
    assert ReplaceFirst("aA", "A", "") == "a";
    assert Trim("a") == "a";
  }

  /**
   * A comma left at the front of the query ends the matching at the next
   * non-empty fragment: fragments come from splitting on commas, so none
   * holds one, and neither prefix test can pass.
   */
  lemma CommaEndsMatching(st: Matching, fragment: string, i: nat)
    requires |st.q| > 0 && st.q[0] == ','
    requires |fragment| > 0 && ',' !in fragment
    ensures MatchStep(JsOps, st, fragment, i) == Matching("", st.matched)
  {
    StartsWithIsPrefix(fragment, st.q);
    StartsWithIsPrefix(st.q, fragment);
    assert LowerCase(st.q)[0] == ',';
    assert LowerCase(fragment)[0] != ',';
  }

  /**
   * The first match is a case-insensitive common prefix of the query and the
   * first fragment: its length is the shorter of the two lengths, and the two
   * agree on it once lower-cased.
   */
  lemma FirstMatchIsQueryPrefix(query: string, address: string)
    requires |CustomPlaceMatches(query, address).matchedSubstrings| > 0
    ensures var m := CustomPlaceMatches(query, address).matchedSubstrings[0];
      var f := Fragments(address)[0];
      m.offset == 0 && m.length == Min(|query|, |f|)
      && LowerCase(query)[..m.length] == LowerCase(f)[..m.length]
  {
    var fs := Fragments(address);
    MatchesGrow(JsOps, query, fs, 1, |fs|);
    if |MatchState(JsOps, query, fs, 1).matched| == 0 {
      MatchingStopsForGood(JsOps, query, fs, 1, |fs|);
    }
    var f := fs[0];
    if |f| >= |query| {
      StartsWithIsPrefix(f, query);
      assert LowerCase(query) <= LowerCase(f);
    } else {
      StartsWithIsPrefix(query, f);
      assert LowerCase(f) <= LowerCase(query);
    }
  }

  // ----- Custom predictions -----

  /** The label of a custom prediction: the place's own unless absent or empty. */
  function LabelOf(place: Place): (r: string)
    ensures r != ""
    ensures place.customPredictionLabel.Some? && place.customPredictionLabel.value != ""
            ==> r == place.customPredictionLabel.value
    ensures place.customPredictionLabel.None? || place.customPredictionLabel.value == ""
            ==> r == DefaultLabel
  {
    match place.customPredictionLabel
    case Some(l) => if l != "" then l else DefaultLabel
    case None => DefaultLabel
  }

  /** True when the query matches some fragment of the place's address. */
  predicate HasMatch(query: string, place: Place) {
    |CustomPlaceMatches(query, place.formattedAddress).matchedSubstrings| > 0
  }

  /**
   * A place matches exactly when the query is non-empty and it and the first
   * fragment of the address pass the prefix test the longer one decides:
   * the query starts the fragment when the fragment is at least as long,
   * and the fragment starts the query otherwise, both up to case.
   */
  lemma HasMatchIff(query: string, place: Place)
    ensures var f := Fragments(place.formattedAddress)[0];
      HasMatch(query, place) <==>
        |query| > 0
        && (if |f| >= |query| then LowerCase(query) <= LowerCase(f) else LowerCase(f) <= LowerCase(query))
  {
    var fs := Fragments(place.formattedAddress);
    MatchesGrow(JsOps, query, fs, 1, |fs|);
    if |MatchState(JsOps, query, fs, 1).matched| == 0 {
      MatchingStopsForGood(JsOps, query, fs, 1, |fs|);
    }
    StartsWithIsPrefix(fs[0], query);
    StartsWithIsPrefix(query, fs[0]);
  }

  /** The custom prediction a matching place becomes. */
  function PredictionFor(query: string, place: Place): Prediction {
    var m := CustomPlaceMatches(query, place.formattedAddress);
    Custom(LabelOf(place), place.formattedAddress, place, m.matchedSubstrings, m.terms)
  }

  /** What `getCustomPlacePredictions(query)` returns for the given custom places. */
  function CustomPredictions(query: string, places: seq<Place>): (r: seq<Prediction>)
    ensures |r| <= |places|
  {
    var kept := Filter(places, p => HasMatch(query, p));
    seq(|kept|, k requires 0 <= k < |kept| => PredictionFor(query, kept[k]))
  }

  /** Appending a place appends its prediction when it matches, and nothing otherwise. */
  lemma CustomPredictionsSnoc(query: string, places: seq<Place>, place: Place)
    ensures CustomPredictions(query, places + [place])
         == CustomPredictions(query, places) + (if HasMatch(query, place) then [PredictionFor(query, place)] else [])
  {
    var s := places + [place];
    assert s[..|s| - 1] == places;
    var kept := Filter(places, p => HasMatch(query, p));
    var kept' := Filter(s, p => HasMatch(query, p));
    assert kept' == kept + (if HasMatch(query, place) then [place] else []);
  }

  /**
   * One pass of the `getCustomPlacePredictions` loop body: match place `i`
   * and push its prediction when it matches.
   */
  method PushIfMatches(query: string, ghost customPlaces: seq<Place>, predictions: seq<Prediction>,
                       place: Place, ghost i: nat)
    returns (predictions': seq<Prediction>)
    requires i < |customPlaces| && place == customPlaces[i]
    requires predictions == CustomPredictions(query, customPlaces[..i])
    ensures predictions' == CustomPredictions(query, customPlaces[..i + 1])
  {
    var match_ := GetCustomPlaceMatches(query, place);
    assert customPlaces[..i + 1] == customPlaces[..i] + [place];
    CustomPredictionsSnoc(query, customPlaces[..i], place);
    predictions' := predictions;
    if |match_.matchedSubstrings| > 0 {
      predictions' := predictions + [Custom(LabelOf(place), place.formattedAddress, place,
                                            match_.matchedSubstrings, match_.terms)];
    }
  }

  /** `getCustomPlacePredictions`: one pass over the custom places, pushing a prediction for each match. */
  method GetCustomPlacePredictions(query: string, customPlaces: seq<Place>) returns (predictions: seq<Prediction>)
    ensures predictions == CustomPredictions(query, customPlaces)
  {
    predictions := [];
    var i := 0;
    while i < |customPlaces|
      invariant 0 <= i <= |customPlaces|
      invariant predictions == CustomPredictions(query, customPlaces[..i])
    {
      predictions := PushIfMatches(query, customPlaces, predictions, customPlaces[i], i);
      i := i + 1;
    }
    assert customPlaces[..i] == customPlaces;
  }

  /**
   * The custom predictions are, in the order of the custom places, one for
   * each place the query matches and none for the others; each is marked
   * custom, describes its place by its address, carries its label and the
   * place's matched substrings and terms.
   */
  lemma CustomPredictionsExact(query: string, places: seq<Place>) returns (idx: seq<nat>)
    ensures |idx| == |CustomPredictions(query, places)|
    ensures Increasing(idx)
    ensures forall j :: 0 <= j < |places| ==> (HasMatch(query, places[j]) <==> j in idx)
    ensures forall k :: 0 <= k < |idx| ==> idx[k] < |places|
    ensures forall k :: 0 <= k < |idx| ==>
      var p := CustomPredictions(query, places)[k];
      var place := places[idx[k]];
      p.Custom? && p.place == place && p.description == place.formattedAddress
      && p.customPredictionLabel == LabelOf(place)
      && |p.matchedSubstrings| > 0
      && p.matchedSubstrings == CustomPlaceMatches(query, place.formattedAddress).matchedSubstrings
      && p.terms == CustomPlaceMatches(query, place.formattedAddress).terms
  {
    idx := FilterIndices(places, p => HasMatch(query, p));
  }
}
