/**
 * The selection state machine of the `gPlacesAutocomplete` directive and of
 * its drawer: key handling, blur, selection, the predictions callback and the
 * ngModel formatter. Each handler is a pure transition on `ScopeState`, the
 * fields of the directive's scope that the handlers read or write, and a
 * method of the `Autocomplete` class that updates those fields in place the
 * way the handler does and is proved to follow the transition.
 */
module Widget {
  import opened Wrappers
  import opened Places
  import opened CustomMatch

  const KeyTab: int := 9
  const KeyEnter: int := 13
  const KeyEsc: int := 27
  const KeyUp: int := 38
  const KeyDown: int := 40

  /** `_.values(keymap)`: the keys the widget reacts to. */
  const Hotkeys: seq<int> := [KeyTab, KeyEnter, KeyEsc, KeyUp, KeyDown]

  /** The predictions callback cuts the list down to this many entries. */
  const MaxPredictions: nat := 5

  /**
   * `indexOf(array, item)`: the first position of `item` in the array `values`, or -1
   * when the array is null or does not hold it.
   */
  method ArrayIndexOf<T(==)>(values: Option<seq<T>>, item: T) returns (r: int)
    ensures r == -1 <==> values.None? || item !in values.value
    ensures r != -1 ==> 0 <= r < |values.value| && values.value[r] == item && item !in values.value[..r]
  {
    if values.None? {
      return -1;
    }
    var a := values.value;
    var length := |a|;
    var i := 0;
    while i < length
      invariant 0 <= i <= length
      invariant item !in a[..i]
    {
      if a[i] == item {
        return i;
      }
      assert a[..i + 1] == a[..i] + [a[i]];
      i := i + 1;
    }
    assert a[..length] == a;
    return -1;
  }

  /** JavaScript's integer quotient for a positive divisor: the exact quotient truncated toward zero. */
  function JsQuot(a: int, n: int): int
    requires n > 0
  {
    if a >= 0 then a / n else -((-a) / n)
  }

  /**
   * JavaScript's `a % n` for a positive `n`: the remainder takes the sign of
   * the dividend, so `-1 % n` is -1 where Dafny's `%` gives `n - 1`.
   */
  function JsRem(a: int, n: int): (r: int)
    requires n > 0
    ensures -n < r < n
    ensures a >= 0 ==> r >= 0
    ensures a <= 0 ==> r <= 0
    ensures a == JsQuot(a, n) * n + r
  {
    if a >= 0 then a % n
    else
      var q := (-a) / n;
      assert -a == q * n + (-a) % n;
      assert -(q * n) == (-q) * n;
      -((-a) % n)
  }

  /** The fields of the directive's scope that its handlers read or write. */
  datatype ScopeState = ScopeState(
    query: string,
    predictions: seq<Prediction>,
    active: int,
    selected: int,
    model: ModelValue,
    forceSelection: bool,
    customPlaces: Option<seq<Place>>)

  /** The drawer never lists more than `MaxPredictions` predictions. */
  predicate Bounded(s: ScopeState) {
    |s.predictions| <= MaxPredictions
  }

  /** `clearPredictions`: nothing active, nothing selected, no predictions. */
  function Cleared(s: ScopeState): (r: ScopeState)
    ensures r.active == -1 && r.selected == -1 && r.predictions == []
    ensures r.query == s.query && r.model == s.model
    ensures r.forceSelection == s.forceSelection && r.customPlaces == s.customPlaces
  {
    s.(active := -1, selected := -1, predictions := [])
  }

  /** `onKeydown` for the key with code `which`. */
  function Keydown(s: ScopeState, which: int): (r: ScopeState)
    ensures r.query == s.query && r.model == s.model
    ensures r.forceSelection == s.forceSelection && r.customPlaces == s.customPlaces
  {
    var n := |s.predictions|;
    if n == 0 || which !in Hotkeys then s
    else if which == KeyDown then s.(active := JsRem(s.active + 1, n))
    else if which == KeyUp then s.(active := (if s.active != 0 then s.active else n) - 1)
    else if which == KeyEnter || which == KeyTab then
      var active := if s.forceSelection && s.active == -1 then 0 else s.active;
      var t := s.(active := active, selected := active);
      if t.selected == -1 then Cleared(t) else t
    else if which == KeyEsc then Cleared(s)
    else s
  }

  /** `onBlur` as the bundle has it: a blur that leaves nothing selected clears the list at once. */
  function Blur(s: ScopeState): (r: ScopeState)
    ensures r.query == s.query && r.forceSelection == s.forceSelection && r.customPlaces == s.customPlaces
  {
    if |s.predictions| == 0 then
      if s.forceSelection then s.(model := Text("")) else s
    else
      var t := if s.forceSelection then s.(selected := if s.selected == -1 then 0 else s.selected) else s;
      if t.selected == -1 then Cleared(t) else t
  }

  /**
   * `onBlur` as the sources have it: the clearing is left to a timer, so the
   * blur itself only reports whether a clear has been scheduled.
   */
  function BlurDeferred(s: ScopeState): (r: (ScopeState, bool))
    ensures r.0.query == s.query && r.0.predictions == s.predictions && r.0.active == s.active
  {
    if |s.predictions| == 0 then
      (if s.forceSelection then s.(model := Text("")) else s, false)
    else
      var t := if s.forceSelection then s.(selected := if s.selected == -1 then 0 else s.selected) else s;
      (t, t.selected == -1)
  }

  /** What `select` asks of the outside world besides updating the scope. */
  datatype SelectEffect =
    | NoSelection                       // `predictions[selected]` does not exist
    | Emitted(place: Place)             // `g-places-autocomplete:select` emitted with a custom place
    | DetailsRequested(placeId: string) // the details service is asked about a remote prediction

  /** `select`: runs when `selected` changes. */
  function SelectStep(s: ScopeState): (r: (ScopeState, SelectEffect))
    ensures r.0.query == s.query && r.0.forceSelection == s.forceSelection
    ensures r.0.customPlaces == s.customPlaces
  {
    if 0 <= s.selected < |s.predictions| then
      match s.predictions[s.selected]
      case Custom(_, _, place, _, _) => (Cleared(s.(model := PlaceObject(place))), Emitted(place))
      case Remote(placeId, _, _, _) => (Cleared(s), DetailsRequested(placeId))
    else
      (s, NoSelection)
  }

  /** The custom predictions for the query, when custom places are configured at all. */
  function CustomFor(query: string, customPlaces: Option<seq<Place>>): (r: seq<Prediction>)
    ensures customPlaces.None? ==> r == []
    ensures customPlaces.Some? ==> |r| <= |customPlaces.value|
  {
    match customPlaces
    case None => []
    case Some(places) => CustomPredictions(query, places)
  }

  /** `predictions.length = n` when the list is longer than `n`. */
  function Truncate<T>(xs: seq<T>, n: nat): (r: seq<T>)
    ensures |r| == if |xs| > n then n else |xs|
    ensures r == xs[..|r|]
  {
    if |xs| > n then xs[..n] else xs
  }

  /** The list the predictions callback builds: custom ones, then the remote ones if the status is OK, at most five. */
  function MergePredictions(custom: seq<Prediction>, remote: seq<Prediction>, statusOk: bool): (r: seq<Prediction>)
    ensures |r| <= MaxPredictions
  {
    Truncate(custom + (if statusOk then remote else []), MaxPredictions)
  }

  /** The predictions callback of `parse`, given the remote list and whether the status was OK. */
  function PredictionsArrived(s: ScopeState, remote: seq<Prediction>, statusOk: bool): (r: ScopeState)
    ensures r.predictions == MergePredictions(CustomFor(s.query, s.customPlaces), remote, statusOk)
    ensures r.active == -1 && r.selected == -1
    ensures r.query == s.query && r.model == s.model
    ensures r.forceSelection == s.forceSelection && r.customPlaces == s.customPlaces
  {
    Cleared(s).(predictions := MergePredictions(CustomFor(s.query, s.customPlaces), remote, statusOk))
  }

  /** `format`: the text shown for a model value. */
  function Format(model: ModelValue): (r: string)
    ensures model.Text? ==> r == model.text
    ensures model.PlaceObject? ==> r == model.place.formattedAddress
    ensures model.OtherValue? ==> r == ""
  {
    match model
    case Text(t) => t
    case PlaceObject(place) => place.formattedAddress
    case OtherValue => ""
  }

  // ----- Key handling -----

  /** A keydown does nothing while the list is empty or for a key that is not a hotkey. */
  lemma KeydownIgnored(s: ScopeState, which: int)
    requires |s.predictions| == 0 || which !in Hotkeys
    ensures Keydown(s, which) == s
  {
  }

  /**
   * Down moves to the next prediction, wrapping from the last to the first,
   * and from nothing active (-1) to the first; it stays in range.
   */
  lemma DownWraps(s: ScopeState)
    requires |s.predictions| > 0 && -1 <= s.active < |s.predictions|
    ensures Keydown(s, KeyDown).active == if s.active == |s.predictions| - 1 then 0 else s.active + 1
    ensures 0 <= Keydown(s, KeyDown).active < |s.predictions|
    ensures Keydown(s, KeyDown).predictions == s.predictions && Keydown(s, KeyDown).selected == s.selected
  {
    var n := |s.predictions|;
    assert KeyDown in Hotkeys;
    if s.active == n - 1 {
      assert JsRem(n, n) == 0;
    } else {
      assert JsRem(s.active + 1, n) == s.active + 1;
    }
  }

  /**
   * With at least two predictions, Down from -n to -2 (where Up from
   * nothing active leads) goes to `active + 1`, still negative or -1:
   * JavaScript's remainder keeps the dividend's sign. Repeated Up lowers
   * `active` without bound, and from -n-1 or lower the remainder can reach
   * -0 instead (`DownFromMinusLengthMinusOne`).
   */
  lemma DownFromNegative(s: ScopeState)
    requires |s.predictions| > 1 && -|s.predictions| <= s.active < -1
    ensures Keydown(s, KeyDown).active == s.active + 1
  {
    assert KeyDown in Hotkeys;
  }

  /** Down from -n-1 wraps to 0: JavaScript's `-n % n` is -0. */
  lemma DownFromMinusLengthMinusOne(s: ScopeState)
    requires |s.predictions| > 0 && s.active == -|s.predictions| - 1
    ensures Keydown(s, KeyDown).active == 0
  {
    assert KeyDown in Hotkeys;
  }

  /** With a single prediction, Down from -2 gives 0: JavaScript's `-1 % 1` is -0. */
  lemma DownSingleFromNegative(s: ScopeState)
    requires |s.predictions| == 1 && s.active == -2
    ensures Keydown(s, KeyDown).active == 0
  {
    assert KeyDown in Hotkeys;
  }

  /**
   * Up moves to the previous prediction; a falsy 0 counts as the length of
   * the list, so Up from the first goes to the last, and Up from nothing
   * active (-1) gives -2.
   */
  lemma UpSteps(s: ScopeState)
    requires |s.predictions| > 0
    ensures Keydown(s, KeyUp).active == if s.active == 0 then |s.predictions| - 1 else s.active - 1
    ensures Keydown(s, KeyUp).predictions == s.predictions && Keydown(s, KeyUp).selected == s.selected
  {
    assert KeyUp in Hotkeys;
  }

  /** Up from nothing active leaves -2. */
  lemma UpFromNothingActive(s: ScopeState)
    requires |s.predictions| > 0 && s.active == -1
    ensures Keydown(s, KeyUp).active == -2
  {
    UpSteps(s);
  }

  /** Escape closes the drawer: nothing active, nothing selected, no predictions. */
  lemma EscapeClears(s: ScopeState)
    requires |s.predictions| > 0
    ensures Keydown(s, KeyEsc) == Cleared(s)
  {
    assert KeyEsc in Hotkeys;
  }

  /**
   * Enter and Tab commit the active prediction: with `forceSelection` an
   * inactive list commits the first one; a commit of nothing (-1) clears
   * the list, any other commit keeps it.
   */
  lemma CommitSelects(s: ScopeState, which: int)
    requires |s.predictions| > 0 && (which == KeyEnter || which == KeyTab)
    ensures var a := if s.forceSelection && s.active == -1 then 0 else s.active;
      var r := Keydown(s, which);
      r.active == a && r.selected == a
      && (a == -1 ==> r.predictions == [])
      && (a != -1 ==> r.predictions == s.predictions)
  {
    assert which in Hotkeys;
  }

  /** With `forceSelection`, Enter or Tab never leaves the list uncommitted when something was active or nothing was. */
  lemma ForcedCommitNeverClears(s: ScopeState, which: int)
    requires |s.predictions| > 0 && (which == KeyEnter || which == KeyTab)
    requires s.forceSelection && s.active >= -1
    ensures Keydown(s, which).selected >= 0
    ensures Keydown(s, which).predictions == s.predictions
  {
    CommitSelects(s, which);
  }

  /**
   * Below -1, which repeated Up reaches, a forced commit keeps the negative
   * index: the list stays, and the `select` that follows finds nothing.
   */
  lemma ForcedCommitFromBelow(s: ScopeState, which: int)
    requires |s.predictions| > 0 && (which == KeyEnter || which == KeyTab)
    requires s.forceSelection && s.active < -1
    ensures var r := Keydown(s, which);
      r.selected == s.active && r.predictions == s.predictions
      && SelectStep(r) == (r, NoSelection)
  {
    CommitSelects(s, which);
    SelectNothing(Keydown(s, which));
  }

  // ----- Blur -----

  /** A blur with an empty list only blanks the model, and only under `forceSelection`. */
  lemma BlurEmptyList(s: ScopeState)
    requires |s.predictions| == 0
    ensures Blur(s) == if s.forceSelection then s.(model := Text("")) else s
    ensures BlurDeferred(s) == (Blur(s), false)
  {
  }

  /**
   * A blur with a non-empty list: `forceSelection` turns "nothing selected"
   * into the first prediction; if nothing is selected after that, the list
   * is cleared. The model is never touched.
   */
  lemma BlurWithList(s: ScopeState)
    requires |s.predictions| > 0
    ensures var sel := if s.forceSelection && s.selected == -1 then 0 else s.selected;
      var r := Blur(s);
      r.model == s.model
      && (sel == -1 ==> r == Cleared(s))
      && (sel != -1 ==> r == s.(selected := sel))
  {
  }

  /**
   * The deferred blur of the sources ends where the bundle's immediate blur
   * does once its timer has run `clearPredictions`.
   */
  lemma BlurDeferredThenClear(s: ScopeState)
    ensures var (t, scheduled) := BlurDeferred(s);
      (scheduled ==> Cleared(t) == Blur(s)) && (!scheduled ==> t == Blur(s))
  {
  }

  /**
   * In the sources, the blur's own digest runs the `selected` watcher before
   * the blur tests `selected`: under `forceSelection` a blur with nothing
   * selected selects the first prediction, `select` takes it and clears the
   * list, and the test then sees -1 again and schedules the delayed clear.
   */
  lemma BlurWatcherSelects(s: ScopeState)
    requires |s.predictions| > 0 && s.forceSelection && s.selected == -1
    ensures var t := BlurDeferred(s).0;
      var (u, effect) := SelectStep(t);
      t.selected == 0 && effect != NoSelection
      && u.predictions == [] && u.selected == -1 && u.active == -1
  {
  }

  // ----- Selection -----

  /** When `predictions[selected]` does not exist, `select` changes nothing. */
  lemma SelectNothing(s: ScopeState)
    requires !(0 <= s.selected < |s.predictions|)
    ensures SelectStep(s) == (s, NoSelection)
  {
  }

  /**
   * Selecting a custom prediction makes its place the model and emits it;
   * selecting a remote one asks for its details and leaves the model as it
   * was. Either way the list is cleared.
   */
  lemma SelectExisting(s: ScopeState)
    requires 0 <= s.selected < |s.predictions|
    ensures var p := s.predictions[s.selected];
      var (r, effect) := SelectStep(s);
      r.predictions == [] && r.active == -1 && r.selected == -1
      && (p.Custom? ==> r.model == PlaceObject(p.place) && effect == Emitted(p.place))
      && (p.Remote? ==> r.model == s.model && effect == DetailsRequested(p.placeId))
  {
  }

  /**
   * After a custom prediction the matcher built is selected, the input shows
   * the prediction's description, that is the place's address.
   */
  lemma SelectedCustomShowsDescription(s: ScopeState, query: string)
    requires 0 <= s.selected < |s.predictions|
    requires s.customPlaces.Some?
    requires s.predictions[s.selected] in CustomPredictions(query, s.customPlaces.value)
    ensures Format(SelectStep(s).0.model) == s.predictions[s.selected].description
  {
    var places := s.customPlaces.value;
    var preds := CustomPredictions(query, places);
    var idx := CustomPredictionsExact(query, places);
    var k :| 0 <= k < |preds| && preds[k] == s.predictions[s.selected];
    assert preds[k].description == preds[k].place.formattedAddress;
  }

  /**
   * Enter or Tab on an active prediction commits it, and the `select` that
   * the change of `selected` triggers then closes the drawer; a committed
   * custom prediction becomes the model.
   */
  lemma CommitThenSelect(s: ScopeState, which: int)
    requires which == KeyEnter || which == KeyTab
    requires 0 <= s.active < |s.predictions|
    ensures var p := s.predictions[s.active];
      var (r, effect) := SelectStep(Keydown(s, which));
      r.predictions == [] && r.active == -1 && r.selected == -1
      && (p.Custom? ==> r.model == PlaceObject(p.place) && effect == Emitted(p.place))
      && (p.Remote? ==> r.model == s.model && effect == DetailsRequested(p.placeId))
  {
    CommitSelects(s, which);
    SelectExisting(Keydown(s, which));
  }

  // ----- The predictions callback -----

  /**
   * The merged list starts with the custom predictions and continues with
   * the remote ones, present only when the status is OK; it holds the first
   * five of them.
   */
  lemma MergeOrder(custom: seq<Prediction>, remote: seq<Prediction>, statusOk: bool)
    ensures var r := MergePredictions(custom, remote, statusOk);
      var all := custom + (if statusOk then remote else []);
      |r| == (if |all| > MaxPredictions then MaxPredictions else |all|)
      && (forall k :: 0 <= k < |r| && k < |custom| ==> r[k] == custom[k])
      && (forall k :: |custom| <= k < |r| ==> statusOk && r[k] == remote[k - |custom|])
  {
    var r := MergePredictions(custom, remote, statusOk);
    var all := custom + (if statusOk then remote else []);
    assert r == all[..|r|];
    forall k | |custom| <= k < |r|
      ensures statusOk && r[k] == remote[k - |custom|]
    {
      assert r[k] == all[k];
    }
  }

  /** The callback replaces the list: what was listed before does not matter. */
  lemma ArrivalForgetsOldList(s: ScopeState, t: ScopeState, remote: seq<Prediction>, statusOk: bool)
    requires s.(predictions := t.predictions, active := t.active, selected := t.selected) == t
    ensures PredictionsArrived(s, remote, statusOk) == PredictionsArrived(t, remote, statusOk)
  {
  }

  /** Every transition keeps the list at most five long. */
  lemma TransitionsKeepBound(s: ScopeState, which: int, remote: seq<Prediction>, statusOk: bool)
    requires Bounded(s)
    ensures Bounded(Keydown(s, which)) && Bounded(Blur(s)) && Bounded(BlurDeferred(s).0)
    ensures Bounded(SelectStep(s).0) && Bounded(Cleared(s))
    ensures Bounded(PredictionsArrived(s, remote, statusOk))
  {
  }

  /** The directive's scope, updated in place by its event handlers. */
  class Autocomplete {
    var query: string
    var predictions: seq<Prediction>
    var active: int
    var selected: int
    var model: ModelValue
    var forceSelection: bool
    var customPlaces: Option<seq<Place>>

    /** The scope's fields as a value. */
    function Scope(): ScopeState
      reads this
    {
      ScopeState(query, predictions, active, selected, model, forceSelection, customPlaces)
    }

    /**
     * `init`: an empty query and list; `active` and `selected` start as
     * nothing active and nothing selected.
     */
    constructor (model: ModelValue, forceSelection: bool, customPlaces: Option<seq<Place>>)
      ensures Scope() == ScopeState("", [], -1, -1, model, forceSelection, customPlaces)
      ensures Bounded(Scope())
    {
      this.query := "";
      this.predictions := [];
      this.active := -1;
      this.selected := -1;
      this.model := model;
      this.forceSelection := forceSelection;
      this.customPlaces := customPlaces;
    }

    /** `clearPredictions`. */
    method ClearPredictions()
      modifies this
      ensures Scope() == Cleared(old(Scope()))
    {
      active := -1;
      selected := -1;
      predictions := [];
    }

    /** `onKeydown(event)` for a key with code `which`. */
    method OnKeydown(which: int)
      modifies this
      ensures Scope() == Keydown(old(Scope()), which)
    {
      var k := ArrayIndexOf(Some(Hotkeys), which);
      if |predictions| == 0 || k == -1 {
        return;
      }
      if which == KeyDown {
        active := JsRem(active + 1, |predictions|);
      } else if which == KeyUp {
        active := (if active != 0 then active else |predictions|) - 1;
      } else if which == KeyEnter || which == KeyTab {
        if forceSelection {
          active := if active == -1 then 0 else active;
        }
        selected := active;
        if selected == -1 {
          ClearPredictions();
        }
      } else if which == KeyEsc {
        ClearPredictions();
      }
    }

    /** `onBlur` as the bundle has it. */
    method OnBlur()
      modifies this
      ensures Scope() == Blur(old(Scope()))
    {
      if |predictions| == 0 {
        if forceSelection {
          model := Text("");
        }
        return;
      }
      if forceSelection {
        selected := if selected == -1 then 0 else selected;
      }
      if selected == -1 {
        ClearPredictions();
      }
    }

    /** `onBlur` as the sources have it: returns whether the delayed `clearPredictions` was scheduled. */
    method OnBlurDeferred() returns (clearScheduled: bool)
      modifies this
      ensures (Scope(), clearScheduled) == BlurDeferred(old(Scope()))
    {
      clearScheduled := false;
      if |predictions| == 0 {
        if forceSelection {
          model := Text("");
        }
        return;
      }
      if forceSelection {
        selected := if selected == -1 then 0 else selected;
      }
      if selected == -1 {
        clearScheduled := true;
      }
    }

    /** `select`: returns what it asked of the outside world. */
    method Select() returns (effect: SelectEffect)
      modifies this
      ensures (Scope(), effect) == SelectStep(old(Scope()))
    {
      if !(0 <= selected < |predictions|) {
        return NoSelection;
      }
      var prediction := predictions[selected];
      if prediction.Custom? {
        model := PlaceObject(prediction.place);
        effect := Emitted(prediction.place);
      } else {
        effect := DetailsRequested(prediction.placeId);
      }
      ClearPredictions();
    }

    /** The details callback of `select`: an OK status makes the place the model and emits it. */
    method OnDetails(place: Place, statusOk: bool) returns (emitted: Option<Place>)
      modifies this
      ensures statusOk ==> model == PlaceObject(place) && emitted == Some(place)
      ensures !statusOk ==> model == old(model) && emitted == None
      ensures query == old(query) && predictions == old(predictions)
      ensures active == old(active) && selected == old(selected)
      ensures forceSelection == old(forceSelection) && customPlaces == old(customPlaces)
    {
      emitted := None;
      if statusOk {
        model := PlaceObject(place);
        emitted := Some(place);
      }
    }

    /**
     * `parse(viewValue)`: a non-empty string becomes the query and a
     * prediction request for it; the view value is passed on unchanged.
     */
    method Parse(viewValue: ModelValue) returns (r: ModelValue, request: Option<string>)
      modifies this
      ensures r == viewValue
      ensures viewValue.Text? && viewValue.text != "" ==>
        query == viewValue.text && request == Some(viewValue.text)
      ensures !(viewValue.Text? && viewValue.text != "") ==> query == old(query) && request == None
      ensures predictions == old(predictions) && active == old(active) && selected == old(selected)
      ensures model == old(model) && forceSelection == old(forceSelection)
      ensures customPlaces == old(customPlaces)
    {
      if !(viewValue.Text? && viewValue.text != "") {
        return viewValue, None;
      }
      query := viewValue.text;
      request := Some(viewValue.text);
      r := viewValue;
    }

    /** The predictions callback of `parse`, given the remote list and whether its status was OK. */
    method OnPredictions(remote: seq<Prediction>, statusOk: bool)
      modifies this
      ensures Scope() == PredictionsArrived(old(Scope()), remote, statusOk)
    {
      ClearPredictions();
      if customPlaces.Some? {
        var customPlacePredictions := GetCustomPlacePredictions(query, customPlaces.value);
        predictions := predictions + customPlacePredictions;
      }
      assert predictions == CustomFor(query, customPlaces);
      if statusOk {
        predictions := predictions + remote;
      }
      assert predictions == CustomFor(query, customPlaces) + (if statusOk then remote else []);
      if |predictions| > MaxPredictions {
        predictions := predictions[..MaxPredictions];
      }
    }

    /** The drawer's `isOpen()`. */
    function IsOpen(): (r: bool)
      reads this
      ensures r <==> predictions != []
    {
      |predictions| > 0
    }

    /** The drawer's `isActive(index)`. */
    function IsActive(index: int): (r: bool)
      reads this
      ensures r <==> active == index
    {
      active == index
    }

    /** The drawer's `selectActive(index)` (mouse enter). */
    method SelectActive(index: int)
      modifies this
      ensures Scope() == old(Scope()).(active := index)
    {
      active := index;
    }

    /** The drawer's `selectPrediction(index)` (click). */
    method SelectPrediction(index: int)
      modifies this
      ensures Scope() == old(Scope()).(selected := index)
    {
      selected := index;
    }
  }
}
