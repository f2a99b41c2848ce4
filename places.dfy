/** The records the widget passes around: custom places, predictions and the bound model value. */
module Places {
  import opened Wrappers

  /**
   * A place: a custom place supplied by the host page, or a place the details
   * service returned. `customPredictionLabel` is `None` when the field is absent.
   */
  datatype Place = Place(formattedAddress: string, customPredictionLabel: Option<string>)

  /** One highlighted stretch of a prediction: `length` characters at `offset`. */
  datatype MatchedSubstring = MatchedSubstring(length: nat, offset: nat)

  /** One comma-separated term of a prediction's address and where it starts. */
  datatype Term = Term(value: string, offset: int)

  /** What the custom-place matcher returns for one place. */
  datatype PlaceMatch = PlaceMatch(matchedSubstrings: seq<MatchedSubstring>, terms: seq<Term>)

  /**
   * A row of the drawer: a prediction synthesised from a custom place
   * (`is_custom` set), or one returned by the remote prediction service.
   */
  datatype Prediction =
    | Custom(customPredictionLabel: string, description: string, place: Place,
             matchedSubstrings: seq<MatchedSubstring>, terms: seq<Term>)
    | Remote(placeId: string, description: string,
             matchedSubstrings: seq<MatchedSubstring>, terms: seq<Term>)

  /** The value bound to `ngModel`: a string, an object (a place), or anything else. */
  datatype ModelValue = Text(text: string) | PlaceObject(place: Place) | OtherValue
}
