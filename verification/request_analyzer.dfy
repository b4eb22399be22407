/** Reading the `sort` parameter of a listing request: a value of the form
    `attribute_direction` becomes a one-entry ordering `{attribute: ASC|DESC}`
    for the repository query; anything else becomes no ordering, with a
    warning for the front-end log when the value was malformed. */
module RequestAnalyzer {
  import opened Wrappers
  import opened Strings

  const SORT_SEPARATOR := '_'

  /** Values that mean "no particular order"; PHP's loose `in_array` makes
      `null` and `''` equal, which the list already contains both of. */
  const UNSORTED: seq<Option<string>> :=
    [None, Some(""), Some("none"), Some("default"), Some("null")]

  /** The two accepted direction tokens. */
  const DIRECTIONS: seq<string> := ["down", "up"]

  /** What `getSortParams` reports through the front-end logger; the class
      name the messages also carry is not modelled. */
  datatype Warning =
    | BadDirection(direction: string)
    | NoAttributes
    | BadAttribute(attribute: string)
    | BadFormat(sort: string)

  /** The ordering handed to the repository, plus the logged warning. */
  datatype SortParams = SortParams(order: map<string, string>, warning: Option<Warning>)

  const NO_ORDER := SortParams(map[], None)

  predicate Unsorted(sort: Option<string>) {
    sort in UNSORTED
  }

  /** None of the "no order" values holds a separator. */
  lemma SeparatedIsSorted(s: string)
    requires SORT_SEPARATOR in s
    ensures !Unsorted(Some(s))
  {
    assert SORT_SEPARATOR !in "none" && SORT_SEPARATOR !in "default" && SORT_SEPARATOR !in "null";
  }

  /** `str_replace(['down', 'up'], ['ASC', 'DESC'], token)`: the first pair
      is applied to the whole token, then the second to that result. */
  function Direction(token: string): string {
    ReplaceAll(ReplaceAll(token, "down", "ASC"), "up", "DESC")
  }

  /** `explode('_', sort)`: there is a second piece exactly when the value
      holds a separator. */
  function SortTokens(s: string): (t: seq<string>)
    ensures |t| >= 1
    ensures SORT_SEPARATOR in s <==> |t| >= 2
    ensures forall i :: 0 <= i < |t| ==> SORT_SEPARATOR !in t[i]
  {
    SplitLength(s, SORT_SEPARATOR);
    OccurrencesPositive(s, SORT_SEPARATOR);
    Split(s, SORT_SEPARATOR)
  }

  /** `getSortParams`. `attributes` is the list the object's static
      `getAttributes` returns, or `None` when it has no such method. */
  function GetSortParams(sort: Option<string>, attributes: Option<seq<string>>): (r: SortParams)
    ensures |r.order| <= 1
    ensures Unsorted(sort) ==> r == NO_ORDER
    ensures sort.Some? && !Unsorted(sort) && SORT_SEPARATOR !in sort.value ==>
              r == SortParams(map[], Some(BadFormat(sort.value)))
    ensures r.warning.None? <==> Unsorted(sort) || |r.order| == 1
    ensures forall a :: a in r.order ==>
              attributes.Some? && a in attributes.value && SORT_SEPARATOR !in a
              && r.order[a] in ["ASC", "DESC"]
  {
    if Unsorted(sort) then NO_ORDER
    else
      var s := sort.value;
      ContainsChar(s, SORT_SEPARATOR);
      if Contains(s, [SORT_SEPARATOR]) then
        var tokens := SortTokens(s);
        if tokens[1] !in DIRECTIONS then SortParams(map[], Some(BadDirection(tokens[1])))
        else if attributes.None? then SortParams(map[], Some(NoAttributes))
        else if tokens[0] !in attributes.value then SortParams(map[], Some(BadAttribute(tokens[0])))
        else
          DirectionValues();
          SortParams(map[tokens[0] := Direction(tokens[1])], None)
      else SortParams(map[], Some(BadFormat(s)))
  }

  /** `down` sorts ascending and `up` descending. */
  lemma DirectionValues()
    ensures Direction("down") == "ASC"
    ensures Direction("up") == "DESC"
  {
    assert ReplaceAll("down", "down", "ASC") == "ASC" by {
      assert "down"[4..] == "";
    }
    assert !Contains("ASC", "up") by {
      if Contains("C", "up") {
        ContainsFits("C", "up");
      }
      assert "ASC"[1..] == "SC" && "SC"[1..] == "C";
      assert "ASC"[0] != "up"[0] && "SC"[0] != "up"[0];
    }
    ReplaceAbsent("ASC", "up", "DESC");
    assert ReplaceAll("up", "up", "DESC") == "DESC" by {
      assert "up"[2..] == "";
    }
  }

  /** The pieces of a request `attribute_direction` followed by anything
      that starts with a separator. */
  predicate SortRequest(sort: string, attribute: string, direction: string, tail: string) {
    sort == attribute + [SORT_SEPARATOR] + direction + tail
    && SORT_SEPARATOR !in attribute && SORT_SEPARATOR !in direction
    && (tail == "" || tail[0] == SORT_SEPARATOR)
  }

  /** Such a request splits into the attribute and the direction first. */
  lemma SortRequestTokens(sort: string, attribute: string, direction: string, tail: string)
    requires SortRequest(sort, attribute, direction, tail)
    ensures SORT_SEPARATOR in sort
    ensures SortTokens(sort)[..2] == [attribute, direction]
  {
    var rest := direction + tail;
    assert sort == attribute + [SORT_SEPARATOR] + rest;
    assert sort[|attribute|] == SORT_SEPARATOR;
    SplitCons(attribute, SORT_SEPARATOR, rest);
    if tail == "" {
      assert rest == direction;
      SplitNoSep(direction, SORT_SEPARATOR);
    } else {
      assert rest == direction + [SORT_SEPARATOR] + tail[1..];
      SplitCons(direction, SORT_SEPARATOR, tail[1..]);
    }
  }

  /** A request `attribute_down` or `attribute_up`, whatever follows it,
      orders by that attribute when the object lists it. */
  lemma SortAccepted(sort: string, attribute: string, direction: string, tail: string,
                     attributes: seq<string>)
    requires SortRequest(sort, attribute, direction, tail)
    requires direction in DIRECTIONS && attribute in attributes
    ensures GetSortParams(Some(sort), Some(attributes))
            == SortParams(map[attribute := if direction == "down" then "ASC" else "DESC"], None)
  {
    SortRequestTokens(sort, attribute, direction, tail);
    ContainsChar(sort, SORT_SEPARATOR);
    DirectionValues();
    SeparatedIsSorted(sort);
    var tokens := SortTokens(sort);
    assert tokens[0] == attribute && tokens[1] == direction by {
      assert tokens[..2][0] == tokens[0] && tokens[..2][1] == tokens[1];
    }
  }

  /** Conversely, an ordering comes only from such a request: the first two
      pieces name a listed attribute and a direction, and the entry is that
      attribute. */
  lemma SortOnlyAccepted(sort: Option<string>, attributes: Option<seq<string>>)
    requires |GetSortParams(sort, attributes).order| == 1
    ensures sort.Some? && SORT_SEPARATOR in sort.value && attributes.Some?
    ensures SortRequest(sort.value, SortTokens(sort.value)[0],
                        SortTokens(sort.value)[1], SortTail(sort.value))
    ensures SortTokens(sort.value)[0] in attributes.value
    ensures SortTokens(sort.value)[1] in DIRECTIONS
  {
    var r := GetSortParams(sort, attributes);
    assert !Unsorted(sort);
    var s := sort.value;
    ContainsChar(s, SORT_SEPARATOR);
    SortTailSplits(s);
  }

  /** What follows the first two pieces, separator included. */
  function SortTail(s: string): (t: string)
    requires SORT_SEPARATOR in s
  {
    var parts := SortTokens(s);
    if |parts| == 2 then "" else [SORT_SEPARATOR] + Join(parts[2..], SORT_SEPARATOR)
  }

  lemma SortTailSplits(s: string)
    requires SORT_SEPARATOR in s
    ensures |SortTokens(s)| >= 2
    ensures SortRequest(s, SortTokens(s)[0], SortTokens(s)[1], SortTail(s))
  {
    var parts := SortTokens(s);
    JoinSplit(s, SORT_SEPARATOR);
    assert Join(parts, SORT_SEPARATOR) == parts[0] + [SORT_SEPARATOR] + Join(parts[1..], SORT_SEPARATOR);
    if |parts| == 2 {
      assert Join(parts[1..], SORT_SEPARATOR) == parts[1];
    } else {
      assert parts[1..][1..] == parts[2..];
      var rest := Join(parts[2..], SORT_SEPARATOR);
      assert Join(parts[1..], SORT_SEPARATOR) == parts[1] + [SORT_SEPARATOR] + rest;
      assert s == parts[0] + [SORT_SEPARATOR] + parts[1] + ([SORT_SEPARATOR] + rest);
    }
  }

  /** Pieces after the second are ignored: appending a separator and more
      text to a value that already holds a separator changes nothing. */
  lemma {:induction false} SortIgnoresTail(s: string, extra: string,
                                           attributes: Option<seq<string>>)
    requires SORT_SEPARATOR in s
    ensures GetSortParams(Some(s + [SORT_SEPARATOR] + extra), attributes)
            == GetSortParams(Some(s), attributes)
  {
    var longer := s + [SORT_SEPARATOR] + extra;
    var parts := SortTokens(s);
    SortTailSplits(s);
    var tail := SortTail(s) + [SORT_SEPARATOR] + extra;
    assert tail[0] == SORT_SEPARATOR;
    assert longer == parts[0] + [SORT_SEPARATOR] + parts[1] + tail;
    SortRequestTokens(longer, parts[0], parts[1], tail);
    var more := SortTokens(longer);
    assert more[0] == parts[0] && more[1] == parts[1] by {
      assert more[..2][0] == more[0] && more[..2][1] == more[1];
    }
    ContainsChar(s, SORT_SEPARATOR);
    ContainsChar(longer, SORT_SEPARATOR);
    SeparatedIsSorted(s);
    SeparatedIsSorted(longer);
  }

  /** A direction token other than `down` or `up` is refused, whatever the
      attribute, and reported. */
  lemma SortBadDirection(s: string, attributes: Option<seq<string>>)
    requires SORT_SEPARATOR in s
    requires SortTokens(s)[1] !in DIRECTIONS
    ensures GetSortParams(Some(s), attributes)
            == SortParams(map[], Some(BadDirection(SortTokens(s)[1])))
  {
    ContainsChar(s, SORT_SEPARATOR);
    SeparatedIsSorted(s);
  }

  /** With a valid direction, an object without `getAttributes` or an
      attribute it does not list is refused and reported. */
  lemma SortBadAttribute(s: string, attributes: Option<seq<string>>)
    requires SORT_SEPARATOR in s
    requires SortTokens(s)[1] in DIRECTIONS
    requires attributes.None? || SortTokens(s)[0] !in attributes.value
    ensures GetSortParams(Some(s), attributes)
            == SortParams(map[], Some(if attributes.None? then NoAttributes
                                      else BadAttribute(SortTokens(s)[0])))
  {
    ContainsChar(s, SORT_SEPARATOR);
    SeparatedIsSorted(s);
  }
}
