/**
 * `CustomPagination`: the limit/offset page envelope gains `previous_offset`
 * and `next_offset`, read from the query strings of its `previous` and `next`
 * links.
 */
module Pagination {
  import opened Wrappers
  import opened Values
  import Text

  /** How reading an offset fails. */
  datatype PaginationError =
    | IndexError      // a query parameter without `=`: `split_value[1]` is out of range
    | AttributeError  // a truthy link that is not a string has no `split`

  /** `contruct_dict_from_list(data_list)`: each `k=v` maps `k` to `v`; a later key overrides an earlier one. */
  function ConstructDict(items: seq<string>): Result<map<string, string>, PaginationError>
    decreases |items|
  {
    if |items| == 0 then Success(map[])
    else
      match ConstructDict(items[..|items| - 1])
      case Failure(e) => Failure(e)
      case Success(d) =>
        var parts := Text.Split(items[|items| - 1], '=');
        if |parts| < 2 then Failure(IndexError) else Success(d[parts[0] := parts[1]])
  }

  /** The dict fails exactly when some item has no `=`. */
  lemma {:induction false} ConstructDictFailsIff(items: seq<string>)
    ensures ConstructDict(items).Failure? <==> exists i :: 0 <= i < |items| && '=' !in items[i]
    decreases |items|
  {
    if |items| > 0 {
      var init := items[..|items| - 1];
      var last := items[|items| - 1];
      ConstructDictFailsIff(init);
      SplitCountsSeparator(last);
      if exists i :: 0 <= i < |items| && '=' !in items[i] {
        var i :| 0 <= i < |items| && '=' !in items[i];
        if i < |items| - 1 {
          assert '=' !in init[i];
        }
      }
      if exists i :: 0 <= i < |init| && '=' !in init[i] {
        var i :| 0 <= i < |init| && '=' !in init[i];
        assert '=' !in items[i];
      }
    }
  }

  /**
   * Each item's key (the text before its first `=`) is in the dict, with the
   * value of the LAST item carrying that key: the text between its first and
   * second `=`.
   */
  lemma {:induction false} ConstructDictLastWins(items: seq<string>, i: int)
    requires ConstructDict(items).Success?
    requires 0 <= i < |items|
    requires forall j :: i < j < |items| ==> Text.Split(items[j], '=')[0] != Text.Split(items[i], '=')[0]
    ensures |Text.Split(items[i], '=')| >= 2
    ensures Text.Split(items[i], '=')[0] in ConstructDict(items).value
    ensures ConstructDict(items).value[Text.Split(items[i], '=')[0]] == Text.Split(items[i], '=')[1]
    decreases |items|
  {
    var init := items[..|items| - 1];
    if i < |items| - 1 {
      assert init[i] == items[i];
      forall j | i < j < |init| ensures Text.Split(init[j], '=')[0] != Text.Split(init[i], '=')[0] {
        assert init[j] == items[j];
      }
      ConstructDictLastWins(init, i);
    }
  }

  /** Every key of the dict is the key of some item. */
  lemma {:induction false} ConstructDictKeysFromItems(items: seq<string>, k: string)
    requires ConstructDict(items).Success?
    requires k in ConstructDict(items).value
    ensures exists i :: 0 <= i < |items| && Text.Split(items[i], '=')[0] == k
    decreases |items|
  {
    var init := items[..|items| - 1];
    if k != Text.Split(items[|items| - 1], '=')[0] {
      ConstructDictKeysFromItems(init, k);
      var i :| 0 <= i < |init| && Text.Split(init[i], '=')[0] == k;
      assert items[i] == init[i];
    }
  }

  /** A string splits into at least two pieces exactly when it holds the separator. */
  lemma SplitCountsSeparator(s: string)
    ensures |Text.Split(s, '=')| >= 2 <==> '=' in s
  {
    if '=' in s {
      var i :| 0 <= i < |s| && s[i] == '=';
      Text.SplitHasTwoPieces(s, '=', i);
    } else {
      Text.SplitNoSeparator(s, '=');
    }
  }

  /** The offset in a query string: `params["offset"]` if present. */
  function OffsetFromQuery(query: string): Result<Option<string>, PaginationError> {
    match ConstructDict(Text.Split(query, '&'))
    case Failure(e) => Failure(e)
    case Success(params) => if "offset" in params then Success(Some(params["offset"])) else Success(None)
  }

  /** `get_offset_from_url(url)`: falsy gives None; otherwise only the text after the last `?` is read. */
  function GetOffsetFromUrl(url: Value): Result<Option<string>, PaginationError> {
    if !Truthy(url) then Success(None)
    else if !url.VStr? then Failure(AttributeError)
    else OffsetFromQuery(Text.Last(Text.Split(url.s, '?')))
  }

  /** No link, or an empty one, has no offset. */
  lemma NoLinkNoOffset()
    ensures GetOffsetFromUrl(VNone) == Success(None)
    ensures GetOffsetFromUrl(VStr("")) == Success(None)
  {
  }

  /**
   * Only the text after the last `?` is read; a link without `?` is read as
   * a query string as a whole.
   */
  lemma OnlyLastQueryIsRead(base: string, query: string)
    requires '?' !in query
    ensures GetOffsetFromUrl(VStr(base + "?" + query)) == OffsetFromQuery(query)
    ensures query != "" ==> GetOffsetFromUrl(VStr(query)) == OffsetFromQuery(query)
  {
    Text.LastPieceAfterSeparator(base, '?', query);
    Text.LastPieceWithoutAnySeparator(query, '?');
  }

  /** A query parameter `k=v`. */
  function Param(k: string, v: string): string {
    k + "=" + v
  }

  function Params(pairs: seq<(string, string)>): (r: seq<string>)
    ensures |r| == |pairs|
  {
    seq(|pairs|, i requires 0 <= i < |pairs| => Param(pairs[i].0, pairs[i].1))
  }

  predicate PlainText(s: string) {
    '&' !in s && '=' !in s && '?' !in s
  }

  /** The dict of a query string built from pairs with plain keys and values: later pairs override earlier ones. */
  function PairsDict(pairs: seq<(string, string)>): map<string, string>
    decreases |pairs|
  {
    if |pairs| == 0 then map[]
    else PairsDict(pairs[..|pairs| - 1])[pairs[|pairs| - 1].0 := pairs[|pairs| - 1].1]
  }

  /**
   * Round trip: a link whose query string is the `&`-joined `k=v` pairs
   * (plain keys and values) yields the value of its last `offset` pair, or
   * None without one.
   */
  lemma OffsetRoundTrip(base: string, pairs: seq<(string, string)>)
    requires |pairs| >= 1
    requires forall i :: 0 <= i < |pairs| ==> PlainText(pairs[i].0) && PlainText(pairs[i].1)
    ensures var url := VStr(base + "?" + Text.Join("&", Params(pairs)));
      GetOffsetFromUrl(url)
        == Success(if "offset" in PairsDict(pairs) then Some(PairsDict(pairs)["offset"]) else None)
  {
    var query := Text.Join("&", Params(pairs));
    JoinedParamsArePlain(Params(pairs), pairs);
    OnlyLastQueryIsRead(base, query);
    Text.SplitJoin(Params(pairs), '&');
    ParamsDict(pairs);
  }

  /** The joined query string holds no `?`, and no parameter holds `&`. */
  lemma {:induction false} JoinedParamsArePlain(ps: seq<string>, pairs: seq<(string, string)>)
    requires ps == Params(pairs)
    requires forall i :: 0 <= i < |pairs| ==> PlainText(pairs[i].0) && PlainText(pairs[i].1)
    ensures forall i :: 0 <= i < |ps| ==> '&' !in ps[i]
    ensures '?' !in Text.Join("&", ps)
    decreases |ps|
  {
    forall i | 0 <= i < |ps| ensures '&' !in ps[i] && '?' !in ps[i] {
      assert ps[i] == pairs[i].0 + "=" + pairs[i].1;
    }
    JoinHasNo(ps, '?');
  }

  lemma {:induction false} JoinHasNo(ps: seq<string>, c: char)
    requires c != '&'
    requires forall i :: 0 <= i < |ps| ==> c !in ps[i]
    ensures c !in Text.Join("&", ps)
    decreases |ps|
  {
    if |ps| > 1 {
      JoinHasNo(ps[1..], c);
      assert ps[0] == ps[0];
    }
  }

  /** The dict built from `k=v` parameters is the pairs' dict. */
  lemma {:induction false} ParamsDict(pairs: seq<(string, string)>)
    requires forall i :: 0 <= i < |pairs| ==> PlainText(pairs[i].0) && PlainText(pairs[i].1)
    ensures ConstructDict(Params(pairs)) == Success(PairsDict(pairs))
    decreases |pairs|
  {
    if |pairs| > 0 {
      var init := pairs[..|pairs| - 1];
      var (k, v) := pairs[|pairs| - 1];
      ParamsDict(init);
      assert Params(pairs)[..|pairs| - 1] == Params(init);
      Text.SplitPair(k, '=', v);
      assert Params(pairs)[|pairs| - 1] == k + ['='] + v;
    }
  }

  /**
   * `get_paginated_response`: the envelope gains `previous_offset` and
   * `next_offset` (None, or the offset string), read from the `previous`
   * link first; every other key keeps its value. An error from either link
   * leaves the envelope unchanged.
   */
  method GetPaginatedResponse(data: Dict) returns (r: Result<(), PaginationError>)
    requires "previous" in data.items && "next" in data.items
    modifies data
    ensures match (GetOffsetFromUrl(old(data.items)["previous"]), GetOffsetFromUrl(old(data.items)["next"]))
      case (Failure(e), _) => r == Failure(e) && data.items == old(data.items)
      case (Success(_), Failure(e)) => r == Failure(e) && data.items == old(data.items)
      case (Success(p), Success(n)) =>
        && r == Success(())
        && data.items == old(data.items)["previous_offset" := AsValue(p)]["next_offset" := AsValue(n)]
  {
    var previousOffset := GetOffsetFromUrl(data.items["previous"]);
    if previousOffset.Failure? {
      return Failure(previousOffset.error);
    }
    var nextOffset := GetOffsetFromUrl(data.items["next"]);
    if nextOffset.Failure? {
      return Failure(nextOffset.error);
    }
    data.Put("previous_offset", AsValue(previousOffset.value));
    data.Put("next_offset", AsValue(nextOffset.value));
    return Success(());
  }

  /** An offset as a response value: None, or its string. */
  function AsValue(offset: Option<string>): Value {
    match offset
    case None => VNone
    case Some(s) => VStr(s)
  }
}
