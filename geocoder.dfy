/** The name handling of the geocoder script: splitting the address file into lines, and
    building one location record per successful geocoding response. The request itself is
    a value: what the script sends for each address line, and what it does with the
    answer. */
module Geocoder {
  import opened Wrappers
  import opened JsStrings
  import NearbyCacher

  /** `lines`: the pieces of a string between its newlines. */
  function Lines(s: string): (r: seq<string>)
    ensures |r| >= 1
    ensures forall k :: 0 <= k < |r| ==> '\n' !in r[k]
  {
    Split(s, '\n')
  }

  /** `words`: the pieces of a string between its spaces. */
  function Words(s: string): (r: seq<string>)
    ensures |r| >= 1
    ensures forall k :: 0 <= k < |r| ==> ' ' !in r[k]
  {
    Split(s, ' ')
  }

  /** The lines of a string joined with newlines give it back, there is one more line than
      there are newlines, and the lines of a join of newline-free lines are those lines. */
  lemma LinesRoundTrip(s: string, ls: seq<string>)
    ensures Join(Lines(s), "\n") == s
    ensures |Lines(s)| == multiset(s)['\n'] + 1
    ensures |ls| >= 1 && (forall k :: 0 <= k < |ls| ==> '\n' !in ls[k]) ==> Lines(Join(ls, "\n")) == ls
  {
    JoinSplit(s, '\n');
    SplitCount(s, '\n');
    if |ls| >= 1 && (forall k :: 0 <= k < |ls| ==> '\n' !in ls[k]) {
      SplitJoin(ls, '\n');
    }
  }

  /** The words of a string joined with spaces give it back, there is one more word than
      there are spaces, and the words of a join of space-free words are those words. */
  lemma WordsRoundTrip(s: string, ws: seq<string>)
    ensures Join(Words(s), " ") == s
    ensures |Words(s)| == multiset(s)[' '] + 1
    ensures |ws| >= 1 && (forall k :: 0 <= k < |ws| ==> ' ' !in ws[k]) ==> Words(Join(ws, " ")) == ws
  {
    JoinSplit(s, ' ');
    SplitCount(s, ' ');
    if |ws| >= 1 && (forall k :: 0 <= k < |ws| ==> ' ' !in ws[k]) {
      SplitJoin(ws, ' ');
    }
  }

  /** `beforeComma`: the first match of the pattern `[^,]*`, the longest prefix without a comma. */
  function BeforeComma(s: string): (r: string)
    ensures StartsWith(s, r)
    ensures ',' !in r
    ensures |r| == |s| || s[|r|] == ','
  {
    if s == [] || s[0] == ',' then []
    else
      var r := BeforeComma(s[1..]);
      assert [s[0]] + r == s[..|r| + 1];
      [s[0]] + r
  }

  /** A string without a comma is its own prefix before the comma; `beforeComma` is
      idempotent. */
  lemma BeforeCommaFixed(s: string)
    ensures ',' !in s ==> BeforeComma(s) == s
    ensures BeforeComma(BeforeComma(s)) == BeforeComma(s)
  {
    var r := BeforeComma(s);
    assert s[..|r|] == r;
    if ',' !in s {
      assert |r| == |s|;
    }
    var rr := BeforeComma(r);
    assert |rr| == |r|;
  }

  /** The coordinates of a geocoding result. */
  datatype GeoLocation = GeoLocation(lat: real, lng: real)

  /** What the geocoding service answers to one request. */
  datatype Response = Failed | Found(location: GeoLocation)

  /** The request sent for one address line: `{address: item}`. */
  datatype Request = Request(address: string)

  /** The request for one address line. */
  function RequestFor(item: string): Request
  {
    Request(item)
  }

  /** What the response callback adds to the results: nothing on an error, otherwise the
      record merging `{nme: beforeComma(item)}` with the result's coordinates. */
  function HandleResponse(item: string, response: Response): (r: Option<NearbyCacher.Location>)
    ensures r.None? <==> response.Failed?
  {
    match response
    case Failed => None
    case Found(location) => Some(NearbyCacher.Location(BeforeComma(item), location.lat, location.lng))
  }

  /** A geocoded record is named by the part of the query before its first comma, while the
      whole query is what was sent; the coordinates are the service's. */
  lemma RecordNamesQuery(item: string, location: GeoLocation)
    ensures var record := HandleResponse(item, Found(location)).value;
      && RequestFor(item).address == item
      && record.nme == BeforeComma(item)
      && StartsWith(RequestFor(item).address, record.nme)
      && ',' !in record.nme
      && (|record.nme| == |item| || item[|record.nme|] == ',')
      && (',' !in item ==> record.nme == item)
      && record.lat == location.lat && record.lng == location.lng
  {
    BeforeCommaFixed(item);
  }
}
