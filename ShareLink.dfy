/**
 * The share link of a problem card and its decoding on start-up: the JSON
 * of a one-element array holding the problem is percent-encoded with
 * `encodeURIComponent`, then base64-encoded with `btoa`, and appended to
 * the page address as the `data` query parameter; on start-up the
 * parameter goes back through `atob`, `decodeURIComponent` and
 * `JSON.parse`. JSON itself is a pair of functions passed in.
 */
module ShareLink {
  import opened Wrappers
  import opened Types
  import Base64
  import UriComponent

  /** What `JSON.parse` made of a text: a failure, a value that is not an array, or an array of records. */
  datatype ParsedJson = NotJson | NonArray | ArrayOf(items: seq<Problem>)

  /** The text shared for a problem: the JSON of a one-element array holding it. */
  function Payload(problem: Problem, stringify: seq<Problem> -> string): string {
    stringify([problem])
  }

  /** The `data` parameter of the link: `btoa(encodeURIComponent(json))`, None where `btoa` would throw. */
  function ShareData(json: string): Option<string> {
    Base64.Btoa(UriComponent.Encode(json))
  }

  /** The whole link: origin, path name, `?data=` and the encoded payload. */
  function Link(origin: string, pathname: string, problem: Problem, stringify: seq<Problem> -> string): Option<string> {
    match ShareData(Payload(problem, stringify))
    case None => None
    case Some(b64) => Some(origin + pathname + "?data=" + b64)
  }

  /**
   * The text `decodeURIComponent(atob(data))` yields for a `data` query
   * parameter, or None when the parameter is missing or empty (nothing is
   * imported) or either decoding step throws.
   */
  function DecodeData(data: Option<string>): Option<string> {
    if data.None? || data.value == "" then None
    else match Base64.Atob(data.value)
      case None => None
      case Some(bytes) => UriComponent.Decode(Base64.Latin1String(bytes))
  }

  /**
   * The records offered for import: those of a JSON array decoded from the
   * parameter, or None when decoding or parsing fails or the value is not
   * an array (the error is caught and nothing happens).
   */
  function Offered(data: Option<string>, parse: string -> ParsedJson): Option<seq<Problem>> {
    match DecodeData(data)
    case None => None
    case Some(json) =>
      match parse(json)
      case ArrayOf(items) => Some(items)
      case _ => None
  }

  /** `btoa` never throws on a share payload: the percent-encoded text is ASCII. */
  lemma ShareDataDefined(json: string)
    ensures ShareData(json).Some?
    ensures forall k | 0 <= k < |ShareData(json).value| ::
      Base64.IsBase64Char(ShareData(json).value[k]) || ShareData(json).value[k] == '='
    ensures ShareData(json).value == "" <==> json == ""
  {
    var e := UriComponent.Encode(json);
    UriComponent.EncodeAscii(json);
    var b := Base64.Latin1Bytes(e).value;
    Base64.EncodeShape(b);
  }

  /** Decoding the `data` parameter of a link gives back exactly the JSON that was shared. */
  lemma DecodeShareData(json: string)
    requires json != ""
    ensures ShareData(json).Some? && DecodeData(ShareData(json)) == Some(json)
  {
    var e := UriComponent.Encode(json);
    UriComponent.EncodeAscii(json);
    ShareDataDefined(json);
    Base64.AtobBtoa(e);
    UriComponent.DecodeEncode(json);
  }

  /**
   * A link is the page address followed by `?data=` and a parameter that
   * decodes back to the payload.
   */
  lemma LinkShape(origin: string, pathname: string, problem: Problem, stringify: seq<Problem> -> string)
    requires Payload(problem, stringify) != ""
    ensures Link(origin, pathname, problem, stringify).Some?
    ensures var link := Link(origin, pathname, problem, stringify).value;
      var n := |origin| + |pathname| + 6;
      |link| > n && link[..n] == origin + pathname + "?data=" &&
      DecodeData(Some(link[n..])) == Some(Payload(problem, stringify))
  {
    var json := Payload(problem, stringify);
    DecodeShareData(json);
    var b64 := ShareData(json).value;
    var link := origin + pathname + "?data=" + b64;
    var n := |origin| + |pathname| + 6;
    assert link[..n] == origin + pathname + "?data=";
    assert link[n..] == b64;
  }

  /**
   * Provided `JSON.parse` reads back what `JSON.stringify` wrote, following
   * a link offers exactly the one shared problem for import.
   */
  lemma SharedProblemOffered(problem: Problem, stringify: seq<Problem> -> string, parse: string -> ParsedJson)
    requires Payload(problem, stringify) != ""
    requires parse(stringify([problem])) == ArrayOf([problem])
    ensures Offered(ShareData(Payload(problem, stringify)), parse) == Some([problem])
  {
    DecodeShareData(Payload(problem, stringify));
  }

  /** A missing or empty parameter, and one that is not base64, offers nothing. */
  lemma NothingOffered(data: Option<string>, parse: string -> ParsedJson)
    requires data.None? || data.value == "" || Base64.Atob(data.value).None?
    ensures Offered(data, parse).None?
  {
  }
}
