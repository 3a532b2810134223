/**
  The `data:` URI form of section 2 of RFC 2397, restricted to the one
  shape this system emits: `data:<mediatype>;base64,<data>`, with no further
  parameters, no charset and no whitespace.

  `Parse` is an independent reader of that shape. It splits at the LAST `;`
  of the URI; since a base64 payload never contains `;`, this recovers the
  media type whatever characters it holds.
 */
module DataUri {
  import opened Wrappers
  import Base64

  const Scheme: string := "data:"
  const Base64Marker: string := ";base64,"

  /** What a data URI carries: a media type and the decoded bytes. */
  datatype Content = Content(mediaType: string, data: seq<Base64.byte>)

  /** Joins a media type and an already encoded payload into a data URI. */
  function Assemble(mediaType: string, payload: string): (uri: string)
    ensures |uri| == |Scheme| + |mediaType| + |Base64Marker| + |payload|
    ensures uri[..|Scheme|] == Scheme
    ensures uri[|Scheme|..|Scheme| + |mediaType|] == mediaType
    ensures uri[|Scheme| + |mediaType|..|Scheme| + |mediaType| + |Base64Marker|] == Base64Marker
    ensures uri[|Scheme| + |mediaType| + |Base64Marker|..] == payload
  {
    Scheme + mediaType + Base64Marker + payload
  }

  /** The position of the last occurrence of `c` in `s`, if any. */
  function LastIndexOf(s: string, c: char): (r: Option<nat>)
    ensures r.None? ==> forall j :: 0 <= j < |s| ==> s[j] != c
    ensures r.Some? ==> r.value < |s| && s[r.value] == c
    ensures r.Some? ==> forall j :: r.value < j < |s| ==> s[j] != c
    decreases |s|
  {
    if |s| == 0 then None
    else if s[|s| - 1] == c then Some(|s| - 1)
    else LastIndexOf(s[..|s| - 1], c)
  }

  /** Cuts a URI of the form `data:<mediatype>;base64,<payload>` into its media type and payload. */
  function Split(uri: string): Option<(string, string)> {
    if |uri| < |Scheme| || uri[..|Scheme|] != Scheme then None
    else
      var rest := uri[|Scheme|..];
      match LastIndexOf(rest, ';')
      case None => None
      case Some(k) =>
        var tail := rest[k..];
        if |tail| < |Base64Marker| || tail[..|Base64Marker|] != Base64Marker then None
        else Some((rest[..k], tail[|Base64Marker|..]))
  }

  /** Reads a base64 data URI back into its media type and bytes; `None` if it is not one. */
  function Parse(uri: string): Option<Content> {
    match Split(uri)
    case None => None
    case Some((mediaType, payload)) =>
      match Base64.Decode(payload)
      case None => None
      case Some(data) => Some(Content(mediaType, data))
  }

  /** `LastIndexOf` finds a position exactly when it holds `c` and nothing after it does. */
  lemma LastIndexOfAt(s: string, c: char, k: nat)
    requires k < |s| && s[k] == c
    requires forall j :: k < j < |s| ==> s[j] != c
    ensures LastIndexOf(s, c) == Some(k)
  {
  }

  /** The marker holds no `;` after its first character. */
  lemma MarkerTail(i: int)
    requires 1 <= i < |Base64Marker|
    ensures Base64Marker[i] != ';'
  {
    assert i == 1 || i == 2 || i == 3 || i == 4 || i == 5 || i == 6 || i == 7;
  }

  /** After the marker's own `;`, `";base64," + payload` holds none when the payload holds none. */
  lemma MarkerSemicolonIsLast(payload: string)
    requires forall i :: 0 <= i < |payload| ==> payload[i] != ';'
    ensures (Base64Marker + payload)[0] == ';'
    ensures forall i :: 1 <= i < |Base64Marker + payload| ==> (Base64Marker + payload)[i] != ';'
  {
    var tail := Base64Marker + payload;
    forall i | 1 <= i < |tail|
      ensures tail[i] != ';'
    {
      if i < |Base64Marker| {
        MarkerTail(i);
      } else {
        assert tail[i] == payload[i - |Base64Marker|];
      }
    }
  }

  /** In `prefix + tail`, where `tail` starts with the only `;` it holds, the last `;` is at `|prefix|`. */
  lemma LastSemicolonOfConcat(prefix: string, tail: string)
    requires |tail| > 0 && tail[0] == ';'
    requires forall i :: 1 <= i < |tail| ==> tail[i] != ';'
    ensures LastIndexOf(prefix + tail, ';') == Some(|prefix|)
  {
    var rest := prefix + tail;
    var k := |prefix|;
    forall j | k < j < |rest|
      ensures rest[j] != ';'
    {
      assert rest[j] == tail[j - k];
    }
    LastIndexOfAt(rest, ';', k);
  }

  /** Splitting an assembled URI gives back its parts, when the payload holds no `;`. */
  lemma SplitAssemble(mediaType: string, payload: string)
    requires forall i :: 0 <= i < |payload| ==> payload[i] != ';'
    ensures Split(Assemble(mediaType, payload)) == Some((mediaType, payload))
  {
    var uri := Assemble(mediaType, payload);
    var rest := uri[|Scheme|..];
    assert rest == mediaType + (Base64Marker + payload);
    MarkerSemicolonIsLast(payload);
    LastSemicolonOfConcat(mediaType, Base64Marker + payload);
    var k := |mediaType|;
    assert rest[k..] == Base64Marker + payload;
    assert rest[..k] == mediaType;
  }

  /** Whatever `Split` accepts is the assembly of the parts it returns. */
  lemma AssembleSplit(uri: string)
    requires Split(uri).Some?
    ensures uri == Assemble(Split(uri).value.0, Split(uri).value.1)
  {
    var rest := uri[|Scheme|..];
    var k := LastIndexOf(rest, ';').value;
    var tail := rest[k..];
    assert tail == tail[..|Base64Marker|] + tail[|Base64Marker|..];
    assert rest == rest[..k] + tail;
    assert uri == uri[..|Scheme|] + rest;
  }

  /** Parsing an assembled URI gives back its media type and the bytes that were encoded. */
  lemma ParseAssemble(mediaType: string, data: seq<Base64.byte>)
    ensures Parse(Assemble(mediaType, Base64.Encode(data))) == Some(Content(mediaType, data))
  {
    var payload := Base64.Encode(data);
    forall i | 0 <= i < |payload|
      ensures payload[i] != ';'
    {
      Base64.EncodeCharset(data, i);
    }
    SplitAssemble(mediaType, payload);
    Base64.DecodeEncode(data);
  }

  /** Every string `Parse` accepts is exactly the assembly of what it returns: the format admits no variants. */
  lemma AssembleParse(uri: string)
    requires Parse(uri).Some?
    ensures uri == Assemble(Parse(uri).value.mediaType, Base64.Encode(Parse(uri).value.data))
  {
    var (mediaType, payload) := Split(uri).value;
    AssembleSplit(uri);
    Base64.EncodeDecode(payload);
  }
}
