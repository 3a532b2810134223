/**
  The `include_data_uri!` transform: a file's bytes and its guessed media
  types become a base64 data URI, or the build is aborted.

  The filesystem and the media-type table are outside the model; their
  outcomes are inputs:
  - `canonical`: the result of canonicalising `<manifest dir>/src/<path>`
    (`None` when canonicalisation fails), where `<manifest dir>` is the macro's
    own package directory, fixed by `env!` when that package is built;
  - `candidates`: the media types guessed from the canonical path's extension,
    in the table's order (possibly empty);
  - `contents`: the result of reading the file (`None` when reading fails).

  The media-type policy is strict: no candidate is an error, there is no
  `application/octet-stream` fallback.
 */
module IncludeDataUri {
  import opened Wrappers
  import Base64
  import DataUri

  /** The three ways the transform fails, in the order it checks them. */
  datatype ErrorKind = CanonicalizeFailed | UnknownMimeType | ReadFailed

  /** What the macro leaves at its call site: a string literal, or a build-aborting panic. */
  datatype Expansion = StringLiteral(uri: string) | CompileError(message: string, cause: ErrorKind)

  const PanicMessage: string := "macro runtime error"

  /**
    The transform. Steps run in source order and the first failing one
    decides the error; on success the URI carries the FIRST candidate and
    the exact file bytes.
   */
  function Inner(canonical: Option<string>, candidates: seq<string>, contents: Option<seq<Base64.byte>>)
    : (r: Result<string, ErrorKind>)
    ensures canonical.None? ==> r == Failure(CanonicalizeFailed)
    ensures canonical.Some? && |candidates| == 0 ==> r == Failure(UnknownMimeType)
    ensures canonical.Some? && |candidates| > 0 && contents.None? ==> r == Failure(ReadFailed)
    ensures r.Success? <==> canonical.Some? && |candidates| > 0 && contents.Some?
  {
    var _ :- canonical.ToResult(CanonicalizeFailed);
    if |candidates| == 0 then Failure(UnknownMimeType)
    else
      var raw :- contents.ToResult(ReadFailed);
      Success(DataUri.Assemble(candidates[0], Base64.Encode(raw)))
  }

  /**
    The macro entry point: a URI reaches the compiled program only from a
    successful transform, and every failure aborts the build instead of
    becoming a string.
   */
  function Expand(canonical: Option<string>, candidates: seq<string>, contents: Option<seq<Base64.byte>>)
    : (e: Expansion)
    ensures e.StringLiteral? <==> canonical.Some? && |candidates| > 0 && contents.Some?
    ensures e.StringLiteral? ==> Inner(canonical, candidates, contents) == Success(e.uri)
    ensures e.StringLiteral? ==> DataUri.Parse(e.uri) == Some(DataUri.Content(candidates[0], contents.value))
    ensures e.CompileError? ==> e == CompileError(PanicMessage, Inner(canonical, candidates, contents).error)
  {
    match Inner(canonical, candidates, contents)
    case Success(uri) =>
      InnerRoundTrip(canonical, candidates, contents);
      StringLiteral(uri)
    case Failure(kind) => CompileError(PanicMessage, kind)
  }

  /** Reading a produced URI back gives the first candidate and the exact file bytes. */
  lemma InnerRoundTrip(canonical: Option<string>, candidates: seq<string>, contents: Option<seq<Base64.byte>>)
    requires Inner(canonical, candidates, contents).Success?
    ensures DataUri.Parse(Inner(canonical, candidates, contents).value) == Some(DataUri.Content(candidates[0], contents.value))
  {
    DataUri.ParseAssemble(candidates[0], contents.value);
  }

  /**
    The exact output format: `data:`, the first candidate, `;base64,`, and
    then only the padded standard base64 of the file bytes, four characters
    per started group of three bytes, with `=` exactly as padding.
   */
  lemma SuccessFormat(canonical: Option<string>, candidates: seq<string>, contents: Option<seq<Base64.byte>>, uri: string)
    requires Inner(canonical, candidates, contents) == Success(uri)
    ensures |uri| == |DataUri.Scheme| + |candidates[0]| + |DataUri.Base64Marker| + 4 * ((|contents.value| + 2) / 3)
    ensures uri[..|DataUri.Scheme| + |candidates[0]| + |DataUri.Base64Marker|] == "data:" + candidates[0] + ";base64,"
    ensures forall i :: |DataUri.Scheme| + |candidates[0]| + |DataUri.Base64Marker| <= i < |uri| - (3 - |contents.value| % 3) % 3 ==> Base64.IsAlphabetChar(uri[i])
    ensures forall i :: |uri| - (3 - |contents.value| % 3) % 3 <= i < |uri| ==> uri[i] == '='
    ensures Base64.Decode(uri[|DataUri.Scheme| + |candidates[0]| + |DataUri.Base64Marker|..]) == Some(contents.value)
  {
    var mediaType, raw := candidates[0], contents.value;
    var payload := Base64.Encode(raw);
    var n := |DataUri.Scheme| + |mediaType| + |DataUri.Base64Marker|;
    assert uri == DataUri.Assemble(mediaType, payload);
    assert uri[..n] == "data:" + mediaType + ";base64,";
    assert uri[n..] == payload;
    Base64.EncodeShape(raw);
    forall i | n <= i < |uri| - Base64.PadCount(|raw|)
      ensures Base64.IsAlphabetChar(uri[i])
    {
      assert uri[i] == payload[i - n];
    }
    forall i | |uri| - Base64.PadCount(|raw|) <= i < |uri|
      ensures uri[i] == '='
    {
      assert uri[i] == payload[i - n];
    }
    Base64.DecodeEncode(raw);
  }

  /** Only the first candidate matters: lists that agree on it give the same result. */
  lemma FirstCandidateDecides(canonical: Option<string>, a: seq<string>, b: seq<string>, contents: Option<seq<Base64.byte>>)
    requires |a| > 0 && |b| > 0 && a[0] == b[0]
    ensures Inner(canonical, a, contents) == Inner(canonical, b, contents)
  {
  }

  /** Files with different bytes never share a URI: the transform loses nothing of the contents. */
  lemma DistinctBytesDistinctUri(path: string, candidates: seq<string>, x: seq<Base64.byte>, y: seq<Base64.byte>)
    requires |candidates| > 0 && x != y
    ensures Inner(Some(path), candidates, Some(x)) != Inner(Some(path), candidates, Some(y))
  {
    DataUri.ParseAssemble(candidates[0], x);
    DataUri.ParseAssemble(candidates[0], y);
  }

  /** The four groups of `Hello World!` as base64 characters. */
  lemma HelloWorldGroups()
    ensures Base64.EncodeGroup(72, 101, 108) == "SGVs"
    ensures Base64.EncodeGroup(108, 111, 32) == "bG8g"
    ensures Base64.EncodeGroup(87, 111, 114) == "V29y"
    ensures Base64.EncodeGroup(108, 100, 33) == "bGQh"
  {
    assert 72 / 4 == 18 && (72 % 4) * 16 + 101 / 16 == 6 && (101 % 16) * 4 + 108 / 64 == 21 && 108 % 64 == 44;
    assert 108 / 4 == 27 && (108 % 4) * 16 + 111 / 16 == 6 && (111 % 16) * 4 + 32 / 64 == 60 && 32 % 64 == 32;
    assert 87 / 4 == 21 && (87 % 4) * 16 + 111 / 16 == 54 && (111 % 16) * 4 + 114 / 64 == 61 && 114 % 64 == 50;
    assert 108 / 4 == 27 && (108 % 4) * 16 + 100 / 16 == 6 && (100 % 16) * 4 + 33 / 64 == 16 && 33 % 64 == 33;
  }

  /** Twelve bytes encode as four full groups, with no padding. */
  lemma EncodeFourGroups(raw: seq<Base64.byte>)
    requires |raw| == 12
    ensures Base64.Encode(raw) == Base64.EncodeGroup(raw[0], raw[1], raw[2]) + Base64.EncodeGroup(raw[3], raw[4], raw[5])
                                  + Base64.EncodeGroup(raw[6], raw[7], raw[8]) + Base64.EncodeGroup(raw[9], raw[10], raw[11])
  {
    var t1, t2, t3 := raw[3..], raw[6..], raw[9..];
    assert t1[3..] == t2 && t2[3..] == t3 && t3[3..] == [];
    assert Base64.Encode(t3) == Base64.EncodeGroup(raw[9], raw[10], raw[11]) + "";
    assert Base64.Encode(t2) == Base64.EncodeGroup(raw[6], raw[7], raw[8]) + Base64.Encode(t3);
    assert Base64.Encode(t1) == Base64.EncodeGroup(raw[3], raw[4], raw[5]) + Base64.Encode(t2);
  }

  /** The base64 of the bytes of `Hello World!`. */
  lemma HelloWorldPayload(raw: seq<Base64.byte>)
    requires raw == [72, 101, 108, 108, 111, 32, 87, 111, 114, 108, 100, 33]
    ensures Base64.Encode(raw) == "SGVsbG8gV29ybGQh"
  {
    HelloWorldGroups();
    EncodeFourGroups(raw);
    HelloWorldPayloadLiteral();
  }

  /** The expected payload of the documented example is its four groups run together. */
  lemma HelloWorldPayloadLiteral()
    ensures "SGVs" + "bG8g" + "V29y" + "bGQh" == "SGVsbG8gV29ybGQh"
  {
  }

  /** The documented example: the bytes of `Hello World!`, guessed as `text/plain` first, whatever follows. */
  lemma HelloWorld(path: string, candidates: seq<string>, raw: seq<Base64.byte>)
    requires raw == [72, 101, 108, 108, 111, 32, 87, 111, 114, 108, 100, 33]
    requires |candidates| > 0 && candidates[0] == "text/plain"
    ensures Inner(Some(path), candidates, Some(raw)) == Success("data:text/plain;base64,SGVsbG8gV29ybGQh")
  {
    HelloWorldPayload(raw);
    HelloWorldUri();
  }

  /** The URI the documented example expects, assembled from its parts. */
  lemma HelloWorldUri()
    ensures DataUri.Assemble("text/plain", "SGVsbG8gV29ybGQh") == "data:text/plain;base64,SGVsbG8gV29ybGQh"
  {
    HelloWorldLiteral();
  }

  /** The expected URI of the documented example is its four parts run together. */
  lemma HelloWorldLiteral()
    ensures "data:" + "text/plain" + ";base64," + "SGVsbG8gV29ybGQh" == "data:text/plain;base64,SGVsbG8gV29ybGQh"
  {
  }
}
