# include_data_uri — a verified model of the transform

`include_data_uri!("path")` is a Rust procedural macro. At build time it turns a
file into a string literal of the form `data:<media type>;base64,<payload>`. The
path is taken relative to the `src/` directory of the macro's own package. That
base comes from `env!("CARGO_MANIFEST_DIR")`, which is fixed when the macro's
package is built, not from the crate that calls the macro. A `..` in the path can
leave `src/`, and an absolute path replaces the base entirely. The macro aborts the
build when the file cannot be resolved, has no guessable media type, or cannot
be read.

This project models the macro's core in Dafny:

- `Wrappers`: the outcome types. `Result` is failure-compatible, so `:-` on a
  `Result` mirrors Rust's `?`. `Option` is not; an `Option` outcome is turned into
  a `Result` with `ToResult` before `:-` is applied.
- `Base64`: standard base64 as in section 4 of RFC 4648, with `=` padding and
  without line breaks. It has a total encoder and a strict decoder.
- `DataUri`: assembles the one URI shape the macro emits, and an independent
  parser for it.
- `IncludeDataUri`: the transform `inner` and the macro entry point that turns
  an error into a panic.

The file system and the media-type table are not modelled. Their outcomes are
inputs to `Inner`:

- `canonical`: whether canonicalising the joined path succeeded.
- `candidates`: the ordered list of media types `mime_guess` returns for the
  canonical path's extension.
- `contents`: the bytes read, or `None` when reading failed.

The model follows the code's strict media-type policy: an empty candidate list
is an error, with no `application/octet-stream` fallback (src/lib.rs:72-75). The
error kinds are the three points where the code can fail, in the order it checks
them. The code does not tell "path not found" apart from "not a regular file". A
missing path fails at canonicalisation. A directory passes canonicalisation and
then fails at the media-type step or the read step.

## Model

| member | source | states |
|---|---|---|
| IncludeDataUri.Inner | src/lib.rs:60-89 | The three error paths and their order: a canonicalisation failure wins over everything; then an empty candidate list is `UnknownMimeType`, before the file is read; then a read failure. The result is a success exactly when all three steps succeed. |
| IncludeDataUri.Expand | src/lib.rs:46-56 | The macro yields a string literal exactly when `inner` succeeds, and the literal is `inner`'s success value. That literal parses back to the first candidate and the file's bytes. Every error becomes a build-aborting panic with the message `macro runtime error` and the same error kind, never a string. |
| IncludeDataUri.InnerRoundTrip | src/lib.rs:77-88 | Reading a produced URI back gives the first media-type candidate and exactly the bytes that were read. |
| IncludeDataUri.SuccessFormat | src/lib.rs:77-86 | The output format, character by character. `data:`, the first candidate and `;base64,` come first. The payload that follows has length 4·⌈n/3⌉ for n bytes. It ends in exactly (3 − n mod 3) mod 3 `=` characters, and every character before those is in the base64 alphabet. The payload decodes to the file's bytes. |
| IncludeDataUri.FirstCandidateDecides | src/lib.rs:84 | Deterministic tie-break: only the first candidate matters. Two candidate lists with the same head give the same result. |
| IncludeDataUri.DistinctBytesDistinctUri | src/lib.rs:78-86 | Files with different contents never give the same URI. |
| IncludeDataUri.HelloWorld | src/lib.rs:25-34 | The documented example: the bytes of `Hello World!`, with `text/plain` as first guess, become `data:text/plain;base64,SGVsbG8gV29ybGQh`. |
| IncludeDataUri.HelloWorldPayload | src/lib.rs:29-33 | `STANDARD.encode("Hello World!")` is `SGVsbG8gV29ybGQh`, the payload of the documented example. |
| Base64.PadCount | src/lib.rs:79 | At most two `=` characters, and they fill the input up to a multiple of three bytes. |
| Base64.Encode | src/lib.rs:79 | The encoding of n bytes has four characters per started group of three. |
| Base64.EncodeShape | src/lib.rs:79 | All but the last (3 − n mod 3) mod 3 characters of an encoding are from the alphabet of Table 1 of RFC 4648. Those last ones are `=`. |
| Base64.EncodeCharset | src/lib.rs:79-85 | An encoding holds only alphabet characters and `=`. In particular it never holds `;`, `,` or a space, so the payload cannot disturb the URI's structure. |
| Base64.DecodeEncode | src/lib.rs:79 | Round trip: strict decoding of an encoding gives back the original bytes, for every byte sequence. |
| Base64.EncodeDecode | src/lib.rs:79 | Canonicity: every string the strict decoder accepts is exactly the encoding of the bytes it returns. |
| Base64.DecodeIffEncode | src/lib.rs:79 | Base64 is a bijection: `Decode(s) == Some(b)` holds if and only if `Encode(b) == s`. |
| Base64.Rfc4648ShortVectors | src/lib.rs:79 | The test vectors of section 10 of RFC 4648 for "", "f", "fo" and "foo". |
| Base64.Rfc4648PartialVectors | src/lib.rs:79 | The test vectors of section 10 of RFC 4648 for "foob" and "fooba". |
| Base64.Rfc4648FullVector | src/lib.rs:79 | The test vector of section 10 of RFC 4648 for "foobar". |
| DataUri.Assemble | src/lib.rs:82-86 | The URI's layout by position: `data:` first, then the media type, then `;base64,`, then the payload, with nothing else and a length that is the sum of the four parts. `ParseAssemble` and `AssembleParse` prove that the independent parser inverts it. |
| DataUri.SplitAssemble | src/lib.rs:82-86 | The parser cuts an assembled URI back into the same media type and payload. This holds for any media type, even one containing `;`, provided the payload holds no `;`. |
| DataUri.ParseAssemble | src/lib.rs:82-86 | Parsing `data:<m>;base64,<encode(b)>` gives back `m` and `b`. |
| DataUri.AssembleParse | src/lib.rs:82-86 | Every string the parser accepts is exactly the assembly of what it returns, so the format has no variants. |

## Left out

- Path resolution is left out: the `CARGO_MANIFEST_DIR/src` join and `canonicalize` (src/lib.rs:62-67). The file system is outside the model; only the outcome of this step is an input. The base is the macro package's own `src/`, fixed by `env!` when that package is built; this differs from the doc comments at src/lib.rs:19-20 and src/lib.rs:61, which speak of the current project's `src/` folder and of the current file.
- Media-type guessing is left out: the `mime_guess` extension table (src/lib.rs:70). It is an external table; the ordered candidate list is an input. For the same reason the `.jpeg` integration test (tests/macro.rs:19-26) is not modelled: it needs the table entry and the actual file bytes.
- Reading the file is left out (src/lib.rs:78). It is I/O; the bytes read, or the failure, are an input.
- Parsing the macro argument as a string literal (src/lib.rs:47) and emitting the tokens (src/lib.rs:55) are left out. They are compiler plumbing. A malformed invocation is rejected by `syn` before `inner` runs, so it has no error kind here.
- The `unreachable!()` at src/lib.rs:84 has no counterpart. The model reaches that point only with a non-empty candidate list, so the first candidate always exists.
- IncludeDataUri.Inner: the error carries only its kind. The model leaves out anyhow's context messages (`canonicalize path …`, `reading file`) and the debug-printed path, because they are diagnostic text.
- IncludeDataUri.Expand: the panic carries the fixed message and the error kind, not the full anyhow error chain, for the same reason.
- `DataUri.Split`, `DataUri.Parse` and `Base64.Decode` are independent readers. `Split` and `Parse` have no contract of their own, and `Decode` promises only the length of what it accepts. The round-trip lemmas above relate them to `Assemble` and `Base64.Encode` (`ParseAssemble`, `AssembleParse`, `DecodeIffEncode`, `InnerRoundTrip`, `SuccessFormat`).
