# plex-rs download requests, in Dafny

plex-rs is a small HTTP service. It receives a JSON download request holding a
percent-encoded `sftp://` link and a destination directory. The request type
has two path operations:

- `SftpRequest::path` (the remote path): the link is percent-decoded, split on
  a configured separator, and the piece after the last match is kept;
- `SftpRequest::dst` (the local path): the destination is appended to the
  media server's library directory `/var/lib/plexmediaserver/`.

The handler's call to these operations is commented out (src/main.rs:56-63):
the live handler parses the body and answers `"asdf"`. Only the unit test
`test_clean_path` calls `path`, and nothing calls `dst`. This project models
those two operations and the layers they rest on. All of
them are pure, so the model is made of datatypes, functions and lemmas.

- `Utf8` models the text a Rust `&str` holds.
  - A Dafny `char` is a Unicode scalar value.
  - `ToUtf8` gives the bytes of a string, like `as_bytes`.
  - `FromUtf8` is the strict decoder of `String::from_utf8`. It follows table 3-7
    of the Unicode standard, so it rejects overlong forms, surrogates and values
    above U+10FFFF.
  - The two functions are proved to be inverse in both directions.
- `Percent` models `urlencoding::decode`.
  - Each `%XX` escape (section 2.1 of RFC 3986) in the link's UTF-8 bytes
    becomes the byte it names, and the result must be valid UTF-8.
  - A `%` that is not followed by two hex digits, and a result that is not valid
    UTF-8, are errors.
  - An encoder `Escape` serves as the decoder's partner: it escapes everything
    except the unreserved characters of section 2.3 of RFC 3986.
- `StrSplit` models `str::split` with a string pattern.
  - A non-empty pattern yields the pieces between its leftmost non-overlapping
    matches.
  - The empty pattern matches at every character boundary, so the pieces are an
    empty string, each character, and another empty string.
  - `Last` models `Iterator::last`, and `Join` is the partner that puts the
    pieces back together.
- `SftpRequests` holds the request itself and the two operations, `Path` and
  `Dst`. It also records the separator the server's `PlexDownloader` is built with,
  `roy_rogers/`, and the case of the unit test `test_clean_path`.

`Path` requires the link to decode. In the program, a link that fails to
decode makes `unwrap` panic.

The remote path is the text after the separator's *last* occurrence only when
the separator cannot overlap itself. For example, `"aaa"` split on `"aa"` gives
`["", "a"]`: its last piece is `"a"`, although `"aa"` also occurs at index 1.
For this reason:

- the general lemmas state what holds for any separator;
- the "after the last occurrence" and "ends in the separator" lemmas are stated
  for `roy_rogers/`, which is proved not to overlap itself;
- `StrSplit.OverlappingPatternLastPiece` records the overlapping case.

## Model

| member | source | states |
|---|---|---|
| SftpRequests.Path | src/main.rs:31-34 | `path`: the last piece of the decoded link split on the separator, so it is a suffix of the decoded link and, for a non-empty separator, holds no match of it; the link must decode, since the program panics otherwise |
| SftpRequests.Dst | src/main.rs:36-38 | `dst`: the media root followed by the destination, with no normalisation, so removing the root's length gives the destination back |
| SftpRequests.PathIsSuffix | src/main.rs:31-34 | the remote path is a suffix of the decoded link |
| SftpRequests.PathHasNoSeparator | src/main.rs:31-34 | with a non-empty separator, the remote path contains no match of the separator |
| SftpRequests.PathWholeLinkIff | src/main.rs:31-34 | with a non-empty separator, the remote path is the whole decoded link exactly when the separator does not occur in it |
| SftpRequests.PathFollowsSeparator | src/main.rs:31-34 | when the separator occurs, the remote path starts right after a match of it |
| SftpRequests.PathEmptySeparator | src/main.rs:31-34 | an empty separator gives an empty remote path |
| SftpRequests.PathOfPlainLink | src/main.rs:31-34 | a link without `%` decodes to itself and is split as it is |
| SftpRequests.ServerSplitNoSelfOverlap | src/main.rs:143 | the separator the server is built with is non-empty and no proper suffix of it equals its prefix |
| SftpRequests.PathAfterLastServerSplit | src/main.rs:31-34 | with the server's separator, the remote path follows a match of the separator, and no match starts after that one |
| SftpRequests.PathOfLinkEndingInServerSplit | src/main.rs:31-34 | a decoded link ending in the server's separator gives an empty remote path |
| SftpRequests.DecodeSpacedWords | src/main.rs:32 | words without `%` joined by `%20` decode to the same words joined by spaces |
| SftpRequests.DecodeExampleLink | src/main.rs:81 | the unit test's link decodes with each `%20` turned into a space |
| SftpRequests.ExampleLinkPieces | src/main.rs:81 | the unit test's link literal is its seven words with `%20` between them |
| SftpRequests.ExampleLinkJoin | src/main.rs:81 | the unit test's link is its seven words joined by `%20` |
| SftpRequests.CleanPathExample | src/main.rs:79-91 | the unit test's link decodes, and its remote path with separator `roy_rogers/` is `files/Blade Runner 2049 1080p WEB-DL H264 AC3-EVO` |
| SftpRequests.DstUnderRoot | src/main.rs:36-38 | the local path starts with the media root, its length is the root's plus the destination's, and removing the root gives back the destination |
| SftpRequests.DstIgnoresLink | src/main.rs:36-38 | the link plays no part in the local path |
| SftpRequests.DstKeepsDoubleSlash | src/main.rs:36-38 | a destination starting with `/` leaves `//` after the root, because nothing is normalised |
| SftpRequests.DstExample | src/main.rs:36-38 | the unit test's destination `/usr/what` gives `/var/lib/plexmediaserver//usr/what` |
| Percent.Decode | src/main.rs:32 | `urlencoding::decode`: on success, the UTF-8 bytes of the result are the link's bytes with every `%XX` replaced by the byte it names |
| Percent.DecodeMalformedIff | src/main.rs:32 | decoding fails with a malformed escape exactly when some `%` in the link's bytes is not followed by two hex digits |
| Percent.DecodeBytesOkIff | src/main.rs:32 | byte decoding succeeds exactly when every `%` is followed by two hex digits |
| Percent.DecodeBytesLength | src/main.rs:32 | each escape shrinks three bytes into one |
| Percent.DecodeBytesPlain | src/main.rs:32 | bytes without `%` decode to themselves |
| Percent.DecodeBytesAppend | src/main.rs:32 | decoding distributes over concatenation when the first part decodes |
| Percent.DecodeEscapeBytes | src/main.rs:32 | escaping bytes and decoding them gives the bytes back |
| Percent.DecodePlainPrefix | src/main.rs:32 | a prefix without `%` passes through decoding unchanged |
| Percent.DecodePlain | src/main.rs:32 | a string without `%` decodes to itself |
| Percent.DecodeAsciiEscape | src/main.rs:32 | an escape of an ASCII byte decodes to that character, followed by the decoding of the rest |
| Percent.DecodeSpace | src/main.rs:32 | `%20` decodes to a space, followed by the decoding of the rest |
| Percent.DecodeEscape | src/main.rs:32 | every string survives escaping followed by decoding |
| Utf8.DecodeEncodeScalar | src/main.rs:32 | decoding the bytes of a scalar value gives back the value and its length |
| Utf8.EncodeDecodeScalar | src/main.rs:32 | a decoded scalar value re-encodes to exactly the bytes it was read from |
| Utf8.FromUtf8Prefix | src/main.rs:32 | decoding a string's bytes followed by other bytes decodes the string, then the rest |
| Utf8.FromToUtf8 | src/main.rs:32 | every string survives the round trip through its UTF-8 bytes |
| Utf8.ToFromUtf8 | src/main.rs:32 | every byte sequence the decoder accepts is the encoding of what it returns |
| Utf8.ToUtf8Append | src/main.rs:32 | the bytes of a concatenation are the concatenation of the bytes |
| StrSplit.FindFrom | src/main.rs:33 | the string searcher: a result is a match at or after the start with no match before it, and no result means no match at or after the start |
| StrSplit.Split | src/main.rs:33 | `str::split`, whose `last()` is `Last`: there is always at least one piece, and with the empty pattern the first and last pieces are empty |
| StrSplit.FindFromLeftmost | src/main.rs:33 | the search finds the leftmost match at or after its start |
| StrSplit.FindFromAbsent | src/main.rs:33 | the search finds nothing when no match starts at or after its start |
| StrSplit.JoinSplit | src/main.rs:33 | joining the pieces of a split with the pattern gives back the string |
| StrSplit.SplitPiecesFree | src/main.rs:33 | with a non-empty pattern, no piece of a split contains the pattern |
| StrSplit.LastPieceSuffix | src/main.rs:33 | the last piece of a split is a suffix of the string |
| StrSplit.LastPieceEmptyPattern | src/main.rs:33 | the last piece of a split on the empty pattern is empty |
| StrSplit.LastPieceFree | src/main.rs:33 | with a non-empty pattern, the last piece contains no match of the pattern |
| StrSplit.LastPieceWhole | src/main.rs:33 | with a non-empty pattern, the last piece is the whole string exactly when the pattern does not occur |
| StrSplit.LastPieceAfterMatch | src/main.rs:33 | when the pattern occurs, the last piece directly follows a match of it |
| StrSplit.LastPieceAfterLastOccurrence | src/main.rs:33 | for a pattern that cannot overlap itself, the last piece follows the last occurrence of the pattern |
| StrSplit.LastPieceOfTrailingPattern | src/main.rs:33 | for a pattern that cannot overlap itself, a string ending in the pattern has an empty last piece |
| StrSplit.OverlappingPatternLastPiece | src/main.rs:33 | `"aaa"` split on `"aa"` is `["", "a"]`, and `"aa"` overlaps itself |
| StrSplit.SplitAtUniqueAnchor | src/main.rs:33 | if a character of the pattern appears only once in it and appears neither before nor after the pattern, the split gives exactly the text before and the text after |

## Left out

- The HTTP handler `index_mjsonrust` (src/main.rs:42-73) is left out. It parses the JSON body with serde and answers with a fixed response. This is I/O and a foreign library.
- The `sftp` command in the handler (src/main.rs:56-63) is commented out in the source, so it does nothing.
- `main` (src/main.rs:95-155) is left out. It covers command-line parsing, the actix server and the `PlexDownloader` configuration.
  - Its `split` and `src_server` flags are read but never reach a request: the server is built with the literal `roy_rogers/`. Only that literal is modelled, as `ServerSplit`.
- The program's `about` text says it queues up downloads (src/main.rs:99). The program has no queue, permits, sessions or transfer engine, so the model has none either.
- `urlencoding` internals beyond `%XX` decoding are left out.
  - The model does not treat `+` as a space.
  - It does not model the error values the crate returns, only whether decoding succeeds.
  - Some versions of the crate are lenient with malformed escapes. The model is strict: a malformed escape is an error, and `Path` requires decoding to succeed.
- `Path` has no error path. A link that does not decode makes the program panic, so decoding success is a precondition of `Path`.
- Path lifetimes and ownership (`to_owned`, borrowed `&str`) are left out. Strings are values.
- `StrSplit.Split`: for the empty pattern, the pieces are built one per character rather than by the general search.
