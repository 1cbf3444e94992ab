# NoteGen url handling and caption joining, modelled in Dafny

NoteGen is a small web app. It takes a YouTube url, gets the video's
transcript and asks a language model to write notes from it. Almost all of
it is glue. This model covers the three parts that are real string logic:

- **The identifier extractor** (`extract_video_id`). It tries two regular
  expressions in order with `re.search` and returns group 1 of the first
  one that matches anywhere:
  - the query-or-path pattern: `v=` or `/`, then eleven `[\w-]`
    characters, then `&`, `?` or the end;
  - the short-link pattern: `youtu.be/` and eleven such characters.

  Each pattern is a hand-written matcher. `MatchAt` says whether a pattern
  matches at one position. `Leftmost` is the leftmost search. `VideoId` is
  the extractor, and the method `ExtractVideoId` is its loop with early
  return, proved equal to `VideoId`. Python's `$` matches at the end of the
  string or just before a final line feed, and the matcher does the same.
- **The caption join** in `get_youtube_transcript`. The fragments' texts are
  joined with single spaces in the order the service returns them. The
  "transcripts disabled" and "no transcript found" failures become `None`,
  and every other failure propagates. The call to the captions service is
  replaced by its outcome, a `CaptionReply`.
- **The url validator** (`validate_youtube_url`). It accepts a url when
  either of two patterns matches at the url's start (`re.match`):
  - The loose pattern. `LooseShape` states exactly what it accepts: one of
    twelve heads (an optional `http://` or `https://`, an optional `www.`,
    then `youtu`, an optional `.`, then `be`), followed by a rest in which
    some line-feed-free prefix ends in `/` or `v=` and is followed by a
    `[\w\-_]` character. `MatchesLoose` is a deterministic procedure, and
    `LooseCorrect` proves it equals `LooseShape`.
  - The exact pattern, `^https://youtu\.be/[\w-]{11}$`. It is proved to
    accept only what the loose pattern accepts, so the validator's answer
    is the loose pattern's answer, whatever the order of the list.

`\w` is a parameter `w` of every matcher, so every general property holds
whatever set of characters Python's Unicode `\w` is. The concrete examples
assume only `AsciiAgrees(w)`: on ASCII characters, `\w` is `[A-Za-z0-9_]`.

The module `Pipeline` relates the validator to the extractor, which the app
calls one after the other (`main.py`). Watch urls and short links are
accepted, and their identifier is extracted. The two functions do not agree
in general, though, and both directions are shown:

- `youtube/x` is accepted, but no identifier is extracted from it
  (`Pipeline.AcceptedWithoutId`);
- `/AAAAAAAAAAA` is rejected, yet `AAAAAAAAAAA` is extracted from it
  (`Pipeline.RejectedWithId`).

`get_youtube_transcript` returns `None` when there are no captions. The
fall-back to local speech-to-text is in its caller in `main.py`, not in the
fetch itself.

Files: `text.dfy` (module `Text`, shared character classes and string
predicates), `transcript.dfy` (module `Transcript`, for
`utils/transcript.py`), `validation.dfy` (module `Validation`, for
`utils/validation.py`), `pipeline.dfy` (module `Pipeline`).

## Model

| member | source | states |
|---|---|---|
| Transcript.IdAt | utils/transcript.py:15 | `[\w-]{11}` at a position: eleven `[\w-]` characters fit there |
| Transcript.EndAt | utils/transcript.py:15 | the terminator group of the first pattern: the next character is `&` or `?`, or the position is the end, or it is just before a final line feed (`$`) |
| Transcript.LiteralsAt | utils/transcript.py:15 | the literal parts of each pattern: `v=` or `/` before the group and the terminator after it for the first pattern, `youtu.be/` for the second; the group then fits in the url |
| Transcript.GroupStart | utils/transcript.py:15 | group 1 starts after `v=` or `/` (one or two characters on) for the first pattern and after `youtu.be/` for the second |
| Transcript.MatchAt | utils/transcript.py:15 | a pattern matches at a position exactly when its literals and its eleven-character group are there; the group is then eleven `[\w-]` characters |
| Transcript.SearchGroup | utils/transcript.py:17-19 | `re.search` followed by `group(1)`: a result exists exactly when the pattern matches at some position, and it is eleven `[\w-]` characters |
| Transcript.Leftmost | utils/transcript.py:17 | `re.search` from a start position: the result is a position where the pattern matches, no earlier position matches, and the result is None exactly when no position up to the end matches |
| Transcript.Group | utils/transcript.py:15 | group 1 of a match is eleven `[\w-]` characters |
| Transcript.SearchGroupOccurs | utils/transcript.py:17-19 | the group of the leftmost match is a contiguous piece of the url |
| Transcript.FirstGroup | utils/transcript.py:16-20 | trying patterns in order gives an eleven-character `[\w-]` piece of the url, and gives None exactly when every pattern matches nowhere |
| Transcript.VideoId | utils/transcript.py:13-20 | a result has length 11, consists of `[\w-]` characters and occurs in the url; the result is None exactly when neither pattern matches at any position |
| Transcript.ExtractVideoId | utils/transcript.py:16-20 | the loop over the pattern list with early return computes the same result as `VideoId` |
| Transcript.FirstPatternWins | utils/transcript.py:15-19 | once the query-or-path pattern matches anywhere, its leftmost match is at or before that position and the result is its group |
| Transcript.ShortLinkFallback | utils/transcript.py:16-19 | when the query-or-path pattern matches nowhere, the result is the short-link pattern's leftmost group |
| Transcript.QueryOrPathContext | utils/transcript.py:15 | a result from the first pattern is right after `v=` or `/` and is followed by `&`, `?`, the end, or a final line feed |
| Transcript.SkipNoMatch | utils/transcript.py:17 | positions where the pattern does not match do not change the outcome of the leftmost search |
| Transcript.FirstMatchDecides | utils/transcript.py:15-19 | when the first pattern's earliest match is at position i, the result is the group of that match |
| Transcript.WatchUrlYieldsId | utils/transcript.py:15-19 | every url `https://www.youtube.com/watch?v=` followed by an identifier yields that identifier |
| Transcript.WatchExample | utils/transcript.py:15-19 | `https://www.youtube.com/watch?v=dQw4w9WgXcQ` yields `dQw4w9WgXcQ` |
| Transcript.ShortUrlYieldsId | utils/transcript.py:15-19 | `https://youtu.be/` followed by an identifier and an optional final line feed yields that identifier |
| Transcript.PriorityExample | utils/transcript.py:15-19 | in `youtu.be/AAAAAAAAAAAx&v=BBBBBBBBBBB` the short-link pattern would give the A's, but the first pattern decides and the B's are returned |
| Transcript.Join | utils/transcript.py:27 | `" ".join`: no parts give the empty string, and the text starts with the first part |
| Transcript.Texts | utils/transcript.py:27 | the list of texts has one entry per caption fragment, in the same order |
| Transcript.JoinLength | utils/transcript.py:27 | the joined text's length is the fragments' total length plus one separator between each pair of neighbours |
| Transcript.JoinSnoc | utils/transcript.py:27 | appending a fragment appends one separator and then the fragment, so fragments keep their order |
| Transcript.SplitJoin | utils/transcript.py:27 | splitting the space-joined text at its spaces gives back the fragments, when no fragment holds a space |
| Transcript.GetYoutubeTranscript | utils/transcript.py:23-29 | the result is None exactly on the disabled and not-found failures; any other failure is raised with its message; fragments give the space-join of their texts in service order (an empty list gives the empty string); when no fragment holds a space, that string splits back into the fragments' texts |
| Transcript.HelloWorldExample | utils/transcript.py:27 | fragments `Hello` and `world` give `Hello world` |
| Validation.Front | utils/validation.py:8 | `(?:https?:\/\/)?(?:www\.)?youtu` for one choice of the optional parts, with its length |
| Validation.Head | utils/validation.py:8 | `(?:https?:\/\/)?(?:www\.)?youtu\.?be` for one choice of the optional parts: between 7 and 20 characters |
| Validation.TailAt | utils/validation.py:8 | a split point of the rest after the head: a line-feed-free stretch ending in `/` or `v=`, then a `[\w\-_]` character |
| Validation.LooseShape | utils/validation.py:8 | what `re.match` of the loose pattern accepts: one of the twelve heads, then a rest with a split point; such a url has at least 9 characters |
| Validation.SchemeLength | utils/validation.py:8 | the scheme taken is absent, `http://` or `https://`, and is present at the start when taken |
| Validation.HeadLength | utils/validation.py:8 | the head found ends with `be` and lies within the url |
| Validation.ScanTail | utils/validation.py:8 | when the scan succeeds, some later position follows `/` or `v=` and holds a `[\w\-_]` character |
| Validation.MatchesLoose | utils/validation.py:8 | the deterministic procedure; when it accepts, the url starts with one of the twelve heads |
| Validation.MatchesExact | utils/validation.py:9 | the exact pattern: the short-link prefix, eleven `[\w-]` characters, then the end or a single final line feed, so the url has 28 characters or 29 ending in a line feed |
| Validation.AnyMatches | utils/validation.py:11 | `any` over a pattern list is true exactly when some pattern of the list matches |
| Validation.ValidateYoutubeUrl | utils/validation.py:5-11 | a url is accepted exactly when it has the loose pattern's shape (one of the twelve heads, then a line-feed-free stretch ending in `/` or `v=` and a `[\w\-_]` character) |
| Validation.AnyMatchesIsLoose | utils/validation.py:7-11 | the validator's answer is the loose pattern's answer |
| Validation.ScanTailCorrect | utils/validation.py:8 | scanning split points from k on finds one exactly when one exists at or after k |
| Validation.TailShapeScan | utils/validation.py:8 | the scan of the part after the head decides the tail condition |
| Validation.HeadLengthSound | utils/validation.py:8 | the head the procedure finds is one of the twelve heads |
| Validation.HeadLengthComplete | utils/validation.py:8 | whichever of the twelve heads a url starts with, the procedure finds a head of that length |
| Validation.SchemeLengthOf | utils/validation.py:8 | the scheme length the procedure takes is the length of the scheme actually present |
| Validation.LooseCorrect | utils/validation.py:8 | the deterministic procedure accepts exactly the strings of the loose pattern's shape |
| Validation.StartsWithSplit | utils/validation.py:8 | a string starts with `a + b` exactly when it starts with `a` and its rest starts with `b` |
| Validation.ExactIsShortLink | utils/validation.py:9 | the exact pattern accepts exactly `https://youtu.be/`, eleven `[\w-]` characters, and nothing or a single line feed |
| Validation.ExactAccepts | utils/validation.py:9 | every short link with a well-formed identifier, with or without a final line feed, is accepted by the exact pattern |
| Validation.ExactSubsumed | utils/validation.py:8-9 | whatever the exact pattern accepts, the loose pattern accepts |
| Validation.OrderIrrelevant | utils/validation.py:7-11 | listing the two patterns in the other order gives the same answer |
| Validation.RejectsWithoutFront | utils/validation.py:8-11 | a url that starts with no optional scheme and optional `www.` followed by `youtu` is rejected |
| Validation.EmptyRejected | utils/validation.py:8-11 | the empty string is rejected |
| Validation.ExtensionAccepted | utils/validation.py:8-11 | the match is not anchored at the end: anything appended to an accepted url is accepted |
| Validation.LooseExtension | utils/validation.py:8 | the loose pattern's shape survives appending text |
| Validation.TailExtension | utils/validation.py:8 | the tail condition survives appending text |
| Validation.ShortestAccepted | utils/validation.py:8 | `youtube/` and one `[\w\-_]` character are accepted: neither `watch`, `embed` nor eleven characters are required |
| Validation.LineFeedAfterHeadRejected | utils/validation.py:8 | a line feed right after the head makes the url rejected, whatever follows |
| Pipeline.WatchUrlAcceptedAndExtracted | main.py:283-313 | a watch url with a well-formed identifier is accepted and yields that identifier |
| Pipeline.ShortLinkAcceptedAndExtracted | main.py:283-313 | a short link, optionally with a final line feed, is accepted and yields its identifier |
| Pipeline.AcceptedWithoutId | main.py:283-313 | `youtube/x` is accepted, yet no identifier is extracted from it |
| Pipeline.RejectedWithId | main.py:283-313 | `/AAAAAAAAAAA` is rejected, yet an identifier is extracted from it |

## Left out

- `transcribe_with_whisper` (utils/transcript.py:32-45) is not modelled. It downloads audio over the network, writes a temporary file and runs a speech-to-text model, all of them foreign calls.
- The captions service call (utils/transcript.py:26) is not modelled. Its outcome is a parameter (`CaptionReply`), and the language list passed to it, which only steers that call, does not appear.
- Exceptions other than the two caught ones are modelled as `Raised(message)`. Python's exception types and tracebacks are not modelled.
- Caption fragments carry only their text. The start and duration fields the service also returns are not read by the code.
- The Unicode meaning of `\w` is not written out. It is the parameter `w`, and the examples assume only that it agrees with `[A-Za-z0-9_]` on ASCII.
- No general regular-expression engine is modelled; each of the four patterns is hand-written. Group 1 of the loose validator pattern is not computed, because only whether the pattern matches is used.
- `utils/summarization.py` is not part of this model. It is a prompt template and a remote model call.
- `utils/logging.py` is not part of this model. It appends timestamped lines to files.
- `validate_api_keys` (utils/validation.py:14-17) is not modelled. It reads an environment variable.
- The user interface in `main.py` is not modelled: page layout, session flags, the language table, the thumbnail url and the download buttons. This includes the fall-back to `transcribe_with_whisper` when the transcript is `None` or empty; `GetYoutubeTranscript` states that an empty caption list yields the empty string, which is what triggers that fall-back.
