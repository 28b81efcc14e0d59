# fakecamera, modelled in Dafny

`fakecamera` is a fake IP camera. It serves one HTTP endpoint, `GET /`,
which streams a configured list of image files as a
`multipart/x-mixed-replace` body, the way an MJPEG camera does. The list
repeats forever, with one image a second. `Data::camera` builds the stream:

1. It walks the list in order, and starts over at the first image after the last one.
2. For each path, it takes the extension as UTF-8 text, and unwraps it.
   A path without an extension, or whose extension is not UTF-8, panics.
3. It maps the extension, exactly and case-sensitively, to a content type:
   `jpeg` → `image/jpeg`, `png` → `image/png`, `webp` → `image/webp`, and
   anything else → `image/*`.
4. It reads the file. A read error is the stream's last item.
5. It yields a part whose headers are exactly `content-type` plus
   `content-length`, the body's length in decimal, and whose body is the
   file's bytes.

The handler announces the content type
`multipart/x-mixed-replace; boundary=foo`. It hands the stream to a
serializer that uses the same boundary `foo`.

The model has these modules:

- `Utf8` is the UTF-8 decoder that `OsStr::to_str` applies, together with
  an encoder. Both round trips between them are proved.
- `Paths` models Unix paths as bytes, with `Path::file_name` and
  `Path::extension` following the std rules:
  - empty and `.` components are skipped;
  - a final `..` has no name;
  - a dot at index 0 of the name is not an extension separator.
- `Decimal` models the `content-length` rendering and the parse that reads
  it back.
- `FrameSource` models one frame (`FrameFor`), the stream as a function
  (`Stream`, `Frames`) with its cycle and termination properties, and two
  implementations proved against that function:
  - the imperative loop `Camera`;
  - the poll-driven `Session` class. Its filesystem may change between polls.
- `Endpoint` models the response of `GET /`.
- `Scenarios` holds concrete runs over small lists.

The filesystem is a parameter: a total function from a path to the bytes
read or an I/O error. The image list is the same for every session, and
each session starts at the first image.

## Model

| member | source | states |
|---|---|---|
| FrameSource.MimeForExtension | src/main.rs:44-48 | the content type is one of the four. Each specific type is chosen if and only if the extension is exactly `jpeg`, `png` or `webp`. `image/*` is chosen if and only if the extension is none of them |
| FrameSource.FrameForMeaning | src/main.rs:41-53 | a frame is a panic if and only if the extension is missing or not UTF-8. It is an error if and only if the extension is fine and the read fails, and then it carries the read's error. It is a part if and only if the extension is fine and the read succeeds. A part's body is the file's bytes, its header keys are exactly content-type and content-length, the content type is the extension's, and the length parses back to the body length |
| FrameSource.FrameFor | src/main.rs:41-53 | the loop body for one path: a part carries exactly the file's bytes, and an error carries exactly the read's error. The full meaning is FrameForMeaning |
| FrameSource.BuildFrame | src/main.rs:41-53 | the frame built step by step, header map and all, is the frame `FrameFor` defines |
| FrameSource.Stream | src/main.rs:38-56 | the stream's first `k` events: never more than `k` |
| FrameSource.StreamIndex | src/main.rs:38-56 | event `i` is the step of image `i mod N`. Only the last event can be other than a part. A stream shorter than requested ends in a non-part. An empty list yields nothing |
| FrameSource.StreamEnded | src/main.rs:38 | once an event is not a part, asking for more events gives nothing more |
| FrameSource.StreamPrefix | src/main.rs:38-56 | a shorter request is a prefix of a longer one |
| FrameSource.NeverEnds | src/main.rs:39-40 | when every image yields, `k` requested events are `k` parts |
| FrameSource.CycleWindow | src/main.rs:39-40 | when every image yields, any `2N` consecutive events are one full round of the list, from the window's start position mod `N`, repeated twice |
| FrameSource.WindowAt | src/main.rs:39-40 | position `t` of a two-round window is the step of image `(m + t) mod N` |
| FrameSource.RoundFromStart | src/main.rs:40 | a round from position 0 is the list itself, in order |
| FrameSource.RoundIsRotation | src/main.rs:39-40 | a round from any position is a rotation of the list: nothing skipped, nothing repeated |
| FrameSource.CyclePeriodic | src/main.rs:39-40 | when every image yields, events one list length apart are equal |
| FrameSource.StopsAtFirstFailure | src/main.rs:38-53 | the first non-part event is the last one. The stream is exactly the events up to it, all earlier ones are parts, and this holds for every longer request |
| FrameSource.Frames | src/main.rs:36-58 | the first `k` items `camera()` produces, never more than `k`. Their contents are fixed by FramesIndex, StreamIndex and StopsAtFirstFailure |
| FrameSource.FramesExtend | src/main.rs:40-53 | a live history followed by the frame of the next image in turn is the stream one event longer. It stays live if and only if that frame is a part |
| FrameSource.LiveSnoc | src/main.rs:51-53 | appending an event to a live history keeps every earlier event a part. The result is live if and only if the new event is a part |
| FrameSource.FramesEnded | src/main.rs:51 | a stream that has ended stays the same for every longer request |
| FrameSource.FramesIndex | src/main.rs:39-53 | camera event `i` is the frame of image `i mod N`. Every event but the last is a part |
| FrameSource.FirstNonYieldEnds | src/main.rs:43-53 | the first image, in loop order, whose frame is not a part ends the camera stream there, with that frame as its last event |
| FrameSource.ReadFailureEndsStream | src/main.rs:51 | if the first failure is a failed read of a path with a UTF-8 extension, the stream ends with that read's error after `j + 1` events, whatever more is asked for |
| FrameSource.BadExtensionPanics | src/main.rs:43 | if the first failure is a path without a UTF-8 extension, the stream ends with a panic after `j + 1` events, whatever more is asked for |
| FrameSource.ListFrames | src/main.rs:40-53 | one frame per configured image, in list order |
| FrameSource.AllFramesYieldIsAllYield | src/main.rs:40-53 | every image yielding a part is the same as every loop step yielding one |
| FrameSource.CameraRound | src/main.rs:39-40 | a camera round from position `d` is the per-image frames rotated by `d` |
| FrameSource.FramesWindow | src/main.rs:39-40 | when every image yields, the stream never ends. Any `2N` consecutive frames are the rotated list of per-image frames, twice |
| FrameSource.FramesFirstRound | src/main.rs:40 | when every image yields, the first `N` frames are the per-image frames in list order |
| FrameSource.FramesPeriodic | src/main.rs:39-40 | when every image yields, frames one list length apart are equal |
| FrameSource.Camera | src/main.rs:36-58 | the nested loop, stopped after `limit` events or at the first non-part, produces exactly the first `limit` events of `Frames` |
| FrameSource.CameraPass | src/main.rs:40-55 | one pass of the inner `for` extends the stream by at least one event. It stops early exactly when an event is not a part or the limit is reached, and otherwise ends at list position 0 |
| FrameSource.PassStep | src/main.rs:40-53 | one iteration of the inner loop keeps the pass invariant: the output is a stream prefix and the cursor is the next list position |
| FrameSource.Session.constructor | src/main.rs:37 | a new session starts at the first image with an empty history |
| FrameSource.Session.Next | src/main.rs:36-58 | a poll on an ended stream gives `Exhausted`, and on an empty list it never returns (`Spins`). Otherwise it gives the frame of image at the history length mod `N` against the filesystem as it is now, and appends it to the history. With an unchanging filesystem the history stays a prefix of `Frames` |
| FrameSource.Session.Advance | src/main.rs:40-55 | builds the next image's frame, appends it to the history, ends the session exactly on a non-part, and moves the cursor to the next list position, wrapping at the end |
| FrameSource.IndependentSessions | src/main.rs:37 | two sessions on one list do not share a cursor: after one has moved on, the other still starts at the first image |
| FrameSource.Wrap | src/main.rs:39-40 | the list position a loop position visits lies inside the list |
| FrameSource.WrapIsMod | src/main.rs:39-40 | that position is the loop position mod `N` |
| Paths.FileName | src/main.rs:43 | a file name, when there is one, is non-empty, contains no separator, and is neither `.` nor `..`. Which component it is is fixed by FileNameOfLast, FileNameOfParent, FileNameTrailingSlash and FileNameTrailingCurDir |
| Paths.FileNameOfLast | src/main.rs:43 | the file name of `dir/name` is `name`, for any normal final component |
| Paths.FileNameOfParent | src/main.rs:43 | a path whose final component is `..` has no file name |
| Paths.FileNameTrailingSlash | src/main.rs:43 | a trailing separator does not change the file name |
| Paths.FileNameTrailingCurDir | src/main.rs:43 | a trailing `/.` does not change the file name |
| Paths.LastDot | src/main.rs:43 | the position of a dot with no dot after it, or no position exactly when the name has no dot |
| Paths.NameExtension | src/main.rs:43 | the extension is the dot-free bytes after the last dot, with a non-empty stem before that dot. There is none exactly for `..` or a name whose only dot is at index 0 or that has no dot |
| Paths.Extension | src/main.rs:43 | an extension contains neither a dot nor a separator |
| Paths.ExtensionText | src/main.rs:43 | the extension as text: when there is one, the extension exists and decodes to it, and a missing extension gives none. Its value is fixed by ExtensionTextAppend and HiddenNameHasNoExtension |
| Paths.NameExtensionOfStem | src/main.rs:43 | the extension of a name `stem.ext`, with a non-empty stem and a dot-free non-empty `ext`, is `ext`, even when the stem itself has dots |
| Paths.ExtensionAppend | src/main.rs:43 | `stem.ext`, with a non-empty final stem, has extension `ext` |
| Paths.DotlessHasNoExtension | src/main.rs:43 | a path with no dot has no extension |
| Paths.HiddenNameHasNoExtension | src/main.rs:43 | a hidden name `.name` has no extension |
| Paths.ExtensionTextAppend | src/main.rs:43 | the extension text of `stem.` followed by the UTF-8 encoding of `ext` is `ext` |
| Utf8.DecodeFirst | src/main.rs:43 | when the first character decodes, its length is the one its first byte announces, and it is a single byte exactly for ASCII |
| Utf8.Decode | src/main.rs:43 | the text the bytes encode, never longer than the bytes. Its meaning is fixed by DecodeEncode and EncodeDecode |
| Utf8.DecodeFirstEncodeChar | src/main.rs:43 | an encoded character decodes back to itself with its encoded length, whatever follows |
| Utf8.EncodeCharDecodeFirst | src/main.rs:43 | a decoded character re-encodes to exactly the bytes it was decoded from |
| Utf8.DecodeEncode | src/main.rs:43 | every string's encoding is valid UTF-8 and decodes to the string |
| Utf8.EncodeDecode | src/main.rs:43 | every valid UTF-8 byte string is the encoding of what it decodes to |
| Decimal.Show | src/main.rs:52 | the rendered length is a non-empty string of digits without a leading zero |
| Decimal.ParseShow | src/main.rs:52 | parsing the rendered length gives back the length |
| Decimal.ShowInjective | src/main.rs:52 | distinct lengths render differently |
| Endpoint.ContentTypeFor | src/main.rs:64-66 | a client reads back from the content type exactly the boundary it was built from |
| Endpoint.ContentTypeOfBoundary | src/main.rs:66 | a content type that carries a boundary is the one built from it |
| Endpoint.Get | src/main.rs:63-67 | status 200. The content type is `multipart/x-mixed-replace; boundary=foo`, and the boundary it announces is the serializer's. The parts are the camera's frames |
| Scenarios.NearMissesAreGeneric | src/main.rs:44-48 | `jpg`, `JPEG` and the empty extension all get `image/*` |
| Scenarios.JpegFrame | src/main.rs:43-53 | a readable `a.jpeg` becomes an `image/jpeg` part with its bytes and length |
| Scenarios.PngFrame | src/main.rs:43-53 | a readable `b.png` becomes an `image/png` part with its bytes and length |
| Scenarios.PairAlternates | src/main.rs:39-40 | two yielding images alternate, so the third frame repeats the first |
| Scenarios.TwoImagesAlternate | src/main.rs:36-58 | `[a.jpeg, b.png]` gives a JPEG part, a PNG part, then the JPEG part again |
| Scenarios.UnknownExtensionIsGeneric | src/main.rs:39-53 | with `c.bin` readable, `[c.bin]` never ends, and every frame is an `image/*` part with the file's bytes |
| Scenarios.SecondFails | src/main.rs:51-53 | a part followed by a non-part is the whole stream |
| Scenarios.MissingFileEndsStream | src/main.rs:51 | with `b.png` missing, the stream is a JPEG part and then the not-found error, whatever more is asked for |
| Scenarios.DotlessPathPanics | src/main.rs:43 | a path without a dot panics as the very first event, and the stream ends |
| Scenarios.HiddenNamePanics | src/main.rs:43 | `.jpeg` panics |
| Scenarios.NonUtf8ExtensionPanics | src/main.rs:43 | an extension that is the lone byte `0xFF` panics, whatever the file holds |
| Scenarios.DeletedBetweenPolls | src/main.rs:51 | a session yields the file, then the read error once the file is gone, then nothing further |

## Left out

Each item below is not modelled, for the reason given.

- HTTP server, routing and `main` (src/main.rs:62-63, 70-83), including
  `HttpServer`, `App`, `bind` and `run`: framework I/O. `Endpoint.Get`
  keeps only the status, the content type, the boundary and the part
  sequence.
- Command-line parsing with `clap`, including the default address
  `localhost:8080`: program input. The image list is a parameter.
- The `mimalloc` global allocator: it does not change behaviour.
- The multipart byte layout `multipart_stream::serialize` writes: its
  source is in an external crate. What is modelled is the boundary it is
  given and the parts it receives.
- The one-second `sleep` between frames (src/main.rs:54): timing is not
  modelled. Events are counted, not timed.
- Async polling, `Pending` states and concurrency between requests:
  sessions are modelled as independent objects. The model captures `Arc`
  read-only sharing of the list, not thread interleavings.
- The real filesystem is a parameter `FileSystem`, a total function. An
  I/O error is its `errno` number only.
- `Camera`: stops after `limit` events as well as at the first non-part,
  because the source's loop is unbounded. `Frames` describes every finite
  prefix.
- Windows path prefixes and separators: paths are Unix byte strings.
- The `usize` width of `body.len()`: lengths are unbounded naturals, since
  no file the program can read has a length that overflows `usize`.
- FrameSource.Session.Next: an empty image list makes the source's poll run
  forever without producing anything. The model returns `Spins` for that
  poll instead of not terminating.
- FrameSource.Camera: for an empty image list it returns no events, where
  the source's loop spins forever.
- FrameSource.Frames: the `unwrap` panic is modelled as a final `Panic`
  event, with nothing after it. In the program the panic unwinds out of
  the stream's poll, so no item reaches the serializer. A later poll of
  the same stream would not report a clean end. `Session.Next` likewise
  answers `Exhausted` after a `Panic`.
- Paths.FileName: its lemmas fix the name for a path built as a directory,
  a final component, and trailing `/` or `/.`. They do not characterise in
  one clause every path with no name, such as `/` or `a/..`.

Where the intended design and the code differ, the model follows the
code:

- A path without an extension, or with a non-UTF-8 extension, panics at
  the `unwrap` on src/main.rs:43. It is not given the generic type
  `image/*`.
- An empty image list is neither rejected at startup nor an error. The
  stream never produces an item.
- The extension is checked before the file is read. An unreadable path
  with a bad extension therefore panics rather than reporting the I/O
  error.
