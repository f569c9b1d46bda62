# A verified model of the slide viewer's loading and navigation core

The viewer (`script.js`) opens a `.pptx` file in the browser. It walks the
container's `ppt/slides/` folder for slide files named `slide<digits>.xml`,
sorts them by their number, and resolves one picture per slide from the
relationship file `ppt/slides/_rels/slide<N>.xml.rels`: the first image
relationship whose target exists becomes a base64 `data:` URL. It then lets the
user step through the slides with buttons and arrow keys, showing a
`Slide i / n` counter.

This project models that core in Dafny and proves what it does:

- `options.dfy` (`Options`): the optional value that stands for `null`.
- `text.dfy` (`Text`): the JavaScript string operations the viewer relies on. These are
  `endsWith`, `includes`, `replace` with a string pattern, `split('.').pop()`,
  `\d`, `match(/\d+/)`, `parseInt` of a digit run and `${n}`.
- `archive.dfy` (`Archives`): the opened container is an entry listing in container order plus
  a map from path to entry. An entry is either readable or damaged. The decoders the viewer
  calls but does not define are passed in as a `Codecs` value: text decoding, relationship
  parsing and base64 encoding.
- `discovery.dfy` (`Discovery`): the `.pptx` name check, the folder walk with
  the slide-name test, and the stable numeric sort.
- `resolver.dfy` (`Resolver`): `extractSlideImage`. This covers the relationship path,
  the first-match scan, the `../` rewrite, MIME inference and the `data:` URL.
  The function `ResolveSlideImage` is the specification, and the method
  `ExtractSlideImage` is the loop with early returns, proved equal to it.
- `session.dfy` (`Session`): the module state `zip`, `slideImages` and
  `currentSlide`, modelled as `class Viewer` together with a flag for the
  revealed navigation bar. It holds the upload handler, `parsePPTX`, the
  previous/next buttons, the arrow keys, and what `showSlide` and
  `updateSlideCounter` read.

`Viewer.Valid()` is kept by every method. It says:

- the position is on a slide whenever there are slides;
- the pictures are always the ones resolved from the current container;
- navigation is hidden only while nothing has loaded.

## Model

| member | source | states |
|---|---|---|
| `Text.EndsWith` | script.js:20 | `endsWith`: the last characters of the string are exactly the suffix, compared case-sensitively; a suffix longer than the string never matches |
| `Text.IndexOf` | script.js:81-82 | the first position where the pattern occurs, or none exactly when it occurs nowhere |
| `Text.Contains` | script.js:81 | `includes` holds exactly when the pattern occurs somewhere |
| `Text.ReplaceFirst` | script.js:82 | only the first occurrence is replaced, wherever it stands; no occurrence leaves the string unchanged |
| `Text.LastSegment` | script.js:86 | the segment is a suffix without separator, preceded by a separator unless it is the whole string |
| `Text.LastSegmentWithout` | script.js:86 | a string without separator is its own last segment |
| `Text.LastSegmentAfter` | script.js:86 | whatever follows the last separator is the segment |
| `Text.NatToString` | script.js:70 | `${n}` is a non-empty run of digits with no leading zero |
| `Text.NatToStringRoundTrip` | script.js:70 | reading back the digits of `${n}` gives `n` |
| `Text.NatToStringInjective` | script.js:70 | different numbers are written differently |
| `Text.CanonicalRoundTrip` | script.js:70 | a numeral without leading zero is what `${n}` writes for its value |
| `Text.DigitsValue` | script.js:47 | `parseInt` of a digit run: the decimal value of the digits, read left to right, leading zeros adding nothing |
| `Text.DigitPrefixOf` | script.js:47 | a digit run followed by a non-digit is exactly the matched prefix |
| `Text.FirstDigitIndex` | script.js:47 | the position of the first ASCII digit, or none when there is no digit |
| `Text.FirstDigitRun` | script.js:47 | `match(/\d+/)` is a non-empty digit run, and is null exactly when the name has no digit |
| `Text.FirstDigitRunLeftmost` | script.js:47 | the matched run stands in the name after digit-free text and is not followed by a digit: the leftmost run, taken whole |
| `Discovery.IsPptxName` | script.js:20 | the upload goes on only for a name ending in `.pptx` |
| `Discovery.PptxNameExamples` | script.js:20 | the suffix test is case-sensitive and looks at the very end of the name |
| `Discovery.IsSlideFileName` | script.js:45 | `/^slide\d+\.xml$/`: `slide`, at least one ASCII digit, `.xml`, nothing before or after |
| `Discovery.SlideFileDigitRun` | script.js:45-47 | for a name matching `^slide\d+\.xml$`, `match(/\d+/)` is exactly the digits between `slide` and `.xml` |
| `Discovery.Ordinal` | script.js:47 | the sort key is the value of the slide name's digits, leading zeros ignored |
| `Discovery.Walked` | script.js:44-46 | one listed path yields its name relative to `ppt/slides/`, with its number, when it lies in that folder and passes the name test; otherwise nothing |
| `Discovery.SlideFileNames` | script.js:44-46 | the walk visits the listing in container order and pushes each path that passes the test |
| `Discovery.SlideFileNamesMembers` | script.js:43-46 | the walk keeps exactly the slide files directly inside `ppt/slides/` |
| `Discovery.WalkAppend` | script.js:44-46 | the walk over two listings is the walk over the first then the second |
| `Discovery.Insert` | script.js:47 | insertion adds exactly one element |
| `Discovery.InsertSorted` | script.js:47 | inserting into a sorted list keeps it sorted |
| `Discovery.SortByOrdinal` | script.js:47 | the result is sorted by number and is a permutation of the input |
| `Discovery.SlideFiles` | script.js:40-47 | the slide list is sorted, a permutation of the walk's matches, and holds exactly the slide files of the folder |
| `Discovery.SortKeepsEqualOrdinalsInOrder` | script.js:47 | the sort is stable: files with equal numbers keep their listing order |
| `Discovery.SortedDeterminedByClasses` | script.js:47 | two sorted lists with the same files per number, in the same order, are equal |
| `Discovery.DiscoveryOrderIrrelevant` | script.js:43-47 | the sorted list depends only on the listing order within each number |
| `Discovery.SlideOrderIgnoresDiscovery` | script.js:43-47 | with distinct numbers, the listing order does not matter at all |
| `Discovery.NumericOrderExample` | script.js:43-47 | listing `slide2, _rels/slide2.xml.rels, slide1, media/image1.png, slide10` gives slides `slide1, slide2, slide10` |
| `Resolver.RelsPath` | script.js:70 | the relationship path carries `${num}` between its fixed prefix and suffix |
| `Resolver.RelsPathInjective` | script.js:70 | different slide numbers read different relationship files |
| `Resolver.RelsPathOfSlide` | script.js:70 | for a canonically numbered slide file, the path built from its number is its own `_rels/<name>.rels` |
| `Resolver.PositionMatchesOwnRels` | script.js:51-52 | position `k` reads a slide file's own relationships exactly when that file's number is `k + 1` |
| `Resolver.ImagePath` | script.js:82 | the target with its first `../` replaced by `ppt/` |
| `Resolver.ImagePathLeading` | script.js:82 | a leading `../` becomes `ppt/` |
| `Resolver.ImagePathInner` | script.js:82 | a `../` after a dot-free prefix is rewritten in place, not only at the start |
| `Resolver.ImagePathUnchanged` | script.js:82 | a target without `../` is used as it stands |
| `Resolver.MimeType` | script.js:86-87 | `image/png` when the text after the last `.` is `png`, `image/jpeg` otherwise |
| `Resolver.MimeTypePng` | script.js:86-87 | PNG exactly when the path is `png` or ends in `.png` (case-sensitive), JPEG otherwise |
| `Resolver.DataUrl` | script.js:88 | `data:`, the media type, `;base64,`, then the payload |
| `Resolver.DataUrlRoundTrip` | script.js:88 | media type and payload are read back from the `data:` URL built from them |
| `Resolver.ImageDataUrlReadsBack` | script.js:86-88 | every URL the viewer builds reads back as `image/png` or `image/jpeg` |
| `Resolver.ImageTyped` | script.js:79-81 | a relationship whose `Type` contains `image` and whose `Target` is present and non-empty |
| `Resolver.Stops` | script.js:79-84 | the scan ends at a relationship without `Type` (reading it throws) or at an image-typed one whose rewritten path is an entry |
| `Resolver.Verdict` | script.js:79-89 | where the scan stops it throws (no `Type`, unreadable image) or yields an image `data:` URL |
| `Resolver.Scan` | script.js:78-92 | the scan misses exactly when no relationship stops it, so missing image files are skipped |
| `Resolver.ScanFirstStop` | script.js:78-91 | the scan's answer is the verdict of the first relationship that stops it |
| `Resolver.RelationshipsOf` | script.js:70-76 | no relationship file, or one that cannot be read, gives none; otherwise every `Relationship` element of the parsed file, in document order |
| `Resolver.ResolveSlideImage` | script.js:68-97 | no relationship file or an unreadable one gives null; a result is always an image `data:` URL |
| `Resolver.ResolveByFirstStop` | script.js:78-96 | the first stopping relationship decides: a picture of its intact entry, or null for no `Type` or an unreadable entry |
| `Resolver.ExtractSlideImage` | script.js:68-97 | the loop with early returns computes exactly `ResolveSlideImage` |
| `Session.LoadOutcome` | script.js:35-66 | bytes that do not open fail as an invalid archive; no slide file fails as "No slides found"; otherwise the load succeeds with one slide per slide file |
| `Session.SelectOutcome` | script.js:16-33 | no file is ignored; a name without `.pptx` fails as the wrong file type; otherwise the outcome of the load |
| `Session.LoadSucceedsIffSlideEntry` | script.js:43-49 | a container loads exactly when a slide file sits directly in `ppt/slides/`, with one slide per matching listing entry |
| `Session.OnlyPptxLoads` | script.js:18-23 | only a `.pptx` name reaches the load; any other name is reported as the wrong file type |
| `Session.Pictures` | script.js:51-54 | positions `0 .. count-1`, position `i` holding the picture resolved from slide number `i + 1` |
| `Session.SlideImagesOf` | script.js:51-54 | one picture per slide file found, by position |
| `Session.SlideImagesByPosition` | script.js:51-54 | one picture per slide file, and position `i` is resolved from slide number `i + 1` |
| `Session.PrevIndex` | script.js:120-122 | one back when above the first slide, otherwise unchanged |
| `Session.NextIndex` | script.js:123-125 | one forward when before the last slide, otherwise unchanged |
| `Session.KeyIndex` | script.js:127-131 | unchanged without slides; `ArrowLeft` moves as previous, `ArrowRight` as next, any other key leaves the position |
| `Session.NavigationStaysInRange` | script.js:120-131 | moves stay within the slides, stop at both ends, and previous undoes next |
| `Session.NextTimesClamps` | script.js:123-125 | `n` presses of next advance `n` slides, then stay on the last |
| `Session.PrevTimesClamps` | script.js:120-122 | `n` presses of previous go back `n` slides, then stay on the first |
| `Session.EverySlideReachable` | script.js:123-125 | every slide is reached from the first by pressing next |
| `Session.CounterText` | script.js:109 | `Slide `, the one-based position, ` / `, the slide count |
| `Session.CounterTextInjective` | script.js:108-110 | the counter text determines both the position and the slide count |
| `Session.Render` | script.js:99-105 | nothing is drawn without slides; a drawn picture is the image at that position, labelled with its number |
| `Session.RenderShowsResolved` | script.js:99-104 | a slide shows its picture exactly when its image resolved, otherwise the "No preview" placeholder |
| `Session.Viewer.Shown` | script.js:99-104 | what `showSlide(currentSlide)` draws for the current state |
| `Session.Viewer.Counter` | script.js:108-110 | the counter text for the current position and the number of pictures |
| `Session.Viewer.constructor` | script.js:10-12 | no container, no pictures, position 0, navigation hidden |
| `Session.Viewer.ParsePptx` | script.js:35-66 | an unopened container changes nothing; no slide files clears the pictures and keeps the position; otherwise every slide is resolved, position 0, navigation revealed |
| `Session.Viewer.FillSlides` | script.js:51-54 | the loop pushes, for positions `0 .. count-1` in order, the picture resolved from slide number `i + 1` |
| `Session.Viewer.SelectFile` | script.js:16-33 | no file does nothing; a wrong name is refused untouched; otherwise the outcome and new state of the load |
| `Session.Viewer.Previous` | script.js:120-122 | decrement only above 0 |
| `Session.Viewer.Next` | script.js:123-125 | increment only below the last slide |
| `Session.Viewer.KeyDown` | script.js:127-131 | nothing without slides; the arrow keys act as previous and next; other keys do nothing |

## Behaviour worth knowing

These follow the code as written.

- `replace('../', 'ppt/')` rewrites the first `../` wherever it stands, not
  only a leading one (`Resolver.ImagePathInner`).
- The MIME type compares the text after the last `.`. So `xpng` is JPEG, and a
  bare `png` with no dot is PNG (`Resolver.MimeTypePng`).
- An error does not always hide navigation or discard the previous session:
  - a container that does not open changes no state, so the previous deck stays navigable;
  - "No slides found" replaces `zip` and empties `slideImages`, but keeps
    `currentSlide` and leaves navigation revealed after an earlier successful load;
  - the previous button still decrements `currentSlide` over the empty list
    (`Session.Viewer.ParsePptx`, `Session.Viewer.Previous`).
- Pictures are resolved by position, not by the slide file's number. A deck
  with `slide1.xml` and `slide3.xml` shows, at position 1, whatever
  `slide2.xml.rels` holds (`Resolver.PositionMatchesOwnRels`).

## Left out

- Decompression and the archive library's internals are not modelled. The container is already
  opened into a listing and a path-to-entry map.
- Text decoding, XML parsing of the relationship file and base64 encoding are opaque functions
  passed in as `Codecs`. The viewer does not define them.
- A failure to read the file's bytes and a failure to open them as a zip are merged into one
  case, a container of `None`. Both lead to an error message and no state change.
- The archive library lists each path once. The model does not require the listing to be
  free of repeats; a repeated slide path would count as two slides.
- The `!slidesFolder` check is not modelled. The library's `folder()` always returns a folder
  object, so the empty slide list is the check that takes effect.
- Asynchrony and re-entrancy are not modelled: a second upload or a key press during a load
  can interleave in the browser. Each handler is one atomic step here.
- HTML rendering, the loading and error messages' markup, and the text of error messages are
  left out. Errors are the `LoadError` values, and the screen is the `Screen` value.
- Fullscreen handling, `downloadProject` and `console.error` logging are left out. They have
  no effect on the modelled state.
- Discovery.Ordinal: the number is an exact integer, whereas `parseInt` yields a
  floating-point number that loses precision beyond 2^53 (and is `Infinity` for
  very long digit runs). Sort order may differ for such names.
