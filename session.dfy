/**
  The viewer's presentation session: the module state `zip`, `slideImages`
  and `currentSlide`, the upload handler and `parsePPTX` that replace it,
  the previous/next buttons and arrow keys that move through it, and what
  `showSlide` and `updateSlideCounter` read from it.
*/
module Session {
  import opened Options
  import opened Text
  import opened Archives
  import opened Discovery
  import opened Resolver

  /** The failures the upload handler reports instead of a presentation. */
  datatype LoadError = InvalidFileType | InvalidArchive | NoSlidesFound

  /** What one file selection came to. */
  datatype Outcome = Ignored | Failed(error: LoadError) | Loaded(count: nat)

  /**
    The selected file: its name, and its bytes opened as a container, `None`
    when reading the bytes or opening them as a zip archive fails.
  */
  datatype PickedFile = PickedFile(name: string, container: Option<Archive>)

  /** What `parsePPTX` ends in for a container, or for bytes that did not open. */
  function LoadOutcome(container: Option<Archive>): Outcome {
    match container
    case None => Failed(InvalidArchive)
    case Some(archive) =>
      var slideFiles := SlideFiles(archive.listing);
      if slideFiles == [] then Failed(NoSlidesFound) else Loaded(|slideFiles|)
  }

  /** What the upload handler ends in: no file, a name without `.pptx`, or the load. */
  function SelectOutcome(file: Option<PickedFile>): Outcome {
    match file
    case None => Ignored
    case Some(picked) =>
      if !IsPptxName(picked.name) then Failed(InvalidFileType) else LoadOutcome(picked.container)
  }

  /** The container holds a slide file directly inside `ppt/slides/`. */
  predicate HasSlideEntry(archive: Archive) {
    exists p :: p in archive.listing && SLIDES_FOLDER <= p && IsSlideFileName(p[|SLIDES_FOLDER|..])
  }

  /**
    A container loads exactly when some entry directly inside `ppt/slides/`
    is named `slide<digits>.xml`; the count is the number of such entries.
  */
  lemma LoadSucceedsIffSlideEntry(archive: Archive)
    ensures LoadOutcome(Some(archive)).Loaded? <==> HasSlideEntry(archive)
    ensures LoadOutcome(Some(archive)).Loaded? ==>
      LoadOutcome(Some(archive)).count == |SlideFileNames(archive.listing)|
  {
    if HasSlideEntry(archive) {
      SlideEntryFound(archive);
    }
    if SlideFiles(archive.listing) != [] {
      SlideFoundHasEntry(archive);
    }
    SlideCount(archive.listing);
  }

  lemma SlideEntryFound(archive: Archive)
    requires HasSlideEntry(archive)
    ensures SlideFiles(archive.listing) != []
  {
    var p :| p in archive.listing && SLIDES_FOLDER <= p && IsSlideFileName(p[|SLIDES_FOLDER|..]);
    var name := p[|SLIDES_FOLDER|..];
    assert SLIDES_FOLDER + name == p;
    var f := SlideFile(name, Ordinal(name));
    assert WellFormed(f);
    SlideFileNamesMembers(archive.listing);
    assert f in SlideFileNames(archive.listing);
    SlideCount(archive.listing);
  }

  lemma SlideFoundHasEntry(archive: Archive)
    requires SlideFiles(archive.listing) != []
    ensures HasSlideEntry(archive)
  {
    var f := SlideFiles(archive.listing)[0];
    assert f in SlideFiles(archive.listing);
    var p := SLIDES_FOLDER + f.name;
    assert p[|SLIDES_FOLDER|..] == f.name;
  }

  lemma SlideCount(listing: seq<string>)
    ensures |SlideFiles(listing)| == |SlideFileNames(listing)|
  {
    assert |SlideFiles(listing)| == |multiset(SlideFiles(listing))| == |multiset(SlideFileNames(listing))|;
  }

  /** A file whose name does not end in `.pptx` is turned away before anything is read. */
  lemma OnlyPptxLoads(file: Option<PickedFile>)
    ensures (SelectOutcome(file).Loaded? || SelectOutcome(file) == Failed(NoSlidesFound) ||
             SelectOutcome(file) == Failed(InvalidArchive)) ==> file.Some? && IsPptxName(file.value.name)
    ensures file.Some? && !IsPptxName(file.value.name) ==> SelectOutcome(file) == Failed(InvalidFileType)
  {
  }

  /** The pictures a loaded container yields: position `i` resolved from slide number `i + 1`. */
  function SlideImagesOf(archive: Archive, codecs: Codecs): seq<Option<string>> {
    Pictures(archive, codecs, |SlideFiles(archive.listing)|)
  }

  /** The pictures of the first `count` slide positions. */
  function Pictures(archive: Archive, codecs: Codecs, count: nat): seq<Option<string>> {
    seq(count, i requires 0 <= i => ResolveSlideImage(archive, i + 1, codecs))
  }

  /** One more position adds the picture resolved from the next slide number. */
  lemma PicturesExtend(archive: Archive, codecs: Codecs, count: nat)
    ensures Pictures(archive, codecs, count + 1) == Pictures(archive, codecs, count) + [ResolveSlideImage(archive, count + 1, codecs)]
  {
  }

  /**
    After a load there is one picture per slide file, and the picture at
    position `i` is the one resolved from slide number `i + 1`, whatever
    number the slide file at that position carries.
  */
  lemma SlideImagesByPosition(archive: Archive, codecs: Codecs)
    ensures |SlideImagesOf(archive, codecs)| == |SlideFiles(archive.listing)|
    ensures forall i :: 0 <= i < |SlideImagesOf(archive, codecs)| ==>
      SlideImagesOf(archive, codecs)[i] == ResolveSlideImage(archive, i + 1, codecs)
  {
  }

  /** `if (currentSlide > 0) --currentSlide`. */
  function PrevIndex(current: int): int {
    if current > 0 then current - 1 else current
  }

  /** `if (currentSlide < slideImages.length - 1) ++currentSlide`. */
  function NextIndex(current: int, count: nat): int {
    if current < count - 1 then current + 1 else current
  }

  /** The keydown handler: nothing without slides, otherwise the arrow keys act as the buttons. */
  function KeyIndex(key: string, current: int, count: nat): int {
    if count == 0 then current
    else if key == "ArrowLeft" then PrevIndex(current)
    else if key == "ArrowRight" then NextIndex(current, count)
    else current
  }

  /** Moving never leaves the slide list and never wraps around. */
  lemma NavigationStaysInRange(current: int, count: nat, key: string)
    requires 0 <= current < count
    ensures 0 <= PrevIndex(current) < count && 0 <= NextIndex(current, count) < count
    ensures 0 <= KeyIndex(key, current, count) < count
    ensures current == 0 ==> PrevIndex(current) == 0
    ensures current == count - 1 ==> NextIndex(current, count) == count - 1
    ensures 0 < current ==> NextIndex(PrevIndex(current), count) == current
    ensures current < count - 1 ==> PrevIndex(NextIndex(current, count)) == current
  {
  }

  /** `n` presses of next. */
  function NextTimes(current: int, count: nat, n: nat): int
    decreases n
  {
    if n == 0 then current else NextTimes(NextIndex(current, count), count, n - 1)
  }

  /** `n` presses of previous. */
  function PrevTimes(current: int, n: nat): int
    decreases n
  {
    if n == 0 then current else PrevTimes(PrevIndex(current), n - 1)
  }

  /** Pressing next `n` times advances `n` slides and then stays on the last one. */
  lemma {:induction false} NextTimesClamps(current: int, count: nat, n: nat)
    requires 0 <= current < count
    ensures NextTimes(current, count, n) == if current + n < count then current + n else count - 1
    decreases n
  {
    if n > 0 {
      NextTimesClamps(NextIndex(current, count), count, n - 1);
    }
  }

  /** Pressing previous `n` times goes back `n` slides and then stays on the first one. */
  lemma {:induction false} PrevTimesClamps(current: int, n: nat)
    requires 0 <= current
    ensures PrevTimes(current, n) == if current - n >= 0 then current - n else 0
    decreases n
  {
    if n > 0 {
      PrevTimesClamps(PrevIndex(current), n - 1);
    }
  }

  /** Every slide is reached from the first one by pressing next. */
  lemma EverySlideReachable(count: nat, k: nat)
    requires k < count
    ensures NextTimes(0, count, k) == k
  {
    NextTimesClamps(0, count, k);
  }

  /** `Slide ${currentSlide + 1} / ${slideImages.length}`. */
  function CounterText(current: nat, count: nat): string {
    "Slide " + NatToString(current + 1) + " / " + NatToString(count)
  }

  /** The counter text tells apart every position and every slide count. */
  lemma CounterTextInjective(a: nat, m: nat, b: nat, n: nat)
    requires CounterText(a, m) == CounterText(b, n)
    ensures a == b && m == n
  {
    var head, sep := "Slide ", " / ";
    var x, y := NatToString(a + 1), NatToString(b + 1);
    var u, v := NatToString(m), NatToString(n);
    DropHead(head, x, sep, u);
    DropHead(head, y, sep, v);
    SplitAtSeparator(x, u, y, v, sep);
    NatToStringInjective(a + 1, b + 1);
    NatToStringInjective(m, n);
  }

  lemma DropHead(head: string, x: string, sep: string, u: string)
    ensures (head + x + sep + u)[|head|..] == x + (sep + u)
  {
  }

  /** A run of digits followed by a separator that starts with a non-digit splits one way only. */
  lemma SplitAtSeparator(x: string, u: string, y: string, v: string, sep: string)
    requires AllDigits(x) && AllDigits(y)
    requires sep != [] && !IsDigit(sep[0])
    requires x + (sep + u) == y + (sep + v)
    ensures x == y && u == v
  {
    DigitPrefixOf(x, sep + u);
    DigitPrefixOf(y, sep + v);
    assert (x + (sep + u))[|x| + |sep|..] == u;
    assert (y + (sep + v))[|y| + |sep|..] == v;
  }

  /**
    What `showSlide(index)` puts on the screen: the picture, or the
    "No preview" placeholder; `number` is the slide number in its text.
  */
  datatype Screen = Picture(src: string, number: int) | NoPreview(number: int)

  /** `showSlide(index)`: nothing at all without slides. */
  function Render(images: seq<Option<string>>, index: int): (r: Option<Screen>)
    ensures r.None? <==> images == []
    ensures r.Some? ==> r.value.number == index + 1
    ensures r.Some? && r.value.Picture? ==> 0 <= index < |images| && images[index] == Some(r.value.src)
  {
    if images == [] then None
    else if 0 <= index < |images| && images[index].Some? && images[index].value != [] then
      Some(Picture(images[index].value, index + 1))
    else Some(NoPreview(index + 1))
  }

  /** A picture's `data:` URL is never the empty string `showSlide` treats as missing. */
  lemma ImageUrlNotEmpty(url: string)
    requires IsImageDataUrl(url)
    ensures url != []
  {
    assert "data:" <= url;
  }

  /**
    A slide shows a picture exactly when its image resolved, and then shows
    that image; otherwise the "No preview" placeholder with its number.
  */
  lemma RenderShowsResolved(images: seq<Option<string>>, index: int)
    requires 0 <= index < |images|
    requires images[index].Some? ==> IsImageDataUrl(images[index].value)
    ensures Render(images, index) ==
      Some(if images[index].Some? then Picture(images[index].value, index + 1) else NoPreview(index + 1))
  {
    if images[index].Some? {
      ImageUrlNotEmpty(images[index].value);
    }
  }

  /** The viewer's module state, and the flag for the revealed navigation bar and counter. */
  class Viewer {
    /** The decoders the viewer calls, fixed for the session. */
    const codecs: Codecs
    var zip: Option<Archive>
    var slideImages: seq<Option<string>>
    var currentSlide: int
    var navigationShown: bool

    /**
      The position is on a slide whenever there are slides; the pictures are
      always those of the current container; navigation is revealed only
      once a presentation has loaded.
    */
    ghost predicate Valid()
      reads this
    {
      && 0 <= currentSlide
      && (slideImages != [] ==> currentSlide < |slideImages|)
      && (slideImages == [] || (zip.Some? && slideImages == SlideImagesOf(zip.value, codecs)))
      && (!navigationShown ==> slideImages == [] && currentSlide == 0)
    }

    /** The state before any upload: no container, no pictures, position 0, navigation hidden. */
    constructor(codecs: Codecs)
      ensures Valid()
      ensures this.codecs == codecs
      ensures zip == None && slideImages == [] && currentSlide == 0 && !navigationShown
    {
      this.codecs := codecs;
      zip := None;
      slideImages := [];
      currentSlide := 0;
      navigationShown := false;
    }

    /** What `showSlide(currentSlide)` displays. */
    function Shown(): Option<Screen>
      reads this
    {
      Render(slideImages, currentSlide)
    }

    /** What `updateSlideCounter` writes. */
    function Counter(): string
      requires Valid()
      reads this
    {
      CounterText(currentSlide, |slideImages|)
    }

    /**
      `parsePPTX`: a container that did not open changes nothing; otherwise
      it becomes `zip` and the pictures are cleared, then, if any slide
      files were found, one picture per slide file is resolved in order,
      the first slide is shown and navigation is revealed.
    */
    method ParsePptx(container: Option<Archive>) returns (outcome: Outcome)
      requires Valid()
      modifies this
      ensures Valid()
      ensures outcome == LoadOutcome(container)
      ensures container.None? ==> unchanged(this)
      ensures container.Some? ==> zip == container
      ensures outcome == Failed(NoSlidesFound) ==>
        slideImages == [] && currentSlide == old(currentSlide) && navigationShown == old(navigationShown)
      ensures outcome.Loaded? ==>
        currentSlide == 0 && navigationShown && slideImages == SlideImagesOf(container.value, codecs)
    {
      if container.None? {
        return Failed(InvalidArchive);
      }
      var archive := container.value;
      zip := container;
      slideImages := [];
      var slideFiles := SlideFiles(archive.listing);
      if |slideFiles| == 0 {
        return Failed(NoSlidesFound);
      }
      FillSlides(archive, |slideFiles|);
      assert slideImages == SlideImagesOf(archive, codecs);
      currentSlide := 0;
      navigationShown := true;
      return Loaded(|slideFiles|);
    }

    /** The loop of `parsePPTX` that pushes the picture of each slide position in turn. */
    method FillSlides(archive: Archive, count: nat)
      requires slideImages == []
      modifies this`slideImages
      ensures slideImages == Pictures(archive, codecs, count)
    {
      var i := 0;
      while i < count
        invariant 0 <= i <= count
        invariant slideImages == Pictures(archive, codecs, i)
      {
        var slideImage := ExtractSlideImage(archive, i + 1, codecs);
        PicturesExtend(archive, codecs, i);
        slideImages := slideImages + [slideImage];
        i := i + 1;
      }
    }

    /**
      The upload handler: no file does nothing; a name without `.pptx` is
      reported and nothing is read; otherwise the container is loaded.
    */
    method SelectFile(file: Option<PickedFile>) returns (outcome: Outcome)
      requires Valid()
      modifies this
      ensures Valid()
      ensures outcome == SelectOutcome(file)
      ensures outcome == Ignored || outcome == Failed(InvalidFileType) || outcome == Failed(InvalidArchive) ==>
        unchanged(this)
      ensures outcome == Failed(NoSlidesFound) ==>
        zip == file.value.container && slideImages == [] &&
        currentSlide == old(currentSlide) && navigationShown == old(navigationShown)
      ensures outcome.Loaded? ==>
        (zip == file.value.container && currentSlide == 0 && navigationShown &&
         slideImages == SlideImagesOf(zip.value, codecs))
    {
      if file.None? {
        return Ignored;
      }
      if !IsPptxName(file.value.name) {
        return Failed(InvalidFileType);
      }
      outcome := ParsePptx(file.value.container);
    }

    /** The previous button. */
    method Previous()
      requires Valid()
      modifies this`currentSlide
      ensures Valid()
      ensures currentSlide == PrevIndex(old(currentSlide))
    {
      if currentSlide > 0 {
        currentSlide := currentSlide - 1;
      }
    }

    /** The next button. */
    method Next()
      requires Valid()
      modifies this`currentSlide
      ensures Valid()
      ensures currentSlide == NextIndex(old(currentSlide), |slideImages|)
    {
      if currentSlide < |slideImages| - 1 {
        currentSlide := currentSlide + 1;
      }
    }

    /** The keydown handler, for the key named `key`. */
    method KeyDown(key: string)
      requires Valid()
      modifies this`currentSlide
      ensures Valid()
      ensures currentSlide == KeyIndex(key, old(currentSlide), |slideImages|)
    {
      if |slideImages| == 0 {
        return;
      }
      if key == "ArrowLeft" && currentSlide > 0 {
        currentSlide := currentSlide - 1;
      }
      if key == "ArrowRight" && currentSlide < |slideImages| - 1 {
        currentSlide := currentSlide + 1;
      }
    }
  }
}
