/**
  Which uploads the viewer accepts and which container entries it takes for
  slides: the `.pptx` name check of the upload handler, the walk over the
  `ppt/slides/` folder keeping the names that match `^slide\d+\.xml$`, and
  the sort of those names by the number in them.
*/
module Discovery {
  import opened Options
  import opened Text

  const SLIDES_FOLDER := "ppt/slides/"

  /** The upload handler goes on only for a name ending in `.pptx`, compared case-sensitively. */
  predicate IsPptxName(name: string) {
    EndsWith(name, ".pptx")
  }

  lemma PptxNameExamples()
    ensures IsPptxName("deck.pptx") && IsPptxName(".pptx")
    ensures !IsPptxName("deck.PPTX") && !IsPptxName("deck.ppt") && !IsPptxName("deck.pptx.zip")
  {
  }

  /** `/^slide\d+\.xml$/.test(p)`: "slide", at least one ASCII digit, ".xml", nothing else. */
  predicate IsSlideFileName(p: string) {
    |p| > 9 && p[..5] == "slide" && p[|p| - 4..] == ".xml" && AllDigits(p[5..|p| - 4])
  }

  lemma {:induction false} FirstDigitAfter(prefix: string, rest: string)
    requires forall j :: 0 <= j < |prefix| ==> !IsDigit(prefix[j])
    requires rest != [] && IsDigit(rest[0])
    ensures FirstDigitIndex(prefix + rest) == Some(|prefix|)
  {
    if prefix != [] {
      assert (prefix + rest)[1..] == prefix[1..] + rest;
      FirstDigitAfter(prefix[1..], rest);
    }
  }

  /** For a slide file name, `match(/\d+/)` finds exactly the digits between "slide" and ".xml". */
  lemma SlideFileDigitRun(p: string)
    requires IsSlideFileName(p)
    ensures FirstDigitRun(p) == Some(p[5..|p| - 4])
  {
    var digits := p[5..|p| - 4];
    assert p == "slide" + (digits + ".xml");
    FirstDigitAfter("slide", digits + ".xml");
    assert p[5..] == digits + ".xml";
    DigitPrefixOf(digits, ".xml");
  }

  /**
    The sort key `parseInt(name.match(/\d+/))`: the value of the slide
    file's digit run, leading zeros ignored.
  */
  function Ordinal(p: string): (n: nat)
    requires IsSlideFileName(p)
    ensures n == DigitsValue(p[5..|p| - 4])
  {
    SlideFileDigitRun(p);
    DigitsValue(FirstDigitRun(p).value)
  }

  /**
    A matching folder entry as the walk records it: the path relative to
    `ppt/slides/` and the number the sort compares it by.
  */
  datatype SlideFile = SlideFile(name: string, ordinal: nat)

  ghost predicate WellFormed(f: SlideFile) {
    IsSlideFileName(f.name) && f.ordinal == Ordinal(f.name)
  }

  /**
    What the folder walk with the name test records for one listed path: a
    slide file directly inside `ppt/slides/`, or nothing.
  */
  function Walked(p: string): seq<SlideFile> {
    if SLIDES_FOLDER <= p && IsSlideFileName(p[|SLIDES_FOLDER|..]) then
      [SlideFile(p[|SLIDES_FOLDER|..], Ordinal(p[|SLIDES_FOLDER|..]))]
    else []
  }

  /** The folder walk with the name test over the container's listing, in listing order. */
  function SlideFileNames(listing: seq<string>): seq<SlideFile> {
    if listing == [] then [] else Walked(listing[0]) + SlideFileNames(listing[1..])
  }

  /** The folder walk keeps exactly the slide files directly inside `ppt/slides/`. */
  lemma {:induction false} SlideFileNamesMembers(listing: seq<string>)
    ensures forall f :: f in SlideFileNames(listing) <==> WellFormed(f) && SLIDES_FOLDER + f.name in listing
  {
    if listing != [] {
      SlideFileNamesMembers(listing[1..]);
      var p := listing[0];
      forall x
        ensures SLIDES_FOLDER + x == p <==> SLIDES_FOLDER <= p && p[|SLIDES_FOLDER|..] == x
      {
        if SLIDES_FOLDER <= p && p[|SLIDES_FOLDER|..] == x {
          assert p == p[..|SLIDES_FOLDER|] + p[|SLIDES_FOLDER|..];
        }
      }
      assert listing == [p] + listing[1..];
    }
  }

  function Names(files: seq<SlideFile>): (names: seq<string>)
    ensures |names| == |files|
    ensures forall i :: 0 <= i < |files| ==> names[i] == files[i].name
  {
    if files == [] then [] else [files[0].name] + Names(files[1..])
  }

  predicate SortedByOrdinal(s: seq<SlideFile>) {
    forall i, j :: 0 <= i < j < |s| ==> s[i].ordinal <= s[j].ordinal
  }

  /** Places `x` before the first name whose ordinal is not smaller. */
  function Insert(x: SlideFile, s: seq<SlideFile>): (r: seq<SlideFile>)
    ensures multiset(r) == multiset(s) + multiset{x}
  {
    if s == [] || x.ordinal <= s[0].ordinal then [x] + s
    else
      assert s == [s[0]] + s[1..];
      [s[0]] + Insert(x, s[1..])
  }

  lemma {:induction false} InsertSorted(x: SlideFile, s: seq<SlideFile>)
    requires SortedByOrdinal(s)
    ensures SortedByOrdinal(Insert(x, s))
  {
    if s != [] && x.ordinal > s[0].ordinal {
      var t := Insert(x, s[1..]);
      InsertSorted(x, s[1..]);
      InsertKeepsBound(x, s[1..], s[0].ordinal);
      ConsSorted(s[0], t);
    }
  }

  /** A lower bound of `x` and of every element of `s` bounds everything after the insertion. */
  lemma InsertKeepsBound(x: SlideFile, s: seq<SlideFile>, b: nat)
    requires b <= x.ordinal
    requires forall i :: 0 <= i < |s| ==> b <= s[i].ordinal
    ensures forall i :: 0 <= i < |Insert(x, s)| ==> b <= Insert(x, s)[i].ordinal
  {
    var t := Insert(x, s);
    forall i | 0 <= i < |t|
      ensures b <= t[i].ordinal
    {
      assert t[i] in multiset(s) + multiset{x} by {
        assert t[i] in multiset(t);
      }
    }
  }

  lemma ConsSorted(h: SlideFile, t: seq<SlideFile>)
    requires SortedByOrdinal(t)
    requires forall i :: 0 <= i < |t| ==> h.ordinal <= t[i].ordinal
    ensures SortedByOrdinal([h] + t)
  {
    var r := [h] + t;
    forall i, j | 0 <= i < j < |r|
      ensures r[i].ordinal <= r[j].ordinal
    {
      assert r[j] == t[j - 1];
      if i > 0 {
        assert r[i] == t[i - 1];
      }
    }
  }

  /**
    `slideFiles.sort((a, b) => ordinal(a) - ordinal(b))`: ascending by
    ordinal; the sort is stable, so names with equal ordinals keep their
    listing order (see SortKeepsEqualOrdinalsInOrder).
  */
  function SortByOrdinal(s: seq<SlideFile>): (r: seq<SlideFile>)
    ensures SortedByOrdinal(r)
    ensures multiset(r) == multiset(s)
  {
    if s == [] then []
    else
      assert s == [s[0]] + s[1..];
      InsertSorted(s[0], SortByOrdinal(s[1..]));
      Insert(s[0], SortByOrdinal(s[1..]))
  }

  /**
    The slide files of a container, in presentation order: a permutation of
    the folder walk's matches, sorted by ordinal, and exactly the slide files
    directly inside `ppt/slides/`.
  */
  function SlideFiles(listing: seq<string>): (r: seq<SlideFile>)
    ensures SortedByOrdinal(r)
    ensures multiset(r) == multiset(SlideFileNames(listing))
    ensures forall f :: f in r <==> WellFormed(f) && SLIDES_FOLDER + f.name in listing
  {
    var found := SlideFileNames(listing);
    var r := SortByOrdinal(found);
    SlideFileNamesMembers(listing);
    assert forall f :: f in r <==> f in found by {
      assert forall f :: f in r <==> f in multiset(r);
      assert forall f :: f in found <==> f in multiset(found);
    }
    r
  }

  /** The names of `s` whose ordinal is `k`, in their order in `s`. */
  function WithOrdinal(s: seq<SlideFile>, k: nat): seq<SlideFile> {
    if s == [] then []
    else if s[0].ordinal == k then [s[0]] + WithOrdinal(s[1..], k)
    else WithOrdinal(s[1..], k)
  }

  lemma {:induction false} InsertWithOrdinal(x: SlideFile, s: seq<SlideFile>, k: nat)
    ensures WithOrdinal(Insert(x, s), k) == (if x.ordinal == k then [x] else []) + WithOrdinal(s, k)
  {
    if s != [] && x.ordinal > s[0].ordinal {
      var r := Insert(x, s);
      assert r[0] == s[0] && r[1..] == Insert(x, s[1..]);
      InsertWithOrdinal(x, s[1..], k);
    }
  }

  /** The sort is stable: among names with one ordinal, the listing order survives. */
  lemma {:induction false} SortKeepsEqualOrdinalsInOrder(s: seq<SlideFile>, k: nat)
    ensures WithOrdinal(SortByOrdinal(s), k) == WithOrdinal(s, k)
  {
    if s != [] {
      SortKeepsEqualOrdinalsInOrder(s[1..], k);
      InsertWithOrdinal(s[0], SortByOrdinal(s[1..]), k);
    }
  }

  lemma {:induction false} NoClassesMeansEmpty(s: seq<SlideFile>)
    ensures (forall k :: WithOrdinal(s, k) == []) ==> s == []
  {
    if s != [] {
      assert WithOrdinal(s, s[0].ordinal) != [];
    }
  }

  lemma SortedClassHead(s: seq<SlideFile>, k: nat)
    requires SortedByOrdinal(s) && s != [] && k <= s[0].ordinal
    ensures WithOrdinal(s, k) == if s[0].ordinal == k then [s[0]] + WithOrdinal(s[1..], k) else []
  {
    if s[0].ordinal != k {
      NoneWithOrdinal(s, k);
    }
  }

  lemma {:induction false} NoneWithOrdinal(s: seq<SlideFile>, k: nat)
    requires forall i :: 0 <= i < |s| ==> s[i].ordinal != k
    ensures WithOrdinal(s, k) == []
  {
    if s != [] {
      NoneWithOrdinal(s[1..], k);
    }
  }

  /** Two ordinal-sorted sequences that agree on every ordinal's names are equal. */
  lemma {:induction false} SortedDeterminedByClasses(x: seq<SlideFile>, y: seq<SlideFile>)
    requires SortedByOrdinal(x) && SortedByOrdinal(y)
    requires forall k :: WithOrdinal(x, k) == WithOrdinal(y, k)
    ensures x == y
    decreases |x|
  {
    if x == [] || y == [] {
      NoClassesMeansEmpty(x);
      NoClassesMeansEmpty(y);
    } else {
      var k := if x[0].ordinal <= y[0].ordinal then x[0].ordinal else y[0].ordinal;
      SortedClassHead(x, k);
      SortedClassHead(y, k);
      var cx, cy := WithOrdinal(x, k), WithOrdinal(y, k);
      assert cx == cy;
      assert x[0].ordinal == k == y[0].ordinal;
      assert cx[0] == x[0] && cy[0] == y[0];
      forall j
        ensures WithOrdinal(x[1..], j) == WithOrdinal(y[1..], j)
      {
        var a, b := WithOrdinal(x[1..], j), WithOrdinal(y[1..], j);
        assert WithOrdinal(x, j) == WithOrdinal(y, j);
        if x[0].ordinal == j {
          assert a == ([x[0]] + a)[1..] && b == ([y[0]] + b)[1..];
        }
      }
      SortedDeterminedByClasses(x[1..], y[1..]);
      assert x == [x[0]] + x[1..] && y == [y[0]] + y[1..];
    }
  }

  /**
    Discovery order matters only among names sharing an ordinal: two
    listings that order each ordinal's names alike sort to the same slides.
  */
  lemma DiscoveryOrderIrrelevant(a: seq<SlideFile>, b: seq<SlideFile>)
    requires forall k :: WithOrdinal(a, k) == WithOrdinal(b, k)
    ensures SortByOrdinal(a) == SortByOrdinal(b)
  {
    forall k
      ensures WithOrdinal(SortByOrdinal(a), k) == WithOrdinal(SortByOrdinal(b), k)
    {
      SortKeepsEqualOrdinalsInOrder(a, k);
      SortKeepsEqualOrdinalsInOrder(b, k);
    }
    SortedDeterminedByClasses(SortByOrdinal(a), SortByOrdinal(b));
  }

  predicate DistinctOrdinals(s: seq<SlideFile>) {
    forall i, j :: 0 <= i < j < |s| ==> s[i].ordinal != s[j].ordinal
  }

  lemma {:induction false} WithOrdinalCounts(s: seq<SlideFile>, k: nat)
    ensures forall x :: multiset(WithOrdinal(s, k))[x] == if x.ordinal == k then multiset(s)[x] else 0
  {
    if s != [] {
      WithOrdinalCounts(s[1..], k);
      assert s == [s[0]] + s[1..];
    }
  }

  lemma {:induction false} DistinctClassAtMostOne(s: seq<SlideFile>, k: nat)
    requires DistinctOrdinals(s)
    ensures |WithOrdinal(s, k)| <= 1
  {
    if s != [] {
      DistinctClassAtMostOne(s[1..], k);
      if s[0].ordinal == k {
        NoneWithOrdinal(s[1..], k);
      }
    }
  }

  /** Sequences of at most one element with the same elements are equal. */
  lemma SameClassWhenDistinct(a: seq<SlideFile>, b: seq<SlideFile>, k: nat)
    requires multiset(a) == multiset(b)
    requires DistinctOrdinals(a)
    ensures WithOrdinal(a, k) == WithOrdinal(b, k)
  {
    var u, v := WithOrdinal(a, k), WithOrdinal(b, k);
    assert multiset(u) == multiset(v) by {
      WithOrdinalCounts(a, k);
      WithOrdinalCounts(b, k);
      forall x
        ensures multiset(u)[x] == multiset(v)[x]
      {
      }
    }
    DistinctClassAtMostOne(a, k);
    assert |v| == |u| by {
      assert |multiset(v)| == |v| && |multiset(u)| == |u|;
    }
    if |u| == 1 {
      assert v[0] in multiset(u);
      assert u == [u[0]] && v == [v[0]];
    }
  }

  /**
    With distinct ordinals, the slide order does not depend on the order in
    which the folder walk met the names.
  */
  lemma SlideOrderIgnoresDiscovery(a: seq<SlideFile>, b: seq<SlideFile>)
    requires multiset(a) == multiset(b)
    requires DistinctOrdinals(a)
    ensures SortByOrdinal(a) == SortByOrdinal(b)
  {
    forall k
      ensures WithOrdinal(a, k) == WithOrdinal(b, k)
    {
      SameClassWhenDistinct(a, b, k);
    }
    DiscoveryOrderIrrelevant(a, b);
  }

  lemma {:induction false} WalkAppend(a: seq<string>, b: seq<string>)
    ensures SlideFileNames(a + b) == SlideFileNames(a) + SlideFileNames(b)
  {
    if a != [] {
      assert (a + b)[0] == a[0] && (a + b)[1..] == a[1..] + b;
      WalkAppend(a[1..], b);
      assert SlideFileNames(a + b) == Walked(a[0]) + SlideFileNames(a[1..] + b);
      assert SlideFileNames(a) == Walked(a[0]) + SlideFileNames(a[1..]);
    } else {
      assert a + b == b;
    }
  }

  lemma WalkEntry(x: string)
    ensures Walked(SLIDES_FOLDER + x) == if IsSlideFileName(x) then [SlideFile(x, Ordinal(x))] else []
  {
    assert (SLIDES_FOLDER + x)[|SLIDES_FOLDER|..] == x;
  }

  lemma SlideNameOrdinal(digits: string)
    requires digits != [] && AllDigits(digits)
    ensures IsSlideFileName("slide" + digits + ".xml")
    ensures Ordinal("slide" + digits + ".xml") == DigitsValue(digits)
  {
    var name := "slide" + digits + ".xml";
    assert name[..5] == "slide" && name[|name| - 4..] == ".xml";
    assert name[5..|name| - 4] == digits;
  }

  lemma NumberedSlide(name: string, digits: string, n: nat)
    requires digits != [] && AllDigits(digits) && DigitsValue(digits) == n
    requires name == "slide" + digits + ".xml"
    ensures IsSlideFileName(name) && Ordinal(name) == n
  {
    SlideNameOrdinal(digits);
  }

  lemma ExampleValues(one: string, two: string, ten: string)
    requires one == "1" && two == "2" && ten == "10"
    ensures DigitsValue(one) == 1 && DigitsValue(two) == 2 && DigitsValue(ten) == 10
  {
    assert ten[..1] == one;
    assert one[..0] == [] && two[..0] == [];
  }

  lemma ExampleOrdinals(x: string, y: string, z: string)
    requires x == "slide2.xml" && y == "slide1.xml" && z == "slide10.xml"
    ensures IsSlideFileName(x) && Ordinal(x) == 2
    ensures IsSlideFileName(y) && Ordinal(y) == 1
    ensures IsSlideFileName(z) && Ordinal(z) == 10
  {
    var one, two, ten := "1", "2", "10";
    ExampleValues(one, two, ten);
    assert x == "slide" + two + ".xml" && y == "slide" + one + ".xml" && z == "slide" + ten + ".xml";
    NumberedSlide(x, two, 2);
    NumberedSlide(y, one, 1);
    NumberedSlide(z, ten, 10);
  }

  lemma ExampleSort()
    ensures SortByOrdinal([SlideFile("slide2.xml", 2), SlideFile("slide1.xml", 1), SlideFile("slide10.xml", 10)])
      == [SlideFile("slide1.xml", 1), SlideFile("slide2.xml", 2), SlideFile("slide10.xml", 10)]
  {
    var s1, s2, s10 := SlideFile("slide1.xml", 1), SlideFile("slide2.xml", 2), SlideFile("slide10.xml", 10);
    assert [s2, s1, s10][1..] == [s1, s10];
    assert [s1, s10][1..] == [s10];
    assert SortByOrdinal([s10]) == [s10];
    assert SortByOrdinal([s1, s10]) == [s1, s10];
    assert Insert(s2, [s10]) == [s2, s10];
    assert Insert(s2, [s1, s10]) == [s1, s2, s10];
  }

  lemma ExampleOutside()
    ensures Walked("ppt/media/image1.png") == []
  {
    assert "ppt/media/image1.png"[4] != SLIDES_FOLDER[4];
  }

  lemma WalkOfFive(a: string, b: string, c: string, d: string, e: string)
    ensures SlideFileNames([a, b, c, d, e]) == Walked(a) + (Walked(b) + (Walked(c) + (Walked(d) + Walked(e))))
  {
    var l := [a, b, c, d, e];
    assert SlideFileNames(l[4..]) == Walked(e) by {
      assert l[4..] == [e] && [e][1..] == [];
      assert Walked(e) + [] == Walked(e);
    }
    assert SlideFileNames(l[3..]) == Walked(d) + SlideFileNames(l[4..]) by {
      assert l[3..][0] == d && l[3..][1..] == l[4..];
    }
    assert SlideFileNames(l[2..]) == Walked(c) + SlideFileNames(l[3..]) by {
      assert l[2..][0] == c && l[2..][1..] == l[3..];
    }
    assert SlideFileNames(l[1..]) == Walked(b) + SlideFileNames(l[2..]) by {
      assert l[1..][0] == b && l[1..][1..] == l[2..];
    }
    assert SlideFileNames(l) == Walked(a) + SlideFileNames(l[1..]);
  }

  lemma ExampleWalked(x: string, rels: string, y: string, media: string, z: string)
    requires x == "slide2.xml" && rels == "_rels/slide2.xml.rels" && y == "slide1.xml"
    requires media == "ppt/media/image1.png" && z == "slide10.xml"
    ensures Walked(SLIDES_FOLDER + x) == [SlideFile(x, 2)]
    ensures Walked(SLIDES_FOLDER + rels) == []
    ensures Walked(SLIDES_FOLDER + y) == [SlideFile(y, 1)]
    ensures Walked(media) == []
    ensures Walked(SLIDES_FOLDER + z) == [SlideFile(z, 10)]
  {
    ExampleOrdinals(x, y, z);
    WalkEntry(x);
    WalkEntry(rels);
    WalkEntry(y);
    WalkEntry(z);
    ExampleOutside();
  }

  lemma ExampleListing(x: string, rels: string, y: string, media: string, z: string)
    requires x == "slide2.xml" && rels == "_rels/slide2.xml.rels" && y == "slide1.xml"
    requires media == "ppt/media/image1.png" && z == "slide10.xml"
    ensures SlideFileNames([SLIDES_FOLDER + x, SLIDES_FOLDER + rels, SLIDES_FOLDER + y, media, SLIDES_FOLDER + z])
      == [SlideFile(x, 2), SlideFile(y, 1), SlideFile(z, 10)]
  {
    ExampleWalked(x, rels, y, media, z);
    WalkOfThree(SLIDES_FOLDER + x, SLIDES_FOLDER + rels, SLIDES_FOLDER + y, media, SLIDES_FOLDER + z,
      SlideFile(x, 2), SlideFile(y, 1), SlideFile(z, 10));
  }

  lemma WalkOfThree(a: string, b: string, c: string, d: string, e: string, fa: SlideFile, fc: SlideFile, fe: SlideFile)
    requires Walked(a) == [fa] && Walked(b) == [] && Walked(c) == [fc] && Walked(d) == [] && Walked(e) == [fe]
    ensures SlideFileNames([a, b, c, d, e]) == [fa, fc, fe]
  {
    WalkOfFive(a, b, c, d, e);
  }

  /** Discovery order slide2, slide1, slide10 gives the slides slide1, slide2, slide10. */
  lemma NumericOrderExample(x: string, rels: string, y: string, media: string, z: string)
    requires x == "slide2.xml" && rels == "_rels/slide2.xml.rels" && y == "slide1.xml"
    requires media == "ppt/media/image1.png" && z == "slide10.xml"
    ensures Names(SlideFiles([SLIDES_FOLDER + x, SLIDES_FOLDER + rels, SLIDES_FOLDER + y, media, SLIDES_FOLDER + z]))
      == [y, x, z]
  {
    ExampleListing(x, rels, y, media, z);
    ExampleSort();
  }
}
