/**
  How the viewer finds the picture for one slide: the relationship file
  `ppt/slides/_rels/slide<num>.xml.rels`, scanned in document order for the
  first relationship whose `Type` mentions `image`, whose `Target` is not
  empty and whose target, with its first `../` rewritten to `ppt/`, is an
  entry of the container. That entry becomes a base64 `data:` URL; every
  other way out (no relationship file, nothing usable, a read that fails, a
  relationship without a `Type`) gives `null` for that slide alone.
*/
module Resolver {
  import opened Options
  import opened Text
  import opened Archives
  import opened Discovery

  const RELS_PREFIX := "ppt/slides/_rels/slide"
  const RELS_SUFFIX := ".xml.rels"

  /** `ppt/slides/_rels/slide${num}.xml.rels`. */
  function RelsPath(num: nat): (p: string)
    ensures |p| == |RELS_PREFIX| + |NatToString(num)| + |RELS_SUFFIX|
    ensures p[|RELS_PREFIX|..|p| - |RELS_SUFFIX|] == NatToString(num)
  {
    var p := RELS_PREFIX + NatToString(num) + RELS_SUFFIX;
    assert p[|RELS_PREFIX|..|p| - |RELS_SUFFIX|] == NatToString(num);
    p
  }

  /** Different slide numbers never share a relationship file. */
  lemma RelsPathInjective(a: nat, b: nat)
    requires RelsPath(a) == RelsPath(b)
    ensures a == b
  {
    NatToStringInjective(a, b);
  }

  /**
    For a slide file named with a canonical number (no leading zero), the
    relationship path built from that number is the file's own relationship
    file: `_rels/<name>.rels` beside it.
  */
  lemma RelsPathOfSlide(p: string)
    requires IsSlideFileName(p) && Canonical(p[5..|p| - 4])
    ensures RelsPath(Ordinal(p)) == SLIDES_FOLDER + "_rels/" + p + ".rels"
  {
    var digits, head, tail := p[5..|p| - 4], p[..5], p[|p| - 4..];
    CanonicalRoundTrip(digits);
    assert p == head + digits + tail;
    calc {
      RelsPath(Ordinal(p));
      RELS_PREFIX + digits + RELS_SUFFIX;
      { assert RELS_PREFIX == SLIDES_FOLDER + "_rels/" + head;
        assert RELS_SUFFIX == tail + ".rels"; }
      (SLIDES_FOLDER + "_rels/" + head) + digits + (tail + ".rels");
      { Regroup(SLIDES_FOLDER + "_rels/", head, digits, tail, ".rels"); }
      SLIDES_FOLDER + "_rels/" + p + ".rels";
    }
  }

  lemma Regroup(folder: string, head: string, digits: string, tail: string, ext: string)
    ensures (folder + head) + digits + (tail + ext) == folder + (head + digits + tail) + ext
  {
  }

  /**
    The picture at position `k` of the sorted slide list is looked up in the
    relationship file of slide number `k + 1`; for a canonically named slide
    file that is its own relationship file exactly when its number is `k + 1`.
    A deck numbered `slide1`, `slide3` therefore shows, at position 1, the
    picture of the missing `slide2`.
  */
  lemma PositionMatchesOwnRels(p: string, k: nat)
    requires IsSlideFileName(p) && Canonical(p[5..|p| - 4])
    ensures RelsPath(k + 1) == SLIDES_FOLDER + "_rels/" + p + ".rels" <==> Ordinal(p) == k + 1
  {
    RelsPathOfSlide(p);
    if RelsPath(k + 1) == RelsPath(Ordinal(p)) {
      RelsPathInjective(k + 1, Ordinal(p));
    }
  }

  /** `target.replace('../', 'ppt/')`. */
  function ImagePath(target: string): string {
    ReplaceFirst(target, "../", "ppt/")
  }

  /** A target that starts with `../` has that segment replaced by `ppt/`. */
  lemma ImagePathLeading(rest: string)
    ensures ImagePath("../" + rest) == "ppt/" + rest
  {
    var t := "../" + rest;
    assert OccursAt(t, "../", 0) by {
      assert t[0..3] == "../";
    }
  }

  /**
    The rewrite acts on the first `../` wherever it stands, not only at the
    start: `media/../x.png` becomes `media/ppt/x.png`.
  */
  lemma ImagePathInner(a: string, rest: string)
    requires '.' !in a
    ensures ImagePath(a + "../" + rest) == a + "ppt/" + rest
  {
    var t := a + "../" + rest;
    assert OccursAt(t, "../", |a|) by {
      assert t[|a|..|a| + 3] == "../";
    }
    forall j | 0 <= j < |a|
      ensures !OccursAt(t, "../", j)
    {
      assert t[j] == a[j];
      if j + 3 <= |t| {
        assert t[j..j + 3][0] == t[j];
      }
    }
    assert t[..|a|] == a && t[|a| + 3..] == rest;
  }

  /** Without a `../`, the target is the path as it stands. */
  lemma ImagePathUnchanged(target: string)
    requires !Contains(target, "../")
    ensures ImagePath(target) == target
  {
  }

  /** `ext === 'png' ? 'image/png' : 'image/jpeg'`, where `ext` is the text after the last `.`. */
  function MimeType(path: string): string {
    if LastSegment(path, '.') == "png" then "image/png" else "image/jpeg"
  }

  /**
    PNG exactly for a path ending in `.png` (case-sensitive), or for the bare
    name `png`, which has no `.` at all; JPEG for everything else.
  */
  lemma MimeTypePng(path: string)
    ensures MimeType(path) == "image/png" <==> path == "png" || EndsWith(path, ".png")
    ensures MimeType(path) != "image/png" ==> MimeType(path) == "image/jpeg"
  {
    if LastSegment(path, '.') == "png" {
      PngSegmentOnlyForPng(path);
    }
    if path == "png" || EndsWith(path, ".png") {
      PngPathSegment(path);
    }
  }

  lemma PngSegmentOnlyForPng(path: string)
    requires LastSegment(path, '.') == "png"
    ensures path == "png" || EndsWith(path, ".png")
  {
    var r := LastSegment(path, '.');
    if |r| < |path| {
      assert path[|path| - 4..] == [path[|path| - 4]] + r;
    } else {
      assert path == r;
    }
  }

  lemma PngPathSegment(path: string)
    requires path == "png" || EndsWith(path, ".png")
    ensures LastSegment(path, '.') == "png"
  {
    if path == "png" {
      LastSegmentWithout(path, '.');
    } else {
      var n := |path|;
      assert path == path[..n - 4] + ['.'] + "png";
      LastSegmentAfter(path[..n - 4], '.', "png");
    }
  }

  /** `data:${mime};base64,${data}`. */
  function DataUrl(mime: string, data: string): string {
    "data:" + mime + ";base64," + data
  }

  /** Reads the media type and the payload back out of a `data:` URL. */
  function ParseDataUrl(url: string): Option<(string, string)> {
    if "data:" <= url then
      var rest := url[5..];
      match IndexOf(rest, ";base64,")
      case None => None
      case Some(i) => Some((rest[..i], rest[i + 8..]))
    else None
  }

  /** A media type without `;` and any payload can be read back from their `data:` URL. */
  lemma DataUrlRoundTrip(mime: string, data: string)
    requires ';' !in mime
    ensures ParseDataUrl(DataUrl(mime, data)) == Some((mime, data))
  {
    var url := DataUrl(mime, data);
    var rest := mime + ";base64," + data;
    assert url == "data:" + rest;
    assert url[5..] == rest;
    assert OccursAt(rest, ";base64,", |mime|) by {
      assert rest[|mime|..|mime| + 8] == ";base64,";
    }
    forall j | 0 <= j < |mime|
      ensures !OccursAt(rest, ";base64,", j)
    {
      assert rest[j] == mime[j];
      if j + 8 <= |rest| {
        assert rest[j..j + 8][0] == rest[j];
      }
    }
    assert IndexOf(rest, ";base64,") == Some(|mime|);
    assert rest[..|mime|] == mime && rest[|mime| + 8..] == data;
  }

  /** A `data:` URL that reads back with the PNG or the JPEG media type. */
  predicate IsImageDataUrl(url: string) {
    var parsed := ParseDataUrl(url);
    parsed.Some? && (parsed.value.0 == "image/png" || parsed.value.0 == "image/jpeg")
  }

  /**
    `type.includes('image') && target`: read only once `Type` is known to be
    there, since reading a missing `Type` throws.
  */
  predicate ImageTyped(rel: Relationship)
    requires rel.typ.Some?
  {
    Contains(rel.typ.value, "image") && rel.target.Some? && rel.target.value != []
  }

  /**
    A relationship at which the scan ends: one without a `Type` (the scan
    throws there), or an image-typed one whose rewritten path is an entry.
  */
  predicate Stops(files: map<string, Entry>, rel: Relationship) {
    rel.typ.None? || (ImageTyped(rel) && ImagePath(rel.target.value) in files)
  }

  /** How the scan of one relationship file ends. */
  datatype ScanOutcome = Hit(url: string) | Miss | Thrown

  /** A `data:` URL built with either media type the viewer uses reads back as an image URL. */
  lemma ImageDataUrlReadsBack(mime: string, data: string)
    requires mime == "image/png" || mime == "image/jpeg"
    ensures IsImageDataUrl(DataUrl(mime, data))
  {
    DataUrlRoundTrip(mime, data);
  }

  /** What the scan answers at a relationship where it ends. */
  function Verdict(files: map<string, Entry>, rel: Relationship, codecs: Codecs): (r: ScanOutcome)
    requires Stops(files, rel)
    ensures !r.Miss?
    ensures r.Hit? ==> IsImageDataUrl(r.url)
  {
    if rel.typ.None? then Thrown
    else
      var path := ImagePath(rel.target.value);
      match files[path]
      case Damaged => Thrown
      case Intact(data) =>
        var mime, encoded := MimeType(path), codecs.base64(data);
        ImageDataUrlReadsBack(mime, encoded);
        Hit(DataUrl(mime, encoded))
  }

  /** `rels[k]` is the first relationship at which the scan stops. */
  predicate FirstStop(files: map<string, Entry>, rels: seq<Relationship>, k: int) {
    0 <= k < |rels| && Stops(files, rels[k]) && forall j :: 0 <= j < k ==> !Stops(files, rels[j])
  }

  /**
    The scan of the relationships in document order: it misses exactly when
    no relationship stops it, so image-typed relationships whose file is not
    in the container are passed over.
  */
  function Scan(files: map<string, Entry>, rels: seq<Relationship>, codecs: Codecs): (r: ScanOutcome)
    ensures r.Miss? <==> forall j :: 0 <= j < |rels| ==> !Stops(files, rels[j])
    ensures r.Hit? ==> IsImageDataUrl(r.url)
  {
    if rels == [] then Miss
    else if Stops(files, rels[0]) then Verdict(files, rels[0], codecs)
    else
      var r := Scan(files, rels[1..], codecs);
      assert forall j :: 1 <= j < |rels| ==> rels[j] == rels[1..][j - 1];
      r
  }

  /** The scan ends with the verdict of the first relationship that stops it. */
  lemma {:induction false} ScanFirstStop(files: map<string, Entry>, rels: seq<Relationship>, codecs: Codecs, k: int)
    requires FirstStop(files, rels, k)
    ensures Scan(files, rels, codecs) == Verdict(files, rels[k], codecs)
  {
    if k > 0 {
      assert !Stops(files, rels[0]);
      forall j | 0 <= j < k - 1
        ensures !Stops(files, rels[1..][j])
      {
        assert rels[1..][j] == rels[j + 1];
      }
      assert rels[1..][k - 1] == rels[k];
      ScanFirstStop(files, rels[1..], codecs, k - 1);
    }
  }

  /**
    The relationships of slide `num`: `None` when its relationship file is
    not in the container or cannot be read, otherwise every `Relationship`
    element of the parsed file in document order.
  */
  function RelationshipsOf(zip: Archive, num: nat, codecs: Codecs): Option<seq<Relationship>> {
    var relsPath := RelsPath(num);
    if relsPath !in zip.files then None
    else match zip.files[relsPath]
      case Damaged => None
      case Intact(bytes) => Some(codecs.relationships(codecs.text(bytes)))
  }

  /** `extractSlideImage(num)`: the slide's picture as a `data:` URL, or `None` for `null`. */
  function ResolveSlideImage(zip: Archive, num: nat, codecs: Codecs): (r: Option<string>)
    ensures RelationshipsOf(zip, num, codecs).None? ==> r.None?
    ensures r.Some? ==> IsImageDataUrl(r.value)
  {
    match RelationshipsOf(zip, num, codecs)
    case None => None
    case Some(rels) =>
      match Scan(zip.files, rels, codecs)
      case Hit(url) => Some(url)
      case _ => None
  }

  /**
    The first relationship where the scan stops decides the slide: a picture
    when it names an intact image entry, `None` when it has no `Type` or its
    entry cannot be read.
  */
  lemma ResolveByFirstStop(zip: Archive, num: nat, codecs: Codecs, rels: seq<Relationship>, k: int)
    requires RelationshipsOf(zip, num, codecs) == Some(rels)
    requires FirstStop(zip.files, rels, k)
    ensures rels[k].typ.None? ==> ResolveSlideImage(zip, num, codecs).None?
    ensures rels[k].typ.Some? ==>
      var path := ImagePath(rels[k].target.value);
      ResolveSlideImage(zip, num, codecs) ==
        if zip.files[path].Damaged? then None
        else Some(DataUrl(MimeType(path), codecs.base64(zip.files[path].data)))
  {
    ScanFirstStop(zip.files, rels, codecs, k);
  }

  /**
    `extractSlideImage(num)` as the source runs it: look up the relationship
    file, read and parse it, then walk the relationships until one yields a
    picture or a read fails.
  */
  method ExtractSlideImage(zip: Archive, num: nat, codecs: Codecs) returns (image: Option<string>)
    ensures image == ResolveSlideImage(zip, num, codecs)
  {
    var relsPath := RelsPath(num);
    if relsPath !in zip.files {
      return None;
    }
    var relsFile := zip.files[relsPath];
    if relsFile.Damaged? {
      return None;
    }
    var rels := codecs.relationships(codecs.text(relsFile.data));
    var i := 0;
    while i < |rels|
      invariant 0 <= i <= |rels|
      invariant Scan(zip.files, rels[i..], codecs) == Scan(zip.files, rels, codecs)
    {
      var rel := rels[i];
      assert rels[i..][0] == rel && rels[i..][1..] == rels[i + 1..];
      if rel.typ.None? {
        return None;
      }
      if Contains(rel.typ.value, "image") && rel.target.Some? && rel.target.value != [] {
        var imagePath := ImagePath(rel.target.value);
        if imagePath in zip.files {
          var imgFile := zip.files[imagePath];
          if imgFile.Damaged? {
            return None;
          }
          var data := codecs.base64(imgFile.data);
          return Some(DataUrl(MimeType(imagePath), data));
        }
      }
      i := i + 1;
    }
    return None;
  }
}
