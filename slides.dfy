/** The parts of slide generation that carry logic: the comment list and the
    empty-bucket text of `addSlide`, the photo path `get_image_path` resolves,
    and the choice of records `write_to_slides` turns into slides. */
module Slides {
  import opened PyStrings
  import opened Buckets
  import opened Rushees
  import opened Aggregation
  import opened Seqs

  // ------------------------------------------------------------ addSlide

  /** One comment as a list item. */
  function Item(comment: string): string {
    "<li>" + comment + "</li>"
  }

  /** The list items of `comments`, in order. */
  function ItemsHtml(comments: seq<string>): string {
    if comments == [] then ""
    else ItemsHtml(comments[..|comments| - 1]) + Item(comments[|comments| - 1])
  }

  lemma ItemsHtmlSnoc(comments: seq<string>, c: string)
    ensures ItemsHtml(comments + [c]) == ItemsHtml(comments) + Item(c)
  {
    TakeAppend(comments, [c]);
  }

  /** The items of two comment lists are the items of the first followed by
      those of the second. */
  lemma {:induction false} ItemsHtmlAppend(a: seq<string>, b: seq<string>)
    ensures ItemsHtml(a + b) == ItemsHtml(a) + ItemsHtml(b)
    decreases |b|
  {
    if b == [] {
      assert a + b == a;
    } else {
      var p, c := b[..|b| - 1], b[|b| - 1];
      ItemsHtmlAppend(a, p);
      DropLastAppend(a, b);
      LastAppend(a, b);
      assert ItemsHtml(a + b) == ItemsHtml(a + p) + Item(c);
      assert ItemsHtml(b) == ItemsHtml(p) + Item(c);
    }
  }

  /** Every comment appears, once, at its own place: the items before it, its
      own item, then the items after it. */
  lemma ItemsHtmlAt(comments: seq<string>, i: int)
    requires 0 <= i < |comments|
    ensures ItemsHtml(comments) == ItemsHtml(comments[..i]) + Item(comments[i]) + ItemsHtml(comments[i + 1..])
  {
    var a, b := comments[..i], comments[i + 1..];
    SplitAt(comments, i);
    ItemsHtmlSnoc(a, comments[i]);
    ItemsHtmlAppend(a + [comments[i]], b);
  }

  /** The text in the Bucket cell: `"N/A"` for an empty bucket. */
  function BucketCell(bucket: string): (cell: string)
    ensures cell != ""
    ensures bucket == "" ==> cell == "N/A"
    ensures bucket != "" ==> cell == bucket
  {
    if bucket == "" then "N/A" else bucket
  }

  /** The values `addSlide` substitutes into its template. */
  datatype Slide = Slide(
    name: string,
    photoURL: string,
    primary: string,
    bucket: string,
    comments: string,
    status: string,
    closers: string)

  /** `addSlide(...)`: the comment items are built one by one, and an empty
      bucket is shown as `"N/A"`; every other value is substituted as is. */
  method AddSlide(name: string, comments: seq<string>, primary: string, bucket: string,
                  closers: string, status: string, photoURL: string) returns (slide: Slide)
    ensures slide.comments == ItemsHtml(comments)
    ensures slide.bucket == BucketCell(bucket)
    ensures slide.name == name && slide.photoURL == photoURL && slide.primary == primary
    ensures slide.status == status && slide.closers == closers
  {
    var commentsString := "";
    for i := 0 to |comments|
      invariant commentsString == ItemsHtml(comments[..i])
    {
      TakeTake(comments, i);
      commentsString := commentsString + "<li>" + comments[i] + "</li>";
    }
    TakeAll(comments);
    var cell := bucket;
    if bucket == "" {
      cell := "N/A";
    }
    slide := Slide(name, photoURL, primary, cell, commentsString, status, closers);
  }

  // ------------------------------------------------------ get_image_path

  /** The file name stem of a rushee's photo:
      `"_".join(rushee.rstrip().lower().split())`. */
  function PhotoKey(rushee: string): string {
    Join("_", Split(Lower(RStrip(rushee))))
  }

  /** A photo key contains no whitespace. */
  lemma PhotoKeyNoSpace(rushee: string)
    ensures NoSpace(PhotoKey(rushee))
  {
    PrintableIsNotSpace('_');
    SplitWords(Lower(RStrip(rushee)));
    JoinNoSpace("_", Split(Lower(RStrip(rushee))));
  }

  /** The key is the lowered words of the name joined by `_`. */
  lemma PhotoKeyWords(rushee: string)
    ensures PhotoKey(rushee) == Join("_", LowerAll(Split(rushee)))
  {
    SplitLower(RStrip(rushee));
    SplitOfRStrip(rushee);
  }

  /** Whitespace runs of any length around and between the words of a name
      become single underscores between the lowered words. */
  lemma PhotoKeyOfSpaced(ws: seq<string>, gaps: seq<string>)
    requires |gaps| == |ws| + 1
    requires forall i :: 0 <= i < |ws| ==> IsWord(ws[i])
    requires forall i :: 0 <= i < |gaps| ==> AllSpace(gaps[i])
    requires forall i :: 0 < i < |ws| ==> gaps[i] != []
    ensures PhotoKey(Spaced(ws, gaps)) == Join("_", LowerAll(ws))
  {
    PhotoKeyWords(Spaced(ws, gaps));
    SplitSpaced(ws, gaps);
  }

  /** The dictionary key of a rushee gives the same photo key as the name in
      the spreadsheet. */
  lemma PhotoKeyOfNameKey(rushee: string)
    ensures PhotoKey(NameKey(rushee)) == PhotoKey(rushee)
  {
    var l := Lower(rushee);
    PhotoKeyWords(NameKey(rushee));
    SplitOfRStrip(l);
    SplitLower(rushee);
    LowerAllIdempotent(Split(rushee));
    PhotoKeyWords(rushee);
  }

  /** `os.path.join(dir, name)` on POSIX: an absolute `name` replaces `dir`;
      otherwise one `/` separates them unless `dir` is empty or ends in one. */
  function JoinPath(dir: string, name: string): (path: string)
    ensures name != [] && name[0] == '/' ==> path == name
    ensures (name == [] || name[0] != '/') ==>
      dir <= path && |name| <= |path| && name == path[|path| - |name|..]
  {
    if name != [] && name[0] == '/' then name
    else if dir == [] || dir[|dir| - 1] == '/' then dir + name
    else dir + "/" + name
  }

  /** The photo extensions, in the order they are tried. */
  const Extensions: seq<string> := [".jpg", ".jpeg", ".png"]

  /** The path used when a rushee has no photo. */
  function DefaultImagePath(imageDir: string): string {
    JoinPath(imageDir, "default.jpg")
  }

  /** `get_image_path(rushee)` with the photo directory and `os.path.exists`
      as parameters: the first of the `.jpg`, `.jpeg` and `.png` files named
      after the photo key that exists, or the default image. */
  function GetImagePath(imageDir: string, rushee: string, fileExists: string -> bool): string {
    var stem := JoinPath(imageDir, PhotoKey(rushee));
    if fileExists(stem + ".jpg") then stem + ".jpg"
    else if fileExists(stem + ".jpeg") then stem + ".jpeg"
    else if fileExists(stem + ".png") then stem + ".png"
    else DefaultImagePath(imageDir)
  }

  /** When one of the candidate files exists, the path is the first candidate
      that does, in the order `.jpg`, `.jpeg`, `.png`; when none does, it is
      the default image. */
  lemma ImagePathProbeOrder(imageDir: string, rushee: string, fileExists: string -> bool)
    ensures var stem, path := JoinPath(imageDir, PhotoKey(rushee)), GetImagePath(imageDir, rushee, fileExists);
      (exists i :: 0 <= i < |Extensions| && fileExists(stem + Extensions[i])) ==>
        exists j :: 0 <= j < |Extensions| && path == stem + Extensions[j] && fileExists(path) &&
          forall i :: 0 <= i < j ==> !fileExists(stem + Extensions[i])
    ensures var stem, path := JoinPath(imageDir, PhotoKey(rushee)), GetImagePath(imageDir, rushee, fileExists);
      (forall i :: 0 <= i < |Extensions| ==> !fileExists(stem + Extensions[i])) ==> path == DefaultImagePath(imageDir)
  {
    var stem, path := JoinPath(imageDir, PhotoKey(rushee)), GetImagePath(imageDir, rushee, fileExists);
    if fileExists(stem + Extensions[0]) {
      assert path == stem + Extensions[0];
    } else if fileExists(stem + Extensions[1]) {
      assert path == stem + Extensions[1];
    } else if fileExists(stem + Extensions[2]) {
      assert path == stem + Extensions[2];
    }
  }

  /** Looking a photo up by the dictionary key finds the same file as looking
      it up by the name in the spreadsheet. */
  lemma ImagePathOfNameKey(imageDir: string, rushee: string, fileExists: string -> bool)
    ensures GetImagePath(imageDir, NameKey(rushee), fileExists) == GetImagePath(imageDir, rushee, fileExists)
  {
    PhotoKeyOfNameKey(rushee);
  }

  // ----------------------------------------------------- write_to_slides

  /** The two kinds of Python value the skip test compares. */
  datatype PyValue = Member(b: Bucket) | Str(s: string)

  /** Python's `==` between them: an `Enum` member equals only itself, and
      never a `str`, since `Bucket` does not derive from `str`. */
  predicate PyEq(x: PyValue, y: PyValue) {
    match x
    case Member(a) => y.Member? && y.b == a
    case Str(a) => y.Str? && y.s == a
  }

  /** The skip test as written: `info.bucket == "Drop"`. */
  predicate SkipAsWritten(b: Bucket) {
    PyEq(Member(b), Str("Drop"))
  }

  /** The skip test as intended: the record's bucket is Drop. */
  predicate Skip(b: Bucket) {
    b == DROP
  }

  /** The keys, in order, whose records the skip test lets through. */
  function Kept(keys: seq<string>, info: Info, skip: Bucket -> bool): (kept: seq<string>)
    requires forall k :: k in keys ==> k in info
    ensures forall k :: k in kept ==> k in keys && !skip(info[k].bucket)
    ensures forall k :: k in keys && !skip(info[k].bucket) ==> k in kept
  {
    if keys == [] then []
    else
      var p := Kept(keys[..|keys| - 1], info, skip);
      var k := keys[|keys| - 1];
      if skip(info[k].bucket) then p else p + [k]
  }

  /** No key is kept twice when the keys are distinct. */
  lemma {:induction false} KeptDistinct(keys: seq<string>, info: Info, skip: Bucket -> bool)
    requires forall k :: k in keys ==> k in info
    requires Distinct(keys)
    ensures Distinct(Kept(keys, info, skip))
    decreases |keys|
  {
    if keys != [] {
      var p := keys[..|keys| - 1];
      KeptDistinct(p, info, skip);
      var k := keys[|keys| - 1];
      var kp := Kept(p, info, skip);
      assert k !in p;
      assert k !in kp;
      if skip(info[k].bucket) {
        assert Kept(keys, info, skip) == kp;
      } else {
        var kept := kp + [k];
        assert Kept(keys, info, skip) == kept;
        forall i, j | 0 <= i < j < |kept| ensures kept[i] != kept[j] {
          if j == |kp| {
            assert kept[i] == kp[i] && kp[i] in kp;
          } else {
            assert kept[i] == kp[i] && kept[j] == kp[j];
          }
        }
      }
    }
  }

  /** As written, the skip test never holds, so every key is shown — Drop
      records included. */
  lemma {:induction false} KeptAsWrittenIsAll(keys: seq<string>, info: Info)
    requires forall k :: k in keys ==> k in info
    ensures Kept(keys, info, SkipAsWritten) == keys
    decreases |keys|
  {
    if keys != [] {
      KeptAsWrittenIsAll(keys[..|keys| - 1], info);
      assert !SkipAsWritten(info[keys[|keys| - 1]].bucket);
    }
  }

  /** A rushee whose record is a Drop still gets a slide as written. */
  lemma DropShownAsWritten(name: string, r: RusheeInfo)
    requires r.bucket == DROP
    ensures Kept([name], map[name := r], SkipAsWritten) == [name]
    ensures Kept([name], map[name := r], Skip) == []
  {
    KeptAsWrittenIsAll([name], map[name := r]);
  }

  /** The slide `write_to_slides` renders for the key `name` and its record. */
  function SlideFor(name: string, r: RusheeInfo, imageDir: string, fileExists: string -> bool): Slide {
    Slide(name, GetImagePath(imageDir, name, fileExists), r.primary, BucketCell(Name(r.bucket)),
      ItemsHtml(r.comments), r.status, r.closers)
  }

  /** The bucket cell shows the member's name, so `"N/A"` never appears. */
  lemma NoSlideShowsNA(name: string, r: RusheeInfo, imageDir: string, fileExists: string -> bool)
    ensures SlideFor(name, r, imageDir, fileExists).bucket == Name(r.bucket)
    ensures SlideFor(name, r, imageDir, fileExists).bucket != "N/A"
  {
    assert "N/A"[1] != Name(r.bucket)[1];
  }

  /** The slides for `names`, in order. */
  function SlidesFor(names: seq<string>, info: Info, imageDir: string, fileExists: string -> bool): (slides: seq<Slide>)
    requires forall k :: k in names ==> k in info
    ensures |slides| == |names|
  {
    if names == [] then []
    else
      var n := names[|names| - 1];
      SlidesFor(names[..|names| - 1], info, imageDir, fileExists) + [SlideFor(n, info[n], imageDir, fileExists)]
  }

  /** The `i`-th slide is that of the `i`-th name. */
  lemma {:induction false} SlidesForAt(names: seq<string>, info: Info, imageDir: string, fileExists: string -> bool, i: int)
    requires forall k :: k in names ==> k in info
    requires 0 <= i < |names|
    ensures SlidesFor(names, info, imageDir, fileExists)[i] == SlideFor(names[i], info[names[i]], imageDir, fileExists)
    decreases |names|
  {
    var p, n := names[..|names| - 1], names[|names| - 1];
    var s, x := SlidesFor(p, info, imageDir, fileExists), SlideFor(n, info[n], imageDir, fileExists);
    assert SlidesFor(names, info, imageDir, fileExists) == s + [x];
    if i < |p| {
      SnocIndex(s, x, i);
      SlidesForAt(p, info, imageDir, fileExists, i);
      assert p[i] == names[i];
    }
  }

  lemma KeptStep(keys: seq<string>, info: Info, skip: Bucket -> bool, i: int)
    requires forall k :: k in keys ==> k in info
    requires 0 <= i < |keys|
    ensures Kept(keys[..i + 1], info, skip) ==
      Kept(keys[..i], info, skip) + if skip(info[keys[i]].bucket) then [] else [keys[i]]
  {
    TakeTake(keys, i);
  }

  lemma SlidesForSnoc(names: seq<string>, n: string, info: Info, imageDir: string, fileExists: string -> bool)
    requires forall k :: k in names ==> k in info
    requires n in info
    ensures SlidesFor(names + [n], info, imageDir, fileExists) ==
      SlidesFor(names, info, imageDir, fileExists) + [SlideFor(n, info[n], imageDir, fileExists)]
  {
    TakeAppend(names, [n]);
  }

  /** The loop of `write_to_slides(info)`, without the file, for a given
      skip test: the slides of the records the test does not match, in the
      dictionary's insertion order. */
  method WriteSlides(aggregate: AggregateRusheeInfo, imageDir: string, fileExists: string -> bool,
                     skip: Bucket -> bool) returns (slides: seq<Slide>)
    requires aggregate.Valid()
    ensures var info := aggregate.info;
      && (forall k :: k in aggregate.order ==> k in info)
      && slides == SlidesFor(Kept(aggregate.order, info, skip), info, imageDir, fileExists)
  {
    var order, info := aggregate.order, aggregate.info;
    assert forall k :: k in order ==> k in info;
    slides := [];
    for i := 0 to |order|
      invariant forall k :: k in order[..i] ==> k in info
      invariant slides == SlidesFor(Kept(order[..i], info, skip), info, imageDir, fileExists)
    {
      var name := order[i];
      var r := info[name];
      KeptStep(order, info, skip, i);
      if skip(r.bucket) {
        assert Kept(order[..i + 1], info, skip) == Kept(order[..i], info, skip);
        assert forall k :: k in order[..i + 1] ==> k in info;
        continue;
      }
      assert Kept(order[..i + 1], info, skip) == Kept(order[..i], info, skip) + [name];
      var slide := AddSlide(name, r.comments, r.primary, Name(r.bucket), r.closers, r.status,
        GetImagePath(imageDir, name, fileExists));
      assert slide == SlideFor(name, r, imageDir, fileExists);
      SlidesForSnoc(Kept(order[..i], info, skip), name, info, imageDir, fileExists);
      slides := slides + [slide];
      assert slides == SlidesFor(Kept(order[..i], info, skip) + [name], info, imageDir, fileExists);
      assert forall k :: k in order[..i + 1] ==> k in info;
    }
    TakeAll(order);
  }

  /** `write_to_slides(info)` as written: since its skip test never holds,
      every key gets a slide, Drop records included, in insertion order. */
  method WriteSlidesAsWritten(aggregate: AggregateRusheeInfo, imageDir: string, fileExists: string -> bool)
    returns (slides: seq<Slide>)
    requires aggregate.Valid()
    ensures var info := aggregate.info;
      && (forall k :: k in aggregate.order ==> k in info)
      && slides == SlidesFor(aggregate.order, info, imageDir, fileExists)
  {
    slides := WriteSlides(aggregate, imageDir, fileExists, SkipAsWritten);
    KeptAsWrittenIsAll(aggregate.order, aggregate.info);
  }

  /** `"DROP"` is the name of the Drop member and of no other. */
  lemma NameIsDrop(b: Bucket)
    ensures Name(b) == "DROP" <==> b == DROP
  {
    if b != DROP {
      assert Name(b)[0] != 'D';
    }
  }

  /** With the intended skip test no slide shows the Drop bucket. */
  lemma {:induction false} NoDropSlide(keys: seq<string>, info: Info, imageDir: string, fileExists: string -> bool)
    requires forall k :: k in keys ==> k in info
    ensures forall i :: 0 <= i < |SlidesFor(Kept(keys, info, Skip), info, imageDir, fileExists)| ==>
      SlidesFor(Kept(keys, info, Skip), info, imageDir, fileExists)[i].bucket != "DROP"
  {
    var kept := Kept(keys, info, Skip);
    var slides := SlidesFor(kept, info, imageDir, fileExists);
    forall i | 0 <= i < |slides| ensures slides[i].bucket != "DROP" {
      SlidesForAt(kept, info, imageDir, fileExists, i);
      var r := info[kept[i]];
      NoSlideShowsNA(kept[i], r, imageDir, fileExists);
      NameIsDrop(r.bucket);
    }
  }

  /** `write_to_slides(info)` with the skip test it evidently intends: the
      slides of the non-Drop records, in insertion order; none of them shows
      the Drop bucket, and no rushee gets two. */
  method WriteSlidesSkippingDrop(aggregate: AggregateRusheeInfo, imageDir: string, fileExists: string -> bool)
    returns (slides: seq<Slide>)
    requires aggregate.Valid()
    ensures var info := aggregate.info;
      && (forall k :: k in aggregate.order ==> k in info)
      && slides == SlidesFor(Kept(aggregate.order, info, Skip), info, imageDir, fileExists)
      && Distinct(Kept(aggregate.order, info, Skip))
    ensures forall i :: 0 <= i < |slides| ==> slides[i].bucket != "DROP"
  {
    slides := WriteSlides(aggregate, imageDir, fileExists, Skip);
    KeptDistinct(aggregate.order, aggregate.info, Skip);
    NoDropSlide(aggregate.order, aggregate.info, imageDir, fileExists);
  }

  /** A rushee's slide lists exactly the non-empty stripped comments of that
      rushee's rows, in row order, and shows the photo found for the name as
      written in the first of those rows. */
  lemma SlideOfRows(rows: seq<RushResponse>, n: string, imageDir: string, fileExists: string -> bool)
    requires RowsFor(rows, n) != []
    ensures n in Aggregate(Records(rows))
    ensures var slide := SlideFor(n, Aggregate(Records(rows))[n], imageDir, fileExists);
      && slide.comments == ItemsHtml(StrippedComments(RowsFor(rows, n)))
      && slide.photoURL == GetImagePath(imageDir, RowsFor(rows, n)[0].rusheeName, fileExists)
  {
    AggregateOfRows(rows, n);
    ParsedRushee(rows, n);
    var q := RowsFor(rows, n);
    RowsForKey(rows, n);
    ImagePathOfNameKey(imageDir, q[0].rusheeName, fileExists);
  }
}
