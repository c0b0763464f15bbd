# Rushee slide deck: aggregation model

A Dafny model of the logic in `generate_presentation.py`. The script reads a
spreadsheet of rush responses, one row per reviewer per rushee. It folds the
rows into one record per rushee and writes one reveal.js slide per rushee.

The model covers:

- **`Bucket`** (module `Buckets`): the four dispositions with `valid` and
  `max`.
  - `max` keeps the member whose *name* is the larger Python string.
  - The order that results is DROP < NONE < PASS < PULL, so a Drop merged
    with a blank bucket gives NONE.
  - One might expect the declaration order, or None < Drop < Pass < Pull.
    The code compares names instead, and this model follows the code.
- **`RusheeInfo`** (module `Rushees`): the frozen record.
  - `from_rush_response` builds a record from one row. The name is
    lowercased and right-stripped only, so leading whitespace stays. The
    comment is stripped and kept as a list of zero or one items. Any bucket
    text that is not a member value becomes NONE.
  - `merge` concatenates the comments. For `primary`, `closers` and
    `status` it keeps the first non-empty value, as Python `or` does. The
    bucket is `Bucket.max`.
- **`AggregateRusheeInfo`** (module `Aggregation`): a class with the
  dictionary `info` and its insertion order `order`.
  - `update` inserts a record or merges it into the one already stored.
  - `parse_df` loops over the rows. Its loop is proved against the
    specification fold `Aggregate(Records(rows))`.
  - Lemmas state the fold's meaning per name, in terms of the rows:
    - which names are keys;
    - the comments, in row order;
    - the first non-empty cell of each text column;
    - the bucket of highest rank.
- **Slides** (module `Slides`):
  - `addSlide`'s comment-list loop and its `"N/A"` text for an empty bucket.
  - The photo key `"_".join(rushee.rstrip().lower().split())` and the
    `.jpg`/`.jpeg`/`.png` probe order of `get_image_path`. File existence
    is a parameter.
  - The loop of `write_to_slides`, with its skip test as a parameter. As
    written, the test never holds, so every key gets a slide, Drop records
    included (`WriteSlidesAsWritten`). The corrected loop skips Drop records
    (`WriteSlidesSkippingDrop`; see Findings).
  - `write_to_slides` passes `info.bucket.name`, which is never empty. So
    the `"N/A"` branch of `addSlide` is never taken on that path
    (`NoSlideShowsNA`).
- **Python string operations** (module `PyStrings`), as the code uses them:
  - `isspace` over Python's full whitespace set;
  - `lower`;
  - `strip` and `rstrip`;
  - `split()` with no argument;
  - `str.join`;
  - `<` on strings.

Module `Seqs` holds generic sequence facts used by the proofs.

## Model

| member | source | states |
|---|---|---|
| PyStrings.PrintableIsNotSpace | generate_presentation.py:162 | letters, digits, `_` and other visible ASCII characters are not whitespace to `str.isspace` |
| PyStrings.LowerChar | generate_presentation.py:47 | a lowered character is never an ASCII capital |
| PyStrings.LowerCharSpace | generate_presentation.py:162 | lowering a character does not change whether it is whitespace |
| PyStrings.Lower | generate_presentation.py:47 | `str.lower` keeps the length |
| PyStrings.LowerAt | generate_presentation.py:47 | `str.lower` lowers every character in place |
| PyStrings.LowerIdempotent | generate_presentation.py:47 | lowering twice is lowering once |
| PyStrings.LowerAllIdempotent | generate_presentation.py:162 | lowering a word list twice is lowering it once |
| PyStrings.LowerAll | generate_presentation.py:162 | each word is lowered at its own position |
| PyStrings.RStripLen | generate_presentation.py:47 | `rstrip` never keeps more than the whole string |
| PyStrings.RStripSpec | generate_presentation.py:47 | `rstrip` removes exactly the trailing whitespace: what it cuts is all whitespace, and what it keeps is empty or ends in a non-whitespace character |
| PyStrings.LStripLen | generate_presentation.py:45 | `lstrip` never removes more than the whole string |
| PyStrings.LStripSpec | generate_presentation.py:45 | `lstrip` removes exactly the leading whitespace |
| PyStrings.StripIsSlice | generate_presentation.py:45 | `strip` gives a contiguous slice of its input, neither end of which is whitespace; it is empty exactly when the input is all whitespace |
| PyStrings.Word | generate_presentation.py:162 | the first word is a whitespace-free prefix, followed by whitespace or the end of the string |
| PyStrings.SplitWords | generate_presentation.py:162 | every piece `split()` returns is non-empty and whitespace-free |
| PyStrings.SplitKeepsNonSpace | generate_presentation.py:162 | the words of `split()`, concatenated, are the input with all whitespace removed |
| PyStrings.SplitLeadingSpace | generate_presentation.py:162 | leading whitespace does not change `split()` |
| PyStrings.SplitTrailingSpace | generate_presentation.py:162 | trailing whitespace does not change `split()` |
| PyStrings.SplitOfRStrip | generate_presentation.py:162 | `rstrip()` before `split()` changes nothing |
| PyStrings.SplitSpaced | generate_presentation.py:162 | words separated by whitespace runs of any length, with any whitespace around them, split back to exactly those words |
| PyStrings.SplitLower | generate_presentation.py:162 | splitting a lowered string gives the lowered words of the original |
| PyStrings.JoinNoSpace | generate_presentation.py:162 | joining whitespace-free words with a whitespace-free separator gives a whitespace-free string |
| PyStrings.LessIrreflexive | generate_presentation.py:23 | no string is `<` itself |
| PyStrings.LessAsymmetric | generate_presentation.py:23 | `a < b` and `b < a` never both hold |
| Buckets.ValidValues | generate_presentation.py:26-27 | `Bucket.valid(s)` holds exactly for `""`, `"Drop"`, `"Pull"` and `"Pass"` |
| Buckets.FromValue | generate_presentation.py:51 | `Bucket(s)` on a valid `s` gives the member whose value is `s` |
| Buckets.Parse | generate_presentation.py:50-54 | a valid bucket cell gives the member with that value; any other text gives NONE, never an error |
| Buckets.ParseValue | generate_presentation.py:50-54 | reading a member's value back gives that member |
| Buckets.ParseIsExact | generate_presentation.py:50-54 | case and surrounding spaces matter: `"drop"` and `"Drop "` give NONE |
| Buckets.NameOrderIsRank | generate_presentation.py:23 | comparing member names as strings is comparing ranks DROP < NONE < PASS < PULL, in both directions |
| Buckets.Max | generate_presentation.py:22-23 | `max` returns one of its arguments, and the result ranks at least as high as both |
| Buckets.MaxIdempotent | generate_presentation.py:22-23 | `max(b, b) == b` |
| Buckets.MaxCommutative | generate_presentation.py:22-23 | the argument order of `max` does not matter |
| Buckets.MaxAssociative | generate_presentation.py:22-23 | grouping of repeated `max` does not matter |
| Buckets.MaxDropNone | generate_presentation.py:22-23 | a Drop merged with a blank bucket, in either order, gives NONE |
| Rushees.NameKeyIdempotent | generate_presentation.py:47 | normalising an already normalised name changes nothing |
| Rushees.NameKeyKeepsLeadingSpace | generate_presentation.py:47 | only the right side of the name is trimmed: `" Al "` becomes `" al"` |
| Rushees.FromRushResponseSpec | generate_presentation.py:44-57 | the record's name is the lowered, right-stripped name; its comments are empty exactly when the comment cell is all whitespace, and are otherwise the single stripped cell; primary, closers and status are copied; a valid bucket selects its member and any other text selects NONE |
| Rushees.Merge | generate_presentation.py:59-67 | `self.merge(other)` keeps `self`'s name; its comments are `self`'s followed by `other`'s; each text field keeps `self`'s value when non-empty and takes `other`'s otherwise; the bucket is one of the two and ranks at least as high as both |
| Rushees.MergeAssociative | generate_presentation.py:59-67 | merging is associative |
| Rushees.FirstNonEmptySpec | generate_presentation.py:63 | the first non-empty value is empty exactly when all values are; otherwise it is the value at the first index holding a non-empty one |
| Rushees.FirstNonEmptyAppend | generate_presentation.py:63 | the first non-empty value of a concatenation is that of the first part, or failing that of the second |
| Rushees.MergeAllName | generate_presentation.py:61 | a left-to-right merge of records keeps the first record's name |
| Rushees.MergeAllComments | generate_presentation.py:62 | a left-to-right merge keeps every comment of every record in order; none is dropped, reordered or deduplicated |
| Rushees.MergeAllField | generate_presentation.py:63-66 | each text field of a left-to-right merge is the first non-empty value of that field among the records |
| Rushees.MergeAllBucket | generate_presentation.py:64 | the merged bucket is the bucket of one of the records and ranks at least as high as each of them |
| Rushees.FirstValueSticks | generate_presentation.py:63-66 | once a merged group has a non-empty text field, merging in more records never replaces it |
| Aggregation.Updated | generate_presentation.py:74-80 | after `update(r)` the keys are the old keys plus `r.name`; a new key stores `r`; an existing key stores the old record merged with `r`; every other key keeps its record |
| Aggregation.AggregateKeys | generate_presentation.py:77-80 | the aggregated dictionary has exactly one key per distinct record name |
| Aggregation.AggregateNamesMatch | generate_presentation.py:74-80 | every stored record carries the name it is stored under |
| Aggregation.AggregateKeyOrder | generate_presentation.py:77-78 | the iteration order lists every key exactly once |
| Aggregation.AggregateIsGroupMerge | generate_presentation.py:74-90 | a name is a key exactly when some record carries it, and its entry is the left-to-right merge of exactly those records |
| Aggregation.RowsForKey | generate_presentation.py:47 | every row gathered for a key normalises to that key |
| Aggregation.RecordsAt | generate_presentation.py:88-89 | the record at each position is built from the row at that position |
| Aggregation.RecordsLength | generate_presentation.py:88-89 | there is one record per row |
| Aggregation.GroupOfRecords | generate_presentation.py:88-89 | grouping the records by name is building the records of the rows whose normalised name is that name |
| Aggregation.CommentsOfRecords | generate_presentation.py:45-48 | the comments of the rows' records, in order, are the non-empty stripped comment cells, in row order |
| Aggregation.ValuesOfRecords | generate_presentation.py:49-56 | each text field of the rows' records is that column of the rows |
| Aggregation.AggregateOfRows | generate_presentation.py:82-91 | after the fold, a name is a key exactly when some row normalises to it, and its entry merges the records of exactly those rows, in row order |
| Aggregation.ParsedRushee | generate_presentation.py:82-91 | each key's record carries the key as its name, holds exactly the non-empty stripped comments of that name's rows in row order, and its primary, closers and status are the first non-empty cell of that column among those rows |
| Aggregation.MergedRowsBucket | generate_presentation.py:64 | the bucket of a merged run of rows is the parsed bucket cell of one of them and ranks at least as high as each of them |
| Aggregation.ParsedBucket | generate_presentation.py:82-91 | each key's bucket is the parsed bucket cell of one of that name's rows and ranks at least as high as each of them |
| Aggregation.DropThenBlank | generate_presentation.py:82-91 | a Drop row followed by a blank-bucket row for the same rushee leaves the bucket NONE |
| Aggregation.AggregateRusheeInfo.constructor | generate_presentation.py:71-72 | a new aggregate has an empty dictionary |
| Aggregation.AggregateRusheeInfo.Update | generate_presentation.py:74-80 | `update` changes the dictionary as `Updated` says, appends a new name to the iteration order, and keeps each key listed once and each record under its own name |
| Aggregation.AggregateRusheeInfo.ParseDf | generate_presentation.py:82-91 | `parse_df` returns a fresh aggregate whose dictionary and iteration order are the fold of `update` over the rows' records in row order |
| Slides.ItemsHtmlAppend | generate_presentation.py:96-98 | the items of two comment lists are the items of the first followed by those of the second |
| Slides.ItemsHtmlAt | generate_presentation.py:96-98 | each comment's `<li>` item stands at its own place: after the items of the comments before it and before those of the comments after it |
| Slides.BucketCell | generate_presentation.py:100-101 | an empty bucket is shown as `"N/A"`, and a non-empty bucket is shown as is |
| Slides.AddSlide | generate_presentation.py:94-101 | the loop builds the in-order concatenation of the comments' `<li>` items; an empty bucket is shown as `"N/A"`; every other value is passed through |
| Slides.PhotoKeyNoSpace | generate_presentation.py:162 | a photo key contains no whitespace |
| Slides.PhotoKeyWords | generate_presentation.py:162 | the photo key is the name's lowered words joined by `_` |
| Slides.PhotoKeyOfSpaced | generate_presentation.py:162 | whitespace runs of any length between words become single underscores, and whitespace around the name disappears |
| Slides.PhotoKeyOfNameKey | generate_presentation.py:162 | the dictionary key and the name as written in the row give the same photo key |
| Slides.JoinPath | generate_presentation.py:161-163 | `os.path.join` returns an absolute second part unchanged; otherwise the result starts with the directory and ends with the name |
| Slides.ImagePathProbeOrder | generate_presentation.py:164-171 | when one of the `.jpg`, `.jpeg` or `.png` files exists, the path is the first of them in that order that exists; when none does, it is the default image |
| Slides.ImagePathOfNameKey | generate_presentation.py:160-171 | looking up the photo by the dictionary key finds the same path as looking it up by the name as written |
| Slides.Kept | generate_presentation.py:189-191 | the keys that get a slide are exactly the keys whose record the skip test does not match |
| Slides.KeptDistinct | generate_presentation.py:189-191 | no rushee gets two slides |
| Slides.KeptAsWrittenIsAll | generate_presentation.py:190 | with the skip test as written, every key gets a slide |
| Slides.DropShownAsWritten | generate_presentation.py:190-191 | as written, a rushee whose bucket is Drop still gets a slide; with the intended test it gets none |
| Slides.NoSlideShowsNA | generate_presentation.py:196 | the slide's bucket cell is the member's name and never `"N/A"` |
| Slides.SlidesFor | generate_presentation.py:189-200 | one slide per selected key |
| Slides.SlidesForAt | generate_presentation.py:189-200 | the i-th slide is that of the i-th selected key |
| Slides.WriteSlides | generate_presentation.py:189-200 | for any skip test, the loop produces the slides of the records the test does not match, in the dictionary's insertion order |
| Slides.WriteSlidesAsWritten | generate_presentation.py:174-200 | as written, every key gets a slide, Drop records included, in insertion order |
| Slides.NameIsDrop | generate_presentation.py:196 | the bucket cell reads `"DROP"` exactly for a Drop record |
| Slides.NoDropSlide | generate_presentation.py:189-196 | with the intended skip test, no slide shows the Drop bucket |
| Slides.WriteSlidesSkippingDrop | generate_presentation.py:174-200 | corrected (see Findings): the slides of the non-Drop records, in insertion order, none showing the Drop bucket, and no key selected twice |
| Slides.SlideOfRows | generate_presentation.py:189-199 | a rushee's slide lists exactly the non-empty stripped comments of that rushee's rows, in row order. Its photo is the one found for the name as written in the first of those rows |

## Left out

- Reading the spreadsheet is not modelled: `pd.read_excel`, `fillna("")`,
  `iterrows` and dropping the index column. The input is a sequence of rows
  whose cells are strings, so a non-string cell (a number, say) is not
  modelled.
- Writing `presentation.html` is not modelled, nor the fixed reveal.js
  header and footer. Neither has any logic.
- The HTML template of `addSlide` is plain substitution. The model keeps
  the substituted values as a `Slide` record instead of the rendered text.
  The code escapes nothing, and neither does the model.
- WriteSlides: the result is the sequence of `Slide` values, in the order
  they are written, not the text written to the file.
- The module-level path constants become parameters: the image directory
  and the default image path derived from it.
- `os.path.exists` is not modelled. It becomes the `fileExists` parameter.
- JoinPath: models POSIX `os.path.join` of two parts only.
- `closers` is annotated as a tuple but is filled with the raw cell
  string. The model keeps it as a string.
- Lower: lowers ASCII capitals only. Python's `str.lower` also lowers
  non-ASCII letters, and a few of them change the string's length.
- LowerChar: ASCII only, for the same reason.

## Findings

| source | as written | input that shows it | evidently intended | confidence | as-written member | corrected member |
|---|---|---|---|---|---|---|
| generate_presentation.py:190 | `info.bucket == "Drop"` compares a `Bucket` member with a `str`. `Bucket` does not derive from `str`, so the test is always false and no slide is ever skipped | a rushee whose only row has the bucket cell `Drop`: its record's bucket is `Bucket.DROP`, and it still gets a slide | skip records whose bucket is `Bucket.DROP` | not executed | Slides.WriteSlidesAsWritten, Slides.KeptAsWrittenIsAll, Slides.DropShownAsWritten | Slides.WriteSlidesSkippingDrop, Slides.NoDropSlide |
