/** One reviewer's row about a rushee, the record built from it
    (`RusheeInfo.from_rush_response`) and the field-by-field merge of two
    records (`RusheeInfo.merge`). */
module Rushees {
  import opened PyStrings
  import opened Buckets

  /** The cells of one spreadsheet row that the aggregation reads, after
      missing cells have been replaced by "". */
  datatype RushResponse = RushResponse(
    rusheeName: string,         // "Rushee Name"
    rusheeInformation: string,  // "Rushee Information"
    primary: string,            // "Primary"
    bucket: string,             // "Bucket"
    closers: string,            // "Closers"
    status: string)             // "Status"

  /** The frozen `RusheeInfo` record. `closers` holds the raw cell text. */
  datatype RusheeInfo = RusheeInfo(
    name: string,
    comments: seq<string>,
    primary: string,
    bucket: Bucket,
    closers: string,
    status: string)

  /** The three text fields that merge by "first non-empty wins". */
  datatype Field = Primary | Closers | Status

  function Get(r: RusheeInfo, f: Field): string {
    match f
    case Primary => r.primary
    case Closers => r.closers
    case Status => r.status
  }

  function GetCell(row: RushResponse, f: Field): string {
    match f
    case Primary => row.primary
    case Closers => row.closers
    case Status => row.status
  }

  /** Python's `a or b` on two strings: `a` unless it is empty. */
  function Or(a: string, b: string): string {
    if a != "" then a else b
  }

  /** The key a row is aggregated under: `name.lower().rstrip()`. Trailing
      whitespace goes, leading whitespace stays. */
  function NameKey(s: string): string {
    RStrip(Lower(s))
  }

  lemma RStripNoTrailing(s: string)
    requires s == [] || !IsSpace(s[|s| - 1])
    ensures RStrip(s) == s
  {
  }

  /** Normalising an already normalised name changes nothing. */
  lemma NameKeyIdempotent(s: string)
    ensures NameKey(NameKey(s)) == NameKey(s)
  {
    var k := NameKey(s);
    assert Lower(k) == k by {
      forall i | 0 <= i < |k| ensures Lower(k)[i] == k[i] {
        LowerAt(s, i);
        LowerAt(k, i);
      }
    }
    RStripSpec(Lower(s));
    RStripNoTrailing(k);
  }

  /** Only the right side of a name is trimmed. */
  lemma NameKeyKeepsLeadingSpace()
    ensures NameKey(" Al ") == " al"
  {
    var s := " Al ";
    forall i | 0 <= i < 4 ensures Lower(s)[i] == " al "[i] {
      LowerAt(s, i);
    }
    assert Lower(s) == " al ";
    assert IsSpace(' ');
    PrintableIsNotSpace('l');
    assert RStripLen(" al ") == RStripLen(" al");
  }

  /** `RusheeInfo.from_rush_response(row)`. */
  function FromRushResponse(row: RushResponse): RusheeInfo {
    var comment := Strip(row.rusheeInformation);
    RusheeInfo(
      NameKey(row.rusheeName),
      if comment != "" then [comment] else [],
      row.primary,
      Parse(row.bucket),
      row.closers,
      row.status)
  }

  /** The record built from a row: its key is the normalised name; it holds
      no comment when the comment cell is all whitespace and the stripped cell
      otherwise; the text columns are copied; a valid bucket cell selects its
      member and any other text selects NONE. */
  lemma FromRushResponseSpec(row: RushResponse)
    ensures var r := FromRushResponse(row);
      && r.name == NameKey(row.rusheeName)
      && (r.comments == [] <==> AllSpace(row.rusheeInformation))
      && (r.comments != [] ==> r.comments == [Strip(row.rusheeInformation)])
      && r.primary == row.primary && r.closers == row.closers && r.status == row.status
      && (Valid(row.bucket) ==> Value(r.bucket) == row.bucket)
      && (!Valid(row.bucket) ==> r.bucket == NONE)
  {
    StripIsSlice(row.rusheeInformation);
  }

  /** A record copies each text column of its row unchanged. */
  lemma FromRushResponseCells(row: RushResponse, f: Field)
    ensures Get(FromRushResponse(row), f) == GetCell(row, f)
  {
  }

  /** A record's bucket is its row's bucket cell as `Parse` reads it. */
  lemma FromRushResponseBucket(row: RushResponse)
    ensures FromRushResponse(row).bucket == Parse(row.bucket)
  {
  }

  /** `self.merge(other)`: `self`'s name, both comment lists in order, the
      first non-empty of each text field, and the higher-ranked bucket. */
  function Merge(self: RusheeInfo, other: RusheeInfo): (r: RusheeInfo)
    ensures r.name == self.name
    ensures r.comments == self.comments + other.comments
    ensures forall f :: Get(self, f) != "" ==> Get(r, f) == Get(self, f)
    ensures forall f :: Get(self, f) == "" ==> Get(r, f) == Get(other, f)
    ensures r.bucket == self.bucket || r.bucket == other.bucket
    ensures Rank(self.bucket) <= Rank(r.bucket) && Rank(other.bucket) <= Rank(r.bucket)
  {
    RusheeInfo(
      self.name,
      self.comments + other.comments,
      Or(self.primary, other.primary),
      Max(self.bucket, other.bucket),
      Or(self.closers, other.closers),
      Or(self.status, other.status))
  }

  /** Merging is associative, so grouping a run of merges does not matter. */
  lemma MergeAssociative(a: RusheeInfo, b: RusheeInfo, c: RusheeInfo)
    ensures Merge(Merge(a, b), c) == Merge(a, Merge(b, c))
  {
    MaxAssociative(a.bucket, b.bucket, c.bucket);
    assert (a.comments + b.comments) + c.comments == a.comments + (b.comments + c.comments);
  }

  // ------------------------------------------------- merging a whole group

  /** The records of one rushee merged left to right, as the aggregation does. */
  function MergeAll(g: seq<RusheeInfo>): RusheeInfo
    requires g != []
  {
    if |g| == 1 then g[0] else Merge(MergeAll(g[..|g| - 1]), g[|g| - 1])
  }

  /** All comment lists of `g`, concatenated in order. */
  function AllComments(g: seq<RusheeInfo>): seq<string> {
    if g == [] then [] else AllComments(g[..|g| - 1]) + g[|g| - 1].comments
  }

  /** One text field of every record of `g`, in order. */
  function Values(g: seq<RusheeInfo>, f: Field): (vs: seq<string>)
    ensures |vs| == |g| && forall i :: 0 <= i < |g| ==> vs[i] == Get(g[i], f)
  {
    seq(|g|, i requires 0 <= i < |g| => Get(g[i], f))
  }

  /** The first non-empty string of `vs`, or "" when there is none. */
  function FirstNonEmpty(vs: seq<string>): string {
    if vs == [] then ""
    else if vs[0] != "" then vs[0]
    else FirstNonEmpty(vs[1..])
  }

  /** `FirstNonEmpty` is empty exactly when every value is, and otherwise is
      the value at the first index that holds a non-empty one. */
  lemma {:induction false} FirstNonEmptySpec(vs: seq<string>)
    ensures FirstNonEmpty(vs) == "" <==> forall i :: 0 <= i < |vs| ==> vs[i] == ""
    ensures FirstNonEmpty(vs) != "" ==>
      exists i :: 0 <= i < |vs| && vs[i] == FirstNonEmpty(vs) && forall j :: 0 <= j < i ==> vs[j] == ""
    decreases |vs|
  {
    if vs != [] && vs[0] == "" {
      var v := FirstNonEmpty(vs[1..]);
      FirstNonEmptySpec(vs[1..]);
      if v != "" {
        var i :| 0 <= i < |vs[1..]| && vs[1..][i] == v && forall j :: 0 <= j < i ==> vs[1..][j] == "";
        assert vs[i + 1] == v && forall j :: 0 <= j < i + 1 ==> vs[j] == "";
      } else {
        assert forall i :: 0 <= i < |vs| ==> vs[i] == "" by {
          forall i | 0 <= i < |vs| ensures vs[i] == "" {
            if i > 0 {
              assert vs[i] == vs[1..][i - 1];
            }
          }
        }
      }
    }
  }

  /** The first non-empty value of a concatenation: that of the first part
      when there is one, else that of the second. */
  lemma {:induction false} FirstNonEmptyAppend(xs: seq<string>, ys: seq<string>)
    ensures FirstNonEmpty(xs + ys) == Or(FirstNonEmpty(xs), FirstNonEmpty(ys))
    decreases |xs|
  {
    if xs == [] {
      assert xs + ys == ys;
    } else if xs[0] == "" {
      assert (xs + ys)[1..] == xs[1..] + ys;
      FirstNonEmptyAppend(xs[1..], ys);
    }
  }

  /** A merged group keeps the name of its first record. */
  lemma {:induction false} MergeAllName(g: seq<RusheeInfo>)
    requires g != []
    ensures MergeAll(g).name == g[0].name
    decreases |g|
  {
    if |g| > 1 {
      MergeAllName(g[..|g| - 1]);
    }
  }

  /** A merged group holds every comment of every record, in record order:
      none is dropped, reordered or deduplicated. */
  lemma {:induction false} MergeAllComments(g: seq<RusheeInfo>)
    requires g != []
    ensures MergeAll(g).comments == AllComments(g)
    decreases |g|
  {
    if |g| == 1 {
      assert AllComments(g) == AllComments([]) + g[0].comments;
    } else {
      MergeAllComments(g[..|g| - 1]);
    }
  }

  /** Each text field of a merged group is the first non-empty value of that
      field among its records. */
  lemma {:induction false} MergeAllField(g: seq<RusheeInfo>, f: Field)
    requires g != []
    ensures Get(MergeAll(g), f) == FirstNonEmpty(Values(g, f))
    decreases |g|
  {
    if |g| == 1 {
      assert Values(g, f) == [Get(g[0], f)];
    } else {
      var p, last := g[..|g| - 1], g[|g| - 1];
      MergeAllField(p, f);
      assert Values(g, f) == Values(p, f) + [Get(last, f)];
      FirstNonEmptyAppend(Values(p, f), [Get(last, f)]);
      assert Get(MergeAll(g), f) == Or(Get(MergeAll(p), f), Get(last, f));
    }
  }

  /** The bucket of a merged group is the bucket of one of its records and
      ranks at least as high as every record's bucket. */
  lemma {:induction false} MergeAllBucket(g: seq<RusheeInfo>)
    requires g != []
    ensures exists i :: 0 <= i < |g| && MergeAll(g).bucket == g[i].bucket
    ensures forall i :: 0 <= i < |g| ==> Rank(g[i].bucket) <= Rank(MergeAll(g).bucket)
    decreases |g|
  {
    if |g| == 1 {
      assert MergeAll(g).bucket == g[0].bucket;
    } else {
      var p, last := g[..|g| - 1], g[|g| - 1];
      MergeAllBucket(p);
      var b, pb := MergeAll(g).bucket, MergeAll(p).bucket;
      assert b == Max(pb, last.bucket);
      var i :| 0 <= i < |p| && pb == p[i].bucket;
      if b == last.bucket {
        assert g[|g| - 1].bucket == b;
      } else {
        assert g[i].bucket == b;
      }
      assert Rank(pb) <= Rank(b) && Rank(last.bucket) <= Rank(b);
      forall j | 0 <= j < |g| ensures Rank(g[j].bucket) <= Rank(b) {
        if j < |p| {
          assert g[j] == p[j];
          assert Rank(p[j].bucket) <= Rank(pb);
        } else {
          assert j == |p|;
        }
      }
    }
  }

  /** Once a group has a non-empty value for a text field, later records
      never replace it. */
  lemma FirstValueSticks(g: seq<RusheeInfo>, h: seq<RusheeInfo>, f: Field)
    requires g != []
    requires Get(MergeAll(g), f) != ""
    ensures Get(MergeAll(g + h), f) == Get(MergeAll(g), f)
  {
    var vg, vh := Values(g, f), Values(h, f);
    assert Values(g + h, f) == vg + vh by {
      forall i | 0 <= i < |g| + |h| ensures Values(g + h, f)[i] == (vg + vh)[i] {
        if i < |g| {
          assert (g + h)[i] == g[i];
        } else {
          assert (g + h)[i] == h[i - |g|];
        }
      }
    }
    MergeAllField(g, f);
    MergeAllField(g + h, f);
    FirstNonEmptyAppend(vg, vh);
  }
}
