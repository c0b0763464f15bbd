/** The `Bucket` enum: a reviewer's disposition for a rushee, and its two
    class methods `max` and `valid`. */
module Buckets {
  import opened PyStrings

  /** The members, in declaration order. */
  datatype Bucket = NONE | DROP | PULL | PASS

  /** The member's `.name`. */
  function Name(b: Bucket): string {
    match b
    case NONE => "NONE"
    case DROP => "DROP"
    case PULL => "PULL"
    case PASS => "PASS"
  }

  /** The member's `.value`: the text of a bucket cell in the spreadsheet. */
  function Value(b: Bucket): string {
    match b
    case NONE => ""
    case DROP => "Drop"
    case PULL => "Pull"
    case PASS => "Pass"
  }

  /** The order `max` ends up using: DROP < NONE < PASS < PULL. */
  function Rank(b: Bucket): nat {
    match b
    case DROP => 0
    case NONE => 1
    case PASS => 2
    case PULL => 3
  }

  /** `Bucket.valid(s)`: `s` is the value of some member. */
  predicate Valid(s: string) {
    s in [Value(NONE), Value(DROP), Value(PULL), Value(PASS)]
  }

  /** The valid bucket texts are exactly the four member values. */
  lemma ValidValues(s: string)
    ensures Valid(s) <==> s == "" || s == "Drop" || s == "Pull" || s == "Pass"
  {
  }

  /** The enum lookup `Bucket(s)`; the source only calls it once `valid` holds. */
  function FromValue(s: string): (b: Bucket)
    requires Valid(s)
    ensures Value(b) == s
  {
    if s == "" then NONE else if s == "Drop" then DROP else if s == "Pull" then PULL else PASS
  }

  /** The bucket cell as a rush response is read: a member's value selects
      that member, any other text selects NONE instead of raising. */
  function Parse(s: string): (b: Bucket)
    ensures Valid(s) ==> Value(b) == s
    ensures !Valid(s) ==> b == NONE
  {
    if Valid(s) then FromValue(s) else NONE
  }

  /** Comparing the names as Python strings orders the members by `Rank`. */
  lemma NameOrderIsRank(a: Bucket, b: Bucket)
    ensures Less(Name(a), Name(b)) <==> Rank(a) < Rank(b)
  {
    if a == b {
      LessIrreflexive(Name(a));
    } else {
      var x, y := Name(a), Name(b);
      assert x[0] != y[0] || (x[1..][0] != y[1..][0]);
    }
  }

  /** `Bucket.max(old, new)`: `new` when `new.name > old.name`, else `old`.
      The result is whichever argument ranks higher. */
  function Max(oldBucket: Bucket, newBucket: Bucket): (r: Bucket)
    ensures r == oldBucket || r == newBucket
    ensures Rank(oldBucket) <= Rank(r) && Rank(newBucket) <= Rank(r)
  {
    NameOrderIsRank(oldBucket, newBucket);
    if Less(Name(oldBucket), Name(newBucket)) then newBucket else oldBucket
  }

  lemma RankInjective(a: Bucket, b: Bucket)
    requires Rank(a) == Rank(b)
    ensures a == b
  {
  }

  lemma MaxIdempotent(b: Bucket)
    ensures Max(b, b) == b
  {
  }

  lemma MaxCommutative(a: Bucket, b: Bucket)
    ensures Max(a, b) == Max(b, a)
  {
    RankInjective(Max(a, b), Max(b, a));
  }

  lemma MaxAssociative(a: Bucket, b: Bucket, c: Bucket)
    ensures Max(Max(a, b), c) == Max(a, Max(b, c))
  {
    RankInjective(Max(Max(a, b), c), Max(a, Max(b, c)));
  }

  /** A blank bucket outranks a Drop: merging a Drop with a blank gives NONE. */
  lemma MaxDropNone()
    ensures Max(DROP, NONE) == NONE && Max(NONE, DROP) == NONE
  {
  }

  /** Reading a member's own value back gives that member. */
  lemma ParseValue(b: Bucket)
    ensures Parse(Value(b)) == b
  {
    ValidValues(Value(b));
  }

  /** Bucket text is matched exactly: case and surrounding spaces matter. */
  lemma ParseIsExact()
    ensures Parse("drop") == NONE && Parse("Drop ") == NONE && Parse("Pull") == PULL
  {
    ValidValues("drop");
    ValidValues("Drop ");
    ValidValues("Pull");
    assert "drop"[0] != "Drop"[0];
  }
}
