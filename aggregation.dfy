/** `AggregateRusheeInfo`: the dictionary from normalised rushee name to the
    merged record, built by folding `update` over the rows in order. */
module Aggregation {
  import opened PyStrings
  import opened Buckets
  import opened Rushees
  import opened Seqs

  type Info = map<string, RusheeInfo>

  /** The dictionary after `update(r)`: the key `r.name` is added if it was
      missing and its record merged with `r` otherwise; no other key changes. */
  function Updated(m: Info, r: RusheeInfo): (m': Info)
    ensures m'.Keys == m.Keys + {r.name}
    ensures r.name !in m ==> m'[r.name] == r
    ensures r.name in m ==> m'[r.name] == Merge(m[r.name], r)
    ensures forall k :: k in m && k != r.name ==> m'[k] == m[k]
  {
    m[r.name := if r.name in m then Merge(m[r.name], r) else r]
  }

  /** The dictionary after updating an empty one with each record in turn. */
  function Aggregate(rs: seq<RusheeInfo>): Info {
    if rs == [] then map[] else Updated(Aggregate(rs[..|rs| - 1]), rs[|rs| - 1])
  }

  /** The keys of `Aggregate(rs)` in the order the dictionary iterates them:
      the order in which each name first occurs. */
  function FirstSeen(rs: seq<RusheeInfo>): seq<string> {
    if rs == [] then []
    else
      var p := FirstSeen(rs[..|rs| - 1]);
      var n := rs[|rs| - 1].name;
      if n in p then p else p + [n]
  }

  /** The records of `rs` whose name is `n`, in order. */
  function Group(rs: seq<RusheeInfo>, n: string): seq<RusheeInfo> {
    if rs == [] then []
    else
      var p := Group(rs[..|rs| - 1], n);
      if rs[|rs| - 1].name == n then p + [rs[|rs| - 1]] else p
  }

  function Names(rs: seq<RusheeInfo>): set<string> {
    set i | 0 <= i < |rs| :: rs[i].name
  }

  /** No string occurs twice in `s`. */
  predicate Distinct(s: seq<string>) {
    forall i, j :: 0 <= i < j < |s| ==> s[i] != s[j]
  }

  /** `order` lists each key of `m` exactly once. */
  ghost predicate KeyOrder(order: seq<string>, m: Info) {
    && Distinct(order)
    && (forall k :: k in m <==> k in order)
  }

  /** Every record is stored under its own name. */
  ghost predicate NamesMatch(m: Info) {
    forall k :: k in m ==> m[k].name == k
  }

  /** Appending a record updates the dictionary with it and, when its name
      is new, appends that name to the key order. */
  lemma AggregateSnoc(rs: seq<RusheeInfo>, r: RusheeInfo)
    ensures Aggregate(rs + [r]) == Updated(Aggregate(rs), r)
    ensures FirstSeen(rs + [r]) == if r.name in FirstSeen(rs) then FirstSeen(rs) else FirstSeen(rs) + [r.name]
  {
    TakeAppend(rs, [r]);
  }

  /** The aggregated dictionary has one key per distinct name. */
  lemma {:induction false} AggregateKeys(rs: seq<RusheeInfo>)
    ensures Aggregate(rs).Keys == Names(rs)
    decreases |rs|
  {
    if rs != [] {
      var p, r := rs[..|rs| - 1], rs[|rs| - 1];
      AggregateKeys(p);
      assert Aggregate(rs).Keys == Names(p) + {r.name};
      assert Names(rs) == Names(p) + {r.name} by {
        forall k | k in Names(rs) ensures k in Names(p) + {r.name} {
          var i :| 0 <= i < |rs| && rs[i].name == k;
          if i < |p| {
            assert p[i] == rs[i];
          } else {
            assert i == |rs| - 1;
          }
        }
        forall k | k in Names(p) ensures k in Names(rs) {
          var i :| 0 <= i < |p| && p[i].name == k;
          assert rs[i] == p[i];
        }
        assert rs[|rs| - 1].name == r.name;
      }
    }
  }

  /** The aggregated dictionary stores each record under its own name. */
  lemma {:induction false} AggregateNamesMatch(rs: seq<RusheeInfo>)
    ensures NamesMatch(Aggregate(rs))
    decreases |rs|
  {
    if rs != [] {
      AggregateNamesMatch(rs[..|rs| - 1]);
    }
  }

  /** `FirstSeen` lists every key of the aggregated dictionary exactly once. */
  lemma {:induction false} AggregateKeyOrder(rs: seq<RusheeInfo>)
    ensures KeyOrder(FirstSeen(rs), Aggregate(rs))
    decreases |rs|
  {
    if rs != [] {
      AggregateKeyOrder(rs[..|rs| - 1]);
    }
  }

  /** A name is a key exactly when some record carries it, and its entry is
      the left-to-right merge of exactly the records that carry it. */
  lemma {:induction false} AggregateIsGroupMerge(rs: seq<RusheeInfo>, n: string)
    ensures n in Aggregate(rs) <==> Group(rs, n) != []
    ensures n in Aggregate(rs) ==> Aggregate(rs)[n] == MergeAll(Group(rs, n))
    decreases |rs|
  {
    if rs != [] {
      var p, r := rs[..|rs| - 1], rs[|rs| - 1];
      AggregateIsGroupMerge(p, n);
      if r.name == n && Group(p, n) != [] {
        var g := Group(p, n) + [r];
        TakeAppend(Group(p, n), [r]);
      }
    }
  }

  // ---------------------------------------------------- from the rows

  /** `from_rush_response` applied to every row. */
  function Records(rows: seq<RushResponse>): seq<RusheeInfo> {
    if rows == [] then []
    else Records(rows[..|rows| - 1]) + [FromRushResponse(rows[|rows| - 1])]
  }

  /** The rows whose normalised name is `n`, in order. */
  function RowsFor(rows: seq<RushResponse>, n: string): seq<RushResponse> {
    if rows == [] then []
    else
      var p := RowsFor(rows[..|rows| - 1], n);
      if NameKey(rows[|rows| - 1].rusheeName) == n then p + [rows[|rows| - 1]] else p
  }

  /** Every row of `RowsFor(rows, n)` has the normalised name `n`. */
  lemma {:induction false} RowsForKey(rows: seq<RushResponse>, n: string)
    ensures forall i :: 0 <= i < |RowsFor(rows, n)| ==> NameKey(RowsFor(rows, n)[i].rusheeName) == n
    decreases |rows|
  {
    if rows != [] {
      RowsForKey(rows[..|rows| - 1], n);
    }
  }

  /** The stripped comment cells of `rows` that are not empty, in order. */
  function StrippedComments(rows: seq<RushResponse>): seq<string> {
    if rows == [] then []
    else
      var c := Strip(rows[|rows| - 1].rusheeInformation);
      StrippedComments(rows[..|rows| - 1]) + (if c != "" then [c] else [])
  }

  /** One text column of `rows`, in order. */
  function Cells(rows: seq<RushResponse>, f: Field): seq<string> {
    seq(|rows|, i requires 0 <= i < |rows| => GetCell(rows[i], f))
  }

  /** The record at each position is built from the row at that position. */
  lemma {:induction false} RecordsAt(rows: seq<RushResponse>, i: int)
    requires 0 <= i < |rows|
    ensures |Records(rows)| == |rows|
    ensures Records(rows)[i] == FromRushResponse(rows[i])
    decreases |rows|
  {
    var p := rows[..|rows| - 1];
    RecordsLength(p);
    RecordsUnfold(rows);
    if i < |p| {
      RecordsAt(p, i);
      assert rows[i] == p[i];
    }
  }

  lemma RecordsUnfold(rows: seq<RushResponse>)
    requires rows != []
    ensures Records(rows) == Records(rows[..|rows| - 1]) + [FromRushResponse(rows[|rows| - 1])]
  {
  }

  lemma {:induction false} RecordsLength(rows: seq<RushResponse>)
    ensures |Records(rows)| == |rows|
    decreases |rows|
  {
    if rows != [] {
      RecordsLength(rows[..|rows| - 1]);
    }
  }

  lemma RecordsSnoc(rows: seq<RushResponse>, row: RushResponse)
    ensures Records(rows + [row]) == Records(rows) + [FromRushResponse(row)]
  {
    TakeAppend(rows, [row]);
  }

  lemma RecordsStep(rows: seq<RushResponse>, i: int)
    requires 0 <= i < |rows|
    ensures Records(rows[..i + 1]) == Records(rows[..i]) + [FromRushResponse(rows[i])]
  {
    TakeTake(rows, i);
  }

  /** Grouping the records by name is building each record from the rows of
      that name. */
  lemma {:induction false} GroupOfRecords(rows: seq<RushResponse>, n: string)
    ensures Group(Records(rows), n) == Records(RowsFor(rows, n))
    decreases |rows|
  {
    if rows != [] {
      var p, last := rows[..|rows| - 1], rows[|rows| - 1];
      var rp, x := Records(p), FromRushResponse(last);
      assert Records(rows) == rp + [x];
      TakeAppend(rp, [x]);
      assert Group(Records(rows), n) == if x.name == n then Group(rp, n) + [x] else Group(rp, n);
      GroupOfRecords(p, n);
      if NameKey(last.rusheeName) == n {
        RecordsSnoc(RowsFor(p, n), last);
      }
    }
  }

  lemma {:induction false} CommentsOfRecords(rows: seq<RushResponse>)
    ensures AllComments(Records(rows)) == StrippedComments(rows)
    decreases |rows|
  {
    if rows != [] {
      CommentsOfRecords(rows[..|rows| - 1]);
    }
  }

  lemma ValuesOfRecords(rows: seq<RushResponse>, f: Field)
    ensures Values(Records(rows), f) == Cells(rows, f)
  {
    RecordsLength(rows);
    forall i | 0 <= i < |rows| ensures Values(Records(rows), f)[i] == Cells(rows, f)[i] {
      RecordsAt(rows, i);
      FromRushResponseCells(rows[i], f);
    }
  }

  /** After the rows are folded in order, a name is a key exactly when some
      row carries it, and its entry merges the records of exactly those rows. */
  lemma AggregateOfRows(rows: seq<RushResponse>, n: string)
    ensures n in Aggregate(Records(rows)) <==> RowsFor(rows, n) != []
    ensures n in Aggregate(Records(rows)) ==>
      Aggregate(Records(rows))[n] == MergeAll(Records(RowsFor(rows, n)))
  {
    AggregateIsGroupMerge(Records(rows), n);
    GroupOfRecords(rows, n);
    RecordsLength(RowsFor(rows, n));
  }

  /** Each name's record is stored under that name, holds exactly the
      non-empty stripped comments of its rows in row order, and each text
      field is the first non-empty cell of that column among its rows. */
  lemma ParsedRushee(rows: seq<RushResponse>, n: string)
    requires n in Aggregate(Records(rows))
    ensures var r := Aggregate(Records(rows))[n];
      && r.name == n
      && r.comments == StrippedComments(RowsFor(rows, n))
      && forall f :: Get(r, f) == FirstNonEmpty(Cells(RowsFor(rows, n), f))
  {
    var q := RowsFor(rows, n);
    AggregateOfRows(rows, n);
    AggregateNamesMatch(Records(rows));
    var g := Records(q);
    CommentsOfRecords(q);
    MergeAllComments(g);
    forall f ensures Get(MergeAll(g), f) == FirstNonEmpty(Cells(q, f)) {
      MergeAllField(g, f);
      ValuesOfRecords(q, f);
    }
  }

  /** The bucket of a merged run of rows is the parsed bucket cell of one of
      them and ranks at least as high as every one of them. */
  lemma MergedRowsBucket(q: seq<RushResponse>)
    requires q != []
    ensures exists i :: 0 <= i < |q| && MergeAll(Records(q)).bucket == Parse(q[i].bucket)
    ensures forall i :: 0 <= i < |q| ==> Rank(Parse(q[i].bucket)) <= Rank(MergeAll(Records(q)).bucket)
  {
    var g := Records(q);
    RecordsLength(q);
    MergeAllBucket(g);
    var b := MergeAll(g).bucket;
    var i :| 0 <= i < |g| && b == g[i].bucket;
    RecordsAt(q, i);
    FromRushResponseBucket(q[i]);
    assert b == Parse(q[i].bucket);
    forall j | 0 <= j < |q| ensures Rank(Parse(q[j].bucket)) <= Rank(b) {
      RecordsAt(q, j);
      FromRushResponseBucket(q[j]);
    }
  }

  /** The aggregated bucket is the parsed bucket cell of one of the name's
      rows and ranks at least as high as every one of them. */
  lemma ParsedBucket(rows: seq<RushResponse>, n: string)
    requires n in Aggregate(Records(rows))
    ensures var r := Aggregate(Records(rows))[n];
      var q := RowsFor(rows, n);
      && (exists i :: 0 <= i < |q| && r.bucket == Parse(q[i].bucket))
      && (forall i :: 0 <= i < |q| ==> Rank(Parse(q[i].bucket)) <= Rank(r.bucket))
  {
    AggregateOfRows(rows, n);
    MergedRowsBucket(RowsFor(rows, n));
  }

  /** A Drop row followed by a row with a blank bucket leaves NONE. */
  lemma DropThenBlank(name: string)
    ensures var rows := [RushResponse(name, "", "", "Drop", "", ""), RushResponse(name, "", "", "", "", "")];
      Aggregate(Records(rows))[NameKey(name)].bucket == NONE
  {
    var rows := [RushResponse(name, "", "", "Drop", "", ""), RushResponse(name, "", "", "", "", "")];
    ValidValues("Drop");
    ValidValues("");
    var x0, x1 := FromRushResponse(rows[0]), FromRushResponse(rows[1]);
    RecordsSnoc([], rows[0]);
    assert [] + [rows[0]] == [rows[0]];
    RecordsSnoc([rows[0]], rows[1]);
    assert [rows[0]] + [rows[1]] == rows;
    AggregateSnoc([], x0);
    AggregateSnoc([x0], x1);
    assert [] + [x0] == [x0];
    MaxDropNone();
  }

  // ---------------------------------------------------- the object

  class AggregateRusheeInfo {
    /** `self.info`, the dictionary. */
    var info: Info
    /** The order in which the dictionary iterates its keys: insertion order. */
    var order: seq<string>

    ghost predicate Valid()
      reads this
    {
      KeyOrder(order, info) && NamesMatch(info)
    }

    constructor ()
      ensures Valid()
      ensures info == map[] && order == []
    {
      info := map[];
      order := [];
    }

    /** `update(response_info)`: store the record under its name, or merge it
        into the record already stored there. */
    method Update(responseInfo: RusheeInfo)
      requires Valid()
      modifies this
      ensures Valid()
      ensures info == Updated(old(info), responseInfo)
      ensures order == if responseInfo.name in old(info) then old(order) else old(order) + [responseInfo.name]
    {
      var name := responseInfo.name;
      if name !in info {
        info := info[name := responseInfo];
        order := order + [name];
      } else {
        info := info[name := Merge(info[name], responseInfo)];
      }
    }

    /** `parse_df(rows)`: a fresh dictionary updated with the record of each
        row in turn. */
    static method ParseDf(rows: seq<RushResponse>) returns (aggregate: AggregateRusheeInfo)
      ensures fresh(aggregate) && aggregate.Valid()
      ensures aggregate.info == Aggregate(Records(rows))
      ensures aggregate.order == FirstSeen(Records(rows))
    {
      aggregate := new AggregateRusheeInfo();
      for i := 0 to |rows|
        invariant aggregate.Valid()
        invariant aggregate.info == Aggregate(Records(rows[..i]))
        invariant aggregate.order == FirstSeen(Records(rows[..i]))
      {
        var responseInfo := FromRushResponse(rows[i]);
        RecordsStep(rows, i);
        AggregateSnoc(Records(rows[..i]), responseInfo);
        aggregate.Update(responseInfo);
      }
      TakeAll(rows);
    }
  }
}
