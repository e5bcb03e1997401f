/**
 The catalog reader (`get_repo_list`): skip the header row of
 `repositories.csv`, then take `(user, name)` from each row while its star
 count reaches the threshold, stopping at the first row below it.

 CSV tokenising, UTF-8 repair and `int()` parsing are abstracted: the file is
 given as its rows, each either a name with a star count or `Malformed` (a row
 that does not unpack into two fields, or whose star column is not an
 integer; both raise `ValueError` when the scan reaches them).
 */
module Catalog {

  import opened Exceptions
  import opened Strings

  datatype Row = Row(repoName: string, stars: int) | Malformed

  /** One unit of work: the owner and the name of a repository. */
  datatype Target = Target(user: string, name: string)

  const DefaultFilename := "repositories.csv"
  const DefaultThreshold := 1000

  /** The name holds exactly one `/`. */
  predicate NamesOneRepo(repoName: string) {
    multiset(repoName)['/'] == 1
  }

  /** `user, name = repo_name.split('/')`: exactly one separator, else the
      unpacking raises `ValueError`. Either part may be empty. */
  function SplitRepoName(repoName: string): (r: Result<Target>)
    ensures r.Ok? <==> NamesOneRepo(repoName)
    ensures r.Ok? ==> r.value.user + "/" + r.value.name == repoName
    ensures r.Ok? ==> '/' !in r.value.user && '/' !in r.value.name
    ensures r.Raise? ==> r.exc == ValueError
  {
    var parts := Split(repoName, '/');
    if |parts| == 2 then
      assert Join(parts, '/') == parts[0] + "/" + parts[1];
      Ok(Target(parts[0], parts[1]))
    else Raise(ValueError)
  }

  /** The repository name a target was split from. */
  function FullName(t: Target): string {
    t.user + "/" + t.name
  }

  /** Splitting the full name of a target whose parts hold no `/` gives the
      target back. */
  lemma SplitRepoNameInverse(t: Target)
    requires '/' !in t.user && '/' !in t.name
    ensures SplitRepoName(FullName(t)) == Ok(t)
  {
    SplitJoin([t.user, t.name], '/');
    assert Join([t.user, t.name], '/') == FullName(t);
  }

  /** A row the scan keeps: reaches the threshold and names `owner/repo`. */
  predicate Accepted(row: Row, threshold: int) {
    row.Row? && row.stars >= threshold && NamesOneRepo(row.repoName)
  }

  /** A row that ends the scan: well formed and below the threshold. */
  predicate EndsScan(row: Row, threshold: int) {
    row.Row? && row.stars < threshold
  }

  /** A row that makes the scan raise `ValueError` when reached. */
  predicate FailsScan(row: Row, threshold: int) {
    row.Malformed? || (row.stars >= threshold && !NamesOneRepo(row.repoName))
  }

  /** The `for ... in reader` loop over the rows after the header: take each
      row while it reaches the threshold, stop at the first row below it. */
  function ScanRows(rows: seq<Row>, threshold: int): Result<seq<Target>>
    decreases |rows|
  {
    if rows == [] then Ok([])
    else match rows[0]
      case Malformed => Raise(ValueError)
      case Row(repoName, stars) =>
        if stars >= threshold then
          match SplitRepoName(repoName)
          case Raise(e) => Raise(e)
          case Ok(target) =>
            match ScanRows(rows[1..], threshold)
            case Raise(e) => Raise(e)
            case Ok(rest) => Ok([target] + rest)
        else Ok([])
  }

  /** The scan returns the longest prefix of accepted rows, provided the row
      that ends it (if any) is below the threshold; otherwise `ValueError`,
      raised at a failing row that only accepted rows precede. */
  lemma {:induction false} ScanRowsSpec(rows: seq<Row>, threshold: int)
    ensures var r := ScanRows(rows, threshold);
            && (r.Ok? ==> AcceptedPrefix(rows, r.value, threshold))
            && (r.Ok? ==> |r.value| == |rows| || EndsScan(rows[|r.value|], threshold))
            && (r.Raise? ==> r.exc == ValueError && exists k :: FailsAt(rows, k, threshold))
    decreases |rows|
  {
    if rows != [] {
      match rows[0]
      case Malformed =>
        assert ScanRows(rows, threshold) == Raise(ValueError);
        assert FailsAt(rows, 0, threshold);
      case Row(repoName, stars) =>
        if stars >= threshold {
          match SplitRepoName(repoName)
          case Raise(e) =>
            assert ScanRows(rows, threshold) == Raise(e);
            assert FailsAt(rows, 0, threshold);
          case Ok(target) =>
            ScanRowsSpec(rows[1..], threshold);
            match ScanRows(rows[1..], threshold)
            case Raise(e) =>
              assert ScanRows(rows, threshold) == Raise(e);
              FailureShifts(rows, threshold);
            case Ok(rest) =>
              assert ScanRows(rows, threshold) == Ok([target] + rest);
              AcceptedPrefixGrows(rows, target, rest, threshold);
              assert |rest| < |rows[1..]| ==> rows[1..][|rest|] == rows[|[target] + rest|];
        } else {
          assert ScanRows(rows, threshold) == Ok([]);
        }
    }
  }

  /** The targets are the first rows of the catalog, each accepted and split
      from that row's name. */
  predicate AcceptedPrefix(rows: seq<Row>, targets: seq<Target>, threshold: int) {
    && |targets| <= |rows|
    && forall i :: 0 <= i < |targets| ==>
         Accepted(rows[i], threshold) && FullName(targets[i]) == rows[i].repoName
  }

  lemma AcceptedPrefixGrows(rows: seq<Row>, target: Target, rest: seq<Target>, threshold: int)
    requires |rows| > 0 && Accepted(rows[0], threshold) && FullName(target) == rows[0].repoName
    requires AcceptedPrefix(rows[1..], rest, threshold)
    ensures AcceptedPrefix(rows, [target] + rest, threshold)
  {
    forall i | 0 <= i < |[target] + rest|
      ensures Accepted(rows[i], threshold) && FullName(([target] + rest)[i]) == rows[i].repoName
    {
      if i > 0 {
        assert rows[i] == rows[1..][i - 1];
        assert ([target] + rest)[i] == rest[i - 1];
      }
    }
  }

  /** Row `k` makes the scan raise: every row before it is accepted. */
  predicate FailsAt(rows: seq<Row>, k: int, threshold: int) {
    0 <= k < |rows| && FailsScan(rows[k], threshold) && forall i :: 0 <= i < k ==> Accepted(rows[i], threshold)
  }

  /** A failing row after an accepted first row is a failing row of the whole. */
  lemma FailureShifts(rows: seq<Row>, threshold: int)
    requires |rows| > 0 && Accepted(rows[0], threshold)
    requires exists k :: FailsAt(rows[1..], k, threshold)
    ensures exists k :: FailsAt(rows, k, threshold)
  {
    var k :| FailsAt(rows[1..], k, threshold);
    assert FailsScan(rows[k + 1], threshold);
    forall i | 0 <= i < k + 1
      ensures Accepted(rows[i], threshold)
    {
      if i > 0 {
        assert rows[i] == rows[1..][i - 1];
      }
    }
    assert FailsAt(rows, k + 1, threshold);
  }

  /** `get_repo_list(filename, star_count_threshold)` over the content of the
      catalog file: `None` when the file does not exist. */
  function GetRepoList(catalog: Option<seq<Row>>, filename: string, threshold: int): (r: Result<seq<Target>>)
    ensures catalog.None? ==> r == Raise(OSError(FileNotFound, "\"" + filename + "\" does not exist."))
    ensures catalog == Some([]) ==> r == Raise(StopIteration)
    ensures catalog.Some? && |catalog.value| > 0 && r.Ok? ==>
              && AcceptedPrefix(catalog.value[1..], r.value, threshold)
              && (|r.value| == |catalog.value| - 1 || EndsScan(catalog.value[1 + |r.value|], threshold))
    ensures catalog.Some? && |catalog.value| > 0 && r.Raise? ==>
              r.exc == ValueError && exists k :: FailsAt(catalog.value[1..], k, threshold)
  {
    match catalog
    case None => Raise(OSError(FileNotFound, "\"" + filename + "\" does not exist."))
    case Some(rows) =>
      if rows == [] then Raise(StopIteration)
      else
        ScanRowsSpec(rows[1..], threshold);
        var r := ScanRows(rows[1..], threshold);
        assert r.Ok? && |r.value| < |rows| - 1 ==> rows[1..][|r.value|] == rows[1 + |r.value|];
        r
  }

  /** Once a row below the threshold is reached, nothing after it matters:
      a later row that would qualify is never returned. */
  lemma {:induction false} ScanStopsAtFirstLowRow(rows: seq<Row>, k: nat, threshold: int, tail: seq<Row>)
    requires k < |rows| && EndsScan(rows[k], threshold)
    ensures ScanRows(rows[..k + 1] + tail, threshold) == ScanRows(rows[..k + 1], threshold)
    decreases k
  {
    var prefix := rows[..k + 1];
    var whole := prefix + tail;
    assert whole[0] == prefix[0] == rows[0];
    if k == 0 {
      ScanEndsAtLowHead(whole, threshold);
      ScanEndsAtLowHead(prefix, threshold);
    } else {
      assert whole[1..] == rows[1..][..k] + tail;
      assert prefix[1..] == rows[1..][..k];
      ScanStopsAtFirstLowRow(rows[1..], k - 1, threshold, tail);
      ScanRowsLooksAtHead(whole, prefix, threshold);
    }
  }

  /** A catalog whose first row is below the threshold yields no target. */
  lemma ScanEndsAtLowHead(rows: seq<Row>, threshold: int)
    requires |rows| > 0 && EndsScan(rows[0], threshold)
    ensures ScanRows(rows, threshold) == Ok([])
  {
  }

  /** The scan of a non-empty catalog depends only on its first row and the
      scan of the rest. */
  lemma ScanRowsLooksAtHead(a: seq<Row>, b: seq<Row>, threshold: int)
    requires |a| > 0 && |b| > 0 && a[0] == b[0]
    requires ScanRows(a[1..], threshold) == ScanRows(b[1..], threshold)
    ensures ScanRows(a, threshold) == ScanRows(b, threshold)
  {
  }

  /** The `owner/repo` names of the targets, in order. */
  function FullNames(ts: seq<Target>): seq<string> {
    if ts == [] then [] else [FullName(ts[0])] + FullNames(ts[1..])
  }

  /** Rows sorted by star count, highest first. */
  predicate SortedDescending(rows: seq<Row>) {
    && (forall i :: 0 <= i < |rows| ==> rows[i].Row?)
    && (forall i, j :: 0 <= i < j < |rows| ==> rows[i].stars >= rows[j].stars)
  }

  /** Reference definition: every row reaching the threshold, in order. */
  function Qualifying(rows: seq<Row>, threshold: int): seq<string>
    requires forall i :: 0 <= i < |rows| ==> rows[i].Row?
  {
    if rows == [] then []
    else (if rows[0].stars >= threshold then [rows[0].repoName] else []) + Qualifying(rows[1..], threshold)
  }

  /** On a catalog sorted as the reader assumes, with well-formed names, the
      prefix scan returns exactly the repositories reaching the threshold. */
  lemma {:induction false} SortedScanReturnsAllQualifying(rows: seq<Row>, threshold: int)
    requires SortedDescending(rows)
    requires forall i :: 0 <= i < |rows| ==> NamesOneRepo(rows[i].repoName)
    ensures ScanRows(rows, threshold).Ok?
    ensures FullNames(ScanRows(rows, threshold).value) == Qualifying(rows, threshold)
    decreases |rows|
  {
    if rows != [] {
      if rows[0].stars >= threshold {
        assert SortedDescending(rows[1..]);
        SortedScanReturnsAllQualifying(rows[1..], threshold);
      } else {
        NoneQualifyBelow(rows, threshold);
      }
    }
  }

  /** In a sorted catalog whose first row is below the threshold, so is every row. */
  lemma {:induction false} NoneQualifyBelow(rows: seq<Row>, threshold: int)
    requires SortedDescending(rows)
    requires |rows| > 0 && rows[0].stars < threshold
    ensures Qualifying(rows, threshold) == []
    decreases |rows|
  {
    if |rows| > 1 {
      assert SortedDescending(rows[1..]);
      assert rows[1].stars <= rows[0].stars;
      NoneQualifyBelow(rows[1..], threshold);
    }
  }
}
