/** Collection of all files: `process_csv` is mapped over the path list and the
    per-file record lists are appended to one total list in path order. The
    worker threads are not modelled; only the order in which the mapped results
    are handed back (path order) matters to the outcome. */
module Collect {
  import opened Wrappers
  import opened Ingest

  /** The per-file lists one after the other (specification of the merge loop). */
  function Flatten<T>(parts: seq<seq<T>>): seq<T> {
    if parts == [] then [] else Flatten(parts[..|parts| - 1]) + parts[|parts| - 1]
  }

  /** The total number of elements over all parts. */
  function TotalLength<T>(parts: seq<seq<T>>): nat {
    if parts == [] then 0 else TotalLength(parts[..|parts| - 1]) + |parts[|parts| - 1]|
  }

  /** Merging the results of two path lists gives the two merged lists one after
      the other: the results of earlier paths come first. */
  lemma {:induction false} FlattenAppend<T>(a: seq<seq<T>>, b: seq<seq<T>>)
    ensures Flatten(a + b) == Flatten(a) + Flatten(b)
  {
    if b == [] {
      assert a + b == a;
    } else {
      var n := |b| - 1;
      assert (a + b)[..|a + b| - 1] == a + b[..n];
      FlattenAppend(a, b[..n]);
    }
  }

  /** The merged list is as long as all per-file lists together. */
  lemma {:induction false} FlattenLength<T>(parts: seq<seq<T>>)
    ensures |Flatten(parts)| == TotalLength(parts)
  {
    if parts != [] {
      FlattenLength(parts[..|parts| - 1]);
    }
  }

  /** Record j of file f sits in the merged list right after the records of all
      earlier files. */
  lemma FlattenAt<T>(parts: seq<seq<T>>, f: nat, j: nat)
    requires f < |parts| && j < |parts[f]|
    ensures TotalLength(parts[..f]) + j < |Flatten(parts)|
    ensures Flatten(parts)[TotalLength(parts[..f]) + j] == parts[f][j]
  {
    var before, after := parts[..f], parts[f + 1..];
    assert parts == before + [parts[f]] + after;
    FlattenAppend(before + [parts[f]], after);
    FlattenAppend(before, [parts[f]]);
    assert Flatten([parts[f]]) == parts[f] by {
      assert [parts[f]][..0] == [];
    }
    FlattenLength(before);
  }

  /** The merge loop: extend the total list with each result in turn. */
  method Merge<T>(results: seq<seq<T>>) returns (total: seq<T>)
    ensures total == Flatten(results)
    ensures |total| == TotalLength(results)
  {
    total := [];
    for i := 0 to |results|
      invariant total == Flatten(results[..i])
    {
      assert results[..i + 1][..i] == results[..i];
      total := total + results[i];
    }
    assert results[..|results|] == results;
    FlattenLength(results);
  }

  /** What the whole collection step yields for the files' frames in path
      order: the records of every file one after the other, or the error of
      the first file, in path order, whose ingestion fails. */
  function Collected(frames: seq<Frame>): Result<seq<WeatherRecord>, KeyError> {
    if frames == [] then Success([])
    else match ProcessSpec(frames[0])
      case Failure(e) => Failure(e)
      case Success(first) =>
        match Collected(frames[1..])
        case Failure(e) => Failure(e)
        case Success(rest) => Success(first + rest)
  }

  /** When every file is ingested, the collected list is the merge of the
      per-file lists in path order. */
  lemma {:induction false} CollectedMerges(frames: seq<Frame>, results: seq<seq<WeatherRecord>>)
    requires |results| == |frames|
    requires forall i :: 0 <= i < |frames| ==> ProcessSpec(frames[i]) == Success(results[i])
    ensures Collected(frames) == Success(Flatten(results))
  {
    if frames != [] {
      CollectedMerges(frames[1..], results[1..]);
      assert results == [results[0]] + results[1..];
      FlattenAppend([results[0]], results[1..]);
      assert Flatten([results[0]]) == results[0] by {
        assert [results[0]][..0] == [];
      }
    }
  }

  /** When some file fails, the whole collection fails with the error of the
      first failing file in path order, whatever the later files hold. */
  lemma {:induction false} CollectedFirstFailure(frames: seq<Frame>, i: nat)
    requires i < |frames| && ProcessSpec(frames[i]).Failure?
    requires forall j :: 0 <= j < i ==> ProcessSpec(frames[j]).Success?
    ensures Collected(frames) == Failure(ProcessSpec(frames[i]).error)
  {
    if i > 0 {
      CollectedFirstFailure(frames[1..], i - 1);
    }
  }

  /** The collection step: ingest every file, then merge the per-file lists in
      path order. A file's error surfaces when its result is reached. */
  method CollectAll(frames: seq<Frame>) returns (r: Result<seq<WeatherRecord>, KeyError>)
    ensures r == Collected(frames)
  {
    var results: seq<seq<WeatherRecord>> := [];
    for i := 0 to |frames|
      invariant |results| == i
      invariant forall j :: 0 <= j < i ==> ProcessSpec(frames[j]) == Success(results[j])
    {
      var result := ProcessCsv(frames[i]);
      if result.Failure? {
        CollectedFirstFailure(frames, i);
        return Failure(result.error);
      }
      results := results + [result.value];
    }
    var total := Merge(results);
    CollectedMerges(frames, results);
    r := Success(total);
  }
}
