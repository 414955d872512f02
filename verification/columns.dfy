/** The column indexer: finds where each required column sits in the report header,
    or reports every required column the header lacks. */
module Columns {

  import opened Strings

  /** The outcome of an operation that can fail: the value, or what went wrong. */
  datatype Result<T, E> = Success(value: T) | Failure(error: E)

  /** The columns the annotator reads from every row, in the order it asks for them. */
  const Required: seq<string> := ["Chromoseq_SV_Type", "Chrom", "Start", "End", "ALT"]

  /** `i` is the position of the first `name` in `header`. */
  predicate FirstOccurrence(header: seq<string>, name: string, i: int)
  {
    0 <= i < |header| && header[i] == name && forall j :: 0 <= j < i ==> header[j] != name
  }

  /** Python's `header.index(name)`, with `|header|` standing for the `ValueError` raised
      when `name` is absent. */
  function FirstIndex(header: seq<string>, name: string): (i: nat)
    ensures i <= |header|
    ensures i < |header| ==> header[i] == name
    ensures forall j :: 0 <= j < i ==> header[j] != name
    decreases |header|
  {
    if header == [] then 0
    else if header[0] == name then 0
    else 1 + FirstIndex(header[1..], name)
  }

  /** The required columns absent from the header, in the order they are required. */
  function Missing(header: seq<string>, columns: seq<string>): seq<string>
    decreases |columns|
  {
    if columns == [] then []
    else
      var last := columns[|columns| - 1];
      Missing(header, columns[..|columns| - 1]) + (if last in header then [] else [last])
  }

  /** A name is reported missing exactly when it is required and not in the header. */
  lemma {:induction false} MissingMembers(header: seq<string>, columns: seq<string>, x: string)
    ensures x in Missing(header, columns) <==> x in columns && x !in header
    decreases |columns|
  {
    if columns != [] {
      var init := columns[..|columns| - 1];
      MissingMembers(header, init, x);
      assert columns == init + [columns[|columns| - 1]];
    }
  }

  /** The missing list keeps the required order: it is a subsequence of the required list. */
  lemma {:induction false} MissingInOrder(header: seq<string>, columns: seq<string>)
    ensures IsSubsequence(Missing(header, columns), columns)
    decreases |columns|
  {
    if columns != [] {
      var init := columns[..|columns| - 1];
      var last := columns[|columns| - 1];
      MissingInOrder(header, init);
      assert columns == init + [last];
      SubsequenceExtend(Missing(header, init), init, last, last !in header);
    }
  }

  /** The column map the indexer builds: each required name to its first position. */
  function IndexMap(header: seq<string>, columns: seq<string>): map<string, nat>
  {
    map c | c in columns :: FirstIndex(header, c)
  }

  /** When no required column is missing, the map sends every required name to the
      position of its first occurrence in the header. */
  lemma IndexMapFirstOccurrence(header: seq<string>, columns: seq<string>)
    requires Missing(header, columns) == []
    ensures forall c :: c in columns ==> c in IndexMap(header, columns) && FirstOccurrence(header, c, IndexMap(header, columns)[c])
  {
    forall c | c in columns
      ensures FirstOccurrence(header, c, IndexMap(header, columns)[c])
    {
      MissingMembers(header, columns, c);
    }
  }

  /** `index(linelist, columns)`: look every required column up, collecting all the
      missing ones before failing, so that one failure names every missing column. */
  method Index(header: seq<string>, columns: seq<string>) returns (r: Result<map<string, nat>, seq<string>>)
    ensures r.Failure? <==> exists k :: 0 <= k < |columns| && columns[k] !in header
    ensures r.Failure? ==> r.error == Missing(header, columns) && |r.error| > 0
    ensures r.Success? ==> r.value == IndexMap(header, columns)
    ensures r.Success? ==> forall c :: c in columns ==> c in r.value && FirstOccurrence(header, c, r.value[c])
  {
    var indices: map<string, nat> := map[];
    var missing: seq<string> := [];
    for k := 0 to |columns|
      invariant missing == Missing(header, columns[..k])
      invariant indices.Keys == set j | 0 <= j < k && columns[j] in header :: columns[j]
      invariant forall c :: c in indices ==> indices[c] == FirstIndex(header, c)
    {
      var col := columns[k];
      var i := FirstIndex(header, col);
      if i < |header| {
        indices := indices[col := i];
      } else {
        missing := missing + [col];
      }
      assert columns[..k + 1][..k] == columns[..k];
    }
    assert columns[..|columns|] == columns;
    if missing != [] {
      var x := missing[0];
      MissingMembers(header, columns, x);
      r := Failure(missing);
    } else {
      forall c | c in columns
        ensures c in header
      {
        MissingMembers(header, columns, c);
      }
      IndexMapFirstOccurrence(header, columns);
      r := Success(indices);
    }
  }
}
