/** The report annotator: indexes the header, then for every row resolves the plots of
    its variant, keeps those that exist, and splices a `View` column of buttons after the
    first column and a `Local` column of paths at the end. */
module Report {

  import opened Strings
  import opened Columns
  import opened Resolver
  import opened Links

  /** `row.insert(1, view)` followed by `row.append(local)` */
  function Splice(row: seq<string>, view: string, local: string): (r: seq<string>)
    ensures |r| == |row| + 2 && r[|r| - 1] == local
    ensures |row| >= 1 ==> r[0] == row[0] && r[1] == view && r[2..|r| - 1] == row[1..]
    ensures row == [] ==> r == [view, local]
  {
    Insert(row, 1, view) + [local]
  }

  /** Dropping the two new columns recovers the row. */
  lemma SpliceInverse(row: seq<string>, view: string, local: string)
    requires |row| >= 1
    ensures var r := Splice(row, view, local); r[..1] + r[2..|r| - 1] == row
  {
    var r := Splice(row, view, local);
    assert row == row[..1] + row[1..];
  }

  /** A row of the header's width keeps every old column aligned with its heading. */
  lemma SpliceAligned(header: seq<string>, row: seq<string>, view: string, local: string, j: nat)
    requires |row| == |header| && 1 <= j < |row|
    ensures Splice(header, "View", "Local")[j + 1] == header[j]
    ensures Splice(row, view, local)[j + 1] == row[j]
    ensures Splice(header, "View", "Local")[1] == "View" && Splice(row, view, local)[1] == view
    ensures |Splice(header, "View", "Local")| == |Splice(row, view, local)|
  {
    var h := Splice(header, "View", "Local");
    var r := Splice(row, view, local);
    assert h[2..|h| - 1][j - 1] == h[j + 1];
    assert r[2..|r| - 1][j - 1] == r[j + 1];
  }

  /** Every required column lies within the row, so reading it cannot fail. */
  predicate Fits(cols: map<string, nat>, row: seq<string>)
  {
    && "Chromoseq_SV_Type" in cols && cols["Chromoseq_SV_Type"] < |row|
    && "Chrom" in cols && cols["Chrom"] < |row|
    && "Start" in cols && cols["Start"] < |row|
    && "End" in cols && cols["End"] < |row|
    && "ALT" in cols && cols["ALT"] < |row|
  }

  /** The five fields a row contributes to its plot names. */
  datatype Fields = Fields(svType: string, chrom: string, start: string, stop: string, alt: string)

  /** The fields of a row, each read at the position of its column. */
  function Extract(cols: map<string, nat>, row: seq<string>): (f: Fields)
    requires Fits(cols, row)
    ensures forall k :: 0 <= k < |Required| ==>
      row[cols[Required[k]]] == [f.svType, f.chrom, f.start, f.stop, f.alt][k]
  {
    assert Required[0] == "Chromoseq_SV_Type" && Required[1] == "Chrom" && Required[2] == "Start";
    assert Required[3] == "End" && Required[4] == "ALT";
    Fields(row[cols["Chromoseq_SV_Type"]], row[cols["Chrom"]], row[cols["Start"]],
           row[cols["End"]], row[cols["ALT"]])
  }

  /** The plots of a row that exist, in the order they were tried. */
  function Plots(cols: map<string, nat>, row: seq<string>, existing: set<string>): seq<string>
    requires Fits(cols, row)
  {
    var f := Extract(cols, row);
    Existing(Candidates(f.svType, f.chrom, f.start, f.stop, f.alt), existing)
  }

  /** A row with its `View` and `Local` columns. */
  function Annotated(cols: map<string, nat>, row: seq<string>, existing: set<string>): seq<string>
    requires Fits(cols, row)
  {
    var plots := Plots(cols, row, existing);
    Splice(row, Join(Markup(plots), " "), Join(plots, " "))
  }

  /** The body of the row loop: read the fields, collect the candidate plots branch by
      branch, keep the existing ones, render their buttons and splice both columns in. */
  method AnnotateRow(cols: map<string, nat>, row: seq<string>, existing: set<string>) returns (out: seq<string>)
    requires Fits(cols, row)
    ensures out == Annotated(cols, row, existing)
  {
    var svType := row[cols["Chromoseq_SV_Type"]];
    var chrom := row[cols["Chrom"]];
    var start := row[cols["Start"]];
    var stop := row[cols["End"]];
    var alt := row[cols["ALT"]];
    var plots: seq<string> := [];
    if Lower(svType) == "del" || Lower(svType) == "dup" {
      plots := plots + [PathJoin("samplot", PlotFile(svType, chrom, start, stop))];
      plots := plots + [PathJoin("plotting", PlotFile(svType, chrom, start, stop))];
    } else if Lower(svType) == "bnd" {
      var mateChrom := MateChrom(alt);
      var matePos := MatePos(alt);
      plots := plots + [PathJoin("samplot", BreakendPlotFile(svType, chrom, start, mateChrom, matePos))];
    } else {
      plots := plots + [PathJoin("samplot", PlotFile(svType, chrom, start, stop))];
    }
    plots := Existing(plots, existing);
    var html := Markup(plots);
    out := Insert(row, 1, Join(html, " "));
    out := out + [Join(plots, " ")];
  }

  /** An annotated row keeps every old field in place around the new ones: the `View`
      column holds one button per existing plot and the `Local` column their paths. */
  lemma AnnotatedShape(cols: map<string, nat>, row: seq<string>, existing: set<string>)
    requires Fits(cols, row)
    ensures var out := Annotated(cols, row, existing);
      var plots := Plots(cols, row, existing);
      |row| >= 1 && |out| == |row| + 2 && out[0] == row[0] && out[2..|out| - 1] == row[1..]
      && out[1] == Join(Markup(plots), " ") && |Markup(plots)| == |plots|
      && out[|out| - 1] == Join(plots, " ")
  {
  }

  /** A row whose plots were never rendered gets empty `View` and `Local` columns. */
  lemma AnnotatedNoPlots(cols: map<string, nat>, row: seq<string>, existing: set<string>)
    requires Fits(cols, row)
    requires var f := Extract(cols, row);
      forall p :: p in Candidates(f.svType, f.chrom, f.start, f.stop, f.alt) ==> p !in existing
    ensures var out := Annotated(cols, row, existing);
      out[1] == "" && out[|out| - 1] == ""
  {
    var f := Extract(cols, row);
    ExistingExtremes(Candidates(f.svType, f.chrom, f.start, f.stop, f.alt), existing);
  }

  /** Splitting the `Local` column on spaces gives back the existing plots, as long as
      there is at least one and no path holds a space. */
  lemma LocalRoundTrip(cols: map<string, nat>, row: seq<string>, existing: set<string>)
    requires Fits(cols, row)
    requires var plots := Plots(cols, row, existing);
      plots != [] && forall k :: 0 <= k < |plots| ==> ' ' !in plots[k]
    ensures var out := Annotated(cols, row, existing);
      Split(out[|out| - 1], ' ') == Plots(cols, row, existing)
  {
    SplitJoin(Plots(cols, row, existing), ' ');
  }

  /** How a run ended: every row was written, the header lacked required columns, or a
      row was too short to read a required column from. */
  datatype Status = Done | MissingColumns(missing: seq<string>) | RowTooShort(row: nat)

  /** Every row is wide enough to read every required column from. */
  predicate AllFit(cols: map<string, nat>, rows: seq<seq<string>>)
  {
    forall j :: 0 <= j < |rows| ==> Fits(cols, rows[j])
  }

  /** The annotations of a run of rows, one per row, in order. */
  function Annotations(cols: map<string, nat>, rows: seq<seq<string>>, existing: set<string>): (lines: seq<seq<string>>)
    requires AllFit(cols, rows)
    ensures |lines| == |rows|
    decreases |rows|
  {
    if rows == [] then []
    else Annotations(cols, rows[..|rows| - 1], existing) + [Annotated(cols, rows[|rows| - 1], existing)]
  }

  /** Line `j` of the annotations is the annotation of row `j`. */
  lemma {:induction false} AnnotationsAt(cols: map<string, nat>, rows: seq<seq<string>>, existing: set<string>, j: nat)
    requires AllFit(cols, rows) && j < |rows|
    ensures Annotations(cols, rows, existing)[j] == Annotated(cols, rows[j], existing)
    decreases |rows|
  {
    var init := rows[..|rows| - 1];
    if j < |rows| - 1 {
      assert AllFit(cols, init) by {
        forall i | 0 <= i < |init|
          ensures Fits(cols, init[i])
        {
          assert init[i] == rows[i];
        }
      }
      AnnotationsAt(cols, init, existing, j);
    }
  }

  /** Annotating one more row appends its annotation. */
  lemma AnnotationsExtend(cols: map<string, nat>, rows: seq<seq<string>>, existing: set<string>, k: nat)
    requires k < |rows| && AllFit(cols, rows[..k]) && Fits(cols, rows[k])
    ensures AllFit(cols, rows[..k + 1])
    ensures Annotations(cols, rows[..k + 1], existing) == Annotations(cols, rows[..k], existing) + [Annotated(cols, rows[k], existing)]
  {
    var done := rows[..k + 1];
    assert done[..k] == rows[..k] && done[k] == rows[k];
  }

  /** The row loop: annotates the rows in order and stops at the first row too short to
      read a required column from, reporting its position. */
  method AnnotateRows(cols: map<string, nat>, rows: seq<seq<string>>, existing: set<string>)
    returns (lines: seq<seq<string>>, status: Status)
    ensures status.Done? || status.RowTooShort?
    ensures status.Done? ==> |lines| == |rows|
    ensures status.RowTooShort? ==> status.row == |lines| < |rows| && !Fits(cols, rows[status.row])
    ensures |lines| <= |rows| && AllFit(cols, rows[..|lines|])
    ensures lines == Annotations(cols, rows[..|lines|], existing)
  {
    lines := [];
    var k := 0;
    while k < |rows|
      invariant 0 <= k <= |rows| && |lines| == k
      invariant AllFit(cols, rows[..k])
      invariant lines == Annotations(cols, rows[..k], existing)
    {
      if !Fits(cols, rows[k]) {
        return lines, RowTooShort(k);
      }
      AnnotationsExtend(cols, rows, existing, k);
      var line := AnnotateRow(cols, rows[k], existing);
      lines := lines + [line];
      k := k + 1;
    }
    status := Done;
  }

  /** The whole run: the lines written, header first, and how the run ended. Nothing is
      written when columns are missing; a short row stops the run after the lines before
      it. */
  method LinkFigures(header: seq<string>, rows: seq<seq<string>>, existing: set<string>)
    returns (out: seq<seq<string>>, status: Status)
    ensures status.MissingColumns? <==> exists k :: 0 <= k < |Required| && Required[k] !in header
    ensures status.MissingColumns? ==> out == [] && status.missing == Missing(header, Required)
    ensures !status.MissingColumns? ==> 1 <= |out| <= |rows| + 1 && out[0] == Splice(header, "View", "Local")
    ensures status.RowTooShort? ==>
      status.row < |rows| && |out| == status.row + 1 && !Fits(IndexMap(header, Required), rows[status.row])
    ensures status.Done? ==> |out| == |rows| + 1
    ensures !status.MissingColumns? ==> var cols := IndexMap(header, Required); var lines := out[1..];
      forall k :: 0 <= k < |lines| ==> Fits(cols, rows[k]) && lines[k] == Annotated(cols, rows[k], existing)
  {
    var r := Index(header, Required);
    if r.Failure? {
      return [], MissingColumns(r.error);
    }
    var lines;
    lines, status := AnnotateRows(r.value, rows, existing);
    out := [Splice(header, "View", "Local")] + lines;
    assert out[1..] == lines;
    forall k | 0 <= k < |lines|
      ensures Fits(r.value, rows[k]) && lines[k] == Annotated(r.value, rows[k], existing)
    {
      var done := rows[..|lines|];
      assert done[k] == rows[k];
      AnnotationsAt(r.value, done, existing, k);
    }
  }
}
