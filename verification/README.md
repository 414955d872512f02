# Link annotator for Chromoseq structural-variant reports

This project models `src/link_figures.py`, the step of the Chromoseq SV pipeline that
adds links to rendered plots to a tab-separated structural-variant report. For each row
of the report the annotator:

1. reads the variant type, chromosome, start, end and ALT fields. The positions of these
   columns come from the header.
2. derives the paths of the plots the upstream renderers would have written. Deletions
   and duplications get a breakpoint plot under `samplot/` and a copy-number plot under
   `plotting/`. Breakends get one `samplot/` plot, named after the mate parsed from the
   breakend notation of ALT. Every other type gets one `samplot/` plot.
3. keeps the paths that exist.
4. renders a bootstrap button for each kept path. The button is captioned "CN plot" when
   the path mentions `plotting`, otherwise "SV plot".
5. inserts the space-joined buttons as a `View` column at index 1 and appends the
   space-joined paths as a `Local` column. The header gets the same two columns,
   headed `View` and `Local`.

The model has five modules:

- `Strings` holds the Python string and list operations the script is built from, with
  Python's semantics:
  - `str.split` on one character always yields at least one piece.
  - `sep.join`.
  - `str.replace` works left to right, without overlap, and does not rescan the
    inserted text.
  - The substring test `x in s`.
  - `str.lower` on ASCII letters.
  - `list.insert` clamps an index past the end.
- `Columns` is the header indexer `index`, a loop that fills a column map and collects
  the missing names.
- `Resolver` holds the per-type dispatch, the file-name formats, POSIX `os.path.join` and
  the breakend ALT parse.
- `Links` holds the existence filter, `button_template` and the button markup.
- `Report` holds the field extraction, the row and header splice, the per-row body and
  the driver over all rows.

Whether a file exists is a parameter: the set of paths, relative to the working
directory, that exist. Reading the input file and printing the output are left to the
caller. The rows are given already split into fields, and the method returns the lines
it would print.

## Model

| member | source | states |
|---|---|---|
| Columns.Index | src/link_figures.py:39-69 | Fails exactly when some required column is absent from the header. The failure lists every absent column in required order. On success the map sends each required name to the position of its first occurrence, and that position holds the name with no earlier copy. |
| Columns.FirstIndex | src/link_figures.py:52 | `list.index`: the position found holds the name and no earlier position does. Returning the length stands for the `ValueError`. |
| Columns.Missing | src/link_figures.py:49-60 | The missing columns, collected in required order; `Columns.MissingMembers` and `Columns.MissingInOrder` characterise it. |
| Columns.IndexMap | src/link_figures.py:48-53 | The column map the loop fills; `Columns.IndexMapFirstOccurrence` states that each required name maps to its first position. |
| Columns.MissingMembers | src/link_figures.py:49-67 | A name is reported missing exactly when it is required and not in the header. |
| Columns.MissingInOrder | src/link_figures.py:50-60 | The missing list is a subsequence of the required list, so it keeps the required order. |
| Columns.IndexMapFirstOccurrence | src/link_figures.py:50-53 | With nothing missing, every required name maps to its first occurrence in the header. |
| Strings.Contains | src/link_figures.py:208 | The substring test `x in s`; `Strings.ContainsIffOccurs` ties it to an occurrence at some position. |
| Strings.ContainsIffOccurs | src/link_figures.py:208 | The substring test holds exactly when the pattern occurs at some position. |
| Strings.ContainsAcrossFence | src/link_figures.py:208 | A pattern lacking the last character of `a` occurs in `a + b` exactly when it occurs in `a` or in `b`. |
| Strings.Split | src/link_figures.py:169-172 | `str.split` yields at least one piece, and no piece holds the separator. |
| Strings.Join | src/link_figures.py:213-214 | `sep.join`; `Strings.JoinSplit` and `Strings.SplitJoin` state it is the inverse of `Strings.Split`. |
| Strings.JoinSplit | src/link_figures.py:169-172 | Joining the pieces of a split with the separator gives the string back. |
| Strings.SplitJoin | src/link_figures.py:214 | Splitting the join of at least one separator-free piece gives the pieces back. |
| Strings.SplitHead | src/link_figures.py:169 | The first piece of a split is the longest prefix free of the separator. |
| Strings.SplitLast | src/link_figures.py:171 | The last piece of a split is the longest suffix free of the separator. |
| Strings.SplitAtSep | src/link_figures.py:169-172 | Splitting at a separator splits the two sides independently. |
| Strings.Replace | src/link_figures.py:207-208 | `str.replace`, left to right without rescanning; `Strings.ReplaceAbsent`, `Strings.ReplaceAcrossFence` and `Strings.ReplaceSingle` characterise it. |
| Strings.ReplaceAbsent | src/link_figures.py:207-208 | Replacing a pattern that does not occur changes nothing. |
| Strings.ReplaceAcrossFence | src/link_figures.py:207-208 | When no occurrence can straddle the seam, replacing in `a + b` is replacing in `a` and in `b`. |
| Strings.ReplaceSingle | src/link_figures.py:207 | A pattern occurring once, with nothing around it reaching into it, is replaced in place. |
| Strings.Lower | src/link_figures.py:137 | ASCII `str.lower`; `Strings.LowerAt` states it keeps the length and lowers each character. |
| Strings.LowerAt | src/link_figures.py:137 | `str.lower` keeps the length and lowers each character on its own. |
| Strings.Insert | src/link_figures.py:213 | `list.insert` adds one element at the index, or at the end when the index is past it. Removing that element gives the list back. |
| Resolver.Candidates | src/link_figures.py:137-198 | Deletions and duplications yield two candidate paths; every other type yields one. |
| Resolver.Classify | src/link_figures.py:137-185 | The case-insensitive three-way dispatch; `Resolver.ClassifiedTypeStart` and the `Resolver.Candidates*` lemmas state what each branch yields. |
| Resolver.PathJoin | src/link_figures.py:141-142 | POSIX `os.path.join`; `Resolver.JoinUnder` states a relative name lands one slash under the directory, and `Resolver.CandidatesOther` that an absolute name replaces it. |
| Resolver.PlotFile | src/link_figures.py:143-148 | The four-field underscore-joined `.png` name; `Resolver.DeletionExample` and `Resolver.InversionExample` pin it on concrete rows. |
| Resolver.BreakendPlotFile | src/link_figures.py:176-182 | The five-field breakend name; `Resolver.CandidatesBreakend` and `Resolver.BreakendExamples` state it. |
| Resolver.MateChrom | src/link_figures.py:169-170 | The mate chromosome cut out of ALT; `Resolver.MateRoundTrip` states it recovers the chromosome written in breakend notation. |
| Resolver.MatePos | src/link_figures.py:171-172 | The mate position cut out of ALT; `Resolver.MateRoundTrip` states it recovers the position written in breakend notation. |
| Resolver.CandidatesDelDup | src/link_figures.py:137-163 | A type lowering to `del` or `dup` yields `samplot/T_chrom_start_end.png` then `plotting/T_chrom_start_end.png`, with the type `T` in its original casing. |
| Resolver.CandidatesBreakend | src/link_figures.py:164-184 | A type lowering to `bnd` yields only `samplot/T_chrom_start_mate_pos.png`, with the mate parsed from ALT. |
| Resolver.CandidatesOther | src/link_figures.py:185-198 | Any other type yields only `samplot/T_chrom_start_end.png`. A type starting with `/` makes the name absolute, so the directory is dropped. |
| Resolver.ClassifiedTypeStart | src/link_figures.py:137 | A type that lowers to `del`, `dup` or `bnd` has three characters and cannot start with a slash. |
| Resolver.JoinUnder | src/link_figures.py:141-142 | Joining a relative name to `samplot` or `plotting` puts one slash between them. |
| Resolver.AfterBracket | src/link_figures.py:170 | The text after an opening bracket of either kind survives the cuts at the last `[` and the last `]`. |
| Resolver.BeforeBracket | src/link_figures.py:172 | The text before a closing bracket of either kind survives the cuts at the first `[` and the first `]`. |
| Resolver.MateRoundTrip | src/link_figures.py:168-172 | For breakend notation `lead` `[` or `]` `chrom:pos` `[` or `]` `trail`, the parse gives back `chrom` and `pos` for every bracket orientation. |
| Resolver.DeletionExample | src/link_figures.py:139-152 | DEL on chr9 from 68417082 to 92137939 yields `samplot/DEL_chr9_68417082_92137939.png` then `plotting/DEL_chr9_68417082_92137939.png`. |
| Resolver.BreakendExamples | src/link_figures.py:164-184 | `A[chrX:10410866[G` and `A]chrX:10410866]G` from chr11:49953211 both yield `samplot/BND_chr11_49953211_chrX_10410866.png`. |
| Resolver.InversionExample | src/link_figures.py:185-198 | INV on chr6 from 24804833 to 34375955 yields `samplot/INV_chr6_24804833_34375955.png`. |
| Links.Existing | src/link_figures.py:203 | The filter is never longer than the candidate list. |
| Links.ExistingMembers | src/link_figures.py:203 | The filter keeps a path exactly when it is a candidate and exists. |
| Links.ExistingInOrder | src/link_figures.py:203 | The kept paths are a subsequence of the candidates, in candidate order. |
| Links.ExistingCounts | src/link_figures.py:203 | Every copy of an existing path is kept, and no copy of a missing one. |
| Links.ExistingExtremes | src/link_figures.py:203 | Nothing is kept when no candidate exists. Everything is kept when all exist. |
| Links.Label | src/link_figures.py:208 | The caption; `Links.MarkupAt` states it is "CN plot" exactly when the path contains `plotting`. |
| Links.Button | src/link_figures.py:207-208 | One filled template; `Links.FillUri`, `Links.FillType` and `Links.MarkupAt` state where the path and caption land. |
| Links.Markup | src/link_figures.py:206-210 | One button per kept path; `Links.MarkupAt` and `Links.MarkupPlainAt` state button `i` in terms of path `i`. |
| Links.HeadFree | src/link_figures.py:12 | The template text before the path placeholder holds no placeholder. |
| Links.MidFreeOfType | src/link_figures.py:12 | The template text between the placeholders holds no caption placeholder. |
| Links.TailFree | src/link_figures.py:12 | The template text after the caption placeholder holds no caption placeholder. |
| Links.RestFree | src/link_figures.py:12 | After the path placeholder the template holds no second one. |
| Links.FillUri | src/link_figures.py:207 | Filling in the path puts it exactly where the path placeholder was. |
| Links.FillTypeRest | src/link_figures.py:12 | Filling the caption into the template text after the path placeholder replaces exactly that placeholder. |
| Links.FillType | src/link_figures.py:207-208 | Filling in the caption replaces the caption placeholder and any `__type__` inside the path. |
| Links.MarkupAt | src/link_figures.py:206-210 | The markup has one button per kept path. Button `i` links to path `i` and is captioned "CN plot" exactly when the path contains `plotting`, otherwise "SV plot". A `__type__` in the path is replaced by the caption too. |
| Links.MarkupPlainAt | src/link_figures.py:206-210 | For a path without `__type__`, button `i` links to exactly path `i`. |
| Links.DelDupLabels | src/link_figures.py:206-210 | For a deletion or duplication whose file name does not mention `plotting`, the breakpoint plot is captioned "SV plot" and the copy-number plot "CN plot". |
| Report.Splice | src/link_figures.py:213-214 | The spliced row is two longer. It keeps the first field, puts the new field at index 1, keeps the other fields in order, and ends with the appended field. |
| Report.SpliceInverse | src/link_figures.py:213-214 | Dropping the two new columns gives the row back. |
| Report.SpliceAligned | src/link_figures.py:121-122 | A row as wide as the header keeps every old field under its old heading, and its `View` field sits under `View`. |
| Report.Extract | src/link_figures.py:129-134 | Each field is read at the position of its required column. |
| Report.Plots | src/link_figures.py:137-203 | The existing candidates of a row; `Report.AnnotatedShape` and `Report.AnnotatedNoPlots` state how they fill `View` and `Local`. |
| Report.Annotated | src/link_figures.py:206-214 | The annotated row; `Report.AnnotatedShape`, `Report.AnnotatedNoPlots` and `Report.LocalRoundTrip` characterise it. |
| Report.AnnotateRow | src/link_figures.py:130-214 | The per-row statements compute the annotated row: the existing candidates' buttons at index 1 and their paths at the end. |
| Report.AnnotatedShape | src/link_figures.py:206-214 | An annotated row is two longer than the input, with every old field in place. `View` joins one button per kept path and `Local` joins the kept paths. |
| Report.AnnotatedNoPlots | src/link_figures.py:203-214 | When no candidate exists, `View` and `Local` are both empty strings and the row still gains two fields. |
| Report.LocalRoundTrip | src/link_figures.py:214 | Splitting a non-empty `Local` field on spaces gives back the kept paths, when no path holds a space. |
| Report.Annotations | src/link_figures.py:125-214 | The annotations of a run of rows: one line per row. |
| Report.AnnotationsAt | src/link_figures.py:125-214 | Line `j` of the annotations is the annotation of row `j`. |
| Report.AnnotationsExtend | src/link_figures.py:125-214 | Annotating one more row that fits appends exactly its annotation. |
| Report.AnnotateRows | src/link_figures.py:125-215 | Rows are annotated in order, each line being the annotation of its row. The loop stops at the first row too short to read a required field from and reports its position. |
| Report.LinkFigures | src/link_figures.py:109-123 | Missing columns mean nothing is written and every missing column is reported. Otherwise the header comes first with `View` and `Local` spliced in, then each row's annotation, up to the first row too short to read. |

## Left out

- Reading `sys.argv`, opening the report, iterating over lines, `rstrip`, splitting on
  tabs and printing are I/O. Rows arrive already split and the output is returned as
  lines. Because `rstrip` also strips trailing tabs, a row whose last fields are empty
  arrives shorter than the header; the model takes rows as given and does not capture
  that loss.
- `err` and `fatal` print to standard error and exit the process. The model returns
  `MissingColumns` with the list of missing names instead. The per-column "Missing a
  required column" messages are not modelled.
- A row too short for a required column makes Python raise `IndexError` after the
  earlier lines have been printed. The model stops with `RowTooShort` and returns those
  earlier lines. The traceback is not modelled.
- `os.path.exists` is a filesystem query. It is modelled as membership in a set of
  existing paths. The script calls it on the bare relative path
  (src/link_figures.py:203), so existence is relative to the working directory; the
  script takes no image-root argument, and neither does the model.
- The caption test is a substring test on the whole path (src/link_figures.py:208).
  A `samplot/` path whose type, chromosome or coordinates contain `plotting` is also
  captioned "CN plot", and `Links.Label` follows that.
- `convert2base64` reads a binary file and base64-encodes it, and nothing calls it.
- `reduce_image_size.py` is not part of this model: it resizes images through an image
  library with a floating-point scale factor.
- Strings.LowerAt: lowercases ASCII letters only. Python's `str.lower` also lowercases
  other scripts, but no non-ASCII character lowercases to a letter of `del`, `dup` or
  `bnd`, so the dispatch is unaffected.
