/** The filename resolver: the relative paths of the plots the upstream renderers would
    have written for one structural variant, derived from its type and coordinates. */
module Resolver {

  import opened Strings

  /** The three branches of the per-type dispatch; the comparison ignores case. */
  datatype SvClass = DelOrDup | Breakend | OtherType

  function Classify(svType: string): SvClass
  {
    var t := Lower(svType);
    if t == "del" || t == "dup" then DelOrDup
    else if t == "bnd" then Breakend
    else OtherType
  }

  /** POSIX `os.path.join(dir, name)` for two components: an absolute `name` discards
      `dir`, and a slash is added only when `dir` does not already end with one. */
  function PathJoin(dir: string, name: string): string
  {
    if |name| > 0 && name[0] == '/' then name
    else if dir == [] || dir[|dir| - 1] == '/' then dir + name
    else dir + ("/" + name)
  }

  /** `'{}_{}_{}_{}.png'.format(sv_type, chrom, start, stop)` */
  function PlotFile(svType: string, chrom: string, start: string, stop: string): string
  {
    svType + "_" + chrom + "_" + start + "_" + stop + ".png"
  }

  /** `'{}_{}_{}_{}_{}.png'.format(sv_type, chrom, start, achrom, alt)` */
  function BreakendPlotFile(svType: string, chrom: string, start: string, mateChrom: string, matePos: string): string
  {
    svType + "_" + chrom + "_" + start + "_" + mateChrom + "_" + matePos + ".png"
  }

  /** The chromosome of a breakend's mate: the text before the first `:`, then what
      follows its last `[`, then what follows the last `]` of that. */
  function MateChrom(alt: string): string
  {
    var head := Split(alt, ':')[0];
    Last(Split(Last(Split(head, '[')), ']'))
  }

  /** The position of a breakend's mate: the text after the last `:`, then what precedes
      its first `[`, then what precedes the first `]` of that. */
  function MatePos(alt: string): string
  {
    var tail := Last(Split(alt, ':'));
    Split(Split(tail, '[')[0], ']')[0]
  }

  /** The candidate plot paths for one variant, in the order they are tried. */
  function Candidates(svType: string, chrom: string, start: string, stop: string, alt: string): (plots: seq<string>)
    ensures |plots| == if Classify(svType) == DelOrDup then 2 else 1
  {
    match Classify(svType)
    case DelOrDup =>
      [PathJoin("samplot", PlotFile(svType, chrom, start, stop)),
       PathJoin("plotting", PlotFile(svType, chrom, start, stop))]
    case Breakend =>
      [PathJoin("samplot", BreakendPlotFile(svType, chrom, start, MateChrom(alt), MatePos(alt)))]
    case OtherType =>
      [PathJoin("samplot", PlotFile(svType, chrom, start, stop))]
  }

  /** The first character of a type that classifies as del, dup or bnd is a letter. */
  lemma ClassifiedTypeStart(svType: string)
    requires Classify(svType) != OtherType
    ensures |svType| == 3 && svType[0] != '/'
  {
    LowerAt(svType, 0);
  }

  /** A name that is not absolute lands inside the plot directory. */
  lemma JoinUnder(name: string)
    requires |name| > 0 && name[0] != '/'
    ensures PathJoin("samplot", name) == "samplot/" + name
    ensures PathJoin("plotting", name) == "plotting/" + name
  {
    assert "samplot" + ("/" + name) == "samplot/" + name;
    assert "plotting" + ("/" + name) == "plotting/" + name;
  }

  /** The text after an opening bracket of either kind, cut after the last `[` and then
      after the last `]`, is what follows that bracket. */
  lemma AfterBracket(lead: string, open: char, chrom: string)
    requires open == '[' || open == ']'
    requires '[' !in chrom && ']' !in chrom
    ensures Last(Split(Last(Split(lead + [open] + chrom, '[')), ']')) == chrom
  {
    if open == '[' {
      LastOfSplit(lead, chrom, '[');
      SplitWithoutSep(chrom, ']');
    } else {
      assert lead + [open] + chrom == lead + ([open] + chrom);
      LastOfSplitAppend(lead, [open] + chrom, '[');
      var before := Last(Split(lead, '['));
      assert before + ([open] + chrom) == before + [']'] + chrom;
      LastOfSplit(before, chrom, ']');
    }
  }

  /** The text before a closing bracket of either kind, cut at the first `[` and then at
      the first `]`, is what precedes that bracket. */
  lemma BeforeBracket(pos: string, close: char, trail: string)
    requires close == '[' || close == ']'
    requires '[' !in pos && ']' !in pos
    ensures Split(Split(pos + [close] + trail, '[')[0], ']')[0] == pos
  {
    if close == '[' {
      HeadOfSplit(pos, trail, '[');
      SplitWithoutSep(pos, ']');
    } else {
      assert pos + [close] + trail == (pos + [close]) + trail;
      HeadOfSplitPrepend(pos + [close], trail, '[');
      var after := Split(trail, '[')[0];
      assert pos + [close] + after == pos + [']'] + after;
      HeadOfSplit(pos, after, ']');
    }
  }

  /** The parse recovers the mate written into breakend notation, whichever way either
      bracket points: `lead + open + chrom + ":" + pos + close + trail`, with `[` or `]`
      for `open` and `close`, gives back `chrom` and `pos`. */
  lemma MateRoundTrip(lead: string, open: char, chrom: string, pos: string, close: char, trail: string)
    requires open == '[' || open == ']'
    requires close == '[' || close == ']'
    requires ':' !in lead && ':' !in trail
    requires ':' !in chrom && '[' !in chrom && ']' !in chrom
    requires ':' !in pos && '[' !in pos && ']' !in pos
    ensures MateChrom(lead + [open] + chrom + ":" + pos + [close] + trail) == chrom
    ensures MatePos(lead + [open] + chrom + ":" + pos + [close] + trail) == pos
  {
    var alt := lead + [open] + chrom + ":" + pos + [close] + trail;
    var head := lead + [open] + chrom;
    var tail := pos + [close] + trail;
    assert alt == head + [':'] + tail;
    HeadOfSplit(head, tail, ':');
    LastOfSplit(head, tail, ':');
    AfterBracket(lead, open, chrom);
    BeforeBracket(pos, close, trail);
  }

  /** Deletions and duplications have two plots, the breakpoint plot first and the
      copy-number plot second, both named after the type as written. */
  lemma CandidatesDelDup(svType: string, chrom: string, start: string, stop: string, alt: string)
    requires Lower(svType) == "del" || Lower(svType) == "dup"
    ensures Candidates(svType, chrom, start, stop, alt)
      == ["samplot/" + PlotFile(svType, chrom, start, stop), "plotting/" + PlotFile(svType, chrom, start, stop)]
  {
    ClassifiedTypeStart(svType);
    JoinUnder(PlotFile(svType, chrom, start, stop));
  }

  /** A breakend has one plot, named after its own position and its mate's. */
  lemma CandidatesBreakend(svType: string, chrom: string, start: string, stop: string, alt: string)
    requires Lower(svType) == "bnd"
    ensures Candidates(svType, chrom, start, stop, alt)
      == ["samplot/" + BreakendPlotFile(svType, chrom, start, MateChrom(alt), MatePos(alt))]
  {
    ClassifiedTypeStart(svType);
    JoinUnder(BreakendPlotFile(svType, chrom, start, MateChrom(alt), MatePos(alt)));
  }

  /** Every other type has one breakpoint plot; only a type starting with a slash makes
      the joined path absolute, and then the directory is dropped. */
  lemma CandidatesOther(svType: string, chrom: string, start: string, stop: string, alt: string)
    requires Lower(svType) != "del" && Lower(svType) != "dup" && Lower(svType) != "bnd"
    ensures var name := PlotFile(svType, chrom, start, stop);
      Candidates(svType, chrom, start, stop, alt)
        == [if svType != [] && svType[0] == '/' then name else "samplot/" + name]
  {
    var name := PlotFile(svType, chrom, start, stop);
    if svType == [] {
      assert name[0] == '_';
    } else {
      assert name[0] == svType[0];
    }
    if name[0] != '/' {
      JoinUnder(name);
    }
  }

  /** The types of the examples below, lowered. */
  lemma LowerExamples()
    ensures Lower("DEL") == "del" && Lower("BND") == "bnd" && Lower("INV") == "inv"
  {
  }

  /** The name of the deletion example, spelled out. */
  lemma DeletionName()
    ensures PlotFile("DEL", "chr9", "68417082", "92137939") == "DEL_chr9_68417082_92137939.png"
  {
  }

  /** The breakpoint plot path of the deletion example, spelled out. */
  lemma DeletionSamplotPath()
    ensures "samplot/" + PlotFile("DEL", "chr9", "68417082", "92137939") == "samplot/DEL_chr9_68417082_92137939.png"
  {
    DeletionName();
  }

  /** The copy-number plot path of the deletion example, spelled out. */
  lemma DeletionPlottingPath()
    ensures "plotting/" + PlotFile("DEL", "chr9", "68417082", "92137939") == "plotting/DEL_chr9_68417082_92137939.png"
  {
    DeletionName();
  }

  /** A deletion on chr9. */
  lemma DeletionExample()
    ensures Candidates("DEL", "chr9", "68417082", "92137939", ".")
      == ["samplot/DEL_chr9_68417082_92137939.png", "plotting/DEL_chr9_68417082_92137939.png"]
  {
    LowerExamples();
    CandidatesDelDup("DEL", "chr9", "68417082", "92137939", ".");
    DeletionSamplotPath();
    DeletionPlottingPath();
  }

  /** The path of the breakend example, spelled out. */
  lemma BreakendPath()
    ensures "samplot/" + BreakendPlotFile("BND", "chr11", "49953211", "chrX", "10410866")
      == "samplot/BND_chr11_49953211_chrX_10410866.png"
  {
  }

  /** A breakend from chr11 to chrX, with the mate bracketed either way. */
  lemma BreakendExamples()
    ensures Candidates("BND", "chr11", "49953211", "49953212", "A[chrX:10410866[G")
      == ["samplot/BND_chr11_49953211_chrX_10410866.png"]
    ensures Candidates("BND", "chr11", "49953211", "49953212", "A]chrX:10410866]G")
      == ["samplot/BND_chr11_49953211_chrX_10410866.png"]
  {
    BreakendExample('[');
    ForwardAlt();
    BreakendExample(']');
    BackwardAlt();
  }

  /** The ALT of the breakend example with both brackets opening, spelled out. */
  lemma ForwardAlt()
    ensures "A" + ['['] + "chrX:10410866" + ['['] + "G" == "A[chrX:10410866[G"
  {
  }

  /** The ALT of the breakend example with both brackets closing, spelled out. */
  lemma BackwardAlt()
    ensures "A" + [']'] + "chrX:10410866" + [']'] + "G" == "A]chrX:10410866]G"
  {
  }

  /** One breakend, with both brackets of the mate pointing the given way. */
  lemma BreakendExample(bracket: char)
    requires bracket == '[' || bracket == ']'
    ensures Candidates("BND", "chr11", "49953211", "49953212", "A" + [bracket] + "chrX:10410866" + [bracket] + "G")
      == ["samplot/BND_chr11_49953211_chrX_10410866.png"]
  {
    var alt := "A" + [bracket] + "chrX:10410866" + [bracket] + "G";
    assert alt == "A" + [bracket] + "chrX" + ":" + "10410866" + [bracket] + "G";
    MateRoundTrip("A", bracket, "chrX", "10410866", bracket, "G");
    LowerExamples();
    CandidatesBreakend("BND", "chr11", "49953211", "49953212", alt);
    BreakendPath();
  }

  /** The path of the inversion example, spelled out. */
  lemma InversionPath()
    ensures "samplot/" + PlotFile("INV", "chr6", "24804833", "34375955") == "samplot/INV_chr6_24804833_34375955.png"
  {
  }

  /** An inversion on chr6. */
  lemma InversionExample()
    ensures Candidates("INV", "chr6", "24804833", "34375955", ".")
      == ["samplot/INV_chr6_24804833_34375955.png"]
  {
    LowerExamples();
    CandidatesOther("INV", "chr6", "24804833", "34375955", ".");
    InversionPath();
  }
}
