/** The link assembler: keeps the candidate plots that exist and renders a bootstrap
    button for each. Whether a file exists is given as the set of paths that exist,
    relative to the working directory. */
module Links {

  import opened Strings
  import opened Resolver

  /** `button_template`, in three fixed pieces around its two placeholders */
  const ButtonHead: string := "<a class=\"btn btn-primary\" href=\""
  const ButtonMid: string := "\" target=\"_blank\" role=\"button\">"
  const ButtonTail: string := "</a>"
  /** What follows the path placeholder */
  const ButtonRest: string := ButtonMid + ("__type__" + ButtonTail)
  const ButtonTemplate: string := ButtonHead + ("__uri__" + ButtonRest)

  /** `[plt for plt in plots if os.path.exists(plt)]` */
  function Existing(plots: seq<string>, existing: set<string>): (kept: seq<string>)
    ensures |kept| <= |plots|
    decreases |plots|
  {
    if plots == [] then []
    else
      assert plots == [plots[0]] + plots[1..];
      (if plots[0] in existing then [plots[0]] else []) + Existing(plots[1..], existing)
  }

  /** A path is kept exactly when it is a candidate and exists. */
  lemma {:induction false} ExistingMembers(plots: seq<string>, existing: set<string>)
    ensures forall p :: p in Existing(plots, existing) <==> p in plots && p in existing
    decreases |plots|
  {
    if plots != [] {
      ExistingMembers(plots[1..], existing);
      assert plots == [plots[0]] + plots[1..];
    }
  }

  /** The filter keeps every copy of an existing path and no copy of a missing one. */
  lemma {:induction false} ExistingCounts(plots: seq<string>, existing: set<string>, p: string)
    ensures multiset(Existing(plots, existing))[p] == if p in existing then multiset(plots)[p] else 0
    decreases |plots|
  {
    if plots != [] {
      ExistingCounts(plots[1..], existing, p);
      assert plots == [plots[0]] + plots[1..];
    }
  }

  /** When no candidate exists the filter keeps nothing; when all exist it keeps them all. */
  lemma {:induction false} ExistingExtremes(plots: seq<string>, existing: set<string>)
    ensures (forall p :: p in plots ==> p !in existing) ==> Existing(plots, existing) == []
    ensures (forall p :: p in plots ==> p in existing) ==> Existing(plots, existing) == plots
    decreases |plots|
  {
    if plots != [] {
      ExistingExtremes(plots[1..], existing);
      assert plots[0] in plots;
      assert forall p :: p in plots[1..] ==> p in plots;
      assert plots == [plots[0]] + plots[1..];
    }
  }

  /** The filter keeps the order of the candidates. */
  lemma {:induction false} ExistingInOrder(plots: seq<string>, existing: set<string>)
    ensures IsSubsequence(Existing(plots, existing), plots)
    decreases |plots|
  {
    if plots != [] {
      ExistingInOrder(plots[1..], existing);
      var rest := Existing(plots[1..], existing);
      if plots[0] in existing {
        assert Existing(plots, existing) == [plots[0]] + rest;
        assert ([plots[0]] + rest)[1..] == rest;
      } else {
        assert Existing(plots, existing) == rest;
        if rest != [] {
          assert IsSubsequence(rest, plots[1..]);
        }
      }
    }
  }

  /** The button caption: a path mentioning `plotting` anywhere is a copy-number plot. */
  function Label(path: string): string
  {
    if Contains(path, "plotting") then "CN plot" else "SV plot"
  }

  /** `button_template.replace('__uri__', plt).replace('__type__', caption)` */
  function Button(path: string): string
  {
    Replace(Replace(ButtonTemplate, "__uri__", path), "__type__", Label(path))
  }

  /** `[button(plt) for plt in plots]` */
  function Markup(plots: seq<string>): (html: seq<string>)
  {
    seq(|plots|, i requires 0 <= i < |plots| => Button(plots[i]))
  }

  /** A pattern cannot occur in a string that lacks one pair of its adjacent characters. */
  lemma AbsentByPair(s: string, pat: string, k: nat)
    requires k + 1 < |pat|
    requires forall i :: 0 <= i < |s| - 1 ==> !(s[i] == pat[k] && s[i + 1] == pat[k + 1])
    ensures !Contains(s, pat)
  {
    ContainsIffOccurs(s, pat);
    if Contains(s, pat) {
      var i :| OccursAt(s, pat, i);
      CharOfOccurrence(s, pat, i, i + k);
      CharOfOccurrence(s, pat, i, i + k + 1);
    }
  }

  /** Every character of an occurrence of a pattern is a character of the string. */
  lemma CharInOccurrence(s: string, pat: string, i: int, k: nat)
    requires k < |pat|
    ensures OccursAt(s, pat, i) ==> pat[k] in s
  {
    if OccursAt(s, pat, i) {
      CharOfOccurrence(s, pat, i, i + k);
    }
  }

  /** A pattern cannot occur in a string that lacks one of its characters. */
  lemma AbsentByChar(s: string, pat: string, k: nat)
    requires k < |pat| && pat[k] !in s
    ensures !Contains(s, pat)
  {
    forall i
      ensures !OccursAt(s, pat, i)
    {
      CharInOccurrence(s, pat, i, k);
    }
    ContainsIffOccurs(s, pat);
  }

  /** Neither the head nor the tail of the template has an underscore. */
  lemma NoUnderscores()
    ensures '_' !in ButtonHead && '_' !in ButtonTail
  {
  }

  /** The head of the template holds neither placeholder. */
  lemma HeadFree()
    ensures !Contains(ButtonHead, "__uri__") && !Contains(ButtonHead, "__type__")
  {
    NoUnderscores();
    AbsentByChar(ButtonHead, "__uri__", 0);
    AbsentByChar(ButtonHead, "__type__", 0);
  }

  /** The text between the placeholders holds no caption placeholder. */
  lemma MidFreeOfType()
    ensures !Contains(ButtonMid, "__type__")
  {
    AbsentByPair(ButtonMid, "__type__", 0);
  }

  /** The tail of the template holds no caption placeholder. */
  lemma TailFree()
    ensures !Contains(ButtonTail, "__type__")
  {
    NoUnderscores();
    AbsentByChar(ButtonTail, "__type__", 0);
  }

  /** After the path placeholder the template holds no second one. */
  lemma RestFree()
    ensures !Contains(ButtonRest, "__uri__")
  {
    AbsentByPair(ButtonRest, "__uri__", 1);
  }

  /** The characters at the seams of the template are not placeholder characters. */
  lemma Seams()
    ensures ButtonHead[|ButtonHead| - 1] == '"' && ButtonMid[0] == '"' && ButtonMid[|ButtonMid| - 1] == '>'
    ensures '"' !in "__uri__" && '"' !in "__type__" && '>' !in "__type__"
  {
  }

  /** The last character of the head is no placeholder character. */
  lemma HeadFence()
    ensures ButtonHead[|ButtonHead| - 1] !in "__uri__" && ButtonHead[|ButtonHead| - 1] !in "__type__"
  {
  }

  /** Filling the path into the template puts it between the head and the rest. */
  lemma FillUri(path: string)
    ensures Replace(ButtonTemplate, "__uri__", path) == ButtonHead + (path + ButtonRest)
  {
    HeadFree();
    RestFree();
    HeadFence();
    ReplaceSingle(ButtonHead, "__uri__", ButtonRest, path);
  }

  /** Filling the caption into the text after the path placeholder replaces exactly the
      placeholder. */
  lemma FillTypeRest(caption: string)
    ensures Replace(ButtonRest, "__type__", caption) == ButtonMid + (caption + ButtonTail)
  {
    MidFreeOfType();
    TailFree();
    Seams();
    var pat := "__type__";
    ReplaceAcrossFence(ButtonMid, pat + ButtonTail, pat, caption);
    ReplaceAbsent(ButtonMid, pat, caption);
    assert StartsWith(pat + ButtonTail, pat);
    assert (pat + ButtonTail)[|pat|..] == ButtonTail;
    ReplaceAbsent(ButtonTail, pat, caption);
  }

  /** Filling the caption replaces the placeholder after the path, and every `__type__`
      inside the path as well. */
  lemma FillType(path: string, caption: string)
    ensures Replace(ButtonHead + (path + ButtonRest), "__type__", caption)
      == ButtonHead + (Replace(path, "__type__", caption) + (ButtonMid + (caption + ButtonTail)))
  {
    HeadFree();
    Seams();
    var pat := "__type__";
    ReplaceAcrossFence(ButtonHead, path + ButtonRest, pat, caption);
    ReplaceAbsent(ButtonHead, pat, caption);
    assert ButtonRest[0] == '"';
    ReplaceAcrossFence(path, ButtonRest, pat, caption);
    FillTypeRest(caption);
  }

  /** Five concatenated strings read the same grouped either way. */
  lemma Regroup(a: string, b: string, c: string, d: string, e: string)
    ensures a + (b + (c + (d + e))) == a + b + c + d + e
  {
  }

  /** Element `i` of the markup is a button linking to path `i`, captioned "CN plot"
      exactly when the path mentions `plotting`; a `__type__` inside the path is
      replaced by the caption too, because the second replacement runs over the
      whole filled template. */
  lemma MarkupAt(plots: seq<string>, i: nat)
    requires i < |plots|
    ensures |Markup(plots)| == |plots|
    ensures var caption := if Contains(plots[i], "plotting") then "CN plot" else "SV plot";
      Markup(plots)[i] == ButtonHead + Replace(plots[i], "__type__", caption) + ButtonMid + caption + ButtonTail
  {
    var path := plots[i];
    var caption := Label(path);
    FillUri(path);
    FillType(path, caption);
    Regroup(ButtonHead, Replace(path, "__type__", caption), ButtonMid, caption, ButtonTail);
  }

  /** For a path free of `__type__` the button links to exactly that path. */
  lemma MarkupPlainAt(plots: seq<string>, i: nat)
    requires i < |plots| && !Contains(plots[i], "__type__")
    ensures var caption := if Contains(plots[i], "plotting") then "CN plot" else "SV plot";
      Markup(plots)[i] == ButtonHead + plots[i] + ButtonMid + caption + ButtonTail
  {
    MarkupAt(plots, i);
    ReplaceAbsent(plots[i], "__type__", Label(plots[i]));
  }

  /** For a deletion or duplication whose file name does not mention `plotting`, the
      breakpoint plot is captioned "SV plot" and the copy-number plot "CN plot". */
  lemma DelDupLabels(svType: string, chrom: string, start: string, stop: string, alt: string)
    requires Lower(svType) == "del" || Lower(svType) == "dup"
    requires !Contains(PlotFile(svType, chrom, start, stop), "plotting")
    ensures var plots := Candidates(svType, chrom, start, stop, alt);
      Label(plots[0]) == "SV plot" && Label(plots[1]) == "CN plot"
  {
    var name := PlotFile(svType, chrom, start, stop);
    CandidatesDelDup(svType, chrom, start, stop, alt);
    assert StartsWith("plotting/" + name, "plotting");
    AbsentByPair("samplot/", "plotting", 3);
    ContainsAcrossFence("samplot/", name, "plotting");
  }
}
