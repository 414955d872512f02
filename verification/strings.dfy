/** The handful of Python string and list operations the link annotator is built from:
    `str.split` on one character, `sep.join`, `str.replace`, the substring test `x in s`,
    `str.lower` and `list.insert`, each with the facts the rest of the model relies on. */
module Strings {

  /** `s.startswith(p)` */
  predicate StartsWith(s: string, p: string)
  {
    |p| <= |s| && s[..|p|] == p
  }

  /** `sub` occurs in `s` starting at position `i` */
  predicate OccursAt(s: string, sub: string, i: int)
  {
    0 <= i && i + |sub| <= |s| && s[i..i + |sub|] == sub
  }

  /** Python's substring test `sub in s` */
  predicate Contains(s: string, sub: string)
    decreases |s|
  {
    StartsWith(s, sub) || (|s| > 0 && Contains(s[1..], sub))
  }

  /** The scan agrees with the positional definition of a substring occurrence. */
  lemma {:induction false} ContainsIffOccurs(s: string, sub: string)
    ensures Contains(s, sub) <==> exists i :: OccursAt(s, sub, i)
    decreases |s|
  {
    if Contains(s, sub) {
      if StartsWith(s, sub) {
        assert OccursAt(s, sub, 0);
      } else {
        ContainsIffOccurs(s[1..], sub);
        var i :| OccursAt(s[1..], sub, i);
        assert s[1..][i..i + |sub|] == s[i + 1..i + 1 + |sub|];
        assert OccursAt(s, sub, i + 1);
      }
    }
    if exists i :: OccursAt(s, sub, i) {
      var i :| OccursAt(s, sub, i);
      if i == 0 {
        assert StartsWith(s, sub);
      } else {
        assert s[1..][i - 1..i - 1 + |sub|] == s[i..i + |sub|];
        assert OccursAt(s[1..], sub, i - 1);
        ContainsIffOccurs(s[1..], sub);
      }
    }
  }

  /** Inside an occurrence, the text and the pattern agree character by character. */
  lemma CharOfOccurrence(s: string, sub: string, i: int, j: int)
    requires OccursAt(s, sub, i)
    ensures i <= j < i + |sub| ==> 0 <= j < |s| && s[j] == sub[j - i]
  {
    if i <= j < i + |sub| {
      assert s[i..i + |sub|][j - i] == s[j];
    }
  }

  /** An occurrence in `a + b` that does not cross the last character of `a` lies in
      `a` or in `b`; occurrences in `a` or `b` are occurrences in `a + b`. */
  lemma OccursInParts(a: string, b: string, sub: string, i: int)
    ensures OccursAt(a, sub, i) ==> OccursAt(a + b, sub, i)
    ensures OccursAt(b, sub, i - |a|) ==> OccursAt(a + b, sub, i)
    ensures OccursAt(a + b, sub, i) && i + |sub| <= |a| ==> OccursAt(a, sub, i)
    ensures OccursAt(a + b, sub, i) && i >= |a| ==> OccursAt(b, sub, i - |a|)
  {
    if 0 <= i && i + |sub| <= |a| {
      assert a[i..i + |sub|] == (a + b)[i..i + |sub|];
    }
    if |a| <= i && i + |sub| <= |a| + |b| {
      assert b[i - |a|..i - |a| + |sub|] == (a + b)[i..i + |sub|];
    }
  }

  /** An occurrence cannot run across a character that `sub` does not contain, so a
      string that ends with such a character contains `sub` only on one side of it. */
  lemma {:induction false} ContainsAcrossFence(a: string, b: string, sub: string)
    requires |a| > 0 && a[|a| - 1] !in sub
    ensures Contains(a + b, sub) <==> Contains(a, sub) || Contains(b, sub)
  {
    ContainsIffOccurs(a + b, sub);
    ContainsIffOccurs(a, sub);
    ContainsIffOccurs(b, sub);
    if Contains(a + b, sub) {
      var i :| OccursAt(a + b, sub, i);
      CharOfOccurrence(a + b, sub, i, |a| - 1);
      OccursInParts(a, b, sub, i);
    }
    if Contains(a, sub) {
      var i :| OccursAt(a, sub, i);
      OccursInParts(a, b, sub, i);
    }
    if Contains(b, sub) {
      var i :| OccursAt(b, sub, i);
      OccursInParts(a, b, sub, |a| + i);
    }
  }

  /** `s.split(sep)` for a one-character separator: the pieces between the separators,
      always at least one (`"".split(":") == [""]`). */
  function Split(s: string, sep: char): (parts: seq<string>)
    ensures |parts| >= 1
    ensures forall k :: 0 <= k < |parts| ==> sep !in parts[k]
    decreases |s|
  {
    if s == [] then [[]]
    else
      var rest := Split(s[1..], sep);
      if s[0] == sep then [[]] + rest
      else [[s[0]] + rest[0]] + rest[1..]
  }

  /** `parts[-1]` */
  function Last(parts: seq<string>): string
    requires |parts| >= 1
  {
    parts[|parts| - 1]
  }

  /** `sep.join(parts)` */
  function Join(parts: seq<string>, sep: string): string
    decreases |parts|
  {
    if |parts| == 0 then []
    else if |parts| == 1 then parts[0]
    else parts[0] + sep + Join(parts[1..], sep)
  }

  /** Joining the pieces of a split with the separator gives back the original string. */
  lemma {:induction false} JoinSplit(s: string, sep: char)
    ensures Join(Split(s, sep), [sep]) == s
    decreases |s|
  {
    if s != [] {
      var rest := Split(s[1..], sep);
      JoinSplit(s[1..], sep);
      if s[0] != sep && |rest| > 1 {
        assert ([[s[0]] + rest[0]] + rest[1..])[1..] == rest[1..];
        assert Join(rest, [sep]) == rest[0] + [sep] + Join(rest[1..], [sep]);
      }
      assert s == [s[0]] + s[1..];
    }
  }

  /** A string without the separator is a single piece. */
  lemma {:induction false} SplitWithoutSep(s: string, sep: char)
    requires sep !in s
    ensures Split(s, sep) == [s]
    decreases |s|
  {
    if s != [] {
      SplitWithoutSep(s[1..], sep);
      assert s == [s[0]] + s[1..];
    }
  }

  /** Splitting at one separator splits the two sides independently. */
  lemma {:induction false} SplitAtSep(a: string, b: string, sep: char)
    ensures Split(a + [sep] + b, sep) == Split(a, sep) + Split(b, sep)
    decreases |a|
  {
    if a == [] {
      assert a + [sep] + b == [sep] + b;
      assert ([sep] + b)[1..] == b;
    } else {
      SplitAtSep(a[1..], b, sep);
      PrependSplit(a[0], a[1..] + [sep] + b, a[1..], Split(b, sep), sep);
      assert a + [sep] + b == [a[0]] + (a[1..] + [sep] + b);
      assert a == [a[0]] + a[1..];
    }
  }

  /** A leading separator closes an empty first piece. */
  lemma SplitConsSep(t: string, sep: char)
    ensures Split([sep] + t, sep) == [[]] + Split(t, sep)
  {
    assert ([sep] + t)[1..] == t;
  }

  /** Any other leading character joins the first piece of the rest. */
  lemma SplitConsKeep(c: char, t: string, sep: char)
    requires c != sep
    ensures Split([c] + t, sep) == [[c] + Split(t, sep)[0]] + Split(t, sep)[1..]
  {
    assert ([c] + t)[0] == c && ([c] + t)[1..] == t;
  }

  /** Prepending a character to two strings whose splits differ by trailing pieces `rb`
      keeps that difference. */
  lemma PrependSplit(c: char, x: string, y: string, rb: seq<string>, sep: char)
    requires Split(x, sep) == Split(y, sep) + rb
    ensures Split([c] + x, sep) == Split([c] + y, sep) + rb
  {
    if c == sep {
      SplitConsSep(x, sep);
      SplitConsSep(y, sep);
      assert [[]] + (Split(y, sep) + rb) == ([[]] + Split(y, sep)) + rb;
    } else {
      SplitConsKeep(c, x, sep);
      SplitConsKeep(c, y, sep);
      ExtendFirstPiece(c, Split(y, sep), rb);
    }
  }

  /** Extending the first piece of `ra + rb` is extending the first piece of `ra`. */
  lemma ExtendFirstPiece(c: char, ra: seq<string>, rb: seq<string>)
    requires |ra| >= 1
    ensures [[c] + (ra + rb)[0]] + (ra + rb)[1..] == ([[c] + ra[0]] + ra[1..]) + rb
  {
    assert (ra + rb)[1..] == ra[1..] + rb;
  }

  /** Splitting a join of separator-free pieces gives back the pieces. */
  lemma {:induction false} SplitJoin(parts: seq<string>, sep: char)
    requires |parts| >= 1
    requires forall k :: 0 <= k < |parts| ==> sep !in parts[k]
    ensures Split(Join(parts, [sep]), sep) == parts
    decreases |parts|
  {
    SplitWithoutSep(parts[0], sep);
    if |parts| > 1 {
      SplitJoin(parts[1..], sep);
      SplitAtSep(parts[0], Join(parts[1..], [sep]), sep);
      assert parts == [parts[0]] + parts[1..];
    }
  }

  /** `s.split(sep)[0]` is the longest prefix of `s` free of `sep`. */
  lemma {:induction false} SplitHead(s: string, sep: char)
    ensures var h := Split(s, sep)[0];
      |h| <= |s| && h == s[..|h|] && sep !in h && (|h| < |s| ==> s[|h|] == sep)
    decreases |s|
  {
    if s != [] && s[0] != sep {
      SplitHead(s[1..], sep);
    }
  }

  /** The last piece of `a + [sep] + b` is the last piece of `b`. */
  lemma LastOfSplitRest(a: string, b: string, sep: char)
    ensures Last(Split(a + [sep] + b, sep)) == Last(Split(b, sep))
  {
    SplitAtSep(a, b, sep);
  }

  /** `s.split(sep)[-1]` is the longest suffix of `s` free of `sep`. */
  lemma {:induction false} SplitLast(s: string, sep: char)
    ensures var t := Last(Split(s, sep));
      |t| <= |s| && t == s[|s| - |t|..] && sep !in t && (|t| < |s| ==> s[|s| - |t| - 1] == sep)
    decreases |s|
  {
    if sep !in s {
      SplitWithoutSep(s, sep);
    } else {
      SplitHead(s, sep);
      var h := Split(s, sep)[0];
      if |h| == |s| {
        assert false;
      }
      var rest := s[|h| + 1..];
      assert s == h + [sep] + rest;
      LastOfSplitRest(h, rest, sep);
      SplitLast(rest, sep);
      var t := Last(Split(rest, sep));
      assert s[|s| - |t|..] == rest[|rest| - |t|..];
    }
  }

  /** The first piece of `a + [sep] + b` is `a` when `a` is free of `sep`. */
  lemma {:induction false} HeadOfSplit(a: string, b: string, sep: char)
    requires sep !in a
    ensures Split(a + [sep] + b, sep)[0] == a
  {
    SplitAtSep(a, b, sep);
    SplitWithoutSep(a, sep);
  }

  /** The last piece of `a + [sep] + b` is `b` when `b` is free of `sep`. */
  lemma {:induction false} LastOfSplit(a: string, b: string, sep: char)
    requires sep !in b
    ensures Last(Split(a + [sep] + b, sep)) == b
  {
    SplitAtSep(a, b, sep);
    SplitWithoutSep(b, sep);
  }

  /** Prepending separator-free text to a string extends its first piece. */
  lemma {:induction false} HeadOfSplitPrepend(a: string, b: string, sep: char)
    requires sep !in a
    ensures Split(a + b, sep)[0] == a + Split(b, sep)[0]
    decreases |a|
  {
    if a != [] {
      assert (a + b)[0] == a[0] && (a + b)[1..] == a[1..] + b;
      HeadOfSplitPrepend(a[1..], b, sep);
      assert Split(a + b, sep)[0] == [a[0]] + Split(a[1..] + b, sep)[0];
      assert a + Split(b, sep)[0] == [a[0]] + (a[1..] + Split(b, sep)[0]);
    } else {
      assert a + b == b;
    }
  }

  /** Appending separator-free text to a string extends its last piece. */
  lemma {:induction false} LastOfSplitAppend(a: string, b: string, sep: char)
    requires sep !in b
    ensures Last(Split(a + b, sep)) == Last(Split(a, sep)) + b
    decreases |a|
  {
    if sep !in a {
      SplitWithoutSep(a, sep);
      SplitWithoutSep(a + b, sep);
    } else {
      SplitHead(a, sep);
      var h := Split(a, sep)[0];
      if |h| == |a| {
        assert false;
      }
      var rest := a[|h| + 1..];
      assert a == h + [sep] + rest;
      assert a + b == h + [sep] + (rest + b);
      LastOfSplitRest(h, rest, sep);
      LastOfSplitRest(h, rest + b, sep);
      LastOfSplitAppend(rest, b, sep);
    }
  }

  /** `s.replace(pat, rep)`: every occurrence of `pat`, found left to right without
      overlap, is replaced; the inserted text is not scanned again. */
  function Replace(s: string, pat: string, rep: string): string
    requires |pat| > 0
    decreases |s|
  {
    if StartsWith(s, pat) then rep + Replace(s[|pat|..], pat, rep)
    else if s == [] then []
    else [s[0]] + Replace(s[1..], pat, rep)
  }

  /** Replacing a pattern that does not occur changes nothing. */
  lemma {:induction false} ReplaceAbsent(s: string, pat: string, rep: string)
    requires |pat| > 0 && !Contains(s, pat)
    ensures Replace(s, pat, rep) == s
    decreases |s|
  {
    if s != [] {
      ReplaceAbsent(s[1..], pat, rep);
      assert s == [s[0]] + s[1..];
    }
  }

  /** No occurrence of `pat` can straddle the boundary of `a + b` when the last character
      of `a` or the first character of `b` is not in `pat`. */
  predicate Fenced(a: string, b: string, pat: string)
  {
    a == [] || a[|a| - 1] !in pat || (b != [] && b[0] !in pat)
  }

  /** Across a fence, an occurrence at the start of `a + b` lies inside `a`. */
  lemma FencedStart(a: string, b: string, pat: string)
    requires |pat| > 0 && |a| > 0 && Fenced(a, b, pat) && StartsWith(a + b, pat)
    ensures |pat| <= |a| && StartsWith(a, pat) && (a + b)[|pat|..] == a[|pat|..] + b
    ensures Fenced(a[|pat|..], b, pat)
  {
    assert OccursAt(a + b, pat, 0);
    CharOfOccurrence(a + b, pat, 0, |a| - 1);
    CharOfOccurrence(a + b, pat, 0, |a|);
    assert (a + b)[..|pat|] == a[..|pat|];
  }

  /** When `a + b` does not start with the pattern, neither does a non-empty `a`. */
  lemma UnfencedStart(a: string, b: string, pat: string)
    requires |a| > 0 && Fenced(a, b, pat) && !StartsWith(a + b, pat)
    ensures !StartsWith(a, pat) && (a + b)[0] == a[0] && (a + b)[1..] == a[1..] + b
    ensures Fenced(a[1..], b, pat)
  {
    if |pat| <= |a| {
      assert (a + b)[..|pat|] == a[..|pat|];
    }
  }

  /** Across a fence, replacing in the whole is replacing in each part. */
  lemma {:induction false} ReplaceAcrossFence(a: string, b: string, pat: string, rep: string)
    requires |pat| > 0 && Fenced(a, b, pat)
    ensures Replace(a + b, pat, rep) == Replace(a, pat, rep) + Replace(b, pat, rep)
    decreases |a|
  {
    if a == [] {
      assert a + b == b;
    } else if StartsWith(a + b, pat) {
      FencedStart(a, b, pat);
      ReplaceAcrossFence(a[|pat|..], b, pat, rep);
      ReplaceMatchThenRest(a, b, pat, rep);
    } else {
      UnfencedStart(a, b, pat);
      ReplaceAcrossFence(a[1..], b, pat, rep);
      ReplaceSkipThenRest(a, b, pat, rep);
    }
  }

  /** An occurrence at the start of `a` is replaced first in `a + b` and in `a` alike,
      so the split law for the remainder of `a` extends to all of `a`. */
  lemma ReplaceMatchThenRest(a: string, b: string, pat: string, rep: string)
    requires |pat| > 0 && |pat| <= |a| && StartsWith(a, pat) && StartsWith(a + b, pat)
    requires (a + b)[|pat|..] == a[|pat|..] + b
    requires Replace(a[|pat|..] + b, pat, rep) == Replace(a[|pat|..], pat, rep) + Replace(b, pat, rep)
    ensures Replace(a + b, pat, rep) == Replace(a, pat, rep) + Replace(b, pat, rep)
  {
    var a' := a[|pat|..];
    assert Replace(a + b, pat, rep) == rep + Replace(a' + b, pat, rep);
    assert Replace(a, pat, rep) == rep + Replace(a', pat, rep);
    assert rep + (Replace(a', pat, rep) + Replace(b, pat, rep))
        == (rep + Replace(a', pat, rep)) + Replace(b, pat, rep);
  }

  /** A first character of `a` that starts no occurrence is kept in `a + b` and in `a`
      alike, so the split law for the rest of `a` extends to all of `a`. */
  lemma ReplaceSkipThenRest(a: string, b: string, pat: string, rep: string)
    requires |pat| > 0 && |a| > 0 && !StartsWith(a, pat) && !StartsWith(a + b, pat)
    requires (a + b)[0] == a[0] && (a + b)[1..] == a[1..] + b
    requires Replace(a[1..] + b, pat, rep) == Replace(a[1..], pat, rep) + Replace(b, pat, rep)
    ensures Replace(a + b, pat, rep) == Replace(a, pat, rep) + Replace(b, pat, rep)
  {
    var a' := a[1..];
    assert Replace(a + b, pat, rep) == [a[0]] + Replace(a' + b, pat, rep);
    assert Replace(a, pat, rep) == [a[0]] + Replace(a', pat, rep);
    assert [a[0]] + (Replace(a', pat, rep) + Replace(b, pat, rep))
        == ([a[0]] + Replace(a', pat, rep)) + Replace(b, pat, rep);
  }

  /** Replacing a pattern that occurs once, between a head and a rest that cannot
      reach into it, puts the replacement in its place. */
  lemma ReplaceSingle(head: string, pat: string, rest: string, rep: string)
    requires |pat| > 0 && !Contains(head, pat) && !Contains(rest, pat)
    requires head == [] || head[|head| - 1] !in pat
    ensures Replace(head + (pat + rest), pat, rep) == head + (rep + rest)
  {
    ReplaceAcrossFence(head, pat + rest, pat, rep);
    ReplaceAbsent(head, pat, rep);
    assert StartsWith(pat + rest, pat);
    assert (pat + rest)[|pat|..] == rest;
    ReplaceAbsent(rest, pat, rep);
  }

  /** ASCII `str.lower` on one character */
  function LowerChar(c: char): char
  {
    if 'A' <= c <= 'Z' then (c as int + 32) as char else c
  }

  /** `s.lower()`, ASCII letters only */
  function Lower(s: string): string
    decreases |s|
  {
    if s == [] then [] else [LowerChar(s[0])] + Lower(s[1..])
  }

  /** Lowering keeps the length and lowers character by character. */
  lemma {:induction false} LowerAt(s: string, i: nat)
    requires i < |s|
    ensures |Lower(s)| == |s| && Lower(s)[i] == LowerChar(s[i])
    decreases |s|
  {
    if i > 0 {
      LowerAt(s[1..], i - 1);
    } else if |s| > 1 {
      LowerAt(s[1..], 0);
    }
  }

  /** Python's `row.insert(i, x)`: an index past the end appends. Removing the inserted
      element gives the row back. */
  function Insert<T>(row: seq<T>, i: nat, x: T): (r: seq<T>)
    ensures |r| == |row| + 1
    ensures var j := if i <= |row| then i else |row|;
      r[j] == x && r[..j] + r[j + 1..] == row
  {
    if i <= |row| then
      assert (row[..i] + [x] + row[i..])[i + 1..] == row[i..];
      row[..i] + [x] + row[i..]
    else row + [x]
  }

  /** `sub` is `s` with some elements dropped and the rest kept in order. */
  predicate IsSubsequence<T(==)>(sub: seq<T>, s: seq<T>)
    decreases |s|
  {
    sub == [] || (s != [] && ((sub[0] == s[0] && IsSubsequence(sub[1..], s[1..])) || IsSubsequence(sub, s[1..])))
  }

  /** Extending both sides of a subsequence by one element, or only the larger side. */
  lemma {:induction false} SubsequenceExtend<T>(sub: seq<T>, s: seq<T>, x: T, keep: bool)
    requires IsSubsequence(sub, s)
    ensures IsSubsequence(sub + (if keep then [x] else []), s + [x])
    decreases |s|
  {
    var sub' := sub + (if keep then [x] else []);
    if s == [] {
      assert sub == [];
      if keep {
        assert sub' == [x] && s + [x] == [x];
        assert IsSubsequence(sub'[1..], (s + [x])[1..]);
      }
    } else if sub == [] {
      if keep {
        assert IsSubsequence([], s);
        SubsequenceExtend([], s[1..], x, true);
        assert (s + [x])[1..] == s[1..] + [x];
      }
    } else {
      assert (s + [x])[1..] == s[1..] + [x];
      if sub[0] == s[0] && IsSubsequence(sub[1..], s[1..]) {
        SubsequenceExtend(sub[1..], s[1..], x, keep);
        assert sub'[1..] == sub[1..] + (if keep then [x] else []);
      } else {
        SubsequenceExtend(sub, s[1..], x, keep);
      }
    }
  }
}
