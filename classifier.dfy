/**
 The scam heuristic of the job analysis page: a description is lower-cased,
 the fixed red-flag phrases it contains are collected in list order, two or
 more of them flag the posting as fake, and the reasons shown are one line per
 matched phrase (fake) or a fixed two-line message (legitimate).
 */
module Classifier {
  import opened Strings

  /** The ten red-flag phrases, in the order the page checks them. */
  const RedFlags: seq<string> := [
    "immediate start",
    "work from home",
    "no experience required",
    "high salary",
    "urgent hiring",
    "perfect for students",
    "unlimited earning potential",
    "no interview",
    "money back guarantee",
    "easy money"
  ]

  /** How many phrases must match before a posting is flagged. */
  const FakeThreshold: nat := 2

  /** The reasons shown for a posting that is not flagged. */
  const LegitimateReasons: seq<string> := [
    "No common red flags detected",
    "Job description appears to be legitimate"
  ]

  /** Text before the quoted phrase in a reason line. */
  const ReasonPrefix: string := "Contains suspicious phrase: \""

  /** The verdict and the explanation shown with it. */
  datatype AnalysisResult = AnalysisResult(isFake: bool, reasons: seq<string>)

  /** No element occurs twice. */
  ghost predicate Distinct<T>(s: seq<T>) {
    forall i, j :: 0 <= i < j < |s| ==> s[i] != s[j]
  }

  /** `a` is obtained from `b` by deleting elements, keeping the order of
      the rest. */
  ghost predicate IsSubsequence<T>(a: seq<T>, b: seq<T>)
    decreases |b|
  {
    a == [] ||
    (b != [] && ((a[0] == b[0] && IsSubsequence(a[1..], b[1..])) || IsSubsequence(a, b[1..])))
  }

  lemma {:induction false} SubsequenceLength<T>(a: seq<T>, b: seq<T>)
    requires IsSubsequence(a, b)
    ensures |a| <= |b|
    decreases |b|
  {
    if a != [] {
      if a[0] == b[0] && IsSubsequence(a[1..], b[1..]) {
        SubsequenceLength(a[1..], b[1..]);
      } else {
        SubsequenceLength(a, b[1..]);
      }
    }
  }

  lemma {:induction false} SubsequenceMembers<T>(a: seq<T>, b: seq<T>)
    requires IsSubsequence(a, b)
    ensures forall x :: x in a ==> x in b
    decreases |b|
  {
    if a != [] {
      if a[0] == b[0] && IsSubsequence(a[1..], b[1..]) {
        SubsequenceMembers(a[1..], b[1..]);
        assert forall x :: x in a ==> x == a[0] || x in a[1..];
      } else {
        SubsequenceMembers(a, b[1..]);
      }
    }
  }

  /** A subsequence of a list without duplicates has no duplicates. */
  lemma {:induction false} SubsequenceDistinct<T>(a: seq<T>, b: seq<T>)
    requires IsSubsequence(a, b) && Distinct(b)
    ensures Distinct(a)
    decreases |b|
  {
    if a != [] {
      if a[0] == b[0] && IsSubsequence(a[1..], b[1..]) {
        SubsequenceDistinct(a[1..], b[1..]);
        SubsequenceMembers(a[1..], b[1..]);
        forall j | 0 < j < |a| ensures a[0] != a[j] {
          assert a[j] == a[1..][j - 1];
          assert a[j] in b[1..];
        }
      } else {
        SubsequenceDistinct(a, b[1..]);
      }
    }
  }

  /** A list without duplicates has as many distinct elements as entries. */
  lemma {:induction false} DistinctCardinality<T>(s: seq<T>)
    requires Distinct(s)
    ensures |set x | x in s| == |s|
  {
    if s != [] {
      DistinctCardinality(s[1..]);
      assert s[0] !in s[1..];
      assert (set x | x in s) == {s[0]} + (set x | x in s[1..]);
    }
  }

  /** The ten phrases are pairwise different. */
  lemma RedFlagsDistinct()
    ensures Distinct(RedFlags)
  {
  }

  /** The ten phrases are already lower case, so the page's
      `flag.toLowerCase()` leaves each one as it is. */
  lemma RedFlagsLowerCase()
    ensures forall f :: f in RedFlags ==> Lower(f) == f
  {
    forall k, i | 0 <= k < |RedFlags| && 0 <= i < |RedFlags[k]|
      ensures !IsUpper(RedFlags[k][i])
    {
    }
    forall f | f in RedFlags ensures Lower(f) == f {
      LowerOfLowerCase(f);
    }
  }

  /** The reason line for one matched phrase: the prefix, the phrase, a
      closing quote. */
  function Reason(flag: string): (line: string)
    ensures |line| == |ReasonPrefix| + |flag| + 1
    ensures line[..|ReasonPrefix|] == ReasonPrefix
    ensures line[|ReasonPrefix|..|line| - 1] == flag
    ensures line[|line| - 1] == '"'
  {
    ReasonPrefix + flag + "\""
  }

  /** Different phrases give different reason lines. */
  lemma ReasonInjective(f: string, g: string)
    ensures Reason(f) == Reason(g) <==> f == g
  {
    if Reason(f) == Reason(g) {
      calc {
        f;
        Reason(f)[|ReasonPrefix|..|Reason(f)| - 1];
        Reason(g)[|ReasonPrefix|..|Reason(g)| - 1];
        g;
      }
    }
  }

  /** The page's `map` from matched phrases to reason lines. */
  function ReasonLines(flags: seq<string>): (lines: seq<string>)
    ensures |lines| == |flags|
    ensures forall i :: 0 <= i < |flags| ==> lines[i] == Reason(flags[i])
  {
    seq(|flags|, i requires 0 <= i < |flags| => Reason(flags[i]))
  }

  /** A reason line is listed exactly when its phrase is. */
  lemma ReasonLinesMembers(flags: seq<string>, f: string)
    ensures Reason(f) in ReasonLines(flags) <==> f in flags
  {
    if Reason(f) in ReasonLines(flags) {
      var i :| 0 <= i < |flags| && ReasonLines(flags)[i] == Reason(f);
      ReasonInjective(flags[i], f);
    }
  }

  /** Mapping to reason lines keeps the subsequence relation. */
  lemma {:induction false} ReasonLinesSubsequence(a: seq<string>, b: seq<string>)
    requires IsSubsequence(a, b)
    ensures IsSubsequence(ReasonLines(a), ReasonLines(b))
    decreases |b|
  {
    if a != [] {
      assert ReasonLines(b)[1..] == ReasonLines(b[1..]);
      if a[0] == b[0] && IsSubsequence(a[1..], b[1..]) {
        ReasonLinesSubsequence(a[1..], b[1..]);
        assert ReasonLines(a)[1..] == ReasonLines(a[1..]);
      } else {
        ReasonLinesSubsequence(a, b[1..]);
      }
    }
  }

  /** Mapping to reason lines keeps a list free of duplicates. */
  lemma ReasonLinesDistinct(flags: seq<string>)
    requires Distinct(flags)
    ensures Distinct(ReasonLines(flags))
  {
    forall i, j | 0 <= i < j < |flags| ensures ReasonLines(flags)[i] != ReasonLines(flags)[j] {
      ReasonInjective(flags[i], flags[j]);
    }
  }

  /** The page's `filter`: the phrases of `flags` whose lower-cased form
      occurs in `lowered`, in the order of `flags`. */
  function FilterFlags(flags: seq<string>, lowered: string): (found: seq<string>)
    ensures IsSubsequence(found, flags)
    ensures forall f :: f in found <==> f in flags && Occurs(Lower(f), lowered)
  {
    if flags == [] then []
    else
      var rest := FilterFlags(flags[1..], lowered);
      assert forall f :: f in flags <==> f == flags[0] || f in flags[1..];
      if Includes(lowered, Lower(flags[0])) then [flags[0]] + rest else rest
  }

  /** The matched phrases of a description (`foundRedFlags`). */
  function Matches(description: string): (found: seq<string>)
    ensures IsSubsequence(found, RedFlags)
    ensures Distinct(found) && |found| <= |RedFlags|
    ensures forall f :: f in found <==> f in RedFlags && Occurs(f, Lower(description))
  {
    var found := FilterFlags(RedFlags, Lower(description));
    RedFlagsLowerCase();
    RedFlagsDistinct();
    SubsequenceDistinct(found, RedFlags);
    SubsequenceLength(found, RedFlags);
    found
  }

  /** The red-flag phrases that occur in the lower-cased description, as a
      set: a reference definition independent of the filter. */
  ghost function MatchedSet(description: string): set<string> {
    set f | f in RedFlags && Occurs(f, Lower(description))
  }

  /** There are as many matched phrases as phrases that occur. */
  lemma MatchesCount(description: string)
    ensures |Matches(description)| == |MatchedSet(description)|
  {
    var found := Matches(description);
    assert (set x | x in found) == MatchedSet(description);
    DistinctCardinality(found);
  }

  /** The shape every result of the classifier has: a flagged posting lists
      between two and ten distinct reason lines, in red-flag order; any other
      posting gets the fixed legitimate message. */
  ghost predicate WellFormed(r: AnalysisResult) {
    (r.isFake ==>
      FakeThreshold <= |r.reasons| <= |RedFlags| && Distinct(r.reasons) &&
      IsSubsequence(r.reasons, ReasonLines(RedFlags))) &&
    (!r.isFake ==> r.reasons == LegitimateReasons)
  }

  /** The classifier: flagged exactly when at least two phrases occur; the
      reasons then name exactly the phrases that occur, in list order, and
      otherwise are the fixed two-line message, for zero or one match alike. */
  function Classify(description: string): (r: AnalysisResult)
    ensures r.isFake <==> |MatchedSet(description)| >= FakeThreshold
    ensures r.isFake ==> |r.reasons| == |MatchedSet(description)|
    ensures r.isFake ==> forall f :: f in RedFlags ==>
      (Reason(f) in r.reasons <==> Occurs(f, Lower(description)))
    ensures !r.isFake ==> r.reasons == LegitimateReasons
    ensures WellFormed(r)
  {
    var found := Matches(description);
    var isFake := |found| >= FakeThreshold;
    var reasons := if isFake then ReasonLines(found) else LegitimateReasons;
    MatchesCount(description);
    ReasonLinesSubsequence(found, RedFlags);
    ReasonLinesDistinct(found);
    forall f | f in RedFlags ensures Reason(f) in ReasonLines(found) <==> Occurs(f, Lower(description)) {
      ReasonLinesMembers(found, f);
    }
    AnalysisResult(isFake, reasons)
  }

  /** Classification ignores the case of letters: descriptions that differ
      only in the case of ASCII letters get the same verdict and reasons. */
  lemma CaseInsensitive(s: string, t: string)
    requires SameIgnoringCase(s, t)
    ensures Classify(s) == Classify(t)
  {
    LowerEqualIffSameIgnoringCase(s, t);
  }

  /** In particular, shouting the description changes nothing. */
  lemma UpperCaseInsensitive(s: string)
    ensures Classify(Upper(s)) == Classify(s)
  {
    LowerOfUpper(s);
  }

  lemma SubsetCardinality<T>(a: set<T>, b: set<T>)
    requires a <= b
    ensures |a| <= |b|
  {
    assert b == a + (b - a);
  }

  /** Two different phrases found in a description are enough to flag it,
      and both are named among the reasons. */
  lemma TwoMatchesFlag(description: string, f: string, g: string)
    requires f in RedFlags && g in RedFlags && f != g
    requires Occurs(f, Lower(description)) && Occurs(g, Lower(description))
    ensures Classify(description).isFake
    ensures Reason(f) in Classify(description).reasons && Reason(g) in Classify(description).reasons
  {
    var m := MatchedSet(description);
    assert f in m && g in m;
    assert |{f, g}| == 2;
    SubsetCardinality({f, g}, m);
    var r := Classify(description);
    assert r.isFake;
  }

  /** A description in which no phrase other than `f` occurs (so `f` alone,
      or nothing) is reported as legitimate with the fixed message. */
  lemma AtMostOneMatchLegitimate(description: string, f: string)
    requires forall g :: g in RedFlags && Occurs(g, Lower(description)) ==> g == f
    ensures Classify(description) == AnalysisResult(false, LegitimateReasons)
  {
    SubsetCardinality(MatchedSet(description), {f});
  }

  /** When flagged, entry i of the reasons is the prefix, the i-th matched
      phrase, and a closing quote. */
  lemma FakeReasonsFormat(description: string, i: int)
    requires Classify(description).isFake && 0 <= i < |Matches(description)|
    ensures |Classify(description).reasons| == |Matches(description)|
    ensures Classify(description).reasons[i] == ReasonPrefix + Matches(description)[i] + "\""
  {
  }

  /** Lower-casing a mixed-case sample posting. */
  lemma SampleLowered()
    ensures Lower("Easy Money, NO interview!") == "easy money, no interview!"
  {
  }

  /** A sample posting with two phrases written in mixed case is flagged and
      both phrases are named. */
  lemma SampleFlagged()
    ensures var r := Classify("Easy Money, NO interview!");
      r.isFake && Reason("easy money") in r.reasons && Reason("no interview") in r.reasons
  {
    var lowered := "easy money, no interview!";
    SampleLowered();
    assert lowered[..10] == "easy money";
    assert OccursAt("easy money", lowered, 0);
    assert lowered[12..24] == "no interview";
    assert OccursAt("no interview", lowered, 12);
    TwoMatchesFlag("Easy Money, NO interview!", "easy money", "no interview");
  }
}
