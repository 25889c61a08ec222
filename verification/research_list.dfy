/**
 * The admin research list: a case-insensitive title search combined with
 * an exact status filter over the study table, and the one-sentence
 * description each card shows.
 */
module ResearchList {
  import opened Seqs
  import opened JsString

  /** A study record as the page lists it (its creation date is not used by the filter). */
  datatype Study = Study(
    id: string, title: string, description: string, status: string,
    participants: nat, images: nat, papers: nat)

  /** The page's table of studies. */
  const Studies: seq<Study> := [
    Study("1", "Mental Health and Well-being Study",
      "Longitudinal study examining factors affecting mental health in university students.",
      "Active", 245, 12, 2),
    Study("2", "Sleep Quality and Cognitive Function",
      "Research on the relationship between sleep patterns and cognitive performance.",
      "Active", 189, 8, 1),
    Study("3", "Diabetes and Depression Correlation",
      "Investigating the link between diabetes management and depressive symptoms.",
      "Completed", 312, 15, 3),
    Study("4", "Exercise Impact on Mental Health",
      "Studying how regular physical activity affects psychological well-being.",
      "Completed", 0, 0, 0)
  ]

  /** One entry of the status drop-down. */
  datatype StatusOption = StatusOption(value: string, caption: string)

  const StatusOptions: seq<StatusOption> := [
    StatusOption("all", "All Status"),
    StatusOption("active", "Active"),
    StatusOption("completed", "Completed")
  ]

  /** The filter value that places no constraint on the status (the first option). */
  const AllStatuses: string := StatusOptions[0].value

  /** The predicate passed to `.filter`. */
  predicate Matches(st: Study, searchTerm: string, statusFilter: string) {
    Includes(AsciiLower(st.title), AsciiLower(searchTerm))
    && (statusFilter == AllStatuses || AsciiLower(st.status) == statusFilter)
  }

  /** The studies the page shows for a search term and a status filter. */
  function Shown(studies: seq<Study>, searchTerm: string, statusFilter: string): (r: seq<Study>)
    ensures IsSubsequence(r, studies)
    ensures forall st :: st in r ==> st in studies && Matches(st, searchTerm, statusFilter)
    ensures forall st :: st in studies && Matches(st, searchTerm, statusFilter) ==> st in r
  {
    Filter(studies, st => Matches(st, searchTerm, statusFilter))
  }

  /** Every shown title contains the search term, ignoring the case of both. */
  lemma ShownTitlesContainTerm(studies: seq<Study>, searchTerm: string, statusFilter: string)
    ensures forall st :: st in Shown(studies, searchTerm, statusFilter) ==>
      exists i :: 0 <= i <= |st.title| && AsciiLower(searchTerm) <= AsciiLower(st.title)[i..]
  {
    forall st | st in Shown(studies, searchTerm, statusFilter)
      ensures exists i :: 0 <= i <= |st.title| && AsciiLower(searchTerm) <= AsciiLower(st.title)[i..]
    {
      IncludesAt(AsciiLower(st.title), AsciiLower(searchTerm));
    }
  }

  /** The search ignores case: a term and its lower-cased form show the same studies. */
  lemma SearchIgnoresCase(studies: seq<Study>, searchTerm: string, statusFilter: string)
    ensures Shown(studies, searchTerm, statusFilter) == Shown(studies, AsciiLower(searchTerm), statusFilter)
  {
    AsciiLowerIdempotent(searchTerm);
    FilterCongruent(studies, st => Matches(st, searchTerm, statusFilter),
      st => Matches(st, AsciiLower(searchTerm), statusFilter));
  }

  /** A status filter other than "all" keeps only studies whose lower-cased status equals it. */
  lemma StatusFilterIsExact(studies: seq<Study>, searchTerm: string, statusFilter: string)
    requires statusFilter != AllStatuses
    ensures forall st :: st in Shown(studies, searchTerm, statusFilter) ==> AsciiLower(st.status) == statusFilter
  {
  }

  /** The filter value "all" constrains nothing: only the search decides. */
  lemma AllPlacesNoConstraint(studies: seq<Study>, searchTerm: string)
    ensures forall st :: st in studies ==>
      (st in Shown(studies, searchTerm, AllStatuses) <==> Includes(AsciiLower(st.title), AsciiLower(searchTerm)))
  {
  }

  /** An empty search with "all" shows every study, in order. */
  lemma EmptySearchShowsAll(studies: seq<Study>)
    ensures Shown(studies, "", AllStatuses) == studies
  {
    forall st | st in studies ensures Matches(st, "", AllStatuses) {
      IncludesEmpty(AsciiLower(st.title));
    }
    FilterAll(studies, st => Matches(st, "", AllStatuses));
  }

  /** `description.split(". ")[0]`: the text before the first ". ", or all of it. */
  function FirstSentence(d: string): (r: string)
    ensures r <= d
    ensures forall i :: 0 <= i < |r| ==> !(". " <= d[i..])
    ensures r == d || ". " <= d[|r|..]
    decreases |d|
  {
    if |d| < 2 then d
    else if d[0] == '.' && d[1] == ' ' then ""
    else
      var rest := FirstSentence(d[1..]);
      SentenceStep(d, rest);
      [d[0]] + rest
  }

  /** The contract of `FirstSentence` carried from the tail to the whole text. */
  lemma SentenceStep(d: string, rest: string)
    requires |d| >= 2 && !(d[0] == '.' && d[1] == ' ')
    requires rest <= d[1..]
    requires forall i :: 0 <= i < |rest| ==> !(". " <= d[1..][i..])
    requires rest == d[1..] || ". " <= d[1..][|rest|..]
    ensures [d[0]] + rest <= d
    ensures forall i :: 0 <= i < |rest| + 1 ==> !(". " <= d[i..])
    ensures [d[0]] + rest == d || ". " <= d[|rest| + 1..]
  {
    assert d == [d[0]] + d[1..];
    forall i | 0 <= i < |rest| + 1 ensures !(". " <= d[i..]) {
      if i > 0 {
        assert d[1..][i - 1..] == d[i..];
      }
    }
    assert d[1..][|rest|..] == d[|rest| + 1..];
  }

  /** A sentence free of ". " followed by ". " and anything else is shown alone. */
  lemma {:induction false} FirstSentenceOfJoin(sentence: string, rest: string)
    requires forall i :: 0 <= i < |sentence| ==> !(". " <= (sentence + ". " + rest)[i..])
    ensures FirstSentence(sentence + ". " + rest) == sentence
    decreases |sentence|
  {
    var d := sentence + ". " + rest;
    if sentence == [] {
      assert d[..2] == ". ";
    } else {
      assert !(". " <= d[0..]);
      assert d[1..] == sentence[1..] + ". " + rest;
      forall i | 0 <= i < |sentence[1..]|
        ensures !(". " <= (sentence[1..] + ". " + rest)[i..])
      {
        assert (sentence[1..] + ". " + rest)[i..] == d[i + 1..];
      }
      FirstSentenceOfJoin(sentence[1..], rest);
    }
  }

  /** The studies whose status passes the filter, ignoring titles. */
  predicate StatusPasses(st: Study, statusFilter: string) {
    statusFilter == AllStatuses || AsciiLower(st.status) == statusFilter
  }

  function StatusTest(statusFilter: string): Study -> bool {
    st => StatusPasses(st, statusFilter)
  }

  /** With an empty search only the status filter decides. */
  lemma EmptySearchStatusOnly(studies: seq<Study>, statusFilter: string)
    ensures Shown(studies, "", statusFilter) == Filter(studies, StatusTest(statusFilter))
  {
    forall st | st in studies ensures Matches(st, "", statusFilter) == StatusPasses(st, statusFilter) {
      IncludesEmpty(AsciiLower(st.title));
    }
    FilterCongruent(studies, st => Matches(st, "", statusFilter), StatusTest(statusFilter));
  }

  /** The status filter "active" shows the two active studies of the table. */
  lemma ActiveFilterOnTable()
    ensures Shown(Studies, "", "active") == [Studies[0], Studies[1]]
  {
    var table := Studies;
    assert table == [table[0], table[1], table[2], table[3]];
    ActiveFilterOfFour(table[0], table[1], table[2], table[3]);
  }

  /** Two active studies ahead of two completed ones: the "active" filter keeps the first two. */
  lemma ActiveFilterOfFour(a: Study, b: Study, c: Study, d: Study)
    requires a.status == "Active" && b.status == "Active"
    requires c.status == "Completed" && d.status == "Completed"
    ensures Shown([a, b, c, d], "", "active") == [a, b]
  {
    EmptySearchStatusOnly([a, b, c, d], "active");
    var p := StatusTest("active");
    assert p(a) && p(b) by {
      ActiveLower();
    }
    assert !p(c) && !p(d) by {
      assert |AsciiLower("Completed")| == 9;
    }
    FilterFirstTwo(a, b, c, d, p);
  }

  /** Filtering four elements of which only the first two pass. */
  lemma FilterFirstTwo(a: Study, b: Study, c: Study, d: Study, p: Study -> bool)
    requires p(a) && p(b) && !p(c) && !p(d)
    ensures Filter([a, b, c, d], p) == [a, b]
  {
    FilterPrepend(d, [], p);
    FilterPrepend(c, [d], p);
    FilterPrepend(b, [c, d], p);
    FilterPrepend(a, [b, c, d], p);
    assert [a] + [b, c, d] == [a, b, c, d];
    assert [b] + [c, d] == [b, c, d];
    assert [c] + [d] == [c, d];
    assert [d] + [] == [d];
  }

  /** "Active" lowers to the filter value "active". */
  lemma ActiveLower()
    ensures AsciiLower("Active") == "active"
  {
    var r := AsciiLower("Active");
    assert r[0] == 'a' && r[1] == 'c' && r[2] == 't' && r[3] == 'i' && r[4] == 'v' && r[5] == 'e';
  }
}
