/** The end-to-end scenario for one entry: "Deep Learning" by "Smith, A",
    without a DOI, against an identical search result and against one with an
    unrelated title. */
module Scenarios {
  import opened Wrappers
  import opened Strings
  import opened Fuzzy
  import opened Authors
  import opened DoiInsert
  import opened Policy
  import opened BibProcess

  lemma StripTitles()
    ensures Strip("Deep Learning") == "Deep Learning"
  {
    var t := "Deep Learning";
    assert forall i | 0 <= i < |t| :: IsKept(t[i]);
    StripKeepsNormal(t);
  }

  lemma LowerTitles()
    ensures Lower("Deep Learning") == "deep learning"
  {
  }

  lemma StripOtherTitle()
    ensures Strip("Graph Theory") == "Graph Theory"
  {
    var t := "Graph Theory";
    assert forall i | 0 <= i < |t| :: IsKept(t[i]);
    StripKeepsNormal(t);
  }

  lemma LowerOtherTitle()
    ensures Lower("Graph Theory") == "graph theory"
  {
  }

  /** A comma between two runs of kept characters is the only thing stripped. */
  lemma StripDropsComma(a: string, b: string)
    requires forall i :: 0 <= i < |a| ==> IsKept(a[i])
    requires forall i :: 0 <= i < |b| ==> IsKept(b[i])
    ensures Strip(a + [','] + b) == a + b
  {
    StripConcat(a + [','], b);
    StripConcat(a, [',']);
    assert Strip([',']) == [];
    StripKeepsNormal(a);
    StripKeepsNormal(b);
    assert a + [] == a;
  }

  lemma StripAuthor()
    ensures Strip("Smith, A") == "Smith A"
  {
    var a, b := "Smith", " A";
    assert forall i | 0 <= i < |a| :: IsKept(a[i]);
    assert forall i | 0 <= i < |b| :: IsKept(b[i]);
    StripDropsComma(a, b);
    assert a + [','] + b == "Smith, A";
    assert a + b == "Smith A";
  }

  lemma LowerAuthor()
    ensures Lower("Smith A") == "smith a"
  {
  }

  lemma SplitTitle()
    ensures Split("deep learning") == ["deep", "learning"]
  {
    assert Join(["deep", "learning"], " ") == "deep learning";
    assert forall w :: w in ["deep", "learning"] ==> w != [] && ' ' !in w;
    SplitJoin(["deep", "learning"]);
  }

  lemma SplitAuthor()
    ensures Split("smith a") == ["smith", "a"]
  {
    assert Join(["smith", "a"], " ") == "smith a";
    assert forall w :: w in ["smith", "a"] ==> w != [] && ' ' !in w;
    SplitJoin(["smith", "a"]);
  }

  lemma NormTitle()
    ensures Norm("Deep Learning") == "deep learning"
  {
    StripTitles();
    LowerTitles();
  }

  lemma NormAuthor()
    ensures Norm("Smith, A") == "smith a"
  {
    StripAuthor();
    LowerAuthor();
  }

  lemma TitleWords()
    ensures Norm("Deep Learning") == "deep learning"
    ensures Split(Norm("Deep Learning")) == ["deep", "learning"]
    ensures Pairs(["deep", "learning"]) == ["deep learning"]
    ensures Concat(["deep learning"]) == "deep learning"
  {
    NormTitle();
    SplitTitle();
    TitlePairs();
  }

  lemma TitlePairs()
    ensures Pairs(["deep", "learning"]) == ["deep learning"]
    ensures Concat(["deep learning"]) == "deep learning"
  {
    assert "deep" + " " + "learning" == "deep learning";
  }

  lemma AuthorWords()
    ensures Norm("Smith, A") == "smith a"
    ensures Split(Norm("Smith, A")) == ["smith", "a"]
    ensures Pairs(["smith", "a"]) == ["smith a"]
    ensures Concat(["smith a"]) == "smith a"
  {
    NormAuthor();
    SplitAuthor();
    assert "smith" + " " + "a" == "smith a";
  }

  lemma SameTitleScoresOne()
    ensures FuzzyMatch("Deep Learning", "Deep Learning") == Some(Ratio(13, 13))
  {
    TitleWords();
    assert Contains("deep learning", "deep learning");
    assert Matched(["deep learning"], "deep learning") == 13;
    ScoreFromParts("Deep Learning", "Deep Learning", ["deep", "learning"], ["deep learning"], 13, 13);
  }

  lemma OtherTitleScoresZero()
    ensures FuzzyMatch("Graph Theory", "Deep Learning") == Some(Ratio(0, 13))
  {
    TitleWords();
    StripOtherTitle();
    LowerOtherTitle();
    if Contains("graph theory", "deep learning") {
      ContainsNeedsRoom("graph theory", "deep learning");
    }
    assert Matched(["deep learning"], "graph theory") == 0;
    ScoreFromParts("Graph Theory", "Deep Learning", ["deep", "learning"], ["deep learning"], 0, 13);
  }

  lemma SameAuthorScoresOne()
    ensures Render([Author(Some("Smith"), Some("A"))]) == "Smith, A"
    ensures FuzzyMatch("Smith, A", "Smith, A") == Some(Ratio(7, 7))
  {
    AuthorWords();
    assert Contains("smith a", "smith a");
    assert Matched(["smith a"], "smith a") == 7;
    ScoreFromParts("Smith, A", "Smith, A", ["smith", "a"], ["smith a"], 7, 7);
    RenderCons(Author(Some("Smith"), Some("A")), []);
  }

  /** The identical record scores 1 on both fields and its DOI is inserted
      without a prompt. */
  lemma IdenticalRecordInserted(s: Session)
    ensures Step(s, Entry("key2020", Some("Smith, A"), Some("Deep Learning"), None),
                 Some(Candidate("Deep Learning", [Author(Some("Smith"), Some("A"))], "10.1/xyz")))
            == Ok(Session(InsertDoi(s.text, "key2020", "10.1/xyz"), s.replies))
  {
    SameTitleScoresOne();
    SameAuthorScoresOne();
    AcceptInsertsWithoutPrompt(s, Entry("key2020", Some("Smith, A"), Some("Deep Learning"), None),
      Candidate("Deep Learning", [Author(Some("Smith"), Some("A"))], "10.1/xyz"),
      Ratio(13, 13), Ratio(7, 7));
  }

  /** A record with an unrelated title scores 0 on the title and the buffer is
      left as it was. */
  lemma UnrelatedTitleRejected(s: Session)
    ensures Step(s, Entry("key2020", Some("Smith, A"), Some("Deep Learning"), None),
                 Some(Candidate("Graph Theory", [Author(Some("Smith"), Some("A"))], "10.1/xyz")))
            == Ok(s)
  {
    OtherTitleScoresZero();
    SameAuthorScoresOne();
    RejectLeavesBuffer(s, Entry("key2020", Some("Smith, A"), Some("Deep Learning"), None),
      Candidate("Graph Theory", [Author(Some("Smith"), Some("A"))], "10.1/xyz"),
      Ratio(0, 13), Ratio(7, 7));
  }
}
