/** `bibfile_process`: walks the bibliography's entries in key order and, for
    each entry with a title and authors but no DOI, looks the work up, scores the
    candidate and inserts its DOI into the text buffer `file_str` when the
    decision (or the user) accepts it. */
module BibProcess {
  import opened Wrappers
  import opened Fuzzy
  import opened Authors
  import opened DoiInsert
  import opened Policy

  /** A parsed entry: its key, its `author` and `title` fields after `detex`,
      and its `doi` field as written. */
  datatype Entry = Entry(key: string, author: Option<string>, title: Option<string>, doi: Option<string>)

  /** The best match a title/author search returned: its title, its authors and
      its DOI. */
  datatype Candidate = Candidate(title: string, authors: seq<Author>, doi: string)

  /** The two exceptions that end the run: a degenerate score and exhausted
      input at the prompt. */
  datatype Failure = DivisionByZero | EndOfInput

  /** The text buffer and the replies the user has not given yet. */
  datatype Session = Session(text: string, replies: seq<string>)

  /** The title/author search, supplied from outside: the title and authors of
      the entry to the best candidate, if any. */
  type Lookup = (string, string) -> Option<Candidate>

  /** `if doi:` treats an empty `doi` field like a missing one. */
  predicate HasDoi(e: Entry)
  {
    e.doi.Some? && e.doi.value != ""
  }

  /** The entries for which the title/author search is made. */
  predicate NeedsLookup(e: Entry)
  {
    e.author.Some? && e.title.Some? && !HasDoi(e)
  }

  /** One iteration of the loop over entries, given what the search returned. */
  function Step(s: Session, e: Entry, found: Option<Candidate>): Result<Session, Failure>
  {
    if e.author.None? || e.title.None? then Ok(s)
    else if HasDoi(e) then Ok(s)
    else if found.None? then Ok(s)
    else
      var c := found.value;
      var titleSim := FuzzyMatch(c.title, e.title.value);
      if titleSim.None? then Err(DivisionByZero)
      else
        var authorSim := FuzzyMatch(Render(c.authors), e.author.value);
        if authorSim.None? then Err(DivisionByZero)
        else
          match Decide(titleSim.value.Value(), authorSim.value.Value())
          case Reject => Ok(s)
          case Accept => Ok(Session(InsertDoi(s.text, e.key, c.doi), s.replies))
          case Ask =>
            match Confirm(s.replies)
            case None => Err(EndOfInput)
            case Some(ans) =>
              Ok(Session(if ans.yes then InsertDoi(s.text, e.key, c.doi) else s.text, ans.rest))
  }

  /** The search result the loop obtains for an entry. */
  function Found(e: Entry, lookup: Lookup): Option<Candidate>
  {
    if NeedsLookup(e) then lookup(e.title.value, e.author.value) else None
  }

  /** The loop over the entries in the given order, stopping at the first
      exception. */
  function Run(s: Session, entries: seq<Entry>, lookup: Lookup): Result<Session, Failure>
    decreases |entries|
  {
    if entries == [] then Ok(s)
    else
      match Step(s, entries[0], Found(entries[0], lookup))
      case Err(f) => Err(f)
      case Ok(next) => Run(next, entries[1..], lookup)
  }

  /** Python's string order: lexicographic by code point, a prefix first. */
  predicate KeyLe(a: string, b: string)
  {
    a == [] || (b != [] && (a[0] < b[0] || (a[0] == b[0] && KeyLe(a[1..], b[1..]))))
  }

  lemma {:induction false} KeyLeTotal(a: string, b: string)
    ensures KeyLe(a, b) || KeyLe(b, a)
  {
    if a != [] && b != [] && a[0] == b[0] {
      KeyLeTotal(a[1..], b[1..]);
    }
  }

  predicate SortedByKey(entries: seq<Entry>)
  {
    forall i :: 0 <= i < |entries| - 1 ==> KeyLe(entries[i].key, entries[i + 1].key)
  }

  /** Puts `e` in front of the first entry whose key it does not exceed. */
  function InsertByKey(e: Entry, sorted: seq<Entry>): (r: seq<Entry>)
    ensures multiset(r) == multiset(sorted) + multiset{e}
    ensures |r| > 0 && (r[0] == e || (sorted != [] && r[0] == sorted[0]))
    ensures SortedByKey(sorted) ==> SortedByKey(r)
  {
    if sorted == [] then [e]
    else if KeyLe(e.key, sorted[0].key) then [e] + sorted
    else
      KeyLeTotal(e.key, sorted[0].key);
      assert sorted == [sorted[0]] + sorted[1..];
      [sorted[0]] + InsertByKey(e, sorted[1..])
  }

  /** `sorted(entries, key=lambda x: x[0])`. */
  function SortByKey(entries: seq<Entry>): (r: seq<Entry>)
    ensures multiset(r) == multiset(entries)
    ensures SortedByKey(r)
  {
    if entries == [] then []
    else
      assert entries == [entries[0]] + entries[1..];
      InsertByKey(entries[0], SortByKey(entries[1..]))
  }

  /** One iteration of the loop, with the search result given: the body of
      `for key, value in bib_sorted`, including the prompt loop. */
  method ProcessEntry(text: string, replies: seq<string>, e: Entry, res: Option<Candidate>)
    returns (r: Result<Session, Failure>)
    ensures r == Step(Session(text, replies), e, res)
  {
    if e.author.None? || e.title.None? {
      return Ok(Session(text, replies));
    }
    if HasDoi(e) {
      return Ok(Session(text, replies));
    }
    if res.None? {
      return Ok(Session(text, replies));
    }
    var c := res.value;
    var titleSim := FuzzyMatch(c.title, e.title.value);
    if titleSim.None? {
      return Err(DivisionByZero);
    }
    var author := ProcessAuthorField(c.authors);
    var authorSim := FuzzyMatch(author, e.author.value);
    if authorSim.None? {
      return Err(DivisionByZero);
    }
    var fileStr := text;
    var d := Decide(titleSim.value.Value(), authorSim.value.Value());
    if d == Reject {
      return Ok(Session(fileStr, replies));
    } else if d == Accept {
      fileStr := InsertDoi(fileStr, e.key, c.doi);
      return Ok(Session(fileStr, replies));
    }
    var resp: Option<string> := None;
    var j := 0;
    while !(resp.Some? && IsAnswer(resp.value))
      invariant 0 <= j <= |replies|
      invariant resp.Some? ==> 0 < j && resp.value == replies[j - 1]
      invariant !(resp.Some? && IsAnswer(resp.value)) ==> Confirm(replies) == Confirm(replies[j..])
      invariant resp.Some? && IsAnswer(resp.value) ==>
                  Confirm(replies) == Some(Answer(resp.value == "y", replies[j..]))
      invariant fileStr == if resp == Some("y") then InsertDoi(text, e.key, c.doi) else text
      decreases |replies| - j
    {
      if j == |replies| {
        assert replies[j..] == [];
        return Err(EndOfInput);
      }
      assert replies[j..][1..] == replies[j + 1..];
      resp := Some(replies[j]);
      j := j + 1;
      if resp.value == "y" {
        fileStr := InsertDoi(fileStr, e.key, c.doi);
      }
    }
    return Ok(Session(fileStr, replies[j..]));
  }

  /** The whole loop: entries in key order, the buffer threaded through, the
      first exception ending the run. */
  method BibfileProcess(fileStr: string, entries: seq<Entry>, lookup: Lookup, replies: seq<string>)
    returns (r: Result<Session, Failure>)
    ensures r == Run(Session(fileStr, replies), SortByKey(entries), lookup)
  {
    var bibSorted := SortByKey(entries);
    var s := Session(fileStr, replies);
    var i := 0;
    while i < |bibSorted|
      invariant 0 <= i <= |bibSorted|
      invariant Run(Session(fileStr, replies), bibSorted, lookup) == Run(s, bibSorted[i..], lookup)
    {
      var e := bibSorted[i];
      assert bibSorted[i..][0] == e && bibSorted[i..][1..] == bibSorted[i + 1..];
      var res: Option<Candidate> := None;
      if NeedsLookup(e) {
        res := lookup(e.title.value, e.author.value);
      }
      var step := ProcessEntry(s.text, s.replies, e, res);
      if step.Err? {
        return Err(step.error);
      }
      s := step.value;
      i := i + 1;
    }
    return Ok(s);
  }

  /** Entries without an author or a title, entries that already carry a DOI,
      and entries whose search found nothing leave the buffer and the replies
      alone. */
  lemma NoOpPaths(s: Session, e: Entry, found: Option<Candidate>)
    requires !NeedsLookup(e) || found.None?
    ensures Step(s, e, found) == Ok(s)
  {
  }

  /** Only a found candidate can change the buffer, and only by inserting its
      DOI under the entry's key line. */
  lemma OnlyFoundInserts(s: Session, e: Entry, found: Option<Candidate>, next: Session)
    requires Step(s, e, found) == Ok(next)
    ensures next.text == s.text
            || (NeedsLookup(e) && found.Some? && next.text == InsertDoi(s.text, e.key, found.value.doi))
  {
  }

  /** Both scores at or above 9/10 insert without reading a reply. */
  lemma AcceptInsertsWithoutPrompt(s: Session, e: Entry, c: Candidate, t: Ratio, a: Ratio)
    requires NeedsLookup(e)
    requires FuzzyMatch(c.title, e.title.value) == Some(t)
    requires FuzzyMatch(Render(c.authors), e.author.value) == Some(a)
    requires 10 * t.num >= 9 * t.den && 10 * a.num >= 9 * a.den
    ensures Step(s, e, Some(c)) == Ok(Session(InsertDoi(s.text, e.key, c.doi), s.replies))
  {
    Thresholds(t);
    Thresholds(a);
  }

  /** Either score at or below 1/2 leaves the buffer unchanged. */
  lemma RejectLeavesBuffer(s: Session, e: Entry, c: Candidate, t: Ratio, a: Ratio)
    requires NeedsLookup(e)
    requires FuzzyMatch(c.title, e.title.value) == Some(t)
    requires FuzzyMatch(Render(c.authors), e.author.value) == Some(a)
    requires 2 * t.num <= t.den || 2 * a.num <= a.den
    ensures Step(s, e, Some(c)) == Ok(s)
  {
    Thresholds(t);
    Thresholds(a);
  }

  /** In between, the first "y" or "n" among the replies decides: only "y"
      inserts, other replies are skipped, and without such a reply the run
      ends at the prompt. */
  lemma AskFollowsFirstAnswer(s: Session, e: Entry, c: Candidate, t: Ratio, a: Ratio)
    requires NeedsLookup(e)
    requires FuzzyMatch(c.title, e.title.value) == Some(t)
    requires FuzzyMatch(Render(c.authors), e.author.value) == Some(a)
    requires 2 * t.num > t.den && 2 * a.num > a.den
    requires 10 * t.num < 9 * t.den || 10 * a.num < 9 * a.den
    ensures Step(s, e, Some(c)) == Err(EndOfInput) <==>
              forall j :: 0 <= j < |s.replies| ==> !IsAnswer(s.replies[j])
    ensures (exists j :: 0 <= j < |s.replies| && IsAnswer(s.replies[j])) ==> Step(s, e, Some(c)).Ok?
    ensures Step(s, e, Some(c)).Ok? ==>
              var i := |s.replies| - |Step(s, e, Some(c)).value.replies| - 1;
              0 <= i < |s.replies| && IsAnswer(s.replies[i])
              && (forall j :: 0 <= j < i ==> !IsAnswer(s.replies[j]))
              && Step(s, e, Some(c)).value.text
                 == (if s.replies[i] == "y" then InsertDoi(s.text, e.key, c.doi) else s.text)
              && Step(s, e, Some(c)).value.replies == s.replies[i + 1..]
  {
    Thresholds(t);
    Thresholds(a);
    ConfirmFirstAnswer(s.replies);
  }

  /** Running over `first + rest` is running over `first`, then over `rest`
      from where it stopped. */
  lemma {:induction false} RunAppend(s: Session, first: seq<Entry>, rest: seq<Entry>, lookup: Lookup)
    ensures Run(s, first + rest, lookup) ==
            match Run(s, first, lookup)
            case Err(f) => Err(f)
            case Ok(mid) => Run(mid, rest, lookup)
    decreases |first|
  {
    if first == [] {
      assert first + rest == rest;
    } else {
      assert (first + rest)[0] == first[0] && (first + rest)[1..] == first[1..] + rest;
      match Step(s, first[0], Found(first[0], lookup))
      case Err(f) =>
      case Ok(next) => RunAppend(next, first[1..], rest, lookup);
    }
  }

  /** When no search finds anything, the run returns the buffer untouched and
      reads no reply. */
  lemma {:induction false} RunNothingFound(s: Session, entries: seq<Entry>, lookup: Lookup)
    requires forall i :: 0 <= i < |entries| ==> Found(entries[i], lookup).None?
    ensures Run(s, entries, lookup) == Ok(s)
    decreases |entries|
  {
    if entries != [] {
      NoOpPaths(s, entries[0], Found(entries[0], lookup));
      RunNothingFound(s, entries[1..], lookup);
    }
  }

  /** A DOI is only ever written under an entry's own key line: when no entry's
      key line occurs in the text, a completed run leaves the text as it was. */
  lemma {:induction false} RunWithoutKeyLines(s: Session, entries: seq<Entry>, lookup: Lookup, last: Session)
    requires forall i :: 0 <= i < |entries| ==> !Occurs(KeyLine(entries[i].key), s.text)
    requires Run(s, entries, lookup) == Ok(last)
    ensures last.text == s.text
    decreases |entries|
  {
    if entries != [] {
      var e := entries[0];
      var found := Found(e, lookup);
      var next := Step(s, e, found).value;
      OnlyFoundInserts(s, e, found, next);
      if next.text != s.text {
        InsertWithoutKeyLine(s.text, e.key, found.value.doi);
      }
      RunWithoutKeyLines(next, entries[1..], lookup, last);
    }
  }
}
