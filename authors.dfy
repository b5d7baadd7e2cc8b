/** `process_author_field`: renders a list of author records, each with an
    optional family and an optional given name, as one display string. */
module Authors {
  import opened Wrappers
  import opened Strings

  datatype Author = Author(family: Option<string>, given: Option<string>)

  /** One author's text: the family name if present, then `", " + given` if
      present. */
  function Segment(a: Author): string
  {
    (if a.family.Some? then a.family.value else "")
    + (if a.given.Some? then ", " + a.given.value else "")
  }

  function Segments(authors: seq<Author>): seq<string>
  {
    seq(|authors|, i requires 0 <= i < |authors| => Segment(authors[i]))
  }

  /** The reference rendering: the segments in list order joined by " and ". */
  function Render(authors: seq<Author>): string
  {
    Join(Segments(authors), " and ")
  }

  /** The loop of `process_author_field`: the separator `add` is empty before the
      first author and " and " after it. */
  method ProcessAuthorField(authorRaw: seq<Author>) returns (author: string)
    ensures author == Render(authorRaw)
  {
    var add := "";
    author := "";
    for i := 0 to |authorRaw|
      invariant add == if i == 0 then "" else " and "
      invariant author == Render(authorRaw[..i])
    {
      ghost var before := author;
      author := author + add;
      var aut := authorRaw[i];
      if aut.family.Some? {
        author := author + aut.family.value;
      }
      if aut.given.Some? {
        author := author + ", " + aut.given.value;
      }
      assert author == before + add + Segment(aut);
      add := " and ";
      RenderPrefix(authorRaw, i);
    }
    assert authorRaw[..|authorRaw|] == authorRaw;
  }

  /** Rendering one more author of the list adds the separator (after the
      first) and that author's segment. */
  lemma RenderPrefix(authors: seq<Author>, i: nat)
    requires i < |authors|
    ensures Render(authors[..i + 1]) ==
            (if i == 0 then "" else Render(authors[..i]) + " and ") + Segment(authors[i])
  {
    assert Segments(authors[..i + 1]) == Segments(authors[..i]) + [Segment(authors[i])];
    JoinSnoc(Segments(authors[..i]), Segment(authors[i]), " and ");
    if i == 0 {
      assert Segments(authors[..i]) == [];
    }
  }

  /** The first author's segment comes first, followed by " and " and the rest
      when there is a rest. */
  lemma RenderCons(a: Author, rest: seq<Author>)
    ensures Render([a] + rest) == if rest == [] then Segment(a) else Segment(a) + " and " + Render(rest)
  {
    assert Segments([a] + rest)[1..] == Segments(rest);
  }

  /** An empty list renders as the empty string. */
  lemma RenderEmpty()
    ensures Render([]) == ""
  {
  }

  lemma RenderTwo()
    ensures Render([Author(Some("Smith"), Some("A")), Author(Some("Doe"), Some("B"))])
            == "Smith, A and Doe, B"
  {
    RenderCons(Author(Some("Smith"), Some("A")), [Author(Some("Doe"), Some("B"))]);
  }

  /** A record with neither name renders as an empty segment that is still
      separated from its neighbours. */
  lemma NamelessStillSeparated(rest: seq<Author>)
    requires rest != []
    ensures Render([Author(None, None)] + rest) == " and " + Render(rest)
  {
    RenderCons(Author(None, None), rest);
  }
}
