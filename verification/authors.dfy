/** The bounded list of distinct reply authors kept by each root record. */
module Authors {
  import opened Posts

  const MaxAuthors := 5

  /** At most five authors, none listed twice. */
  predicate Bounded(authors: seq<string>) {
    |authors| <= MaxAuthors && NoDuplicates(authors)
  }

  /** Records the author of a newly linked reply: an author already listed leaves the
      list as it is; a new one is appended and, past five entries, the oldest is dropped. */
  function AddAuthor(authors: seq<string>, author: string): (r: seq<string>)
    ensures author in authors ==> r == authors
    ensures author in r
    ensures forall x :: x in r ==> x in authors || x == author
    ensures author !in authors ==> |r| > 0 && r[|r| - 1] == author
    ensures author !in authors && |authors| < MaxAuthors ==> r[..|r| - 1] == authors
    ensures author !in authors && |authors| >= MaxAuthors ==> r[..|r| - 1] == authors[1..]
    ensures Bounded(authors) ==> Bounded(r)
  {
    if author in authors then authors
    else
      var pushed := authors + [author];
      assert pushed[|pushed| - 1] == author;
      if |pushed| > MaxAuthors then pushed[1..] else pushed
  }
}
