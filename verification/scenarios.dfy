/** Concrete windows that show how the pass links replies, including the places where
    its heuristics differ from what a reader might expect. */
module Scenarios {
  import opened Wrappers
  import opened Posts
  import opened Authors
  import opened Linker
  import opened PassProperties

  function Root(id: string, count: int, body: string): Post {
    Post(id, false, false, None, None, None, Some(count), true, Some(body))
  }

  function Reply(id: string, picture: string, time: string): Post {
    Post(id, true, false, Some(picture), Some(time), None, None, false, None)
  }

  function OtherRootReply(id: string, picture: string, time: string, reference: string): Post {
    Post(id, true, true, Some(picture), Some(time), Some(reference), None, false, None)
  }

  /** A root with two replies below it, from empty caches: both replies are linked to it
      in order and recorded. */
  lemma RootThenTwoReplies()
    ensures Pass(EmptyCaches, [Root("R1", 2, "alpha"), Reply("A", "a.png", "t1"), Reply("B", "b.png", "t2")])
         == Caches(["A", "B"], [RootRecord("R1", 2, ["a.png", "b.png"], At("t2"), "alpha")])
  {
    PassOfThree(EmptyCaches, Root("R1", 2, "alpha"), Reply("A", "a.png", "t1"), Reply("B", "b.png", "t2"));
    AppendFirstRoot("R1", 2, "alpha");
    LinkReplyA();
    LinkReplyB();
  }

  /** A root post on empty caches becomes the only record. */
  lemma AppendFirstRoot(id: string, count: int, body: string)
    ensures Step(EmptyCaches, Root(id, count, body)) == Caches([], [RootRecord(id, count, [], Zero, body)])
  {
    AppendNewRoot(EmptyCaches, Root(id, count, body));
  }

  /** The first reply of `RootThenTwoReplies`. */
  lemma LinkReplyA()
    ensures Step(Caches([], [RootRecord("R1", 2, [], Zero, "alpha")]), Reply("A", "a.png", "t1"))
         == Caches(["A"], [RootRecord("R1", 2, ["a.png"], At("t1"), "alpha")])
  {
    var c := Caches([], [RootRecord("R1", 2, [], Zero, "alpha")]);
    assert c.roots[0].id != "A";
    LinkPlainReply(c, Reply("A", "a.png", "t1"));
  }

  /** The second reply of `RootThenTwoReplies`. */
  lemma LinkReplyB()
    ensures Step(Caches(["A"], [RootRecord("R1", 2, ["a.png"], At("t1"), "alpha")]), Reply("B", "b.png", "t2"))
         == Caches(["A", "B"], [RootRecord("R1", 2, ["a.png", "b.png"], At("t2"), "alpha")])
  {
    var c := Caches(["A"], [RootRecord("R1", 2, ["a.png"], At("t1"), "alpha")]);
    assert c.roots[0].id != "B" && c.postsReplies[0] != "B";
    assert "a.png"[0] != "b.png"[0];
    assert AddAuthor(["a.png"], "b.png") == ["a.png", "b.png"];
    LinkPlainReply(c, Reply("B", "b.png", "t2"));
  }

  /** An `other--root` reply after two roots goes to the root whose canonical key matches
      its quoted text, not to the last root. */
  lemma CrossReferenceLinksToMatchingRoot()
    ensures Pass(EmptyCaches, [Root("R1", 1, "alpha"), Root("R2", 1, "beta"), OtherRootReply("X", "x.png", "t", "alpha")])
         == Caches(["X"], [RootRecord("R1", 1, ["x.png"], At("t"), "alpha"), RootRecord("R2", 1, [], Zero, "beta")])
  {
    PassOfThree(EmptyCaches, Root("R1", 1, "alpha"), Root("R2", 1, "beta"), OtherRootReply("X", "x.png", "t", "alpha"));
    AppendFirstRoot("R1", 1, "alpha");
    AppendRootR2();
    LinkReplyX();
  }

  /** The second root of `CrossReferenceLinksToMatchingRoot`. */
  lemma AppendRootR2()
    ensures Step(Caches([], [RootRecord("R1", 1, [], Zero, "alpha")]), Root("R2", 1, "beta"))
         == Caches([], [RootRecord("R1", 1, [], Zero, "alpha"), RootRecord("R2", 1, [], Zero, "beta")])
  {
    assert "R1"[1] != "R2"[1];
    AppendNewRoot(Caches([], [RootRecord("R1", 1, [], Zero, "alpha")]), Root("R2", 1, "beta"));
  }

  /** The reply of `CrossReferenceLinksToMatchingRoot`. */
  lemma LinkReplyX()
    ensures Step(Caches([], [RootRecord("R1", 1, [], Zero, "alpha"), RootRecord("R2", 1, [], Zero, "beta")]),
                 OtherRootReply("X", "x.png", "t", "alpha"))
         == Caches(["X"], [RootRecord("R1", 1, ["x.png"], At("t"), "alpha"), RootRecord("R2", 1, [], Zero, "beta")])
  {
    var c := Caches([], [RootRecord("R1", 1, [], Zero, "alpha"), RootRecord("R2", 1, [], Zero, "beta")]);
    assert "X"[0] != "R1"[0] && "X"[0] != "R2"[0];
    assert OwnerIndex(c.roots, OtherRootReply("X", "x.png", "t", "alpha")) == Some(0);
  }

  /** An `other--root` reply whose root is not in the caches is not recorded, so a later
      pass that sees the root links it. */
  lemma UnmatchedReplyIsLinkedLater()
    ensures Pass(EmptyCaches, [OtherRootReply("X", "x.png", "t", "alpha")]) == EmptyCaches
    ensures Pass(EmptyCaches, [Root("R1", 1, "alpha"), OtherRootReply("X", "x.png", "t", "alpha")]).postsReplies == ["X"]
  {
  }

  /** A plain reply goes to the last root appended to the caches, not to the root that
      precedes it in the window: here R1 is already known, R2 was appended after it, and
      the reply below R1 is linked to R2. */
  lemma AdjacencyUsesLastAppendedRoot()
    ensures var c := Caches([], [RootRecord("R1", 1, [], Zero, "alpha"), RootRecord("R2", 1, [], Zero, "beta")]);
      Pass(c, [Root("R1", 1, "alpha"), Reply("A", "a.png", "t")])
        == Caches(["A"], [RootRecord("R1", 1, [], Zero, "alpha"), RootRecord("R2", 1, ["a.png"], At("t"), "beta")])
  {
    var c := Caches([], [RootRecord("R1", 1, [], Zero, "alpha"), RootRecord("R2", 1, [], Zero, "beta")]);
    var w := [Root("R1", 1, "alpha"), Reply("A", "a.png", "t")];
    assert c.roots[0].id == "R1";
    assert Step(c, w[0]) == c;
    var c2 := Caches(["A"], [RootRecord("R1", 1, [], Zero, "alpha"), RootRecord("R2", 1, ["a.png"], At("t"), "beta")]);
    assert c.roots[0].id != "A" && c.roots[1].id != "A";
    assert Step(c, w[1]) == c2;
    assert Pass(c, w) == Pass(c, w[1..]);
    assert Pass(c, w[1..]) == Pass(c2, []);
  }

  /** The reply guard compares the reply's own id with the root ids: a reply whose id is
      that of a known root is skipped, even though its root is known. */
  lemma ReplyWithRootIdIsSkipped()
    ensures var c := Caches([], [RootRecord("R1", 1, [], Zero, "alpha")]);
      Pass(c, [Reply("R1", "a.png", "t")]) == c
  {
  }

  /** A second pass over the same window, starting from the caches the first pass left,
      is not a no-op: a reply above every known root is skipped the first time and linked
      to the root appended below it the second time. Repeated cycles stay quiet only
      because the detector skips them. */
  lemma PassIsNotIdempotent()
    ensures var w := [Reply("A", "a.png", "t"), Root("R1", 1, "alpha")];
      && Pass(EmptyCaches, w) == Caches([], [RootRecord("R1", 1, [], Zero, "alpha")])
      && Pass(Pass(EmptyCaches, w), w) == Caches(["A"], [RootRecord("R1", 1, ["a.png"], At("t"), "alpha")])
  {
  }

  /** The author list evicts by first insertion, not by latest reply: an author who
      replies again keeps their old position and is the next one dropped. */
  lemma AuthorsEvictByFirstInsertion()
    ensures AddAuthor(AddAuthor(["a", "b", "c", "d", "e"], "a"), "f") == ["b", "c", "d", "e", "f"]
  {
  }
}
