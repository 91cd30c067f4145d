/** The classifier and linker: one left-to-right pass over the visible posts that links
    replies to root records and records new roots. */
module Linker {
  import opened Wrappers
  import opened Posts
  import opened Search
  import opened Authors

  /** The two caches kept for the current location path. */
  datatype Caches = Caches(postsReplies: seq<string>, roots: seq<RootRecord>)

  const EmptyCaches := Caches([], [])

  /** What the pass keeps true of the caches: one record per root id, at most five
      distinct authors per record, no reply recorded twice. */
  predicate WellFormed(c: Caches) {
    && UniqueIds(c.roots)
    && NoDuplicates(c.postsReplies)
    && forall k :: 0 <= k < |c.roots| ==> Bounded(c.roots[k].authors)
  }

  /** A reply the pass may link: not linked before, not itself a known root, and
      showing both its author picture and its time. */
  predicate Linkable(c: Caches, p: Post) {
    && p.id !in c.postsReplies
    && !HasId(c.roots, p.id)
    && p.picture.Some?
    && p.time.Some?
  }

  /** `r` is `c` after linking reply `p` to the root record at index `k`: that record gets
      the reply's author and time, the reply id is recorded once, nothing else changes. */
  predicate LinkedTo(c: Caches, r: Caches, k: int, p: Post)
    requires p.picture.Some? && p.time.Some?
  {
    && 0 <= k < |c.roots|
    && |r.roots| == |c.roots|
    && r.postsReplies == c.postsReplies + [p.id]
    && r.roots[k] == c.roots[k].(authors := AddAuthor(c.roots[k].authors, p.picture.value),
                                 updatedAt := At(p.time.value))
    && forall j :: 0 <= j < |c.roots| && j != k ==> r.roots[j] == c.roots[j]
  }

  /** The root record a reply belongs to: for an `other--root` reply the first record whose
      canonical key equals the quoted text's key, otherwise the last record appended. */
  function OwnerIndex(roots: seq<RootRecord>, p: Post): (r: Option<int>)
    ensures r.Some? ==> 0 <= r.value < |roots|
    ensures !p.isOtherRoot ==> (r.None? <==> |roots| == 0)
    ensures !p.isOtherRoot && r.Some? ==> r.value == |roots| - 1
    ensures p.isOtherRoot ==>
      (r.None? <==> p.reference.None? || forall i :: 0 <= i < |roots| ==> roots[i].theme != p.reference.value)
    ensures p.isOtherRoot && r.Some? ==>
      && p.reference.Some?
      && roots[r.value].theme == p.reference.value
      && forall i :: 0 <= i < r.value ==> roots[i].theme != p.reference.value
  {
    if p.isOtherRoot then
      match p.reference
      case None => None
      case Some(key) =>
        var k := FindPostIndexWithTheme(roots, key);
        if k == -1 then None else Some(k)
    else if |roots| == 0 then None
    else Some(|roots| - 1)
  }

  /** The reply branch of the pass. */
  function ReplyStep(c: Caches, p: Post): (r: Caches)
    ensures !Linkable(c, p) ==> r == c
    ensures Linkable(c, p) && OwnerIndex(c.roots, p).None? ==> r == c
    ensures Linkable(c, p) && OwnerIndex(c.roots, p).Some? ==> LinkedTo(c, r, OwnerIndex(c.roots, p).value, p)
  {
    if p.id in c.postsReplies then c
    else if FindPostIndexWithId(c.roots, p.id) != -1 then c
    else if p.picture.None? then c
    else if p.time.None? then c
    else
      match OwnerIndex(c.roots, p)
      case None => c
      case Some(k) =>
        var parent := c.roots[k];
        var linked := parent.(authors := AddAuthor(parent.authors, p.picture.value),
                              updatedAt := At(p.time.value));
        Caches(c.postsReplies + [p.id], c.roots[k := linked])
  }

  /** The record a new root post starts with. */
  function NewRoot(p: Post): RootRecord
    requires p.counter.Some? && p.body.Some?
  {
    RootRecord(p.id, p.counter.value, [], Zero, p.body.value)
  }

  /** The root branch of the pass. */
  function RootStep(c: Caches, p: Post): (r: Caches)
    ensures r.postsReplies == c.postsReplies
    ensures p.counter.None? ==> r == c
    // a known root only has its count overwritten
    ensures p.counter.Some? && HasId(c.roots, p.id) ==>
      && |r.roots| == |c.roots|
      && (forall j :: 0 <= j < |c.roots| ==> r.roots[j] == c.roots[j].(count := r.roots[j].count))
      && (forall j :: 0 <= j < |c.roots| && c.roots[j].id != p.id ==> r.roots[j] == c.roots[j])
      && (UniqueIds(c.roots) ==>
            forall j :: 0 <= j < |c.roots| && c.roots[j].id == p.id ==> r.roots[j].count == p.counter.value)
    // a new root is appended when it shows header buttons and a body
    ensures p.counter.Some? && !HasId(c.roots, p.id) && p.hasButtons && p.body.Some? ==>
      r.roots == c.roots + [NewRoot(p)]
    ensures p.counter.Some? && !HasId(c.roots, p.id) && !(p.hasButtons && p.body.Some?) ==> r == c
  {
    if p.counter.None? then c
    else
      var k := FindPostIndexWithId(c.roots, p.id);
      if k != -1 then
        c.(roots := c.roots[k := c.roots[k].(count := p.counter.value)])
      else if !p.hasButtons then c
      else if p.body.None? then c
      else c.(roots := c.roots + [NewRoot(p)])
  }

  /** One post of the pass: replies carry the `post--comment` class, every other post is
      treated as a root. */
  function Step(c: Caches, p: Post): Caches {
    if p.isComment then ReplyStep(c, p) else RootStep(c, p)
  }

  /** `r` extends `c`: recorded replies stay recorded in order, root records stay in place
      with the same id and canonical key. */
  predicate Grows(c: Caches, r: Caches) {
    && |c.postsReplies| <= |r.postsReplies|
    && (forall i :: 0 <= i < |c.postsReplies| ==> r.postsReplies[i] == c.postsReplies[i])
    && |c.roots| <= |r.roots|
    && forall j :: 0 <= j < |c.roots| ==> r.roots[j].id == c.roots[j].id && r.roots[j].theme == c.roots[j].theme
  }

  /** Some post of the window is a reply with this id. */
  predicate ShowsReply(posts: seq<Post>, id: string) {
    exists q :: q in posts && q.isComment && q.id == id
  }

  /** Some post of the window is a root post with this id. */
  predicate ShowsRoot(posts: seq<Post>, id: string) {
    exists q :: q in posts && !q.isComment && q.id == id
  }

  /** The reconciliation pass: `$posts.forEach` as a left fold. */
  function Pass(c: Caches, posts: seq<Post>): Caches
    decreases |posts|
  {
    if |posts| == 0 then c
    else Pass(Step(c, posts[0]), posts[1..])
  }

  /** One post extends the caches: a reply records at most its own id, a root post
      appends at most one record, with its own id. */
  lemma StepGrows(c: Caches, p: Post)
    ensures var r := Step(c, p);
      && Grows(c, r)
      && (p.isComment ==> |r.roots| == |c.roots| && |r.postsReplies| <= |c.postsReplies| + 1)
      && (p.isComment ==> forall i :: |c.postsReplies| <= i < |r.postsReplies| ==> r.postsReplies[i] == p.id)
      && (!p.isComment ==> r.postsReplies == c.postsReplies && |r.roots| <= |c.roots| + 1)
      && (!p.isComment && |r.roots| > |c.roots| ==> r.roots[|c.roots|].id == p.id)
  {
  }

  /** A pass extends the caches, and everything it adds comes from the window: every
      newly recorded reply id is a reply of the window, every new root record a root
      post of it. */
  lemma {:induction false} PassGrows(c: Caches, posts: seq<Post>)
    ensures var r := Pass(c, posts);
      && Grows(c, r)
      && (forall i :: |c.postsReplies| <= i < |r.postsReplies| ==> ShowsReply(posts, r.postsReplies[i]))
      && (forall j :: |c.roots| <= j < |r.roots| ==> ShowsRoot(posts, r.roots[j].id))
    decreases |posts|
  {
    if |posts| > 0 {
      var next := Step(c, posts[0]);
      StepGrows(c, posts[0]);
      PassGrows(next, posts[1..]);
      assert posts[0] in posts && forall q :: q in posts[1..] ==> q in posts;
    }
  }
}

/** The invariant the pass keeps: unique root ids, at most five distinct authors per root,
    no reply recorded twice. */
module WellFormedness {
  import opened Posts
  import opened Authors
  import opened Linker

  /** One post keeps the caches well formed: a link appends an id not yet recorded and
      keeps the owner's authors bounded; a root post overwrites a count or appends a
      record with a new id. */
  lemma StepKeepsWellFormed(c: Caches, p: Post)
    requires WellFormed(c)
    ensures WellFormed(Step(c, p))
  {
  }

  /** A whole pass keeps the caches well formed. */
  lemma {:induction false} PassKeepsWellFormed(c: Caches, posts: seq<Post>)
    requires WellFormed(c)
    ensures WellFormed(Pass(c, posts))
    decreases |posts|
  {
    if |posts| > 0 {
      StepKeepsWellFormed(c, posts[0]);
      PassKeepsWellFormed(Step(c, posts[0]), posts[1..]);
    }
  }
}

/** Properties of whole passes over a window of posts. */
module PassProperties {
  import opened Posts
  import opened Authors
  import opened Linker

  function Ids(posts: seq<Post>): (r: seq<string>)
    ensures |r| == |posts|
    ensures forall i :: 0 <= i < |posts| ==> r[i] == posts[i].id
  {
    if |posts| == 0 then [] else [posts[0].id] + Ids(posts[1..])
  }

  lemma AppendAssociates(a: seq<string>, b: seq<string>, d: seq<string>)
    ensures (a + b) + d == a + (b + d)
  {
  }

  /** Plain replies, each linkable into `c`, with distinct ids. */
  predicate FreshPlainReplies(c: Caches, replies: seq<Post>) {
    && (forall i :: 0 <= i < |replies| ==>
         && replies[i].isComment && !replies[i].isOtherRoot
         && replies[i].picture.Some? && replies[i].time.Some?
         && replies[i].id !in c.postsReplies && !HasId(c.roots, replies[i].id))
    && NoDuplicates(Ids(replies))
  }

  /** A linkable plain reply is linked to the last root record. */
  lemma LinkPlainReply(c: Caches, p: Post)
    requires |c.roots| > 0 && p.isComment && !p.isOtherRoot && Linkable(c, p)
    ensures var k := |c.roots| - 1;
      Step(c, p) == Caches(c.postsReplies + [p.id],
                           c.roots[k := c.roots[k].(authors := AddAuthor(c.roots[k].authors, p.picture.value),
                                                    updatedAt := At(p.time.value))])
  {
  }

  /** A root post with a counter, header buttons and a body, whose id is not yet known,
      is appended as a new record. */
  lemma AppendNewRoot(c: Caches, p: Post)
    requires !p.isComment && p.counter.Some? && p.hasButtons && p.body.Some? && !HasId(c.roots, p.id)
    ensures Step(c, p) == c.(roots := c.roots + [NewRoot(p)])
  {
  }

  /** `LinkPlainReply` for the first of a run of such replies, stated over the run so that
      the inductions below need not unfold `FreshPlainReplies`. */
  lemma LinkFirstReply(c: Caches, replies: seq<Post>)
    requires |c.roots| > 0 && |replies| > 0 && FreshPlainReplies(c, replies)
    ensures var p := replies[0]; var k := |c.roots| - 1;
      Step(c, p) == Caches(c.postsReplies + [p.id],
                           c.roots[k := c.roots[k].(authors := AddAuthor(c.roots[k].authors, p.picture.value),
                                                    updatedAt := At(p.time.value))])
  {
    LinkPlainReply(c, replies[0]);
  }

  /** After the first reply is linked, the remaining ones are still fresh. */
  lemma RestStaysFresh(c: Caches, replies: seq<Post>)
    requires |c.roots| > 0 && |replies| > 0 && FreshPlainReplies(c, replies)
    ensures FreshPlainReplies(Step(c, replies[0]), replies[1..])
  {
  }

  lemma PassUnfold(c: Caches, posts: seq<Post>)
    requires |posts| > 0
    ensures Pass(c, posts) == Pass(Step(c, posts[0]), posts[1..])
  {
  }

  /** A window of three posts is three steps. */
  lemma PassOfThree(c: Caches, a: Post, b: Post, d: Post)
    ensures Pass(c, [a, b, d]) == Step(Step(Step(c, a), b), d)
  {
    PassUnfold(c, [a, b, d]);
    assert [a, b, d][1..] == [b, d];
    PassUnfold(Step(c, a), [b, d]);
    assert [b, d][1..] == [d];
    PassUnfold(Step(Step(c, a), b), [d]);
    assert [d][1..] == [];
  }

  /** Replies that follow a root without the `other--root` marker are all recorded, in
      order, and leave every root record but the last one as it was. */
  lemma {:induction false} AdjacentRepliesAreRecorded(c: Caches, replies: seq<Post>)
    requires |c.roots| > 0 && FreshPlainReplies(c, replies)
    ensures Pass(c, replies).postsReplies == c.postsReplies + Ids(replies)
    ensures |Pass(c, replies).roots| == |c.roots|
    ensures forall j :: 0 <= j < |c.roots| - 1 ==> Pass(c, replies).roots[j] == c.roots[j]
    ensures forall j :: 0 <= j < |c.roots| ==>
      Pass(c, replies).roots[j].(authors := c.roots[j].authors, updatedAt := c.roots[j].updatedAt) == c.roots[j]
  {
    AdjacentRepliesRecordIds(c, replies);
    AdjacentRepliesKeepRoots(c, replies);
  }

  /** The reply-id half of `AdjacentRepliesAreRecorded`. */
  lemma {:induction false} AdjacentRepliesRecordIds(c: Caches, replies: seq<Post>)
    requires |c.roots| > 0 && FreshPlainReplies(c, replies)
    ensures Pass(c, replies).postsReplies == c.postsReplies + Ids(replies)
    decreases |replies|
  {
    if |replies| == 0 {
      assert Ids(replies) == [];
    } else {
      var p := replies[0];
      var rest := replies[1..];
      LinkFirstReply(c, replies);
      RestStaysFresh(c, replies);
      PassUnfold(c, replies);
      AdjacentRepliesRecordIds(Step(c, p), rest);
      assert Ids(replies) == [p.id] + Ids(rest);
      AppendAssociates(c.postsReplies, [p.id], Ids(rest));
    }
  }

  /** The root-record half of `AdjacentRepliesAreRecorded`. */
  lemma {:induction false} AdjacentRepliesKeepRoots(c: Caches, replies: seq<Post>)
    requires |c.roots| > 0 && FreshPlainReplies(c, replies)
    ensures |Pass(c, replies).roots| == |c.roots|
    ensures forall j :: 0 <= j < |c.roots| - 1 ==> Pass(c, replies).roots[j] == c.roots[j]
    ensures forall j :: 0 <= j < |c.roots| ==>
      Pass(c, replies).roots[j].(authors := c.roots[j].authors, updatedAt := c.roots[j].updatedAt) == c.roots[j]
    decreases |replies|
  {
    if |replies| > 0 {
      var p := replies[0];
      LinkFirstReply(c, replies);
      RestStaysFresh(c, replies);
      PassUnfold(c, replies);
      AdjacentRepliesKeepRoots(Step(c, p), replies[1..]);
    }
  }

  /** The author list after adding the pictures of `replies` one by one, in order. */
  function AddAll(authors: seq<string>, replies: seq<Post>): seq<string>
    requires forall i :: 0 <= i < |replies| ==> replies[i].picture.Some?
    decreases |replies|
  {
    if |replies| == 0 then authors
    else AddAll(AddAuthor(authors, replies[0].picture.value), replies[1..])
  }

  /** ... and the last root record takes the last reply's time, and its author list is
      that of every reply of the run added in order. */
  lemma {:induction false} AdjacentRepliesLinkToLastRoot(c: Caches, replies: seq<Post>)
    requires |c.roots| > 0 && FreshPlainReplies(c, replies) && |replies| > 0
    ensures |Pass(c, replies).roots| == |c.roots|
    ensures Pass(c, replies).roots[|c.roots| - 1].updatedAt == At(replies[|replies| - 1].time.value)
    ensures Pass(c, replies).roots[|c.roots| - 1].authors == AddAll(c.roots[|c.roots| - 1].authors, replies)
    ensures replies[|replies| - 1].picture.value in Pass(c, replies).roots[|c.roots| - 1].authors
    decreases |replies|
  {
    var p := replies[0];
    var rest := replies[1..];
    LinkFirstReply(c, replies);
    PassUnfold(c, replies);
    assert |Step(c, p).roots| == |c.roots|;
    if |rest| == 0 {
      assert Pass(Step(c, p), rest) == Step(c, p);
    } else {
      RestStaysFresh(c, replies);
      AdjacentRepliesLinkToLastRoot(Step(c, p), rest);
      assert replies[|replies| - 1] == rest[|rest| - 1];
    }
  }
}
