/** The data the reconciliation pass reads from the page and keeps between polling cycles. */
module Posts {
  import opened Wrappers

  /** One rendered post of the message list, reduced to what the pass reads from it.
      A sub-element the pass queries is `None` when the query finds nothing. The two
      canonical keys (`reference`, `body`) are the outputs of the text canonicalizer,
      which is not part of this model; `counter` is the numeric value of the counter text. */
  datatype Post = Post(
    id: string,
    /** carries the `post--comment` class: a reply */
    isComment: bool,
    /** carries the `other--root` class: a reply to an earlier, non-adjacent root */
    isOtherRoot: bool,
    /** source of the author picture */
    picture: Option<string>,
    /** date-time of the post time element */
    time: Option<string>,
    /** canonical key of the quoted root text of an `other--root` reply */
    reference: Option<string>,
    /** value of the reply counter of a root post */
    counter: Option<int>,
    /** the header holds at least one button */
    hasButtons: bool,
    /** canonical key of the root post body, HTML tags stripped */
    body: Option<string>
  )

  /** `updatedAt` starts as the number 0 and is later overwritten with a reply's date-time. */
  datatype UpdatedAt = Zero | At(dateTime: string)

  /** A root post known to have replies. */
  datatype RootRecord = RootRecord(
    id: string,
    count: int,
    authors: seq<string>,
    updatedAt: UpdatedAt,
    theme: string
  )

  predicate NoDuplicates<T(==)>(s: seq<T>) {
    forall i, j :: 0 <= i < j < |s| ==> s[i] != s[j]
  }

  predicate HasId(roots: seq<RootRecord>, id: string) {
    exists k :: 0 <= k < |roots| && roots[k].id == id
  }

  predicate UniqueIds(roots: seq<RootRecord>) {
    forall i, j :: 0 <= i < j < |roots| ==> roots[i].id != roots[j].id
  }
}
