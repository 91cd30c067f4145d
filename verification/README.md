# Reply-counter reconciliation, modelled in Dafny

The browser extension adds reply counters and recent-author avatars to a Mattermost
channel. It reads only the rendered post list. Every polling cycle of `loop()` runs the
reconciliation described here:

- the **change detector** decides whether the visible window changed. It may empty the
  caches and force a parse when the native and injected counter counts disagree. It skips
  the cycle when the first and last post ids are the same as last time. Otherwise it
  records the new boundary ids;
- the **classifier and linker** makes one left-to-right pass over the visible posts. It
  keeps two caches: `rootPostsWithReplies` (root records with `id`, `count`, `authors`,
  `updatedAt`, `theme`) and `postsReplies` (ids of replies already linked). A reply goes
  to the last root record appended, or, when it carries the `other--root` marker, to the
  first record whose canonical key equals the key of the quoted root text.

The model is functional. A `Post` is an immutable record of what the pass reads from the
DOM. Each queried sub-element is an `Option`. The canonical keys produced by `themize`
and `stripHtmlTags` are fields of the post. The counter text is already a number. The
pass is a left fold (`Linker.Pass`) of a one-post step (`Linker.Step`) over
`seq<Post>`, and it returns new `Caches`. The two counter counts of the detector are
plain numbers. The DOM answers to the post query are a sequence given to `Probe`.

Modules: `Wrappers` (Option), `Posts` (post and root record), `Search` (`findIndex`),
`Authors` (bounded author list), `Linker` (the pass), `WellFormedness` (the invariant
the pass keeps), `PassProperties` (runs of replies), `Detector` (retry loop, change detector, one cycle), `Scenarios`
(concrete windows).

Behaviour of the code worth knowing:

- The reply guard at `src/content/index.js:155` compares the reply's **own** id with the
  root ids. Its comment says it skips replies whose root is not visible.
  `Scenarios.ReplyWithRootIdIsSkipped` shows the guard as written.
- The code keeps an author who is already listed in place and evicts by first
  insertion, so the list is not the five most recent distinct authors.
  `Scenarios.AuthorsEvictByFirstInsertion` shows an author who just replied being
  evicted next.
- The adjacency rule uses the last record appended to the caches, not the root that
  precedes the reply in the window. This is the open TODO at `src/content/index.js:54`.
  `Scenarios.AdjacencyUsesLastAppendedRoot` shows it.
- A second pass over the same window, starting from the caches the first pass left,
  can differ from them. It can link a reply that sits above its root
  (`Scenarios.PassIsNotIdempotent`). Repeated
  cycles do nothing only because the detector skips them (`Detector.CycleIsIdempotent`).

## Model

| member | source | states |
|---|---|---|
| Search.FindIndex | src/content/index.js:32-33 | The result is -1 exactly when no element matches. Otherwise it is the index of a matching element, and no earlier element matches. |
| Search.FindPostIndexWithId | src/content/index.js:32 | The result is -1 exactly when no root record has the id. Otherwise it is the first record with that id. |
| Search.FindPostIndexWithTheme | src/content/index.js:33 | The result is -1 exactly when no root record has the canonical key. Otherwise it is the first record with that key. |
| Authors.AddAuthor | src/content/index.js:181-184 | An author already listed leaves the list unchanged, not even reordered. A new author becomes the last entry. The list grows by one below five entries and otherwise drops exactly its oldest entry. No other author appears. A list of at most five distinct authors stays that way. |
| Linker.OwnerIndex | src/content/index.js:163-178 | A plain reply belongs to the last root record, and to none when the list is empty. An `other--root` reply belongs to the first record whose key equals its reference key. It belongs to none when the reference is missing or no key matches. |
| Linker.ReplyStep | src/content/index.js:151-190 | The caches are unchanged for these replies: already recorded, having a root's id, missing picture or time, or with no owner. Otherwise only the owner's `authors` and `updatedAt` change, and the reply id is appended once. |
| Linker.RootStep | src/content/index.js:192-223 | A root post without a counter changes nothing. A known root only has its `count` overwritten. A new root is appended with no authors, `updatedAt` 0 and its body key, but only if it shows buttons and a body. Recorded replies never change. |
| Linker.NewRoot | src/content/index.js:215-223 | Carries no ensures of its own: it is the record pushed for a new root post, with its id, its counter value, no authors, `updatedAt` 0 and its body key. `PassProperties.AppendNewRoot` states when a step appends it. |
| Linker.Step | src/content/index.js:151-223 | Carries no ensures of its own: a post with the `post--comment` class takes the reply branch, every other post the root branch. `Linker.StepGrows` and `WellFormedness.StepKeepsWellFormed` state its contract. |
| Linker.Pass | src/content/index.js:149-224 | Carries no ensures of its own: the `forEach` over the window as a left fold of `Step`. `Linker.PassGrows` and `WellFormedness.PassKeepsWellFormed` state its contract. |
| Linker.StepGrows | src/content/index.js:149-151 | A reply records at most one id, its own, and adds no record. A root post records no reply id. It appends at most one record, carrying its own id. Existing records keep their id, key and position. |
| Linker.PassGrows | src/content/index.js:149-224 | Over a whole window, recorded reply ids stay recorded in order, and root records stay in place. Every newly recorded reply id is a reply of the window. Every new root id is a root post of the window. |
| WellFormedness.StepKeepsWellFormed | src/content/index.js:151-223 | Suppose root ids are unique, each root has at most five distinct authors, and no reply is recorded twice. Any one post, reply or root, keeps all three true. |
| WellFormedness.PassKeepsWellFormed | src/content/index.js:149-224 | A whole pass keeps the caches well formed. |
| PassProperties.LinkPlainReply | src/content/index.js:173-187 | A linkable plain reply records its id. It updates the last root's authors and time and changes nothing else. |
| PassProperties.AppendNewRoot | src/content/index.js:207-223 | An unknown root post with a counter, buttons and a body is appended as a fresh record. |
| PassProperties.AdjacentRepliesAreRecorded | src/content/index.js:173-187 | Take linkable plain replies with distinct ids, after a non-empty root list. All of them are recorded, in order. Every root other than the last is unchanged. The last root changes only in `authors` and `updatedAt`. |
| PassProperties.AdjacentRepliesLinkToLastRoot | src/content/index.js:173-187 | After such replies, the last root takes the last reply's time. Its author list is the old list with every reply's picture added in window order, so it lists the last reply's author. |
| Detector.Probe | src/content/index.js:58-72 | The loop returns the first non-empty answer among the first ten queries, or nothing if all ten are empty. The counter is -1 exactly when no post was found. |
| Detector.Detect | src/content/index.js:74-144 | The cycle is skipped exactly when the counter counts agree and both boundary ids are unchanged. A count mismatch empties both caches and forces the parse. Any parse records the window's first and last ids. Without a mismatch a parse keeps the caches. |
| Detector.Cycle | src/content/index.js:68-224 | An empty window changes nothing. A non-empty window is skipped exactly when the counter counts agree and both boundary ids are unchanged, and is parsed otherwise, forced exactly when the counts disagree. A skipped cycle keeps the whole engine state. A parse records the new boundary ids. A forced parse runs the pass from empty caches. Any other parse runs it from the kept caches. |
| Detector.InitialEngineIsWellFormed | src/content/index.js:21-30 | The starting state, with no boundary ids and empty caches, is well formed. |
| Detector.CycleKeepsWellFormed | src/content/index.js:68-224 | Every cycle keeps the caches well formed. |
| Detector.CycleIsIdempotent | src/content/index.js:135-144 | A second cycle over the same window, with agreeing counter counts, is skipped and changes nothing. |
| Detector.ForcedCycleKeepsOnlyWindowPosts | src/content/index.js:87-94 | After a count mismatch, the caches are well formed. Every root record is a root post of the window. Every recorded reply is a reply in the window. |
| Scenarios.RootThenTwoReplies | src/content/index.js:149-224 | A root with count 2 followed by replies A and B gives one record. Its authors are A's and B's pictures, in that order, and its time is B's. The recorded replies are A and B. |
| Scenarios.CrossReferenceLinksToMatchingRoot | src/content/index.js:164-172 | An `other--root` reply quoting the first of two roots is linked to that root, not to the last one. |
| Scenarios.UnmatchedReplyIsLinkedLater | src/content/index.js:168-172 | An `other--root` reply with no matching root is not recorded. A later pass that shows the root links it. |
| Scenarios.AdjacencyUsesLastAppendedRoot | src/content/index.js:173-177 | Suppose the caches hold R1 and then R2, and the window is R1 followed by a plain reply. The reply is linked to R2. |
| Scenarios.ReplyWithRootIdIsSkipped | src/content/index.js:155 | A reply whose own id equals a known root id changes nothing. |
| Scenarios.PassIsNotIdempotent | src/content/index.js:173-177 | Take a window where a reply comes above its root. A second pass that starts from the caches the first pass left links that reply, so it gives different caches than the first pass. |
| Scenarios.AuthorsEvictByFirstInsertion | src/content/index.js:181-184 | Start from five authors a to e. When a replies again and then f replies, a is dropped. |

## Left out

- Theme detection and the dark-theme body class (lines 99-118): they depend on computed
  CSS colours and a colour classifier that is not part of this model.
- The infinite-scroll listener and the "load more" click (lines 35-40, 123-129): DOM
  event plumbing that does not touch the caches.
- Timers and navigation: `setTimeout`, `clearTimeout`, the `hashchange` listener and
  the delays of the retry loop (lines 43-50, 65, 69, 137, 234). `Detector.Probe` keeps
  the retry counter and drops the waits.
- `updateCounters` and its error handling (lines 226-232). It is not part of this model.
  The model assumes it does not change the caches, although it receives
  `rootPostsWithReplies` by reference (line 228). It produces the `.MattermostUno-counter`
  nodes that the next cycle counts (line 89). The model takes that count as a free input,
  `injectedCounters`.
- The port connection to the background script and the Mattermost meta check
  (lines 237-243): foreign runtime calls.
- `themize`, `stripHtmlTags` and `Number()`. Their outputs are fields of `Post`. A
  counter text that `Number()` turns into `NaN` or a fraction is not modelled, so
  `count` is an integer.
- The DOM handles `$button` and `$node` of a root record. They are only passed to the
  presenter.
