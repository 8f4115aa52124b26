# archive_tool core, modelled in Dafny

This project models the core of `archive_tool.py`, which turns exported
chat-conversation archives into a linear, time-ordered corpus. The model
covers the following parts.

- **Message normalisation** (`Messages`): `safe_int`,
  `normalize_timestamp`, `normalize_message` and, in `Graph`,
  `get_node_message_timestamp`. Decoded JSON is the `Values.Value` datatype,
  with Python's truthiness, `dict.get`, `or`, `str.strip` and `int(str)`.
- **Linearisation** (`Subtree`, `Linearize`):
  - `get_latest_subtree_timestamp` is the class `Subtree.SubtreeScan`. Its
    fields `cache` and `stack` are the dictionary and the set that the
    source threads through the recursion.
  - The two candidate paths of `linearize_conversation` come from
    `collect_path_from_current_node` (the active path) and
    `collect_latest_branch_path` (the latest branch).
  - `path_to_messages` turns each path into messages, and the two message
    lists are reconciled: the longer one wins and a tie goes to the active
    path.
  - Each path is proved equal to an independent definition of what it is
    (`IsActivePath` and `IsLatestBranch`). The latest branch is defined
    relative to a table of subtree timestamps, and for a given table only
    one path satisfies the definition.
  - On a mapping whose children links have no cycle, the memo that
    `get_latest_subtree_timestamp` builds is proved exact: every entry is
    the maximum of the node's own stamp and the entries of its children.
    Every entry is therefore the latest stamp in the node's subtree
    (`Subtree.SubtreeMax`), and the returned branch is the latest branch
    for those maxima. With a cycle, a node met while it is still being
    scanned counts only its own stamp (archive_tool.py:74-75), so the memo
    need not be exact.
  - The mapping is a map plus the insertion order of its keys, because the
    root search depends on that order. `Graph.WellFormed` only says that
    the order lists every key once, which a Python dictionary guarantees.
- **Month files** (`Sorting`, `Months`): the sort/anchor loop of
  `build_month_files`.
  - Day files are sorted by name. Each day's lines are sorted stably by
    their leading timestamp, with a generic insertion sort proved to be a
    sorted, stable permutation.
  - Each line with a tab is appended to its month with the anchor
    `^msg-NNNNNN`, numbered on from that month's count.
  - The month directory is a map from month key to the lines of the file,
    starting from what the files held before the call.
- **Topic boundaries and preview** (`Topics`): `detect_topic_boundaries`,
  and the marker loop of `build_topic_preview` that writes
  `[TOPIC_START] <date> Topic-NNN` before each marked line.
- **Topic splitting** (`Splitter`): the buffer/flush loop of `split_topics`.
  - It is a state-machine function (`Next`, `Flushed`) and also a class with
    the source's mutable state (`TopicSplitter`).
  - File names are built with the `[^0-9A-Za-z一-龥_-]+` → `_`
    rewrite.
  - The output directory is a map from file name to the lines written.
  - It is proved that splitting a preview gives back exactly the month's
    lines, one topic per boundary.

Two behaviours of the code are worth spelling out:

- The gap test is signed: `ts - last_ts >= gap_hours * 3600`
  (archive_tool.py:318). A timestamp that jumps backwards never starts a
  topic. `Topics.GapAt` models the signed test.
- `flush()` returns at once while no title is current (`if not current`,
  archive_tool.py:365-366), without clearing the buffer.
  - The lines before the first marker are therefore written at the head of
    the first topic (`Splitter.PreambleJoinsFirstTopic`).
  - A marker whose title is empty still flushes the topic before it
    (archive_tool.py:379-380). The topic it opens is never written: its
    lines stay in the buffer until a later marker with a title, or to the
    end (`Splitter.EmptyTitleKeepsTail`).

## Model

| member | source | states |
|---|---|---|
| Values.Strip | archive_tool.py:53 | the result has no whitespace at either end and is no longer than the input; it is empty exactly when the input is all whitespace; it is the input with some all-whitespace prefix and some all-whitespace suffix removed |
| Values.StripExact | archive_tool.py:53 | any string obtained by removing an all-whitespace prefix and suffix that leaves no whitespace at either end is the strip of the input: `str.strip` is pinned by its result |
| Values.StripIdempotent | archive_tool.py:53 | stripping twice is stripping once |
| Values.ParseInt | archive_tool.py:14-16 | `int(s)` succeeds only on text that is not blank after stripping |
| Values.DecimalValue | archive_tool.py:263 | the decimal text of `n` reads back as `n` |
| Values.Padded | archive_tool.py:302 | `f"{n:06d}"` is all digits, and its length is the width, or the number's own length when that is longer |
| Values.PaddedValue | archive_tool.py:302 | the digits of the zero-padded number read back as the number |
| Values.ParsePadded | archive_tool.py:302 | `int()` of a zero-padded anchor number gives the number |
| Values.ParseIntText | archive_tool.py:289-291 | `int(f"{ts}")` gives `ts` back, for negative numbers too |
| Values.RemoveAllAbsent | archive_tool.py:280 | `str.replace(pat, "")` leaves a string without `pat` unchanged |
| Values.RemoveAllKeepsLast | archive_tool.py:381 | removing the marker keeps a last character that cannot end the marker |
| Values.Slice | archive_tool.py:284 | Python's clamped slice equals the exact slice when the bounds are in range, and is never longer than the string |
| Messages.SafeIntOfText | archive_tool.py:14-21 | `safe_int` reads the timestamp written before the tab back as that timestamp |
| Messages.NormalizeTimestamp | archive_tool.py:24-33 | 0 for a missing or non-numeric value; a value above 10^12 is read as milliseconds, so that `r*1000 <= v < r*1000+1000`; otherwise the value itself |
| Messages.MillisMatchSeconds | archive_tool.py:31-33 | a millisecond stamp and the matching second stamp normalise to the same second |
| Messages.MillisExample | archive_tool.py:31-33 | 1700000000000 and 1700000000 both normalise to 1700000000 |
| Messages.NormalizeTimestampText | archive_tool.py:24-33 | a timestamp given as decimal text normalises like the number |
| Messages.SplitJoin | archive_tool.py:42 | joining string parts that hold no newline with `"\n"` loses nothing: splitting gives the parts back |
| Messages.Role | archive_tool.py:37 | `author.role`, else `role`, else `"assistant"`; the result is always truthy |
| Messages.NormalizeMessage | archive_tool.py:36-55 | the role is truthy and follows the fallback chain; the content is the strip of the raw text, so it has no whitespace at either end and is empty exactly when the raw text is all whitespace; the timestamp is the normalised raw timestamp |
| Messages.RecordFields | archive_tool.py:51-55 | the returned dictionary, read as a raw message, yields the role (or `"assistant"` when it is falsy) and the content, and no timestamp: it stores the time under `ts`, which the reader does not look at |
| Messages.NormalizeAgain | archive_tool.py:36-55 | normalising the returned dictionary once more keeps role and content, and the timestamp becomes 0 |
| Messages.PartsExample | archive_tool.py:39-42 | parts `["a", "b"]` give the content `"a\nb"` |
| Graph.NodeTsAgrees | archive_tool.py:58-66 | a node's timestamp is 0 without a message, and otherwise the timestamp `normalize_message` gives its message |
| Graph.Reverse | archive_tool.py:103 | `ids.reverse()` puts element `i` at position `n-1-i` |
| Graph.ReverseReverse | archive_tool.py:103 | reversing twice gives the list back |
| Subtree.Best | archive_tool.py:78-82 | the running maximum over a list of children is at least the node's own stamp and every child's memo value, and is one of them |
| Subtree.BestStable | archive_tool.py:78-82 | the maximum depends only on the children's memo values |
| Subtree.ExactExtend | archive_tool.py:83-84 | memoising a node at the maximum of its stamp and its memoised children keeps every memo entry exact |
| Subtree.ExactIsMax | archive_tool.py:69-85 | when the children links have no cycle, every exact memo entry is the latest stamp in that node's subtree |
| Subtree.BestIsChildrenMax | archive_tool.py:78-82 | on an exact memo without cycles, the running maximum over the children equals the maximum over their subtrees |
| Subtree.SubtreeScan.constructor | archive_tool.py:120-121 | a fresh scanner has an empty cache and an empty stack |
| Subtree.SubtreeScan.Latest | archive_tool.py:69-85 | 0 for an id that is not a node; the memoised value when cached; the node's own stamp when it is in progress; otherwise the maximum of the node's stamp and the values of its children, which is then memoised. Earlier memo entries never change, the memo stays exact when the children links have no cycle, and the result is the stamp of a node reached down child links |
| Subtree.SubtreeScan.Compute | archive_tool.py:76-85 | for an uncached node that is not in progress: the stack is restored and the result, the maximum of the node's stamp and its children's values, is memoised |
| Subtree.SubtreeScan.ScanChildren | archive_tool.py:78-82 | the loop's result is the maximum of the node's own stamp and its children's values, and is explained by a child walk |
| Subtree.SubtreeScan.ScanStep | archive_tool.py:79-82 | one iteration extends the maximum by the next child, leaving the values of the earlier children unchanged |
| Subtree.SubtreeScan.AbsorbChild | archive_tool.py:80-82 | after recursing into a child, the best value is the larger of the old one and the child's value |
| Subtree.SubtreeScan.Memoise | archive_tool.py:83-84 | the node leaves the stack and exactly its value enters the cache, keeping the scanner valid and, without cycles, the memo exact |
| Linearize.WalkUp | archive_tool.py:97-102 | the walk from a node follows parent links without repeats and stops at a missing, dangling or repeated parent |
| Linearize.ActivePath | archive_tool.py:93-104 | the returned path is the active path: empty unless `current_node` names a node, otherwise the reversed parent walk |
| Linearize.ParentWalkUnique | archive_tool.py:99-102 | only one sequence satisfies the definition of the parent walk |
| Linearize.ActivePathUnique | archive_tool.py:93-104 | only one path satisfies the definition of the active path |
| Linearize.FirstRootFrom | archive_tool.py:111-115 | the first key, in insertion order, whose parent is missing or not in the mapping |
| Linearize.FindRoot | archive_tool.py:107-117 | the root is the first root candidate, or the first key when there is none |
| Linearize.PickIndexSpec | archive_tool.py:130-138 | no child is chosen exactly when no child is in the mapping; otherwise the chosen child has the greatest score, and every earlier candidate scores strictly less |
| Linearize.PickIndexStable | archive_tool.py:132-138 | the choice depends only on the scores of the candidates |
| Linearize.ScoreChild | archive_tool.py:133-135 | scoring a child keeps the scanner valid, memoises the child when it is a node, and returns its memoised score |
| Linearize.Consider | archive_tool.py:132-138 | one iteration keeps "the choice is the pick among the children seen so far" |
| Linearize.ChosenStep | archive_tool.py:132-138 | scoring one more child, which only adds memo entries, extends the pick among the earlier children by that child |
| Linearize.PickChild | archive_tool.py:130-138 | the loop's choice is the pick over all children, with every candidate memoised |
| Linearize.BranchPrefixStable | archive_tool.py:120-141 | memoising more subtrees does not change the choices already made along the path |
| Linearize.Visit | archive_tool.py:124-141 | one step of the descent appends the node and returns the pick among its children |
| Linearize.Descend | archive_tool.py:122-141 | the descent from the root follows the pick at each node and stops where the choice halts it |
| Linearize.LatestBranchPath | archive_tool.py:106-142 | the returned path is the latest branch under the final memo and, when the children links have no cycle, under the subtree maxima |
| Linearize.IdealBranch | archive_tool.py:119-141 | a latest branch under an exact memo is also the latest branch under the subtree maxima |
| Linearize.LatestBranchUnique | archive_tool.py:106-142 | only one path satisfies the definition of the latest branch |
| Linearize.Kept | archive_tool.py:147-153 | a node contributes at most one message, and only one with content |
| Linearize.MessagesOf | archive_tool.py:144-154 | at most one message per id, each with non-empty content |
| Linearize.MessagesOfAppend | archive_tool.py:144-154 | the messages of a joined path are those of its parts, joined |
| Linearize.KeepNode | archive_tool.py:147-153 | one iteration appends the kept message of that id |
| Linearize.PathToMessages | archive_tool.py:144-154 | the loop returns the messages of the path, in path order |
| Linearize.Reconcile | archive_tool.py:156-162 | the fallback when the primary list is empty; otherwise the longer list, with ties going to the primary |
| Linearize.LinearizeConversation | archive_tool.py:88-162 | `[]` for an empty mapping; otherwise the reconciliation of the messages of the active path and of the latest branch, every one with content; without cycles the branch is the latest one under the subtree maxima |
| Sorting.SortPerm | archive_tool.py:292 | sorting is a permutation |
| Sorting.SortSorted | archive_tool.py:292 | the result is sorted under any total preorder |
| Sorting.SortStable | archive_tool.py:292 | elements that compare equal keep their input order |
| Sorting.LexPreorder | archive_tool.py:276 | Python's string order is a total preorder |
| Sorting.LexAntisymmetric | archive_tool.py:276 | two names that compare both ways are equal |
| Months.FirstTab | archive_tool.py:290 | the position of the first tab, or the length when there is none |
| Months.KeyPreorder | archive_tool.py:289-292 | ordering lines by their leading timestamp is a total preorder |
| Months.LineKeyOfText | archive_tool.py:289-291 | the sort key of a line written as `ts\t...` is `ts` |
| Months.RawDays | archive_tool.py:276 | exactly the listed files whose name ends in `.raw` |
| Months.DayOrderSpec | archive_tool.py:276 | the day files are sorted by name and are exactly the `.raw` files |
| Months.AnchoredAt | archive_tool.py:301-303 | the i-th written line is its text with anchor number start+i+1 |
| Months.AnchoredAppend | archive_tool.py:294-303 | anchoring two runs of texts equals anchoring the first, then the second numbered on from its length |
| Months.AnchorNumbers | archive_tool.py:301-303 | the i-th line of a month carries `^msg-` and the 6-digit number i+1, which parses back to i+1 |
| Months.MonthAnchorsContinue | archive_tool.py:277-303 | the anchors of later day files continue from the count of the earlier files of the same month |
| Months.AnchorDay | archive_tool.py:296-303 | the loop appends the day's anchored texts, numbered on from the month's count, and advances the count by their number |
| Months.AnchorLine | archive_tool.py:297-303 | one line keeps the loop's invariant: a line without a tab is skipped, any other is counted and anchored |
| Months.AddDay | archive_tool.py:278-303 | one day file extends the counters and the month files by the day's anchored texts |
| Months.BuildMonthFiles | archive_tool.py:269-303 | without a day directory nothing changes; otherwise each month file holds its earlier lines followed by the texts of its days, in day-name order and time order within a day, anchored 1, 2, … |
| Topics.LastStampSpec | archive_tool.py:308-323 | `last_ts` is 0 exactly when no earlier line has a timestamp; otherwise it is the timestamp of the last earlier line that has one |
| Topics.AnyTrigger | archive_tool.py:320 | true exactly when some trigger occurs in the line |
| Topics.AddSorted | archive_tool.py:326 | inserting into an increasing list keeps it increasing and adds exactly that element |
| Topics.SortedSet | archive_tool.py:326 | `sorted(set(xs))` is increasing and holds exactly the elements of `xs` |
| Topics.IncreasingUnique | archive_tool.py:326 | two increasing lists with the same elements are equal |
| Topics.BoundariesBelowSpec | archive_tool.py:306-326 | the boundaries below n are increasing and are exactly the boundary lines below n |
| Topics.BoundariesSpec | archive_tool.py:306-326 | the markers are increasing and contain 0; any other line is a marker exactly when it follows a gap of at least the threshold or holds a trigger |
| Topics.OneTopic | archive_tool.py:306-326 | without gaps or triggers after the first line, the only marker is 0 |
| Topics.Appended | archive_tool.py:317-321 | the indices the loop appends are exactly the lines with a gap or a trigger |
| Topics.ScanLines | archive_tool.py:307-323 | the loop appends exactly the lines with a gap or a trigger, tracking `last_ts` |
| Topics.DetectBoundaries | archive_tool.py:306-326 | the result is increasing and holds 0 and exactly the boundary lines |
| Topics.Header | archive_tool.py:350-351 | the header line starts with `[TOPIC_START]` and ends in a digit |
| Topics.PreviewStep | archive_tool.py:347-352 | one more line adds its header, when it is marked, and then the line |
| Topics.WritePreview | archive_tool.py:346-352 | the loop writes the preview of the lines under the markers |
| Topics.PreviewFile | archive_tool.py:339-352 | an empty month gives no preview; otherwise one line per line plus one header per marker |
| Topics.PreviewLength | archive_tool.py:346-352 | the preview has one line per line plus one per marked line |
| Topics.PreviewPositions | archive_tool.py:346-352 | every line appears in the preview, directly after its header when it is marked |
| Topics.MarkedMonotone | archive_tool.py:348-349 | the topic counter never decreases |
| Topics.TopicNumbers | archive_tool.py:348-351 | the k-th marker gets topic number k+1 |
| Topics.HeaderNumber | archive_tool.py:348-351 | the header of the k-th marker ends in ` Topic-` and the 3-digit number k+1, which parses back to k+1 |
| Topics.MarkedAll | archive_tool.py:346-352 | after the last line, the counter equals the number of markers |
| Splitter.Slug | archive_tool.py:367 | the file name uses only kept characters; it is no longer than the title, and empty only for an empty title |
| Splitter.SlugKeeps | archive_tool.py:367 | a title made only of kept characters is its own file name |
| Splitter.SlugIdempotent | archive_tool.py:367 | rewriting a rewritten name changes nothing |
| Splitter.SlugRun | archive_tool.py:367 | a non-empty run of replaced characters becomes a single `_` |
| Splitter.SlugSnoc | archive_tool.py:367 | one more character adds itself when kept, `_` when it starts a new run of replaced characters, and nothing when it continues one |
| Splitter.SlugAppend | archive_tool.py:367 | the rewrite of two joined titles is the rewrites joined, when a kept character sits at the join |
| Splitter.Flushed | archive_tool.py:363-376 | without a current title nothing changes; otherwise the buffer becomes a written topic under that title and is cleared. Bodies plus buffer are conserved, and written titles stay non-empty |
| Splitter.FeedFromAppend | archive_tool.py:378-383 | feeding two runs of lines equals feeding them one after the other |
| Splitter.FeedPlain | archive_tool.py:383 | lines without markers only extend the buffer |
| Splitter.TitlesNonEmpty | archive_tool.py:363-381 | every topic written has a non-empty title |
| Splitter.OutcomeTitles | archive_tool.py:363-384 | after the final flush, every topic written has a non-empty title |
| Splitter.FeedConserves | archive_tool.py:378-383 | the written bodies followed by the buffer are exactly the non-marker lines |
| Splitter.OutcomeConserves | archive_tool.py:363-384 | after the final flush the same holds, and lines are left over only when there was never a title |
| Splitter.PreambleJoinsFirstTopic | archive_tool.py:363-384 | lines before the first marker are written at the head of the first topic |
| Splitter.EmptyTitleKeepsTail | archive_tool.py:365-383 | a marker with an empty title flushes the topic before it, as the end of input would; the lines after it are never written and stay in the buffer |
| Splitter.FilesLastWins | archive_tool.py:367-375 | a topic's file holds its front matter and body unless a later topic has the same file name |
| Splitter.FilesDomain | archive_tool.py:367-375 | the files are exactly the file names of the topics written |
| Splitter.DigitTitle | archive_tool.py:381 | a marker line ending in a digit has a non-empty title |
| Splitter.HeaderTitle | archive_tool.py:381 | every preview header has a non-empty title |
| Splitter.AnnotateNonMarkers | archive_tool.py:378-383 | dropping the marker lines from the preview gives the month's lines back |
| Splitter.AnnotateFeed | archive_tool.py:378-384 | after a prefix of the preview, a title is current and one topic is written per marker seen, except the current one |
| Splitter.SplitPreview | archive_tool.py:346-384 | splitting a preview whose first line is marked loses no line: the bodies are the month's lines, with one topic per marker and an empty buffer |
| Splitter.SplitMonthPreview | archive_tool.py:306-384 | splitting the preview of a month gives one topic per detected boundary, and their bodies are exactly the month's lines |
| Splitter.TopicSplitter.constructor | archive_tool.py:360-361 | `current` starts unset and `buffer` starts empty, with no files |
| Splitter.TopicSplitter.Flush | archive_tool.py:363-376 | the object's state becomes the flushed state, and its files are those of the topics written |
| Splitter.TopicSplitter.Take | archive_tool.py:378-383 | the object's state advances by one line of the loop |
| Splitter.SplitTopics | archive_tool.py:355-384 | the directory written is the files of the topics after the final flush |

## Left out

- File-system I/O is not modelled: directories, `open`, `os.listdir`, `ensure_dir` and `readlines`. Day and month files are values: a listing of names with their lines, and a map from month key to lines.
- The CSV index that `split_topics` writes (archive_tool.py:386-394) is not modelled. It is plain I/O over the directory listing.
- `iter_json_array`, `load_conversations_stream`, `load_conversations_fallback`, `parse_openai_conversations`, `write_by_day_raw` and `main`/`argparse` are not part of this model. They do streaming JSON decoding, I/O and command-line handling.
- `to_iso`, `day_key`, `month_key` and `strptime` with the local time zone are left out. Reading the `[YYYY-MM-DD HH:MM:SS]` prefix of a line is the given function `parse` of `Topics`, and the regular expression that finds it is part of that function.
- Floating point is not modelled. `safe_int`'s `int(float(v))` fallback and `float(ts)` in `normalize_timestamp` are read on integers and decimal strings only.
- Messages.IntOf: does not accept the underscores and non-ASCII digits that Python's `int()` allows in strings.
- A truthy `message`, `author`, `metadata` or `content.text` that is not a dictionary or string makes the source raise; the model reads it as empty.
- The regular-expression engine is not modelled. The file-name rewrite is `Splitter.Slug` over the character class, and the header pattern of `detect_topic_boundaries` is inside `parse`.
- `ln.rstrip("\n")` on reading the month and preview files is not modelled: lines are given without their newline. The month file lines of `Months` keep the `"\n"` they are written with.
- Linearize.LatestBranchPath and Linearize.LinearizeConversation: require `Graph.WellFormed`, the property of Python dictionaries that the key order lists every key once.
- Linearize.LatestBranchPath: when the children links have a cycle, the memo values depend on the order of the visit, and the branch is pinned only relative to the memo that the run builds, not to subtree maxima.
