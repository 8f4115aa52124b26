/** Topic segmentation: `detect_topic_boundaries` (archive_tool.py lines
    306-326) and the marker-insertion loop of `build_topic_preview` (lines
    346-352). The source reads a line's leading `[YYYY-MM-DD HH:MM:SS]` with a
    regular expression and `strptime` in the local time zone; here that
    reading is a given function `parse`. */
module Topics {
  import opened Values

  /** `TOPIC_TRIGGERS_DEFAULT`: 对了, 话说回来, 顺便, 另外, 再说, 哦对, 换个话题, 题外话. */
  const DefaultTriggers: seq<string> := [
    "\U{5BF9}\U{4E86}", "\U{8BDD}\U{8BF4}\U{56DE}\U{6765}", "\U{987A}\U{4FBF}",
    "\U{53E6}\U{5916}", "\U{518D}\U{8BF4}", "\U{54E6}\U{5BF9}",
    "\U{6362}\U{4E2A}\U{8BDD}\U{9898}", "\U{9898}\U{5916}\U{8BDD}"
  ]

  /** The `--gap-hours` default. */
  const DefaultGapHours: int := 4

  // ---------------------------------------------------------------------
  // Boundaries

  /** The timestamp the loop keeps for a line; a line without one reads as 0,
      which the source's truthiness tests treat exactly like None. */
  function Stamp(parse: string -> Option<int>, line: string): int {
    match parse(line)
    case Some(t) => t
    case None => 0
  }

  /** `last_ts` when line `i` is reached: the stamp of the last earlier line
      with a non-zero stamp, 0 when there is none. */
  function LastStamp(lines: seq<string>, parse: string -> Option<int>, i: nat): int
    requires i <= |lines|
  {
    if i == 0 then 0
    else if Stamp(parse, lines[i - 1]) != 0 then Stamp(parse, lines[i - 1])
    else LastStamp(lines, parse, i - 1)
  }

  /** `last_ts` is 0 exactly when no earlier line has a stamp, and otherwise
      it is the stamp of an earlier line after which no line has one. */
  lemma {:induction false} LastStampSpec(lines: seq<string>, parse: string -> Option<int>, i: nat)
    requires i <= |lines|
    ensures LastStamp(lines, parse, i) == 0 <==> forall k :: 0 <= k < i ==> Stamp(parse, lines[k]) == 0
    ensures LastStamp(lines, parse, i) != 0 ==>
              exists k :: 0 <= k < i && Stamp(parse, lines[k]) == LastStamp(lines, parse, i) &&
                forall j :: k < j < i ==> Stamp(parse, lines[j]) == 0
  {
    if i > 0 {
      LastStampSpec(lines, parse, i - 1);
      if Stamp(parse, lines[i - 1]) != 0 {
        var k := i - 1;
        assert Stamp(parse, lines[k]) == LastStamp(lines, parse, i);
      } else if LastStamp(lines, parse, i) != 0 {
        var k :| 0 <= k < i - 1 && Stamp(parse, lines[k]) == LastStamp(lines, parse, i - 1) &&
                 forall j :: k < j < i - 1 ==> Stamp(parse, lines[j]) == 0;
        assert forall j :: k < j < i ==> Stamp(parse, lines[j]) == 0;
      }
    }
  }

  /** Line `i` comes at least `gapHours` hours after the last stamped line
      before it (both stamps non-zero; a later line with an earlier stamp is
      never a gap). */
  predicate GapAt(lines: seq<string>, parse: string -> Option<int>, gapHours: int, i: nat)
    requires i < |lines|
  {
    var last := LastStamp(lines, parse, i);
    var ts := Stamp(parse, lines[i]);
    last != 0 && ts != 0 && ts - last >= gapHours * 3600
  }

  /** `any(t in line for t in triggers)`. */
  function AnyTrigger(line: string, triggers: seq<string>): (b: bool)
    ensures b <==> exists k :: 0 <= k < |triggers| && Contains(line, triggers[k])
  {
    if triggers == [] then false
    else
      assert forall k :: 1 <= k < |triggers| ==> triggers[k] == triggers[1..][k - 1];
      Contains(line, triggers[0]) || AnyTrigger(line, triggers[1..])
  }

  /** Line `i` starts a topic: it is the first line, a time gap or holds a
      trigger phrase. */
  predicate IsBoundary(lines: seq<string>, parse: string -> Option<int>, gapHours: int,
                       triggers: seq<string>, i: nat)
    requires i < |lines|
  {
    i == 0 || GapAt(lines, parse, gapHours, i) || AnyTrigger(lines[i], triggers)
  }

  predicate Increasing(s: seq<nat>) {
    forall i, j :: 0 <= i < j < |s| ==> s[i] < s[j]
  }

  /** The head of an increasing sequence is its least element, and the tail
      holds every other element. */
  lemma IncreasingHead(a: seq<nat>)
    requires Increasing(a) && a != []
    ensures forall y :: y in a ==> a[0] <= y
    ensures forall y :: y in a[1..] <==> y in a && y != a[0]
  {
    forall y | y in a ensures a[0] <= y {
      var i :| 0 <= i < |a| && a[i] == y;
    }
    forall y ensures y in a[1..] <==> y in a && y != a[0] {
      if y in a[1..] {
        var i :| 0 <= i < |a[1..]| && a[1..][i] == y;
        assert a[i + 1] == y && a[0] < a[i + 1];
      }
      if y in a && y != a[0] {
        var i :| 0 <= i < |a| && a[i] == y;
        assert a[1..][i - 1] == y;
      }
    }
  }

  /** Insert `x` into an increasing sequence, unless it is there already. */
  function AddSorted(r: seq<nat>, x: nat): (r': seq<nat>)
    requires Increasing(r)
    ensures Increasing(r')
    ensures forall y :: y in r' <==> y in r || y == x
  {
    if r == [] then [x]
    else if x < r[0] then
      IncreasingHead(r);
      ConsIncreasing(x, r);
      [x] + r
    else if x == r[0] then r
    else
      var rest := AddSorted(r[1..], x);
      IncreasingHead(r);
      ConsIncreasing(r[0], rest);
      assert r == [r[0]] + r[1..];
      [r[0]] + rest
  }

  /** Putting a smaller element in front keeps a sequence increasing. */
  lemma ConsIncreasing(x: nat, s: seq<nat>)
    requires Increasing(s) && forall y :: y in s ==> x < y
    ensures Increasing([x] + s)
  {
    forall i, j | 0 <= i < j < |[x] + s| ensures ([x] + s)[i] < ([x] + s)[j] {
      assert ([x] + s)[j] == s[j - 1] && s[j - 1] in s;
      if i > 0 {
        assert ([x] + s)[i] == s[i - 1];
      }
    }
  }

  /** `sorted(set(xs))`. */
  function SortedSet(xs: seq<nat>): (r: seq<nat>)
    ensures Increasing(r)
    ensures forall y :: y in r <==> y in xs
  {
    if xs == [] then []
    else
      var init := xs[..|xs| - 1];
      assert forall y :: y in xs <==> y in init || y == xs[|xs| - 1] by {
        assert xs == init + [xs[|xs| - 1]];
      }
      AddSorted(SortedSet(init), xs[|xs| - 1])
  }

  /** An increasing sequence is fixed by its elements. */
  lemma {:induction false} IncreasingUnique(a: seq<nat>, b: seq<nat>)
    requires Increasing(a) && Increasing(b)
    requires forall y :: y in a <==> y in b
    ensures a == b
    decreases |a|
  {
    assert a != [] ==> a[0] in b;
    assert b != [] ==> b[0] in a;
    if a != [] && b != [] {
      IncreasingHead(a);
      IncreasingHead(b);
      assert a[0] == b[0];
      IncreasingUnique(a[1..], b[1..]);
      assert a == [a[0]] + a[1..] && b == [b[0]] + b[1..];
    }
  }

  /** The boundaries among the first `n` lines, in order. */
  function BoundariesBelow(lines: seq<string>, parse: string -> Option<int>, gapHours: int,
                           triggers: seq<string>, n: nat): (r: seq<nat>)
    requires n <= |lines|
    ensures forall k :: 0 <= k < |r| ==> r[k] < n
  {
    if n == 0 then []
    else
      BoundariesBelow(lines, parse, gapHours, triggers, n - 1) +
        (if IsBoundary(lines, parse, gapHours, triggers, n - 1) then [n - 1] else [])
  }

  /** The markers `detect_topic_boundaries` returns: the boundary lines in
      order, and 0 even when there are no lines. */
  function Boundaries(lines: seq<string>, parse: string -> Option<int>, gapHours: int,
                      triggers: seq<string>): seq<nat>
  {
    if lines == [] then [0] else BoundariesBelow(lines, parse, gapHours, triggers, |lines|)
  }

  lemma {:induction false} BoundariesBelowSpec(lines: seq<string>, parse: string -> Option<int>,
                                               gapHours: int, triggers: seq<string>, n: nat)
    requires n <= |lines|
    ensures Increasing(BoundariesBelow(lines, parse, gapHours, triggers, n))
    ensures forall i: nat :: i in BoundariesBelow(lines, parse, gapHours, triggers, n) <==>
              i < n && IsBoundary(lines, parse, gapHours, triggers, i)
  {
    if n > 0 {
      BoundariesBelowSpec(lines, parse, gapHours, triggers, n - 1);
    }
  }

  /** The markers are increasing, always hold 0, and hold exactly the lines
      that start a topic. */
  lemma BoundariesSpec(lines: seq<string>, parse: string -> Option<int>, gapHours: int,
                       triggers: seq<string>)
    ensures Increasing(Boundaries(lines, parse, gapHours, triggers))
    ensures 0 in Boundaries(lines, parse, gapHours, triggers)
    ensures forall i :: 0 < i < |lines| ==>
              (i in Boundaries(lines, parse, gapHours, triggers) <==>
                 GapAt(lines, parse, gapHours, i) || AnyTrigger(lines[i], triggers))
    ensures forall i :: i in Boundaries(lines, parse, gapHours, triggers) ==> i == 0 || i < |lines|
  {
    if lines != [] {
      BoundariesBelowSpec(lines, parse, gapHours, triggers, |lines|);
    }
  }

  /** Lines close together in time and without trigger phrases form a
      single topic. */
  lemma OneTopic(lines: seq<string>, parse: string -> Option<int>, gapHours: int,
                 triggers: seq<string>)
    requires forall i :: 0 < i < |lines| ==>
               !GapAt(lines, parse, gapHours, i) && !AnyTrigger(lines[i], triggers)
    ensures Boundaries(lines, parse, gapHours, triggers) == [0]
  {
    BoundariesSpec(lines, parse, gapHours, triggers);
    var b := Boundaries(lines, parse, gapHours, triggers);
    IncreasingUnique(b, [0]);
  }

  /** `detect_topic_boundaries(lines, gap_hours, triggers)`. */
  method DetectBoundaries(lines: seq<string>, parse: string -> Option<int>, gapHours: int,
                          triggers: seq<string>)
    returns (markers: seq<nat>)
    ensures markers == Boundaries(lines, parse, gapHours, triggers)
    ensures Increasing(markers)
    ensures forall i: nat :: i in markers <==>
              i == 0 || (i < |lines| && IsBoundary(lines, parse, gapHours, triggers, i))
  {
    var found := ScanLines(lines, parse, gapHours, triggers);
    found := found + [0];
    markers := SortedSet(found);
    BoundariesSpec(lines, parse, gapHours, triggers);
    IncreasingUnique(markers, Boundaries(lines, parse, gapHours, triggers));
  }

  /** The indices a scan of the first `n` lines appends: index `k` once when
      `gap(k)` holds and once more when `trigger(k)` holds. */
  function Appended(n: nat, gap: nat -> bool, trigger: nat -> bool): (r: seq<nat>)
    ensures forall k: nat :: k in r <==> k < n && (gap(k) || trigger(k))
  {
    if n == 0 then []
    else
      Appended(n - 1, gap, trigger) +
        (if gap(n - 1) then [n - 1] else []) +
        (if trigger(n - 1) then [n - 1] else [])
  }

  /** Line `k` is a gap (no gap past the last line). */
  function GapTest(lines: seq<string>, parse: string -> Option<int>, gapHours: int): nat -> bool {
    (k: nat) => k < |lines| && GapAt(lines, parse, gapHours, k)
  }

  /** Line `k` holds a trigger phrase (none past the last line). */
  function TriggerTest(lines: seq<string>, triggers: seq<string>): nat -> bool {
    (k: nat) => k < |lines| && AnyTrigger(lines[k], triggers)
  }

  /** The indices the loop of `detect_topic_boundaries` appends for the
      first `n` lines: a line is appended once for a gap and once more for a
      trigger. */
  function Found(lines: seq<string>, parse: string -> Option<int>, gapHours: int,
                 triggers: seq<string>, n: nat): seq<nat>
  {
    Appended(n, GapTest(lines, parse, gapHours), TriggerTest(lines, triggers))
  }

  /** The loop of `detect_topic_boundaries`, before 0 is added. */
  method ScanLines(lines: seq<string>, parse: string -> Option<int>, gapHours: int,
                   triggers: seq<string>)
    returns (found: seq<nat>)
    ensures found == Found(lines, parse, gapHours, triggers, |lines|)
    ensures forall k: nat :: k in found <==>
              k < |lines| && (GapAt(lines, parse, gapHours, k) || AnyTrigger(lines[k], triggers))
  {
    found := [];
    var lastTs := 0;
    for i := 0 to |lines|
      invariant lastTs == LastStamp(lines, parse, i)
      invariant found == Found(lines, parse, gapHours, triggers, i)
    {
      var ts := Stamp(parse, lines[i]);
      if lastTs != 0 && ts != 0 {
        if ts - lastTs >= gapHours * 3600 {
          found := found + [i];
        }
      }
      if AnyTrigger(lines[i], triggers) {
        found := found + [i];
      }
      if ts != 0 {
        lastTs := ts;
      }
    }
  }

  // ---------------------------------------------------------------------
  // The preview

  /** The date shown in a header: characters 1 to 10 of a line that starts
      with "[", else "unknown". */
  function DatePrefix(line: string): string {
    if StartsWith(line, "[") then Slice(line, 1, 11) else "unknown"
  }

  /** `f"[TOPIC_START] {date_prefix} Topic-{topic_idx:03d}"`. */
  function Header(line: string, idx: nat): (h: string)
    ensures StartsWith(h, "[TOPIC_START]")
    ensures IsDigit(h[|h| - 1])
  {
    var p := Padded(idx, 3);
    var h := "[TOPIC_START] " + DatePrefix(line) + " Topic-" + p;
    assert h[..13] == "[TOPIC_START]";
    assert h[|h| - 1] == p[|p| - 1];
    h
  }

  /** The number of marked line indices below `n`. */
  function Marked(markers: seq<nat>, n: nat): nat {
    if n == 0 then 0 else Marked(markers, n - 1) + (if n - 1 in markers then 1 else 0)
  }

  /** The lines of the preview file: every line, preceded by a numbered
      header when it is marked. */
  function Preview(lines: seq<string>, markers: seq<nat>): seq<string> {
    Annotate(lines, markers, Header)
  }

  /** Every line, preceded by `header(line, k)` when it is the k-th marked
      line. */
  function Annotate(lines: seq<string>, markers: seq<nat>, header: (string, nat) -> string): seq<string> {
    if lines == [] then []
    else
      var i := |lines| - 1;
      Annotate(lines[..i], markers, header) +
        (if i in markers then [header(lines[i], Marked(markers, i + 1))] else []) + [lines[i]]
  }

  lemma PreviewStep(lines: seq<string>, markers: seq<nat>, i: nat)
    requires i < |lines|
    ensures Preview(lines[..i + 1], markers) ==
            Preview(lines[..i], markers) +
              (if i in markers then [Header(lines[i], Marked(markers, i + 1))] else []) + [lines[i]]
  {
    assert lines[..i + 1][..i] == lines[..i];
  }

  /** The marker loop of `build_topic_preview`, writing the preview as a
      sequence of lines. */
  method WritePreview(lines: seq<string>, markers: seq<nat>) returns (out: seq<string>)
    ensures out == Preview(lines, markers)
  {
    out := [];
    var topicIdx := 0;
    for i := 0 to |lines|
      invariant topicIdx == Marked(markers, i)
      invariant out == Preview(lines[..i], markers)
    {
      PreviewStep(lines, markers, i);
      var line := lines[i];
      if i in markers {
        topicIdx := topicIdx + 1;
        out := out + [Header(line, topicIdx)];
      }
      out := out + [line];
    }
    assert lines[..|lines|] == lines;
  }

  /** What `build_topic_preview` writes for one month file: nothing for an
      empty file, otherwise the file with one header per detected topic. */
  function PreviewFile(lines: seq<string>, parse: string -> Option<int>, gapHours: int,
                       triggers: seq<string>): (r: Option<seq<string>>)
    ensures r.None? <==> lines == []
    ensures r.Some? ==> |r.value| == |lines| + |Boundaries(lines, parse, gapHours, triggers)|
  {
    if lines == [] then None
    else
      var markers := Boundaries(lines, parse, gapHours, triggers);
      PreviewLength(lines, markers);
      BoundariesSpec(lines, parse, gapHours, triggers);
      MarkedAll(markers, |lines|);
      Some(Preview(lines, markers))
  }

  /** The preview has one extra line per marked line. */
  lemma {:induction false} PreviewLength(lines: seq<string>, markers: seq<nat>)
    ensures |Preview(lines, markers)| == |lines| + Marked(markers, |lines|)
    decreases |lines|
  {
    if lines != [] {
      PreviewLength(lines[..|lines| - 1], markers);
    }
  }

  /** Line `i` of the input sits at position i + Marked(markers, i + 1) of
      the preview, right after its header when it is marked. */
  lemma {:induction false} PreviewPositions(lines: seq<string>, markers: seq<nat>, i: nat)
    requires i < |lines|
    ensures var p := Preview(lines, markers);
            var at := i + Marked(markers, i + 1);
            at < |p| && p[at] == lines[i] &&
            (i in markers ==> p[at - 1] == Header(lines[i], Marked(markers, i + 1)))
    decreases |lines|
  {
    var n := |lines| - 1;
    var init := lines[..n];
    PreviewLength(init, markers);
    if i < n {
      PreviewPositions(init, markers, i);
      MarkedMonotone(markers, i + 1, n);
    }
  }

  lemma {:induction false} MarkedMonotone(markers: seq<nat>, m: nat, n: nat)
    requires m <= n
    ensures Marked(markers, m) <= Marked(markers, n)
    decreases n
  {
    if m < n {
      MarkedMonotone(markers, m, n - 1);
    }
  }

  /** With increasing markers, the k-th marked line gets topic number k + 1:
      the headers read Topic-001, Topic-002, ... in order. */
  lemma {:induction false} TopicNumbers(markers: seq<nat>, k: nat)
    requires Increasing(markers) && k < |markers|
    ensures Marked(markers, markers[k] + 1) == k + 1
    decreases |markers|
  {
    var n := |markers| - 1;
    if k < n {
      var init := markers[..n];
      TopicNumbers(init, k);
      MarkedDropLarger(init, markers, markers[k] + 1);
    } else {
      MarkedDropLarger(markers[..n], markers, markers[k]);
      MarkedAll(markers[..n], markers[k]);
      assert markers[k] !in markers[..n];
    }
  }

  /** The header of the k-th marker ends in ` Topic-` and the three-digit
      number k+1, which `int()` reads back as k+1. */
  lemma HeaderNumber(markers: seq<nat>, line: string, k: nat)
    requires Increasing(markers) && k < |markers|
    ensures EndsWith(Header(line, Marked(markers, markers[k] + 1)), " Topic-" + Padded(k + 1, 3))
    ensures ParseInt(Padded(k + 1, 3)) == Some(k + 1)
  {
    TopicNumbers(markers, k);
    var p := Padded(k + 1, 3);
    var h := "[TOPIC_START] " + DatePrefix(line) + " Topic-" + p;
    assert h == ("[TOPIC_START] " + DatePrefix(line)) + (" Topic-" + p);
    ParsePadded(k + 1, 3);
  }

  /** Markers at or above `n` do not count below `n`. */
  lemma {:induction false} MarkedDropLarger(init: seq<nat>, markers: seq<nat>, n: nat)
    requires |markers| == |init| + 1 && init == markers[..|init|]
    requires markers[|init|] >= n
    ensures Marked(init, n) == Marked(markers, n)
    decreases n
  {
    if n > 0 {
      MarkedDropLarger(init, markers, n - 1);
      assert (n - 1 in init) <==> (n - 1 in markers) by {
        assert markers == init + [markers[|init|]];
      }
    }
  }

  /** When every marker lies below `n`, all of them count. */
  lemma {:induction false} MarkedAll(markers: seq<nat>, n: nat)
    requires Increasing(markers)
    requires forall k :: 0 <= k < |markers| ==> markers[k] < n
    ensures Marked(markers, n) == |markers|
    decreases |markers|, n
  {
    if markers == [] {
      if n > 0 {
        MarkedAll(markers, n - 1);
      }
    } else {
      var last := markers[|markers| - 1];
      var init := markers[..|markers| - 1];
      assert last < n;
      var m: nat := n - 1;
      if m > last {
        MarkedAll(markers, m);
        assert m !in markers;
      } else {
        assert markers == init + [last];
        MarkedAll(init, m);
        MarkedDropLarger(init, markers, m);
        assert m in markers;
      }
    }
  }
}
