/** `split_topics` (archive_tool.py lines 355-384): reads a preview file
    line by line, starts a new topic at every `[TOPIC_START]` line and writes
    each topic to `by_topic/<month>/<slug>.md` with a small front-matter
    header. The directory and the files are a map from file name to the
    lines written; the CSV index written afterwards is not modelled. */
module Splitter {
  import opened Values
  import Topics

  const TopicStart: string := "[TOPIC_START]"

  predicate IsMarker(line: string) {
    StartsWith(line, TopicStart)
  }

  predicate NoMarkers(lines: seq<string>) {
    forall i :: 0 <= i < |lines| ==> !IsMarker(lines[i])
  }

  // ---------------------------------------------------------------------
  // File names

  /** The characters the file-name pattern keeps: ASCII letters and digits,
      the CJK block U+4E00..U+9FA5, `_` and `-`. */
  predicate SlugChar(c: char) {
    ('0' <= c <= '9') || ('A' <= c <= 'Z') || ('a' <= c <= 'z') ||
    ('\U{4E00}' <= c <= '\U{9FA5}') || c == '_' || c == '-'
  }

  predicate AllSlug(s: string) {
    forall i :: 0 <= i < |s| ==> SlugChar(s[i])
  }

  /** `re.sub(r"[^0-9A-Za-z一-龥_-]+", "_", s)`: every maximal run of
      other characters becomes a single `_`. */
  function Slug(s: string): (r: string)
    ensures AllSlug(r)
    ensures |r| <= |s|
    ensures r == [] <==> s == []
  {
    if s == [] then []
    else
      var init, c := s[..|s| - 1], s[|s| - 1];
      if SlugChar(c) then Slug(init) + [c]
      else if init != [] && !SlugChar(init[|init| - 1]) then Slug(init)
      else Slug(init) + "_"
  }

  /** A name made only of kept characters is its own slug. */
  lemma {:induction false} SlugKeeps(s: string)
    requires AllSlug(s)
    ensures Slug(s) == s
  {
    if s != [] {
      var init := s[..|s| - 1];
      assert AllSlug(init);
      SlugKeeps(init);
      assert s == init + [s[|s| - 1]];
    }
  }

  /** Slugging a slug changes nothing. */
  lemma SlugIdempotent(s: string)
    ensures Slug(Slug(s)) == Slug(s)
  {
    SlugKeeps(Slug(s));
  }

  /** A run made only of replaced characters becomes a single `_`. */
  lemma {:induction false} SlugRun(x: string)
    requires x != [] && forall i :: 0 <= i < |x| ==> !SlugChar(x[i])
    ensures Slug(x) == "_"
  {
    if |x| > 1 {
      SlugRun(x[..|x| - 1]);
    }
  }

  /** What character `c` adds to the slug of the text `x` before it. */
  function SlugTail(x: string, c: char): string {
    if SlugChar(c) then [c] else if x != [] && !SlugChar(x[|x| - 1]) then [] else "_"
  }

  lemma SlugSnoc(x: string, c: char)
    ensures Slug(x + [c]) == Slug(x) + SlugTail(x, c)
  {
    assert (x + [c])[..|x|] == x;
  }

  /** Next to a kept character the slug is taken piece by piece: a run of
      replaced characters never spans the boundary. */
  lemma {:induction false} SlugAppend(a: string, b: string)
    requires a == [] || b == [] || SlugChar(a[|a| - 1]) || SlugChar(b[0])
    ensures Slug(a + b) == Slug(a) + Slug(b)
    decreases |b|
  {
    if b == [] {
      assert a + b == a;
    } else {
      var init, c := b[..|b| - 1], b[|b| - 1];
      assert b == init + [c];
      if init == [] {
        assert a + init == a;
      } else {
        assert init[0] == b[0];
        SlugAppend(a, init);
      }
      SlugTailJoin(a, init, c);
      SlugAppendSnoc(a, init, c);
    }
  }

  /** The step of that induction: one more character after the boundary. */
  lemma SlugAppendSnoc(a: string, init: string, c: char)
    requires Slug(a + init) == Slug(a) + Slug(init)
    requires SlugTail(a + init, c) == SlugTail(init, c)
    ensures Slug(a + (init + [c])) == Slug(a) + Slug(init + [c])
  {
    var x, y := a + init, init + [c];
    assert a + y == x + [c];
    SlugSnoc(x, c);
    SlugSnoc(init, c);
    ConcatAssoc(Slug(a), Slug(init), SlugTail(init, c));
  }

  /** What a character adds depends only on the character before it. */
  lemma SlugTailJoin(a: string, init: string, c: char)
    requires init == [] ==> a == [] || SlugChar(a[|a| - 1]) || SlugChar(c)
    ensures SlugTail(a + init, c) == SlugTail(init, c)
  {
    var x := a + init;
    if init != [] {
      assert x[|x| - 1] == init[|init| - 1];
    } else {
      assert x == a;
    }
  }

  /** The topic title of a marker line: the line without `[TOPIC_START]`,
      stripped. */
  function Title(line: string): string {
    Strip(RemoveAll(line, TopicStart))
  }

  function FileName(title: string): string {
    Slug(title) + ".md"
  }

  /** The lines written for a topic: front matter, then its body. */
  function Document(title: string, body: seq<string>): seq<string> {
    ["---", "title: " + title, "date: " + (if |title| >= 10 then title[..10] else ""), "---", ""] + body
  }

  // ---------------------------------------------------------------------
  // The splitting loop as a function of the lines read

  datatype Topic = Topic(title: string, body: seq<string>)

  /** The loop's state: `current` ("" for None: both are falsy), `buffer`,
      and every topic `flush` has written so far, in order. */
  datatype Split = Split(current: string, buffer: seq<string>, written: seq<Topic>)

  const Initial: Split := Split("", [], [])

  /** All bodies written, one after the other. */
  function Bodies(w: seq<Topic>): seq<string> {
    if w == [] then [] else Bodies(w[..|w| - 1]) + w[|w| - 1].body
  }

  lemma BodiesSnoc(w: seq<Topic>, t: Topic)
    ensures Bodies(w + [t]) == Bodies(w) + t.body
  {
    assert (w + [t])[..|w|] == w;
  }

  /** `flush()`: with no current title it returns at once and the buffer is
      kept; otherwise the topic is written and the buffer emptied. No line
      is lost or duplicated either way. */
  function Flushed(s: Split): (r: Split)
    ensures s.current == "" ==> r == s
    ensures s.current != "" ==>
              r.current == s.current && r.buffer == [] &&
              r.written == s.written + [Topic(s.current, s.buffer)]
    ensures Bodies(r.written) + r.buffer == Bodies(s.written) + s.buffer
    ensures Titled(s.written) ==> Titled(r.written)
  {
    if s.current == "" then s
    else
      var t := Topic(s.current, s.buffer);
      BodiesSnoc(s.written, t);
      assert forall k :: 0 <= k < |s.written| ==> (s.written + [t])[k] == s.written[k];
      Split(s.current, [], s.written + [t])
  }

  /** One iteration of the loop over the lines. */
  function Next(s: Split, line: string): Split {
    if IsMarker(line) then
      var f := Flushed(s);
      Split(Title(line), f.buffer, f.written)
    else
      Split(s.current, s.buffer + [line], s.written)
  }

  /** The state after the loop has consumed `lines`, starting from `s`. */
  function FeedFrom(s: Split, lines: seq<string>): Split {
    if lines == [] then s else Next(FeedFrom(s, lines[..|lines| - 1]), lines[|lines| - 1])
  }

  /** The state at the final `flush()`. */
  function Feed(lines: seq<string>): Split {
    FeedFrom(Initial, lines)
  }

  /** The state after the final `flush()`. */
  function Outcome(lines: seq<string>): Split {
    Flushed(Feed(lines))
  }

  /** The files of the topic directory after writing `w` in order: a later
      topic with the same file name overwrites an earlier one. */
  function Files(w: seq<Topic>): map<string, seq<string>> {
    if w == [] then map[]
    else
      var t := w[|w| - 1];
      Files(w[..|w| - 1])[FileName(t.title) := Document(t.title, t.body)]
  }

  /** The lines that are not markers, in order. */
  function NonMarkers(lines: seq<string>): seq<string> {
    if lines == [] then []
    else
      var last := lines[|lines| - 1];
      NonMarkers(lines[..|lines| - 1]) + (if IsMarker(last) then [] else [last])
  }

  // ---------------------------------------------------------------------
  // Properties of the loop

  lemma {:induction false} FeedFromAppend(s: Split, a: seq<string>, b: seq<string>)
    ensures FeedFrom(s, a + b) == FeedFrom(FeedFrom(s, a), b)
    decreases |b|
  {
    if b == [] {
      assert a + b == a;
    } else {
      var init := b[..|b| - 1];
      FeedFromAppend(s, a, init);
      assert (a + b)[..|a + b| - 1] == a + init;
    }
  }

  /** Lines without markers only go to the buffer. */
  lemma {:induction false} FeedPlain(s: Split, lines: seq<string>)
    requires NoMarkers(lines)
    ensures FeedFrom(s, lines) == Split(s.current, s.buffer + lines, s.written)
    decreases |lines|
  {
    if lines != [] {
      var init := lines[..|lines| - 1];
      FeedPlain(s, init);
      assert s.buffer + init + [lines[|lines| - 1]] == s.buffer + lines;
    }
  }

  lemma NonMarkersSnoc(lines: seq<string>, x: string)
    ensures NonMarkers(lines + [x]) == NonMarkers(lines) + (if IsMarker(x) then [] else [x])
  {
    assert (lines + [x])[..|lines|] == lines;
  }

  predicate Titled(w: seq<Topic>) {
    forall k :: 0 <= k < |w| ==> w[k].title != ""
  }

  /** Every title written is non-empty. */
  lemma {:induction false} TitlesNonEmpty(s: Split, lines: seq<string>)
    requires Titled(s.written)
    ensures Titled(FeedFrom(s, lines).written)
    decreases |lines|
  {
    if lines != [] {
      TitlesNonEmpty(s, lines[..|lines| - 1]);
    }
  }

  /** `flush()` writes no topic without a title. */
  lemma OutcomeTitles(lines: seq<string>)
    ensures Titled(Outcome(lines).written)
  {
    TitlesNonEmpty(Initial, lines);
  }

  /** Nothing is lost or invented: the bodies written, followed by what is
      still buffered, are exactly the lines that are not markers. */
  lemma {:induction false} FeedConserves(lines: seq<string>)
    ensures Bodies(Feed(lines).written) + Feed(lines).buffer == NonMarkers(lines)
    decreases |lines|
  {
    if lines != [] {
      var init, last := lines[..|lines| - 1], lines[|lines| - 1];
      FeedConserves(init);
      var s := Feed(init);
      assert lines == init + [last];
      NonMarkersSnoc(init, last);
      if !IsMarker(last) {
        ConcatAssoc(Bodies(s.written), s.buffer, [last]);
      }
    }
  }

  /** The same after the final flush, which leaves lines behind only when no
      title is current. */
  lemma OutcomeConserves(lines: seq<string>)
    ensures Bodies(Outcome(lines).written) + Outcome(lines).buffer == NonMarkers(lines)
    ensures Outcome(lines).buffer != [] ==> Outcome(lines).current == ""
  {
    FeedConserves(lines);
  }

  /** Lines before the first marker are not dropped: they open the body of
      the first topic. */
  lemma PreambleJoinsFirstTopic(pre: seq<string>, m: string, body: seq<string>)
    requires NoMarkers(pre) && NoMarkers(body)
    requires IsMarker(m) && Title(m) != ""
    ensures Outcome(pre + [m] + body).written == [Topic(Title(m), pre + body)]
    ensures Outcome(pre + [m] + body).buffer == []
  {
    FeedFromAppend(Initial, pre + [m], body);
    FeedFromAppend(Initial, pre, [m]);
    FeedPlain(Initial, pre);
    assert [] + pre == pre;
    var s := FeedFrom(Initial, pre + [m]);
    assert s == Split(Title(m), pre, []);
    FeedPlain(s, body);
  }

  /** A marker whose title is empty ends the current topic, and the lines
      after it are buffered but never written unless a later marker has a
      title. */
  lemma EmptyTitleKeepsTail(lines: seq<string>, m: string, tail: seq<string>)
    requires IsMarker(m) && Title(m) == "" && NoMarkers(tail)
    ensures Outcome(lines + [m] + tail).written == Outcome(lines).written
    ensures Outcome(lines + [m] + tail).buffer == Outcome(lines).buffer + tail
  {
    FeedFromAppend(Initial, lines + [m], tail);
    FeedFromAppend(Initial, lines, [m]);
    var f := Outcome(lines);
    assert FeedFrom(Feed(lines), [m]) == Next(Feed(lines), m);
    var s := FeedFrom(Initial, lines + [m]);
    assert s == Split("", f.buffer, f.written);
    FeedPlain(s, tail);
  }

  // ---------------------------------------------------------------------
  // The files written

  /** The file of a topic holds that topic's document unless a later topic
      has the same file name. */
  lemma {:induction false} FilesLastWins(w: seq<Topic>, k: nat)
    requires k < |w|
    requires forall j :: k < j < |w| ==> FileName(w[j].title) != FileName(w[k].title)
    ensures FileName(w[k].title) in Files(w)
    ensures Files(w)[FileName(w[k].title)] == Document(w[k].title, w[k].body)
    decreases |w|
  {
    var n := |w| - 1;
    if k < n {
      FilesLastWins(w[..n], k);
    }
  }

  /** Exactly the file names of the topics written are present. */
  lemma {:induction false} FilesDomain(w: seq<Topic>)
    ensures forall f :: f in Files(w) <==> exists k :: 0 <= k < |w| && FileName(w[k].title) == f
    decreases |w|
  {
    if w != [] {
      var n := |w| - 1;
      FilesDomain(w[..n]);
      forall f ensures f in Files(w) <==> exists k :: 0 <= k < |w| && FileName(w[k].title) == f {
        if f in Files(w[..n]) {
          var k :| 0 <= k < n && FileName(w[..n][k].title) == f;
          assert w[k] == w[..n][k];
        }
        if exists k :: 0 <= k < |w| && FileName(w[k].title) == f {
          var k :| 0 <= k < |w| && FileName(w[k].title) == f;
          if k < n {
            assert w[..n][k] == w[k];
          }
        }
      }
    }
  }

  // ---------------------------------------------------------------------
  // Splitting a preview gives back the month file

  /** A line ending in a digit has a non-empty title: neither the removal
      of `[TOPIC_START]` nor the strip touches that digit. */
  lemma DigitTitle(line: string)
    requires line != [] && IsDigit(line[|line| - 1])
    ensures Title(line) != ""
  {
    RemoveAllKeepsLast(line, TopicStart);
    var r := RemoveAll(line, TopicStart);
    assert !IsSpace(r[|r| - 1]);
  }

  /** Every header of a preview has a non-empty title. */
  lemma HeaderTitle(line: string, idx: nat)
    ensures Title(Topics.Header(line, idx)) != ""
  {
    DigitTitle(Topics.Header(line, idx));
  }

  /** Dropping marker lines from `p`, then a few markers, then a plain line. */
  lemma NonMarkersStep(p: seq<string>, hs: seq<string>, x: string)
    requires forall j :: 0 <= j < |hs| ==> IsMarker(hs[j])
    requires |hs| <= 1 && !IsMarker(x)
    ensures NonMarkers(p + hs + [x]) == NonMarkers(p) + [x]
  {
    NonMarkersSnoc(p + hs, x);
    if hs != [] {
      assert p + hs == p + [hs[0]];
      NonMarkersSnoc(p, hs[0]);
    } else {
      assert p + hs == p;
    }
  }

  /** Dropping the headers of an annotated file gives back its lines, when
      every header is a marker line. */
  lemma {:induction false} AnnotateNonMarkers(lines: seq<string>, markers: seq<nat>,
                                              header: (string, nat) -> string)
    requires NoMarkers(lines)
    requires forall l, k :: IsMarker(header(l, k))
    ensures NonMarkers(Topics.Annotate(lines, markers, header)) == lines
    decreases |lines|
  {
    if lines != [] {
      var i := |lines| - 1;
      var init := lines[..i];
      assert NoMarkers(init);
      AnnotateNonMarkers(init, markers, header);
      var hs := if i in markers then [header(lines[i], Topics.Marked(markers, i + 1))] else [];
      NonMarkersStep(Topics.Annotate(init, markers, header), hs, lines[i]);
      assert lines == init + [lines[i]];
    }
  }

  /** Feeding a plain line only buffers it. */
  lemma FeedPlainLine(p: seq<string>, x: string)
    requires !IsMarker(x)
    ensures Feed(p + [x]) == Split(Feed(p).current, Feed(p).buffer + [x], Feed(p).written)
  {
    assert (p + [x])[..|p|] == p;
  }

  /** Feeding a header with a title, then a plain line: the header's title
      becomes current, and the previous topic is written if it had one. */
  lemma FeedHeaderLine(p: seq<string>, h: string, x: string)
    requires IsMarker(h) && Title(h) != "" && !IsMarker(x)
    ensures Feed(p + [h] + [x]).current != ""
    ensures |Feed(p + [h] + [x]).written| == |Feed(p).written| + (if Feed(p).current != "" then 1 else 0)
  {
    FeedPlainLine(p + [h], x);
    assert (p + [h])[..|p|] == p;
  }

  /** While splitting an annotated file that marks line 0, with headers that
      all have titles, a title is always current and one topic has been
      written per header but the latest. */
  lemma {:induction false} AnnotateFeed(lines: seq<string>, markers: seq<nat>,
                                        header: (string, nat) -> string, i: nat)
    requires 1 <= i <= |lines| && 0 in markers && NoMarkers(lines)
    requires forall l, k :: IsMarker(header(l, k)) && Title(header(l, k)) != ""
    ensures Feed(Topics.Annotate(lines[..i], markers, header)).current != ""
    ensures |Feed(Topics.Annotate(lines[..i], markers, header)).written| + 1 == Topics.Marked(markers, i)
    decreases i
  {
    var init := lines[..i][..i - 1];
    assert init == lines[..i - 1];
    var p := Topics.Annotate(init, markers, header);
    var x := lines[i - 1];
    assert !IsMarker(x);
    if i > 1 {
      AnnotateFeed(lines, markers, header, i - 1);
    } else {
      assert p == [];
    }
    if i - 1 in markers {
      var h := header(x, Topics.Marked(markers, i));
      assert Topics.Annotate(lines[..i], markers, header) == p + [h] + [x];
      FeedHeaderLine(p, h, x);
    } else {
      assert Topics.Annotate(lines[..i], markers, header) == p + [x];
      FeedPlainLine(p, x);
    }
  }

  /** Splitting the preview of a month file whose lines carry no markers,
      with line 0 marked, writes one topic per marked line and their bodies
      are the month file's lines, in order, none left over. */
  lemma SplitPreview(lines: seq<string>, markers: seq<nat>)
    requires lines != [] && NoMarkers(lines) && 0 in markers
    ensures Outcome(Topics.Preview(lines, markers)).buffer == []
    ensures Bodies(Outcome(Topics.Preview(lines, markers)).written) == lines
    ensures |Outcome(Topics.Preview(lines, markers)).written| == Topics.Marked(markers, |lines|)
  {
    forall l, k ensures IsMarker(Topics.Header(l, k)) && Title(Topics.Header(l, k)) != "" {
      HeaderTitle(l, k);
    }
    assert lines[..|lines|] == lines;
    AnnotateFeed(lines, markers, Topics.Header, |lines|);
    OutcomeConserves(Topics.Preview(lines, markers));
    AnnotateNonMarkers(lines, markers, Topics.Header);
  }

  /** End to end: the preview `build_topic_preview` writes for a non-empty
      month file, split by `split_topics`, gives one topic per detected
      boundary, and together they hold the month file's lines. */
  lemma SplitMonthPreview(lines: seq<string>, parse: string -> Option<int>, gapHours: int,
                          triggers: seq<string>)
    requires lines != [] && NoMarkers(lines)
    ensures var markers := Topics.Boundaries(lines, parse, gapHours, triggers);
            var o := Outcome(Topics.Preview(lines, markers));
            o.buffer == [] && Bodies(o.written) == lines && |o.written| == |markers|
  {
    var markers := Topics.Boundaries(lines, parse, gapHours, triggers);
    Topics.BoundariesSpec(lines, parse, gapHours, triggers);
    SplitPreview(lines, markers);
    Topics.MarkedAll(markers, |lines|);
  }

  // ---------------------------------------------------------------------
  // The imperative splitter

  /** The locals of `split_topics` and the directory it writes to. */
  class TopicSplitter {
    var current: string
    var buffer: seq<string>
    var files: map<string, seq<string>>
    ghost var written: seq<Topic>

    ghost function State(): Split
      reads this
    {
      Split(current, buffer, written)
    }

    /** The directory holds the files of the topics written. */
    ghost predicate Valid()
      reads this
    {
      files == Files(written)
    }

    constructor()
      ensures State() == Initial && Valid()
    {
      current := "";
      buffer := [];
      files := map[];
      written := [];
    }

    /** `flush()`. */
    method Flush()
      requires Valid()
      modifies this
      ensures Valid() && State() == Flushed(old(State()))
    {
      if current == "" {
        return;
      }
      files := files[FileName(current) := Document(current, buffer)];
      written := written + [Topic(current, buffer)];
      assert written[..|written| - 1] == old(written);
      buffer := [];
    }

    /** One iteration of the loop over the lines. */
    method Take(line: string)
      requires Valid()
      modifies this
      ensures Valid() && State() == Next(old(State()), line)
    {
      if StartsWith(line, TopicStart) {
        Flush();
        current := Strip(RemoveAll(line, TopicStart));
        return;
      }
      buffer := buffer + [line];
    }
  }

  /** `split_topics` on the lines of a preview file: the files it leaves in
      the topic directory. */
  method SplitTopics(lines: seq<string>) returns (files: map<string, seq<string>>)
    ensures files == Files(Outcome(lines).written)
  {
    var s := new TopicSplitter();
    for i := 0 to |lines|
      invariant s.Valid() && s.State() == Feed(lines[..i])
    {
      assert lines[..i + 1][..i] == lines[..i];
      s.Take(lines[i]);
    }
    assert lines[..|lines|] == lines;
    s.Flush();
    files := s.files;
  }
}
