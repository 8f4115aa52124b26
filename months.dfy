/** Month anchoring: the sort/anchor loop of `build_month_files`
    (archive_tool.py lines 269-303). The day directory is given as a listing
    of files with the lines `readlines` returns; the month directory as a map
    from month key to the lines of `<key>.md`, which the builder appends to. */
module Months {
  import opened Values
  import opened Messages
  import opened Sorting

  /** A file of the day directory: its name and its lines, each with the
      newline it ends with. */
  datatype DayFile = DayFile(name: string, lines: seq<string>)

  // ---------------------------------------------------------------------
  // One line

  /** Index of the first tab of `s`, or |s| when there is none. */
  function FirstTab(s: string): (i: nat)
    ensures i <= |s|
    ensures forall k :: 0 <= k < i ==> s[k] != '\t'
    ensures i < |s| ==> s[i] == '\t'
  {
    if s == [] then 0
    else if s[0] == '\t' then 0
    else 1 + FirstTab(s[1..])
  }

  /** The sort key: `safe_int` of the text before the first tab, default 0. */
  function LineKey(line: string): int {
    SafeInt(Str(line[..FirstTab(line)]), 0)
  }

  predicate KeyLe(a: string, b: string) {
    LineKey(a) <= LineKey(b)
  }

  lemma KeyPreorder()
    ensures TotalPreorder(KeyLe)
  {
  }

  lemma {:induction false} FirstTabAt(s: string, i: nat)
    requires i < |s| && s[i] == '\t'
    requires forall k :: 0 <= k < i ==> s[k] != '\t'
    ensures FirstTab(s) == i
    decreases i
  {
    if i > 0 {
      FirstTabAt(s[1..], i - 1);
    }
  }

  /** A line whose timestamp field is written as text sorts by that timestamp. */
  lemma LineKeyOfText(ts: int, rest: string)
    ensures LineKey(IntText(ts) + "\t" + rest) == ts
  {
    var text := IntText(ts);
    var line := text + "\t" + rest;
    var d := Decimal(if ts < 0 then -ts else ts);
    assert forall k :: 0 <= k < |d| ==> IsDigit(d[k]);
    assert forall k :: 0 <= k < |text| ==> line[k] == text[k] && text[k] != '\t' by {
      if ts < 0 {
        assert forall k :: 1 <= k < |text| ==> text[k] == d[k - 1];
      }
    }
    FirstTabAt(line, |text|);
    assert line[..|text|] == text;
    SafeIntOfText(ts, 0);
  }

  /** The text the anchor loop writes for one line: the text after the
      first tab, stripped; None for a line without a tab. */
  function LineText(line: string): Option<string> {
    var t := FirstTab(line);
    if t < |line| then Some(Strip(line[t + 1..])) else None
  }

  function Written(o: Option<string>): seq<string> {
    if o.Some? then [o.value] else []
  }

  /** The texts the anchor loop writes for the (sorted) lines of one day.
      Lines without a tab contribute nothing. */
  function Texts(lines: seq<string>): (r: seq<string>)
    ensures |r| <= |lines|
  {
    if lines == [] then []
    else Texts(lines[..|lines| - 1]) + Written(LineText(lines[|lines| - 1]))
  }

  lemma TextsPrefix(lines: seq<string>, j: nat)
    requires j < |lines|
    ensures Texts(lines[..j + 1]) == Texts(lines[..j]) + Written(LineText(lines[j]))
  {
    assert lines[..j + 1][..j] == lines[..j];
  }

  /** One written line: the text, a space and the anchor `^msg-NNNNNN`. */
  function Anchor(text: string, n: nat): string {
    text + " ^msg-" + Padded(n, 6) + "\n"
  }

  /** The texts numbered consecutively from `start + 1`. */
  function Anchored(texts: seq<string>, start: nat): (r: seq<string>)
    ensures |r| == |texts|
  {
    Numbered(texts, start, Anchor)
  }

  /** `texts`, each rendered by `f` with its number, counting from
      `start + 1`. */
  function Numbered(texts: seq<string>, start: nat, f: (string, nat) -> string): (r: seq<string>)
    ensures |r| == |texts|
  {
    seq(|texts|, i requires 0 <= i < |texts| => f(texts[i], start + i + 1))
  }

  lemma AnchoredAt(texts: seq<string>, start: nat, i: nat)
    requires i < |texts|
    ensures Anchored(texts, start)[i] == Anchor(texts[i], start + i + 1)
  {
  }

  lemma NumberedAppend(a: seq<string>, b: seq<string>, start: nat, f: (string, nat) -> string)
    ensures Numbered(a + b, start, f) == Numbered(a, start, f) + Numbered(b, start + |a|, f)
  {
    var l, r := Numbered(a + b, start, f), Numbered(a, start, f) + Numbered(b, start + |a|, f);
    forall i | 0 <= i < |l| ensures l[i] == r[i] {
      if i >= |a| {
        assert (a + b)[i] == b[i - |a|];
      }
    }
  }

  /** Numbering a concatenation numbers the second part from where the first
      one stopped. */
  lemma AnchoredAppend(a: seq<string>, b: seq<string>, start: nat)
    ensures Anchored(a + b, start) == Anchored(a, start) + Anchored(b, start + |a|)
  {
    NumberedAppend(a, b, start, Anchor);
  }

  lemma NumberedSnoc(a: seq<string>, x: string, start: nat, f: (string, nat) -> string)
    ensures Numbered(a + [x], start, f) == Numbered(a, start, f) + [f(x, start + |a| + 1)]
  {
    assert (a + [x])[..|a|] == a;
  }

  lemma AnchoredSnoc(a: seq<string>, x: string, start: nat)
    ensures Anchored(a + [x], start) == Anchored(a, start) + [Anchor(x, start + |a| + 1)]
  {
    NumberedSnoc(a, x, start, Anchor);
  }

  /** Appending the next anchored text keeps the numbering consecutive. */
  lemma AnchorStep(out0: seq<string>, out: seq<string>, prev: seq<string>, x: string, start: nat)
    requires out == out0 + Anchored(prev, start)
    ensures out + [Anchor(x, start + |prev| + 1)] == out0 + Anchored(prev + [x], start)
  {
    AnchoredSnoc(prev, x, start);
  }

  /** Every anchor of a month file reads back as its 1-based position. */
  lemma AnchorNumbers(texts: seq<string>, i: nat)
    requires i < |texts|
    ensures Anchored(texts, 0)[i] == texts[i] + " ^msg-" + Padded(i + 1, 6) + "\n"
    ensures ParseInt(Padded(i + 1, 6)) == Some(i + 1)
  {
    AnchoredAt(texts, 0, i);
    ParsePadded(i + 1, 6);
  }

  // ---------------------------------------------------------------------
  // Day files and months

  /** `day_file.replace(".raw", "")`, then the month key: "unknown" for the
      unknown day, else the first seven characters. */
  function MonthKey(dayName: string): string {
    var day := RemoveAll(dayName, ".raw");
    if day == "unknown" then "unknown" else Slice(day, 0, 7)
  }

  predicate NameLe(a: DayFile, b: DayFile) {
    LexLe(a.name, b.name)
  }

  lemma NamePreorder()
    ensures TotalPreorder(NameLe)
  {
    LexPreorder();
  }

  /** The listing entries whose name ends with ".raw", in listing order. */
  function RawDays(listing: seq<DayFile>): (r: seq<DayFile>)
    ensures forall d :: d in r <==> d in listing && EndsWith(d.name, ".raw")
  {
    if listing == [] then []
    else
      var d := listing[|listing| - 1];
      RawDays(listing[..|listing| - 1]) + (if EndsWith(d.name, ".raw") then [d] else [])
  }

  /** `sorted(f for f in listdir(day_dir) if f.endswith(".raw"))`. */
  function DayOrder(listing: seq<DayFile>): seq<DayFile> {
    SortBy(RawDays(listing), NameLe)
  }

  /** The day files are processed in name order and are exactly the ".raw"
      files of the listing. */
  lemma DayOrderSpec(listing: seq<DayFile>)
    ensures SortedBy(DayOrder(listing), NameLe)
    ensures forall d :: d in DayOrder(listing) <==> d in listing && EndsWith(d.name, ".raw")
  {
    NamePreorder();
    SortSorted(RawDays(listing), NameLe);
    SortPerm(RawDays(listing), NameLe);
    var r := DayOrder(listing);
    assert forall d :: d in r <==> d in multiset(r);
  }

  /** The month of a day file and the texts it contributes to that month:
      its lines sorted by timestamp, then anchored. */
  function DayMonth(d: DayFile): string {
    MonthKey(d.name)
  }

  function DayTexts(d: DayFile): seq<string> {
    Texts(SortBy(d.lines, KeyLe))
  }

  /** The concatenated parts of the elements of `s` whose key is `k`. */
  function Group<T>(s: seq<T>, key: T -> string, part: T -> seq<string>, k: string): seq<string> {
    if s == [] then []
    else Group(s[..|s| - 1], key, part, k) + (if key(s[|s| - 1]) == k then part(s[|s| - 1]) else [])
  }

  /** The keys of the elements of `s`. */
  function KeysOf<T>(s: seq<T>, key: T -> string): set<string> {
    set i | 0 <= i < |s| :: key(s[i])
  }

  lemma {:induction false} GroupAppend<T>(a: seq<T>, b: seq<T>, key: T -> string, part: T -> seq<string>, k: string)
    ensures Group(a + b, key, part, k) == Group(a, key, part, k) + Group(b, key, part, k)
    decreases |b|
  {
    if b == [] {
      assert a + b == a;
    } else {
      var init := b[..|b| - 1];
      GroupAppend(a, init, key, part, k);
      assert (a + b)[..|a + b| - 1] == a + init;
      assert (a + b)[|a + b| - 1] == b[|b| - 1];
    }
  }

  lemma {:induction false} GroupAbsent<T>(s: seq<T>, key: T -> string, part: T -> seq<string>, k: string)
    requires k !in KeysOf(s, key)
    ensures Group(s, key, part, k) == []
    decreases |s|
  {
    if s != [] {
      var init := s[..|s| - 1];
      assert KeysOf(init, key) <= KeysOf(s, key) by {
        forall x | x in KeysOf(init, key) ensures x in KeysOf(s, key) {
          var i :| 0 <= i < |init| && key(init[i]) == x;
          assert s[i] == init[i];
        }
      }
      GroupAbsent(init, key, part, k);
      assert key(s[|s| - 1]) in KeysOf(s, key);
    }
  }

  lemma KeysOfSnoc<T>(s: seq<T>, x: T, key: T -> string)
    ensures KeysOf(s + [x], key) == KeysOf(s, key) + {key(x)}
  {
    var t := s + [x];
    forall y | y in KeysOf(t, key) ensures y in KeysOf(s, key) + {key(x)} {
      var i :| 0 <= i < |t| && key(t[i]) == y;
      if i < |s| {
        assert t[i] == s[i];
      }
    }
    forall y | y in KeysOf(s, key) ensures y in KeysOf(t, key) {
      var i :| 0 <= i < |s| && key(s[i]) == y;
      assert t[i] == s[i];
    }
    assert t[|s|] == x;
  }

  /** The texts of month `mk`: the texts of its day files, each day sorted by
      timestamp, in day order. */
  function MonthTexts(days: seq<DayFile>, mk: string): seq<string> {
    Group(days, DayMonth, DayTexts, mk)
  }

  /** The month keys of a sequence of day files. */
  function MonthsOf(days: seq<DayFile>): set<string> {
    KeysOf(days, DayMonth)
  }

  /** The anchors of later day files continue from the count of the earlier
      ones of the same month. */
  lemma MonthAnchorsContinue(a: seq<DayFile>, b: seq<DayFile>, mk: string)
    ensures Anchored(MonthTexts(a + b, mk), 0) ==
            Anchored(MonthTexts(a, mk), 0) + Anchored(MonthTexts(b, mk), |MonthTexts(a, mk)|)
  {
    GroupAppend(a, b, DayMonth, DayTexts, mk);
    AnchoredAppend(MonthTexts(a, mk), MonthTexts(b, mk), 0);
  }

  function Lookup(files: map<string, seq<string>>, mk: string): seq<string> {
    if mk in files then files[mk] else []
  }

  /** The anchor loop of one day file: append each line that has a tab,
      numbered on from `count`. */
  method AnchorDay(lines: seq<string>, out0: seq<string>, count0: nat)
    returns (out: seq<string>, count: nat)
    ensures count == count0 + |Texts(lines)|
    ensures out == out0 + Anchored(Texts(lines), count0)
  {
    out, count := out0, count0;
    var j := 0;
    while j < |lines|
      invariant 0 <= j <= |lines|
      invariant AnchoredUpTo(lines, j, out0, count0, out, count)
    {
      out, count := AnchorLine(lines, j, out0, count0, out, count);
      j := j + 1;
    }
    assert lines[..j] == lines;
  }

  /** The anchor loop has handled the first `j` lines. */
  ghost predicate AnchoredUpTo(lines: seq<string>, j: nat, out0: seq<string>, count0: nat,
                               out: seq<string>, count: nat)
    requires j <= |lines|
  {
    count == count0 + |Texts(lines[..j])| && out == out0 + Anchored(Texts(lines[..j]), count0)
  }

  /** One iteration of the anchor loop: line `j`, if it has a tab. */
  method AnchorLine(lines: seq<string>, j: nat, out0: seq<string>, count0: nat,
                    out: seq<string>, count: nat)
    returns (out': seq<string>, count': nat)
    requires j < |lines| && AnchoredUpTo(lines, j, out0, count0, out, count)
    ensures AnchoredUpTo(lines, j + 1, out0, count0, out', count')
  {
    TextsPrefix(lines, j);
    ghost var texts := Texts(lines[..j]);
    var text := LineText(lines[j]);
    out', count' := out, count;
    if text.Some? {
      AnchorStep(out0, out, texts, text.value, count0);
      count' := count + 1;
      out' := out + [Anchor(text.value, count')];
    }
  }

  /** A month file that holds `base` and the anchored texts `g`, extended by
      the texts `p` numbered on from |g|, holds `base` and the anchored `g + p`. */
  lemma AnchorsAppended(file: seq<string>, base: seq<string>, g: seq<string>, p: seq<string>, out: seq<string>)
    requires file == base + Anchored(g, 0)
    requires out == file + Anchored(p, |g|)
    ensures out == base + Anchored(g + p, 0)
  {
    AnchoredAppend(g, p, 0);
    ConcatAssoc(base, Anchored(g, 0), Anchored(p, |g|));
  }

  /** The counters of `build_month_files` after the elements `done`, for any
      way `key` of assigning them to months and `part` of reading their
      texts: one counter per month seen so far, holding the number of texts
      written to that month. */
  ghost predicate CountsBuilt<T>(done: seq<T>, key: T -> string, part: T -> seq<string>,
                                 counts: map<string, nat>) {
    counts.Keys == KeysOf(done, key) &&
    forall mk :: mk in counts ==> counts[mk] == |Group(done, key, part, mk)|
  }

  /** The month files after the elements `done`: each holds what it held
      before followed by the anchored texts of its elements. */
  ghost predicate FilesBuilt<T>(existing: map<string, seq<string>>, done: seq<T>,
                                key: T -> string, part: T -> seq<string>,
                                months: map<string, seq<string>>) {
    months.Keys == existing.Keys + KeysOf(done, key) &&
    forall mk :: mk in months ==> months[mk] == Lookup(existing, mk) + Anchored(Group(done, key, part, mk), 0)
  }

  ghost predicate Built<T>(existing: map<string, seq<string>>, done: seq<T>,
                           key: T -> string, part: T -> seq<string>,
                           counts: map<string, nat>, months: map<string, seq<string>>) {
    CountsBuilt(done, key, part, counts) && FilesBuilt(existing, done, key, part, months)
  }

  lemma GroupSnoc<T>(s: seq<T>, x: T, key: T -> string, part: T -> seq<string>, k: string)
    ensures Group(s + [x], key, part, k) == Group(s, key, part, k) + (if key(x) == k then part(x) else [])
  {
    assert (s + [x])[..|s|] == s;
  }

  /** The counter of a month (0 before its first element) is the number of
      texts it has so far. */
  lemma CountIsLength<T>(done: seq<T>, key: T -> string, part: T -> seq<string>,
                         counts: map<string, nat>, mk: string)
    requires CountsBuilt(done, key, part, counts)
    ensures (if mk in counts then counts[mk] else 0) == |Group(done, key, part, mk)|
  {
    if mk !in counts {
      GroupAbsent(done, key, part, mk);
    }
  }

  lemma CountsStep<T>(done: seq<T>, x: T, key: T -> string, part: T -> seq<string>,
                      counts: map<string, nat>, count: nat)
    requires CountsBuilt(done, key, part, counts)
    requires count == |Group(done, key, part, key(x))| + |part(x)|
    ensures CountsBuilt(done + [x], key, part, counts[key(x) := count])
  {
    var counts' := counts[key(x) := count];
    KeysOfSnoc(done, x, key);
    forall k | k in counts' ensures counts'[k] == |Group(done + [x], key, part, k)| {
      GroupSnoc(done, x, key, part, k);
    }
  }

  lemma FilesStep<T>(existing: map<string, seq<string>>, done: seq<T>, x: T,
                     key: T -> string, part: T -> seq<string>,
                     months: map<string, seq<string>>, out: seq<string>)
    requires FilesBuilt(existing, done, key, part, months)
    requires out == Lookup(months, key(x)) + Anchored(part(x), |Group(done, key, part, key(x))|)
    ensures FilesBuilt(existing, done + [x], key, part, months[key(x) := out])
  {
    var months' := months[key(x) := out];
    KeysStep(existing.Keys, done, x, key, months, out);
    forall k | k in months'
      ensures months'[k] == Lookup(existing, k) + Anchored(Group(done + [x], key, part, k), 0)
    {
      FileStep(existing, done, x, key, part, months, out, k);
    }
  }

  /** The months present grow by the month of element `x`. */
  lemma KeysStep<T, V>(base: set<string>, done: seq<T>, x: T, key: T -> string,
                       months: map<string, V>, v: V)
    requires months.Keys == base + KeysOf(done, key)
    ensures months[key(x) := v].Keys == base + KeysOf(done + [x], key)
  {
    KeysOfSnoc(done, x, key);
    assert months[key(x) := v].Keys == months.Keys + {key(x)};
  }

  /** One month file after element `x`. */
  lemma FileStep<T>(existing: map<string, seq<string>>, done: seq<T>, x: T,
                    key: T -> string, part: T -> seq<string>,
                    months: map<string, seq<string>>, out: seq<string>, k: string)
    requires FilesBuilt(existing, done, key, part, months)
    requires out == Lookup(months, key(x)) + Anchored(part(x), |Group(done, key, part, key(x))|)
    requires k in months || k == key(x)
    ensures months[key(x) := out][k] == Lookup(existing, k) + Anchored(Group(done + [x], key, part, k), 0)
  {
    GroupSnoc(done, x, key, part, k);
    var g := Group(done, key, part, k);
    if k == key(x) {
      if k !in months {
        GroupAbsent(done, key, part, k);
      }
      AnchorsAppended(Lookup(months, k), Lookup(existing, k), g, part(x), out);
    } else {
      assert g + [] == g;
    }
  }

  /** Processing element `i`: its month's counter and file are extended,
      every other month is unchanged. */
  lemma BuiltStep<T>(existing: map<string, seq<string>>, done: seq<T>, x: T,
                     key: T -> string, part: T -> seq<string>, mk: string,
                     counts: map<string, nat>, months: map<string, seq<string>>,
                     out: seq<string>, count: nat)
    requires mk == key(x)
    requires Built(existing, done, key, part, counts, months)
    requires count == (if mk in counts then counts[mk] else 0) + |part(x)|
    requires out == Lookup(months, mk) + Anchored(part(x), if mk in counts then counts[mk] else 0)
    ensures Built(existing, done + [x], key, part, counts[mk := count], months[mk := out])
  {
    CountIsLength(done, key, part, counts, mk);
    CountsStep(done, x, key, part, counts, count);
    FilesStep(existing, done, x, key, part, months, out);
  }

  /** One iteration of the day loop of `build_month_files`: sort the lines
      of day file `i` by timestamp and append them, anchored, to its month
      file, numbering on from that month's counter. */
  method AddDay(existing: map<string, seq<string>>, days: seq<DayFile>, i: nat,
                counts: map<string, nat>, months: map<string, seq<string>>)
    returns (counts': map<string, nat>, months': map<string, seq<string>>)
    requires i < |days|
    requires Built(existing, days[..i], DayMonth, DayTexts, counts, months)
    ensures Built(existing, days[..i + 1], DayMonth, DayTexts, counts', months')
  {
    var day := days[i];
    TakeSnoc(days, i);
    var mkey := MonthKey(day.name);
    var lines := SortBy(day.lines, KeyLe);
    var start := if mkey in counts then counts[mkey] else 0;
    var out, count := AnchorDay(lines, Lookup(months, mkey), start);
    BuiltStep(existing, days[..i], day, DayMonth, DayTexts, mkey, counts, months, out, count);
    counts' := counts[mkey := count];
    months' := months[mkey := out];
  }

  /** `build_month_files(out_root)`. `dayDir` is None when the day directory
      does not exist; `existing` is the month directory before the call. */
  method BuildMonthFiles(dayDir: Option<seq<DayFile>>, existing: map<string, seq<string>>)
    returns (months: map<string, seq<string>>)
    ensures dayDir.None? ==> months == existing
    ensures dayDir.Some? ==>
              months.Keys == existing.Keys + MonthsOf(DayOrder(dayDir.value)) &&
              forall mk :: mk in months ==>
                months[mk] == Lookup(existing, mk) + Anchored(MonthTexts(DayOrder(dayDir.value), mk), 0)
  {
    if dayDir.None? {
      return existing;
    }
    var days := DayOrder(dayDir.value);
    months := existing;
    var counts: map<string, nat> := map[];
    var i := 0;
    while i < |days|
      invariant 0 <= i <= |days|
      invariant Built(existing, days[..i], DayMonth, DayTexts, counts, months)
    {
      counts, months := AddDay(existing, days, i, counts, months);
      i := i + 1;
    }
    assert days[..i] == days;
  }
}
