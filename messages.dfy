/** Message normalisation (archive_tool.py lines 14-55): `safe_int`,
    `normalize_timestamp` and `normalize_message`. All three are total: every
    malformed shape falls back to a default. */
module Messages {
  import opened Values

  /** A raw message record: a JSON object. */
  type RawMessage = map<string, Value>

  /** The canonical triple produced by `normalize_message`. The role keeps
      whatever truthy value the record carried. */
  datatype Message = Message(role: Value, content: string, ts: int)

  const MillisThreshold: int := 1_000_000_000_000

  /** `int(v)` where Python accepts it without the float fallback:
      integers, booleans and decimal strings. */
  function IntOf(v: Value): Option<int> {
    match v
    case Num(n) => Some(n)
    case Bool(b) => Some(if b then 1 else 0)
    case Str(s) => ParseInt(s)
    case _ => None
  }

  /** `safe_int(v, default)`: the integer `v` denotes, else `default`. */
  function SafeInt(v: Value, default: int): (r: int)
    ensures IntOf(v).Some? ==> r == IntOf(v).value
    ensures IntOf(v).None? ==> r == default
  {
    match IntOf(v)
    case Some(n) => n
    case None => default
  }

  /** The text written by `f"{ts}"` is read back by `safe_int` as `ts`. */
  lemma SafeIntOfText(ts: int, default: int)
    ensures SafeInt(Str(IntText(ts)), default) == ts
  {
    ParseIntText(ts);
  }

  /** `normalize_timestamp(ts)`: a missing or non-numeric value gives 0; a
      value above 10^12 is read as milliseconds and scaled to seconds,
      truncating. */
  function NormalizeTimestamp(ts: Value): (r: int)
    ensures IntOf(ts).None? ==> r == 0
    ensures IntOf(ts).Some? && IntOf(ts).value <= MillisThreshold ==> r == IntOf(ts).value
    ensures IntOf(ts).Some? && IntOf(ts).value > MillisThreshold ==>
              r * 1000 <= IntOf(ts).value < r * 1000 + 1000
  {
    match IntOf(ts)
    case None => 0
    case Some(t) => if t > MillisThreshold then t / 1000 else t
  }

  /** A millisecond timestamp and the matching second timestamp normalise to
      the same second. */
  lemma MillisMatchSeconds(s: int, ms: nat)
    requires 1_000_000_000 < s <= MillisThreshold && ms < 1000
    ensures NormalizeTimestamp(Num(s * 1000 + ms)) == s
    ensures NormalizeTimestamp(Num(s)) == s
  {
  }

  /** 1700000000000 ms and 1700000000 s normalise to the same second. */
  lemma MillisExample()
    ensures NormalizeTimestamp(Num(1_700_000_000_000)) == 1_700_000_000
    ensures NormalizeTimestamp(Num(1_700_000_000)) == 1_700_000_000
  {
    MillisMatchSeconds(1_700_000_000, 0);
  }

  /** Timestamps survive being written as text and read back. */
  lemma NormalizeTimestampText(ts: int)
    ensures NormalizeTimestamp(Str(IntText(ts))) == NormalizeTimestamp(Num(ts))
  {
    ParseIntText(ts);
  }

  // ---------------------------------------------------------------------
  // Content

  /** The string elements of a list, in order (`[p for p in parts if isinstance(p, str)]`). */
  function StringParts(xs: seq<Value>): (r: seq<string>)
    ensures |r| <= |xs|
  {
    if xs == [] then []
    else (if xs[0].Str? then [xs[0].s] else []) + StringParts(xs[1..])
  }

  /** `"\n".join(xs)`. */
  function JoinLines(xs: seq<string>): string {
    if xs == [] then ""
    else if |xs| == 1 then xs[0]
    else xs[0] + "\n" + JoinLines(xs[1..])
  }

  predicate NoNewline(s: string) {
    forall i :: 0 <= i < |s| ==> s[i] != '\n'
  }

  /** Index of the first newline of `s`, or |s| when there is none. */
  function FirstNewline(s: string): (i: nat)
    ensures i <= |s| && NoNewline(s[..i])
    ensures i < |s| ==> s[i] == '\n'
  {
    if s == [] then 0
    else if s[0] == '\n' then 0
    else
      var k := FirstNewline(s[1..]);
      assert s[..k + 1] == [s[0]] + s[1..][..k];
      k + 1
  }

  /** `s.split("\n")`. */
  function SplitLines(s: string): (r: seq<string>)
    ensures |r| >= 1
    decreases |s|
  {
    var i := FirstNewline(s);
    if i == |s| then [s] else [s[..i]] + SplitLines(s[i + 1..])
  }

  /** Splitting the joined parts on newlines gives the parts back, when no
      part holds a newline itself: joining loses nothing. */
  lemma {:induction false} SplitJoin(xs: seq<string>)
    requires xs != []
    requires forall k :: 0 <= k < |xs| ==> NoNewline(xs[k])
    ensures SplitLines(JoinLines(xs)) == xs
    decreases |xs|
  {
    var x := xs[0];
    assert NoNewline(x);
    if |xs| == 1 {
      FirstNewlineNone(x);
    } else {
      SplitFirst(x, JoinLines(xs[1..]));
      SplitJoin(xs[1..]);
    }
  }

  lemma FirstNewlineNone(s: string)
    requires NoNewline(s)
    ensures FirstNewline(s) == |s|
  {
  }

  /** A line without a newline, a newline, then the rest: the first piece of
      the split is that line. */
  lemma SplitFirst(x: string, rest: string)
    requires NoNewline(x)
    ensures SplitLines(x + "\n" + rest) == [x] + SplitLines(rest)
  {
    var s := x + "\n" + rest;
    assert s[..|x|] == x;
    FirstNewlineAt(s, |x|);
    assert s[|x| + 1..] == rest;
  }

  lemma FirstNewlineAt(s: string, i: nat)
    requires i < |s| && s[i] == '\n' && NoNewline(s[..i])
    ensures FirstNewline(s) == i
  {
  }

  /** The message text, before stripping: `content.parts` joined by newlines,
      a plain string, or `content.text`. A `text` that is a truthy non-string
      makes the source raise; here it reads as "". */
  function RawContent(msg: RawMessage): string {
    var c := Get(msg, "content");
    if c.Obj? && "parts" in c.fields then
      (if c.fields["parts"].List? then JoinLines(StringParts(c.fields["parts"].items)) else "")
    else if c.Str? then c.s
    else if c.Obj? && "text" in c.fields && c.fields["text"].Str? then c.fields["text"].s
    else ""
  }

  /** The raw timestamp: `create_time`, or when that is falsy
      `metadata.timestamp or metadata.timestamp_`. */
  function RawTimestamp(msg: RawMessage): (v: Value)
    ensures Truthy(Get(msg, "create_time")) ==> v == Get(msg, "create_time")
    ensures !Truthy(Get(msg, "create_time")) ==>
              v == Or(Get(GetDict(msg, "metadata"), "timestamp"), Get(GetDict(msg, "metadata"), "timestamp_"))
  {
    var c := Get(msg, "create_time");
    if Truthy(c) then c
    else
      var meta := GetDict(msg, "metadata");
      Or(Get(meta, "timestamp"), Get(meta, "timestamp_"))
  }

  /** `author.role or role or "assistant"`. */
  function Role(msg: RawMessage): (r: Value)
    ensures Truthy(r)
    ensures Truthy(Get(GetDict(msg, "author"), "role")) ==> r == Get(GetDict(msg, "author"), "role")
    ensures !Truthy(Get(GetDict(msg, "author"), "role")) && Truthy(Get(msg, "role")) ==> r == Get(msg, "role")
    ensures !Truthy(Get(GetDict(msg, "author"), "role")) && !Truthy(Get(msg, "role")) ==> r == Str("assistant")
  {
    Or(Or(Get(GetDict(msg, "author"), "role"), Get(msg, "role")), Str("assistant"))
  }

  /** `normalize_message(msg)`: never fails; the content never starts or ends
      with whitespace, and the role is never falsy. */
  function NormalizeMessage(msg: RawMessage): (m: Message)
    ensures Truthy(m.role) && m.role == Role(msg)
    ensures m.content == [] || (!IsSpace(m.content[0]) && !IsSpace(m.content[|m.content| - 1]))
    ensures m.content == [] <==> AllSpace(RawContent(msg))
    ensures m.content == Strip(RawContent(msg))
    ensures m.ts == NormalizeTimestamp(RawTimestamp(msg))
  {
    var raw := RawContent(msg);
    var content := Strip(raw);
    assert content == [] || (!IsSpace(content[0]) && !IsSpace(content[|content| - 1]));
    Message(Role(msg), content, NormalizeTimestamp(RawTimestamp(msg)))
  }

  /** The dictionary `{"role": r, "content": c, "ts": t}` that
      `normalize_message` returns, read back as a raw message. */
  function Record(m: Message): RawMessage {
    map["role" := m.role, "content" := Str(m.content), "ts" := Num(m.ts)]
  }

  /** Read back as a raw message, the dictionary shows its role (when truthy)
      and its content, but no timestamp: it has neither a `create_time` nor a
      `metadata` key. */
  lemma RecordFields(m: Message)
    ensures Role(Record(m)) == Or(m.role, Str("assistant"))
    ensures RawContent(Record(m)) == m.content
    ensures NormalizeTimestamp(RawTimestamp(Record(m))) == 0
  {
    var r := Record(m);
    assert GetDict(r, "author") == map[];
    assert GetDict(r, "metadata") == map[];
    assert Get(r, "content") == Str(m.content);
    assert Get(r, "create_time") == Null;
  }

  /** Normalising the result of `normalize_message` once more keeps the role
      and the content, and loses the timestamp, which the result stores
      under `ts`. */
  lemma NormalizeAgain(msg: RawMessage)
    ensures var m := NormalizeMessage(msg);
            var m' := NormalizeMessage(Record(m));
            m'.role == m.role && m'.content == m.content && m'.ts == 0
  {
    var m := NormalizeMessage(msg);
    RecordFields(m);
    StripIdempotent(RawContent(msg));
  }

  /** Parts `["a", "b"]` give the content `"a\nb"`. */
  lemma PartsExample()
    ensures NormalizeMessage(map["content" := Obj(map["parts" := List([Str("a"), Str("b")])])]).content == "a\nb"
  {
    var msg := map["content" := Obj(map["parts" := List([Str("a"), Str("b")])])];
    assert StringParts([Str("a"), Str("b")]) == ["a", "b"] by {
      assert [Str("a"), Str("b")][1..] == [Str("b")];
      assert [Str("b")][1..] == [];
    }
    assert ["a", "b"][1..] == ["b"];
    assert RawContent(msg) == "a\nb";
    StripTrimmed("a\nb");
  }
}
