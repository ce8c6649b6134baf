/** The log buffer: level tagging of messages, and the ring that keeps the most
    recent characters in either of its two layouts.  Counters are 32-bit words.
 */
module LogBuffer {
  import opened Arithmetic

  const LOGBUFF_LEN: nat := 16384

  // ----- the tagged text of a message

  /** The text starts with a level tag `<0>` .. `<7>`. */
  predicate HasTag(s: string) {
    |s| >= 3 && s[0] == '<' && '0' <= s[1] <= '7' && s[2] == '>'
  }

  function Tag(level: int): string
    requires 0 <= level <= 7
  {
    ['<', '0' + level as char, '>']
  }

  /** Length of the first line, its newline included. */
  function LineLength(s: string): (k: nat)
    ensures k <= |s| && (s != [] ==> k > 0)
    ensures forall i :: 0 <= i < k - 1 ==> s[i] != '\n'
    ensures k < |s| ==> s[k - 1] == '\n'
  {
    if s == [] then 0 else if s[0] == '\n' then 1 else 1 + LineLength(s[1..])
  }

  /** The level of the line in progress after `s`; -1 when a new line is due. */
  function LevelAfter(level: int, s: string): int {
    if s != [] && s[|s| - 1] == '\n' then -1 else level
  }

  /** One line as logged: if a new line is due and it has no tag of its own, it
      gets the default one. */
  function TaggedLine(level: int, default: int, line: string): string
    requires 0 <= default <= 7
  {
    (if level < 0 && !HasTag(line) then Tag(default) else []) + line
  }

  function LineLevel(level: int, default: int, line: string): int {
    if level >= 0 then level else if HasTag(line) then line[1] as int - '0' as int else default
  }

  /** A message as logged. */
  function Tagged(level: int, default: int, msg: string): string
    requires 0 <= default <= 7
    decreases |msg|
  {
    if msg == [] then []
    else
      var k := LineLength(msg);
      var l := LineLevel(level, default, msg);
      TaggedLine(level, default, msg[..k]) + Tagged(LevelAfter(l, msg[..k]), default, msg[k..])
  }

  function TaggedLevel(level: int, default: int, msg: string): int
    decreases |msg|
  {
    if msg == [] then level
    else
      var k := LineLength(msg);
      var l := LineLevel(level, default, msg);
      TaggedLevel(LevelAfter(l, msg[..k]), default, msg[k..])
  }

  // ----- every line is tagged

  /** Every line of the log begins with a tag. */
  predicate LinesTagged(s: string) {
    forall i :: 0 <= i < |s| && (i == 0 || s[i - 1] == '\n') ==> HasTag(s[i..])
  }

  /** The level says whether the log stands at the start of a line. */
  predicate InStep(s: string, level: int) {
    level < 0 <==> s == [] || s[|s| - 1] == '\n'
  }

  lemma TagOfPrefix(msg: string, k: nat)
    requires k == LineLength(msg)
    ensures HasTag(msg) <==> HasTag(msg[..k])
  {
    if HasTag(msg) {
      assert k >= 3;
    }
  }

  lemma AppendLine(s: string, level: int, default: int, line: string)
    requires 0 <= default <= 7 && LinesTagged(s) && InStep(s, level) && line != []
    requires forall i :: 0 <= i < |line| - 1 ==> line[i] != '\n'
    ensures LinesTagged(s + TaggedLine(level, default, line))
    ensures InStep(s + TaggedLine(level, default, line), LevelAfter(LineLevel(level, default, line), line))
  {
    var t := TaggedLine(level, default, line);
    var u := s + t;
    assert level < 0 ==> HasTag(t);
    assert t[|t| - 1] == line[|line| - 1];
    assert forall j :: 0 <= j < |t| - 1 ==> t[j] != '\n';
    assert forall j :: |s| <= j < |u| - 1 ==> u[j] != '\n';
    forall i | 0 <= i < |u| && (i == 0 || u[i - 1] == '\n') ensures HasTag(u[i..]) {
      if i < |s| {
        assert u[i..] == s[i..] + t;
      } else {
        assert u[i..] == t;
      }
    }
  }

  /** Logging any message keeps every line of the log tagged. */
  lemma {:induction false} AppendTagged(s: string, level: int, default: int, msg: string)
    requires 0 <= default <= 7 && LinesTagged(s) && InStep(s, level)
    ensures LinesTagged(s + Tagged(level, default, msg))
    ensures InStep(s + Tagged(level, default, msg), TaggedLevel(level, default, msg))
    decreases |msg|
  {
    if msg == [] {
      assert s + [] == s;
    } else {
      var k := LineLength(msg);
      var line, rest := msg[..k], msg[k..];
      var l := LineLevel(level, default, msg);
      var t := TaggedLine(level, default, line);
      assert l == LineLevel(level, default, line) by { TagOfPrefix(msg, k); }
      assert LinesTagged(s + t) && InStep(s + t, LevelAfter(l, line)) by { AppendLine(s, level, default, line); }
      AppendTagged(s + t, LevelAfter(l, line), default, rest);
      ConcatAssoc(s, t, Tagged(LevelAfter(l, line), default, rest));
    }
  }

  /** Log text and level after a sequence of messages. */
  function Transcript(default: int, msgs: seq<string>): (string, int)
    requires 0 <= default <= 7
  {
    if msgs == [] then ([], -1)
    else
      var (s, level) := Transcript(default, msgs[..|msgs| - 1]);
      (s + Tagged(level, default, msgs[|msgs| - 1]), TaggedLevel(level, default, msgs[|msgs| - 1]))
  }

  /** Over every sequence of messages, every line of the log is tagged. */
  lemma {:induction false} TranscriptTagged(default: int, msgs: seq<string>)
    requires 0 <= default <= 7
    ensures LinesTagged(Transcript(default, msgs).0) && InStep(Transcript(default, msgs).0, Transcript(default, msgs).1)
    decreases |msgs|
  {
    if msgs != [] {
      var init := msgs[..|msgs| - 1];
      TranscriptTagged(default, init);
      AppendTagged(Transcript(default, init).0, Transcript(default, init).1, default, msgs[|msgs| - 1]);
    }
  }

  // ----- what the log says

  /** A line of text as a reader of the log takes it: its level and what it says. */
  datatype Entry = Entry(level: char, text: string)

  function EntryOf(line: string, default: int): Entry
    requires 0 <= default <= 7
  {
    if HasTag(line) then Entry(line[1], line[3..]) else Entry('0' + default as char, line)
  }

  /** The lines of a text, untagged ones at the default level. */
  function Entries(s: string, default: int): seq<Entry>
    requires 0 <= default <= 7
    decreases |s|
  {
    if s == [] then [] else [EntryOf(s[..LineLength(s)], default)] + Entries(s[LineLength(s)..], default)
  }

  lemma {:induction false} LineLengthIs(t: string, more: string)
    requires t != [] && (forall i :: 0 <= i < |t| - 1 ==> t[i] != '\n') && (more != [] ==> t[|t| - 1] == '\n')
    ensures LineLength(t + more) == |t|
    decreases |t|
  {
    assert (t + more)[0] == t[0] && (t + more)[1..] == t[1..] + more;
    if |t| > 1 {
      LineLengthIs(t[1..], more);
    } else if more == [] {
      assert t[1..] + more == [];
    }
  }

  lemma EntryKept(line: string, default: int, other: int)
    requires 0 <= default <= 7 && 0 <= other <= 7
    ensures var t := TaggedLine(-1, default, line); HasTag(t) && EntryOf(t, other) == EntryOf(line, default)
  {
    var t := TaggedLine(-1, default, line);
    if !HasTag(line) { assert t == Tag(default) + line && t[3..] == line; }
  }

  /** A message logged at the start of a line is logged with the same lines at the
      same levels, whatever default its reader assumes. */
  lemma {:induction false} SameEntries(default: int, msg: string, other: int)
    requires 0 <= default <= 7 && 0 <= other <= 7
    ensures Entries(Tagged(-1, default, msg), other) == Entries(msg, default)
    decreases |msg|
  {
    if msg != [] {
      var k := LineLength(msg);
      var line, rest := msg[..k], msg[k..];
      var t := TaggedLine(-1, default, line);
      var more := Tagged(LevelAfter(LineLevel(-1, default, msg), line), default, rest);
      EntryKept(line, default, other);
      TagNoNewline(default, line);
      if rest != [] {
        assert more == Tagged(-1, default, rest) && t[|t| - 1] == '\n';
      }
      LineLengthIs(t, more);
      assert (t + more)[..|t|] == t && (t + more)[|t|..] == more;
      SameEntries(default, rest, other);
    }
  }

  lemma TagNoNewline(default: int, line: string)
    requires 0 <= default <= 7 && line != [] && forall i :: 0 <= i < |line| - 1 ==> line[i] != '\n'
    ensures var t := TaggedLine(-1, default, line);
            t != [] && t[|t| - 1] == line[|line| - 1] && forall i :: 0 <= i < |t| - 1 ==> t[i] != '\n'
  {
  }

  /** A message that goes on with an open line is logged as it is up to the end of
      that line, and like any other from there on. */
  lemma OpenLineGoesOn(level: int, default: int, msg: string)
    requires 0 <= default <= 7 && level >= 0 && msg != []
    ensures var k := LineLength(msg);
            Tagged(level, default, msg) == msg[..k] + Tagged(if msg[k - 1] == '\n' then -1 else level, default, msg[k..])
  {
  }

  // ----- the ring

  /** How many of `n` logged characters the ring holds. */
  function Held(n: nat): nat {
    if n <= LOGBUFF_LEN then n else LOGBUFF_LEN
  }

  /** The most recent characters of the log. */
  function Window(s: string): (w: string)
    ensures |w| == Held(|s|)
  {
    s[|s| - Held(|s|)..]
  }

  /** The 32-bit counters agree with the number of characters. */
  predicate Counts(version: int, n: nat, w: nat, start: nat, size: nat, end: nat, chars: nat)
    requires w <= n
  {
    start == (n - w) % WORD && chars == n % WORD && if version == 2 then end == n % WORD else size == w
  }

  lemma SlotOfNext(n: nat, w: nat)
    requires w <= n
    ensures n % WORD % LOGBUFF_LEN == n % LOGBUFF_LEN
    ensures ((n - w) % WORD + w) % WORD % LOGBUFF_LEN == n % LOGBUFF_LEN
  {
    var x := (n - w) % WORD + w;
    WordSlot(n);
    WordSlot(x);
    var k := (n - w) / WORD;
    assert n == (k * 0x4_0000) * LOGBUFF_LEN + x;
    ModOfSum(k * 0x4_0000, LOGBUFF_LEN, x);
  }

  lemma WordSlot(n: nat)
    ensures n % WORD % LOGBUFF_LEN == n % LOGBUFF_LEN
  {
    ModOfMod(n, LOGBUFF_LEN, 0x4_0000);
  }

  lemma ModIncrement(a: nat)
    ensures (a % WORD + 1) % WORD == (a + 1) % WORD
  {
  }

  lemma ModDifference(n: nat, k: nat)
    requires k < WORD
    ensures ((n + k) % WORD - n % WORD) % WORD == k
  {
  }

  lemma NextCounters(n: nat, w: nat)
    requires w <= n && w <= LOGBUFF_LEN
    ensures (n % WORD + 1) % WORD == (n + 1) % WORD
    ensures ((n + 1) % WORD - (n - w) % WORD) % WORD == w + 1
    ensures ((n - w) % WORD + 1) % WORD == (n + 1 - w) % WORD
  {
    ModIncrement(n);
    ModIncrement(n - w);
    ModDifference(n - w, w + 1);
  }

  /** Character `i` of the log is in its slot. */
  ghost predicate InSlot(lbuf: array<char>, stream: string, i: int)
    reads lbuf
  {
    lbuf.Length == LOGBUFF_LEN && 0 <= i < |stream| && lbuf[i % LOGBUFF_LEN] == stream[i]
  }

  ghost predicate Ring(lbuf: array<char>, stream: string, w: nat)
    requires w <= |stream|
    reads lbuf
  {
    forall i :: |stream| - w <= i < |stream| ==> InSlot(lbuf, stream, i)
  }

  method Store(lbuf: array<char>, ghost stream: string, slot: nat, c: char)
    requires lbuf.Length == LOGBUFF_LEN && slot == |stream| % LOGBUFF_LEN
    requires Ring(lbuf, stream, Held(|stream|))
    modifies lbuf
    ensures Ring(lbuf, stream + [c], Held(|stream| + 1))
  {
    ghost var n, w := |stream|, Held(|stream| + 1);
    assert forall i :: n + 1 - w <= i < n ==> InSlot(lbuf, stream, i);
    assert forall i :: n - LOGBUFF_LEN < i < n ==> i % LOGBUFF_LEN != slot;
    lbuf[slot] := c;
    forall i | n + 1 - w <= i < n + 1 ensures InSlot(lbuf, stream + [c], i) {
      assert i < n ==> old(InSlot(lbuf, stream, i));
    }
  }

  /** Where the first newline of a tagged line is. */
  lemma FirstNewline(tag: string, rest: string, q: nat)
    requires rest != [] && (forall i :: 0 <= i < |tag| ==> tag[i] != '\n')
    requires var text := tag + rest;
             q <= |text| && (q < |text| ==> text[q] == '\n') && forall i :: 0 <= i < q ==> text[i] != '\n'
    ensures var k := LineLength(rest);
            && (if q < |tag + rest| then q + 1 else q) == |tag| + k
            && (tag + rest)[..|tag| + k] == tag + rest[..k]
            && (q < |tag + rest| <==> rest[k - 1] == '\n')
  {
    var k := LineLength(rest);
    var text := tag + rest;
    assert rest[k - 1] == text[|tag| + k - 1];
    assert forall i :: |tag| <= i < |tag| + k - 1 ==> text[i] == rest[i - |tag|];
    if q < |text| {
      assert q >= |tag| && rest[q - |tag|] == '\n';
    }
  }

  function OwnTag(level: int, default: int, rest: string): string
    requires 0 <= default <= 7
  {
    if level < 0 && !HasTag(rest) then Tag(default) else []
  }

  /** What has been logged, and the level, when the first line of `rest` is done. */
  lemma LineDone(level: int, default: int, rest: string, q: nat)
    requires rest != [] && 0 <= default <= 7
    requires var text := OwnTag(level, default, rest) + rest;
             q <= |text| && (q < |text| ==> text[q] == '\n') && forall i :: 0 <= i < q ==> text[i] != '\n'
    ensures var tag, k := OwnTag(level, default, rest), LineLength(rest);
            var stop := if q < |tag + rest| then q + 1 else q;
            && stop == |tag| + k
            && (tag + rest)[..stop] == TaggedLine(level, default, rest[..k])
            && LevelAfter(LineLevel(level, default, rest), rest[..k]) ==
               if q < |tag + rest| then -1 else LineLevel(level, default, rest)
  {
    FirstNewline(OwnTag(level, default, rest), rest, q);
    TagOfPrefix(rest, LineLength(rest));
  }

  /** `done` has been logged of `msg`, and `rest` is still to come. */
  predicate Unfolds(level: int, default: int, msg: string, done: string, level': int, rest: string)
    requires 0 <= default <= 7
  {
    && Tagged(level, default, msg) == done + Tagged(level', default, rest)
    && TaggedLevel(level, default, msg) == TaggedLevel(level', default, rest)
  }

  lemma UnfoldsLine(level: int, default: int, msg: string, done: string, level': int, rest: string)
    requires 0 <= default <= 7 && rest != [] && Unfolds(level, default, msg, done, level', rest)
    ensures var k := LineLength(rest);
            var l := LevelAfter(LineLevel(level', default, rest), rest[..k]);
            Unfolds(level, default, msg, done + TaggedLine(level', default, rest[..k]), l, rest[k..])
  {
    var k := LineLength(rest);
    var l := LevelAfter(LineLevel(level', default, rest), rest[..k]);
    var out, more := TaggedLine(level', default, rest[..k]), Tagged(l, default, rest[k..]);
    assert done + (out + more) == done + out + more;
  }

  /** `size` characters of a ring from counter value `start` on. */
  function ReadRing(ring: seq<char>, start: nat, size: nat): (s: string)
    requires |ring| == LOGBUFF_LEN
    ensures |s| == size
  {
    seq(size, i requires 0 <= i => ring[(start + i) % WORD % LOGBUFF_LEN])
  }

  class Log {
    const version: int
    const lbuf: array<char>
    const buf: array<char>
    var start: nat     // both layouts
    var size: nat      // layout 1
    var end: nat       // layout 2
    var chars: nat     // both layouts
    var msgLevel: int
    ghost var stream: string   // everything logged

    ghost predicate Valid()
      reads this, lbuf
    {
      && lbuf.Length == LOGBUFF_LEN && buf.Length == 1024 && lbuf != buf
      && Counts(version, |stream|, Held(|stream|), start, size, end, chars)
      && Ring(lbuf, stream, Held(|stream|))
    }

    constructor (version: int)
      ensures Valid() && stream == [] && msgLevel == -1 && fresh(lbuf) && fresh(buf) && this.version == version
    {
      this.version := version;
      lbuf := new char[LOGBUFF_LEN](i => '\0');
      buf := new char[1024](i => '\0');
      start, size, end, chars, msgLevel, stream := 0, 0, 0, 0, -1, [];
    }

    /** Appends one character to the ring. */
    method PutChar(c: char)
      requires Valid()
      modifies this`start, this`size, this`end, this`chars, this`stream, lbuf
      ensures Valid() && stream == old(stream) + [c]
    {
      ghost var n, w := |stream|, Held(|stream|);
      SlotOfNext(n, w);
      NextCounters(n, w);
      if version == 2 {
        Store(lbuf, stream, end % LOGBUFF_LEN, c);
        end := (end + 1) % WORD;
        if (end - start) % WORD > LOGBUFF_LEN {
          start := (start + 1) % WORD;
        }
      } else {
        Store(lbuf, stream, (start + size) % WORD % LOGBUFF_LEN, c);
        if size < LOGBUFF_LEN {
          size := size + 1;
        } else {
          start := (start + 1) % WORD;
        }
      }
      chars := (chars + 1) % WORD;
      stream := stream + [c];
    }

    /** Logs `text` up to and including the first newline. */
    method PutLine(text: string) returns (p: nat, lineFeed: bool)
      requires Valid()
      modifies this`start, this`size, this`end, this`chars, this`stream, lbuf
      ensures Valid() && p <= |text|
      ensures lineFeed <==> p < |text|
      ensures lineFeed ==> text[p] == '\n'
      ensures stream == old(stream) + text[..if lineFeed then p + 1 else p]
      ensures forall i :: 0 <= i < p ==> text[i] != '\n'
    {
      p := 0;
      lineFeed := false;
      ghost var logged := stream;
      while p < |text|
        invariant Valid() && p <= |text|
        invariant stream == logged + text[..p]
        invariant forall i :: 0 <= i < p ==> text[i] != '\n'
      {
        assert text[..p + 1] == text[..p] + [text[p]];
        PutChar(text[p]);
        if text[p] == '\n' {
          lineFeed := true;
          break;
        }
        p := p + 1;
      }
    }

    /** Puts the tag of a level at `buf[p]`. */
    method PutTag(p: nat, bufEnd: nat, level: int)
      requires p + 3 < bufEnd < buf.Length && 0 <= level <= 7
      modifies buf
      ensures buf[p + 1] == '0' + level as char
      ensures buf[p..bufEnd] == Tag(level) + old(buf[p + 3..bufEnd])
      ensures buf[p + 3..bufEnd + 1] == old(buf[p + 3..bufEnd + 1])
    {
      buf[p] := '<';
      buf[p + 1] := '0' + level as char;
      buf[p + 2] := '>';
      assert buf[p..p + 3] == Tag(level);
      assert buf[p..bufEnd] == buf[p..p + 3] + buf[p + 3..bufEnd];
    }

    /** At the start of a line: looks for a tag at `buf[p]`, or puts the default
        one in front, over what has already been logged. */
    method StartLine(p0: nat, bufEnd: nat, default: int) returns (p: nat)
      requires buf.Length == 1024 && 3 <= p0 < bufEnd < 1024 && 0 <= default <= 7 && buf[bufEnd] == '\0'
      modifies this`msgLevel, buf
      ensures p <= p0 && buf[p..bufEnd] == OwnTag(old(msgLevel), default, old(buf[p0..bufEnd])) + old(buf[p0..bufEnd])
      ensures msgLevel == LineLevel(old(msgLevel), default, old(buf[p0..bufEnd]))
      ensures buf[p0..bufEnd + 1] == old(buf[p0..bufEnd + 1])
    {
      p := p0;
      ghost var rest := buf[p0..bufEnd];
      if msgLevel < 0 {
        if buf[p] != '<' || buf[p + 1] < '0' || buf[p + 1] > '7' || buf[p + 2] != '>' {
          assert !HasTag(rest);
          p := p - 3;
          PutTag(p, bufEnd, default);
        } else {
          assert HasTag(rest);
          assert [] + rest == rest;
        }
        msgLevel := buf[p + 1] as int - '0' as int;
      } else {
        assert [] + rest == rest;
      }
    }

    /** Logs one line of the message in `buf[p0..bufEnd]`. */
    method LogLine(p0: nat, bufEnd: nat, default: int) returns (p: nat)
      requires Valid() && 3 <= p0 < bufEnd < 1024 && 0 <= default <= 7 && buf[bufEnd] == '\0'
      modifies this, lbuf, buf
      ensures Valid() && buf[bufEnd] == '\0'
      ensures var rest := old(buf[p0..bufEnd]);
              var k := LineLength(rest);
              && p == p0 + k && buf[p..bufEnd] == rest[k..]
              && stream == old(stream) + TaggedLine(old(msgLevel), default, rest[..k])
              && msgLevel == LevelAfter(LineLevel(old(msgLevel), default, rest), rest[..k])
    {
      ghost var rest, level := buf[p0..bufEnd], msgLevel;
      ghost var k := LineLength(rest);
      var from := StartLine(p0, bufEnd, default);
      ghost var whole := buf[..];
      assert whole[p0..bufEnd] == rest && whole[bufEnd] == '\0';
      var q, lineFeed := PutLine(buf[from..bufEnd]);
      LineDone(level, default, rest, q);
      p := from + q;
      if lineFeed {
        msgLevel := -1;
        p := p + 1;
      }
      assert buf[p..bufEnd] == rest[k..] by {
        assert buf[..] == whole;
        assert whole[p..bufEnd] == whole[p0..bufEnd][k..];
      }
    }

    /** `strcpy (buf + 3, line)`. */
    method CopyIn(line: string)
      requires buf.Length == 1024 && |line| <= 1020
      modifies buf
      ensures buf[3..3 + |line|] == line && buf[3 + |line|] == '\0'
    {
      for i := 0 to |line|
        invariant buf[3..3 + i] == line[..i]
      {
        buf[3 + i] := line[i];
        assert buf[3..3 + i] == line[..i];
      }
      buf[3 + |line|] := '\0';
      assert line[..|line|] == line;
    }

    /** `logbuff_printk`, less the console echo. */
    method Printk(line: string, default: int)
      requires Valid() && |line| <= 1020 && 0 <= default <= 7
      modifies this, lbuf, buf
      ensures Valid()
      ensures stream == old(stream) + Tagged(old(msgLevel), default, line)
      ensures msgLevel == TaggedLevel(old(msgLevel), default, line)
    {
      ghost var logged, level, done := stream, msgLevel, "";
      CopyIn(line);
      var bufEnd := 3 + |line|;
      var p := 3;
      assert Unfolds(level, default, line, done, level, line);
      while p < bufEnd
        invariant Valid() && 3 <= p <= bufEnd && buf[bufEnd] == '\0' && stream == logged + done
        invariant Unfolds(level, default, line, done, msgLevel, buf[p..bufEnd])
      {
        p, done := LogLineOf(p, bufEnd, default, level, line, logged, done);
      }
      assert buf[p..bufEnd] == [] && done + [] == done;
    }

    /** One line of the message, with the account of the whole message. */
    method LogLineOf(p0: nat, bufEnd: nat, default: int, ghost level: int, ghost msg: string,
                     ghost logged: string, ghost done: string) returns (p: nat, ghost done': string)
      requires Valid() && 3 <= p0 < bufEnd < 1024 && 0 <= default <= 7 && buf[bufEnd] == '\0'
      requires stream == logged + done && Unfolds(level, default, msg, done, msgLevel, buf[p0..bufEnd])
      modifies this, lbuf, buf
      ensures Valid() && p0 < p <= bufEnd && buf[bufEnd] == '\0' && stream == logged + done'
      ensures Unfolds(level, default, msg, done', msgLevel, buf[p..bufEnd])
    {
      ghost var rest := buf[p0..bufEnd];
      ghost var out := TaggedLine(msgLevel, default, rest[..LineLength(rest)]);
      UnfoldsLine(level, default, msg, done, msgLevel, rest);
      done' := done + out;
      ConcatAssoc(logged, done, out);
      p := LogLine(p0, bufEnd, default);
    }

    /** The ring read back in order, as its layout describes it. */
    ghost function Contents(): string
      requires Valid()
      reads this, lbuf
    {
      ReadRing(lbuf[..], start, if version == 2 then (end - start) % WORD else size)
    }

    /** Whatever has been logged, the ring holds exactly its most recent
        characters; so the two layouts hold the same. */
    lemma HoldsWindow()
      requires Valid()
      ensures Contents() == Window(stream)
    {
      var n, w := |stream|, Held(|stream|);
      ModDifference(n - w, w);
      forall i | 0 <= i < w ensures Contents()[i] == Window(stream)[i] {
        WindowAt(i);
      }
    }

    lemma WindowAt(i: nat)
      requires Valid() && i < Held(|stream|)
      ensures lbuf[(start + i) % WORD % LOGBUFF_LEN] == Window(stream)[i]
    {
      var n, w := |stream|, Held(|stream|);
      SlotOfNext(n - w + i, i);
      assert InSlot(lbuf, stream, n - w + i);
    }

    /** `log show`: the count is masked, so a full ring counts as empty. */
    method Show() returns (shown: string)
      requires Valid()
      ensures shown == if |Window(stream)| == LOGBUFF_LEN then [] else Window(stream)
      ensures shown == Window(stream) <==> |stream| < LOGBUFF_LEN
    {
      var size := if version == 2 then (end - start) % WORD else this.size;
      ghost var n, w := |stream|, Held(|stream|);
      assert size == w by { ModDifference(n - w, w); }
      ghost var window := Window(stream);
      shown := [];
      var i := 0;
      while i < size % LOGBUFF_LEN
        invariant 0 <= i <= size % LOGBUFF_LEN
        invariant shown == window[..i]
      {
        var c := lbuf[(start + i) % WORD % LOGBUFF_LEN];
        assert c == window[i] by { WindowAt(i); }
        shown := shown + [c];
        i := i + 1;
      }
    }
  }

  /** A whole session on a fresh buffer of either layout: the log text does not
      depend on the layout, each line of it is tagged, and the ring holds its
      most recent characters. */
  method LogSession(version: int, default: int, msgs: seq<string>) returns (log: Log)
    requires 0 <= default <= 7 && forall i :: 0 <= i < |msgs| ==> |msgs[i]| <= 1020
    ensures log.Valid() && log.stream == Transcript(default, msgs).0 && LinesTagged(log.stream)
    ensures log.Contents() == Window(Transcript(default, msgs).0)
  {
    log := new Log(version);
    for k := 0 to |msgs|
      invariant log.Valid() && fresh(log) && fresh(log.lbuf) && fresh(log.buf)
      invariant (log.stream, log.msgLevel) == Transcript(default, msgs[..k])
    {
      assert msgs[..k + 1][..k] == msgs[..k];
      log.Printk(msgs[k], default);
    }
    assert msgs[..|msgs|] == msgs;
    TranscriptTagged(default, msgs);
    log.HoldsWindow();
  }
}
