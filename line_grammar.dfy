/**
 * The message-line pattern of the upload handler (index.js:34), applied to one line:
 *
 *   ^(\d{1,2}/\d{1,2}/\d{2,4}), (\d{1,2}:\d{2})\s?(am|pm)? - ([^:]+): (.+)$   (flag i)
 *
 * Parse is a hand-written matcher for it; Matches says declaratively what a match is:
 * the line is the concatenation of the fields and the fixed separators.  The matcher
 * is proved to agree with Matches in both directions, so the decomposition is unique.
 */
module LineGrammar {
  import opened Wrappers
  import opened Text

  /**
   * A line cut at the boundaries of the pattern.  The regular expression captures
   * date (day/month/year), time (hour:minute), meridiem, sender and message; `gap`
   * is the text of the uncaptured `\s?`, kept so that the cut reassembles the line.
   */
  datatype Fields = Fields(
    day: string, month: string, year: string,
    hour: string, minute: string,
    gap: string, meridiem: Option<string>,
    sender: string, message: string)

  /** `am` or `pm` under the `i` flag: ASCII letters in either case. */
  predicate IsMeridiem(m: string) {
    |m| == 2 && (Lower(m[0]) == 'a' || Lower(m[0]) == 'p') && Lower(m[1]) == 'm'
  }

  predicate NotColon(c: char) {
    c != ':'
  }

  /** `\s?` */
  predicate IsGap(g: string) {
    g == [] || (|g| == 1 && IsSpace(g[0]))
  }

  predicate WellFormed(f: Fields) {
    && DigitsBetween(f.day, 1, 2)
    && DigitsBetween(f.month, 1, 2)
    && DigitsBetween(f.year, 2, 4)
    && DigitsBetween(f.hour, 1, 2)
    && DigitsBetween(f.minute, 2, 2)
    && IsGap(f.gap)
    && (f.meridiem.Some? ==> IsMeridiem(f.meridiem.value))
    && |f.sender| >= 1 && ':' !in f.sender
    && |f.message| >= 1 && NoLineTerminator(f.message)
  }

  function MeridiemText(m: Option<string>): string {
    if m.Some? then m.value else ""
  }

  /** What follows the minute: `\s?(am|pm)? - sender: message`. */
  function TailText(gap: string, meridiem: Option<string>, sender: string, message: string): string {
    gap + (MeridiemText(meridiem) + (" - " + (sender + (": " + message))))
  }

  /** `hour:minute` followed by the tail. */
  function TimeText(f: Fields): string {
    f.hour + (":" + (f.minute + TailText(f.gap, f.meridiem, f.sender, f.message)))
  }

  /** The whole line the fields stand for. */
  function Assemble(f: Fields): string {
    f.day + ("/" + (f.month + ("/" + (f.year + (", " + TimeText(f))))))
  }

  /** `line` matches the pattern, cut as `f`. */
  predicate Matches(line: string, f: Fields) {
    WellFormed(f) && Assemble(f) == line
  }

  /** Capture group 1, the date as written. */
  function DateCapture(f: Fields): string {
    f.day + "/" + f.month + "/" + f.year
  }

  /** Capture group 2, the time as written. */
  function TimeCapture(f: Fields): string {
    f.hour + ":" + f.minute
  }

  // ---------------------------------------------------------------- the matcher

  /** The longest prefix of `s` whose characters all satisfy `keep`, and the rest. */
  function Span(s: string, keep: char -> bool): (r: (string, string))
    ensures r.0 + r.1 == s
    ensures forall i :: 0 <= i < |r.0| ==> keep(r.0[i])
    ensures r.1 == [] || !keep(r.1[0])
  {
    if s != [] && keep(s[0]) then
      var (p, rest) := Span(s[1..], keep);
      assert s == [s[0]] + (p + rest);
      ([s[0]] + p, rest)
    else ([], s)
  }

  /** `s` with the literal `lit` removed from its front, if it starts with it. */
  function Drop(lit: string, s: string): (r: Option<string>)
    ensures r.Some? <==> lit <= s
    ensures r.Some? ==> s == lit + r.value
  {
    if lit <= s then Some(s[|lit|..]) else None
  }

  datatype DateFields = DateFields(day: string, month: string, year: string)
  datatype TimeFields = TimeFields(hour: string, minute: string)
  datatype TailFields = TailFields(gap: string, meridiem: Option<string>, sender: string, message: string)

  /** `\d{1,2}/\d{1,2}/\d{2,4}, ` at the front of the line. */
  function ParseDate(s: string): Option<(DateFields, string)> {
    var (day, r0) := Span(s, IsDigit);
    if !(1 <= |day| <= 2) then None else
    var r1 :- Drop("/", r0);
    var (month, r2) := Span(r1, IsDigit);
    if !(1 <= |month| <= 2) then None else
    var r3 :- Drop("/", r2);
    var (year, r4) := Span(r3, IsDigit);
    if !(2 <= |year| <= 4) then None else
    var r5 :- Drop(", ", r4);
    Some((DateFields(day, month, year), r5))
  }

  /** `\d{1,2}:\d{2}` */
  function ParseTime(s: string): Option<(TimeFields, string)> {
    var (hour, r0) := Span(s, IsDigit);
    if !(1 <= |hour| <= 2) then None else
    var r1 :- Drop(":", r0);
    if !(|r1| >= 2 && IsDigit(r1[0]) && IsDigit(r1[1])) then None else
    Some((TimeFields(hour, r1[..2]), r1[2..]))
  }

  /** `(am|pm)? - ([^:]+): (.+)$` */
  function ParseAfterGap(s: string): Option<TailFields> {
    var (meridiem, r0) :=
      if |s| >= 2 && IsMeridiem(s[..2]) then (Some(s[..2]), s[2..]) else (None, s);
    var r1 :- Drop(" - ", r0);
    var (sender, r2) := Span(r1, NotColon);
    if sender == [] then None else
    var message :- Drop(": ", r2);
    if message == [] || !NoLineTerminator(message) then None else
    Some(TailFields("", meridiem, sender, message))
  }

  /**
   * `\s?(am|pm)? - ([^:]+): (.+)$`: the greedy `\s?` first takes one white-space
   * character and, when the rest then fails, backtracks to take none.
   */
  function ParseTail(s: string): Option<TailFields> {
    if s != [] && IsSpace(s[0]) then
      match ParseAfterGap(s[1..])
      case Some(t) => Some(t.(gap := [s[0]]))
      case None => ParseAfterGap(s)
    else ParseAfterGap(s)
  }

  /** `line.match(regex)`: the captured fields, or None when the line does not match. */
  function Parse(line: string): Option<Fields> {
    var (d, r0) :- ParseDate(line);
    var (t, r1) :- ParseTime(r0);
    var tail :- ParseTail(r1);
    Some(Fields(d.day, d.month, d.year, t.hour, t.minute,
                tail.gap, tail.meridiem, tail.sender, tail.message))
  }

  // ---------------------------------------------------------------- agreement

  /** Span stops exactly where the kept run ends. */
  lemma {:induction false} SpanOf(p: string, rest: string, keep: char -> bool)
    requires forall i :: 0 <= i < |p| ==> keep(p[i])
    requires rest == [] || !keep(rest[0])
    ensures Span(p + rest, keep) == (p, rest)
  {
    if p == [] {
      assert p + rest == rest;
    } else {
      SpanOf(p[1..], rest, keep);
      assert (p + rest)[1..] == p[1..] + rest;
      assert [p[0]] + p[1..] == p;
    }
  }

  lemma DropOf(lit: string, rest: string)
    ensures Drop(lit, lit + rest) == Some(rest)
  {
  }

  lemma ParseDateSound(s: string)
    ensures ParseDate(s).Some? ==>
      var (d, rest) := ParseDate(s).value;
      && DigitsBetween(d.day, 1, 2) && DigitsBetween(d.month, 1, 2) && DigitsBetween(d.year, 2, 4)
      && s == d.day + ("/" + (d.month + ("/" + (d.year + (", " + rest)))))
  {
  }

  lemma ParseDateComplete(day: string, month: string, year: string, rest: string)
    requires DigitsBetween(day, 1, 2) && DigitsBetween(month, 1, 2) && DigitsBetween(year, 2, 4)
    ensures ParseDate(day + ("/" + (month + ("/" + (year + (", " + rest))))))
         == Some((DateFields(day, month, year), rest))
  {
    var r4 := ", " + rest;
    var r3 := year + r4;
    var r2 := "/" + r3;
    var r1 := month + r2;
    var r0 := "/" + r1;
    SpanOf(day, r0, IsDigit);
    DropOf("/", r1);
    SpanOf(month, r2, IsDigit);
    DropOf("/", r3);
    SpanOf(year, r4, IsDigit);
    DropOf(", ", rest);
  }

  lemma ParseTimeSound(s: string)
    ensures ParseTime(s).Some? ==>
      var (t, rest) := ParseTime(s).value;
      && DigitsBetween(t.hour, 1, 2) && DigitsBetween(t.minute, 2, 2)
      && s == t.hour + (":" + (t.minute + rest))
  {
    if ParseTime(s).Some? {
      var (hour, r0) := Span(s, IsDigit);
      var r1 := Drop(":", r0).value;
      assert r1 == r1[..2] + r1[2..];
    }
  }

  lemma ParseTimeComplete(hour: string, minute: string, rest: string)
    requires DigitsBetween(hour, 1, 2) && DigitsBetween(minute, 2, 2)
    ensures ParseTime(hour + (":" + (minute + rest))) == Some((TimeFields(hour, minute), rest))
  {
    var r1 := minute + rest;
    SpanOf(hour, ":" + r1, IsDigit);
    DropOf(":", r1);
    assert r1[..2] == minute && r1[2..] == rest;
  }

  /** The fields of a tail obey its sub-patterns and reassemble to the text. */
  predicate TailOf(s: string, t: TailFields) {
    && IsGap(t.gap)
    && (t.meridiem.Some? ==> IsMeridiem(t.meridiem.value))
    && |t.sender| >= 1 && ':' !in t.sender
    && |t.message| >= 1 && NoLineTerminator(t.message)
    && s == TailText(t.gap, t.meridiem, t.sender, t.message)
  }

  lemma ParseAfterGapSound(s: string)
    ensures ParseAfterGap(s).Some? ==> ParseAfterGap(s).value.gap == [] && TailOf(s, ParseAfterGap(s).value)
  {
    if ParseAfterGap(s).Some? {
      var t := ParseAfterGap(s).value;
      assert ':' !in t.sender by {
        forall i | 0 <= i < |t.sender| ensures t.sender[i] != ':' {
          assert NotColon(t.sender[i]);
        }
      }
      if |s| >= 2 && IsMeridiem(s[..2]) {
        assert s == s[..2] + s[2..];
      }
      assert t.gap + MeridiemText(t.meridiem) == MeridiemText(t.meridiem);
    }
  }

  lemma ParseAfterGapComplete(meridiem: Option<string>, sender: string, message: string)
    requires meridiem.Some? ==> IsMeridiem(meridiem.value)
    requires |sender| >= 1 && ':' !in sender
    requires |message| >= 1 && NoLineTerminator(message)
    ensures ParseAfterGap(MeridiemText(meridiem) + (" - " + (sender + (": " + message))))
         == Some(TailFields("", meridiem, sender, message))
  {
    var r2 := ": " + message;
    var r1 := sender + r2;
    var r0 := " - " + r1;
    var s := MeridiemText(meridiem) + r0;
    if meridiem.Some? {
      assert s[..2] == meridiem.value && s[2..] == r0;
    } else {
      assert s == r0;
    }
    DropOf(" - ", r1);
    SpanOf(sender, r2, NotColon);
    DropOf(": ", message);
  }

  lemma ParseTailSound(s: string)
    ensures ParseTail(s).Some? ==> TailOf(s, ParseTail(s).value)
  {
    if s != [] && IsSpace(s[0]) && ParseAfterGap(s[1..]).Some? {
      GapTailSound(s);
    } else {
      ParseAfterGapSound(s);
    }
  }

  /** The branch of ParseTail that keeps one white-space character as the gap. */
  lemma GapTailSound(s: string)
    requires s != [] && IsSpace(s[0]) && ParseAfterGap(s[1..]).Some?
    ensures ParseTail(s) == Some(ParseAfterGap(s[1..]).value.(gap := [s[0]]))
    ensures TailOf(s, ParseTail(s).value)
  {
    var t := ParseAfterGap(s[1..]).value;
    ParseAfterGapSound(s[1..]);
    var g := t.(gap := [s[0]]);
    assert s == [s[0]] + s[1..];
    assert TailText(g.gap, g.meridiem, g.sender, g.message) == [s[0]] + s[1..];
  }

  lemma ParseTailComplete(gap: string, meridiem: Option<string>, sender: string, message: string)
    requires IsGap(gap)
    requires meridiem.Some? ==> IsMeridiem(meridiem.value)
    requires |sender| >= 1 && ':' !in sender
    requires |message| >= 1 && NoLineTerminator(message)
    ensures ParseTail(TailText(gap, meridiem, sender, message))
         == Some(TailFields(gap, meridiem, sender, message))
  {
    var after := MeridiemText(meridiem) + (" - " + (sender + (": " + message)));
    var s := TailText(gap, meridiem, sender, message);
    ParseAfterGapComplete(meridiem, sender, message);
    if gap == [] {
      assert s == after;
      if s != [] && IsSpace(s[0]) {
        // the white space can only be the one opening " - "; taking it leaves "- "
        assert meridiem.None?;
        assert s[1..][0] == '-';
        assert ParseAfterGap(s[1..]).None?;
      }
    } else {
      assert s == [gap[0]] + after;
      assert s[0] == gap[0] && s[1..] == after;
      assert [s[0]] == gap;
    }
  }

  /** Soundness: whatever Parse returns is a cut of the line matching the pattern. */
  lemma ParseSound(line: string)
    ensures Parse(line).Some? ==> Matches(line, Parse(line).value)
  {
    ParseDateSound(line);
    if ParseDate(line).Some? {
      var (d, r0) := ParseDate(line).value;
      ParseTimeSound(r0);
      if ParseTime(r0).Some? {
        var (t, r1) := ParseTime(r0).value;
        ParseTailSound(r1);
      }
    }
  }

  /** Completeness: every cut of the line matching the pattern is the one Parse returns. */
  lemma ParseComplete(line: string, f: Fields)
    requires Matches(line, f)
    ensures Parse(line) == Some(f)
  {
    var tail := TailText(f.gap, f.meridiem, f.sender, f.message);
    ParseDateComplete(f.day, f.month, f.year, TimeText(f));
    ParseTimeComplete(f.hour, f.minute, tail);
    ParseTailComplete(f.gap, f.meridiem, f.sender, f.message);
  }

  /** A line matches exactly when Parse finds a cut. */
  lemma ParseIffMatches(line: string)
    ensures Parse(line).Some? <==> exists f :: Matches(line, f)
  {
    ParseSound(line);
    if f :| Matches(line, f) {
      ParseComplete(line, f);
    }
  }

  /** A matching line has only one cut: the captures are determined by the line. */
  lemma UniqueCut(line: string, f: Fields, g: Fields)
    requires Matches(line, f) && Matches(line, g)
    ensures f == g
  {
    ParseComplete(line, f);
    ParseComplete(line, g);
  }

  /** The assembled line ends with the last character of the message. */
  lemma AssembleEndsInMessage(f: Fields)
    requires |f.message| > 0
    ensures var line := Assemble(f); |line| > 0 && line[|line| - 1] == f.message[|f.message| - 1]
  {
  }

  /** A matching line ends with a character of the message, so never with a line terminator. */
  lemma MatchEndsInMessage(line: string)
    ensures Parse(line).Some? ==> |line| > 0 && !IsLineTerminator(line[|line| - 1])
  {
    ParseSound(line);
    var p := Parse(line);
    if p.Some? {
      var f := p.value;
      assert WellFormed(f) && Assemble(f) == line;
      AssembleEndsInMessage(f);
      var k := |f.message| - 1;
      assert !IsLineTerminator(f.message[k]);
    }
  }

  /**
   * A line split from CRLF text keeps its trailing carriage return, and `$` cannot
   * follow `.+` over it: such a line never matches.
   */
  lemma CarriageReturnLineDoesNotMatch(line: string)
    requires |line| > 0 && line[|line| - 1] == '\r'
    ensures Parse(line) == None
  {
    MatchEndsInMessage(line);
  }
}
