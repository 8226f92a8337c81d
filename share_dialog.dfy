/** The share dialog: the task payload put into a share link, the link
    itself, and the calendar (ICS) text offered on Apple devices. The
    compressor, the URI encoder and the conversion of a time to its ISO text
    are parameters. */
module ShareDialog {
  import opened Wrappers
  import opened UserTypes
  import Text
  import Seqs

  // ---------------------------------------------------------------------
  // Tabs
  // ---------------------------------------------------------------------

  /** The dialog's tabs: the calendar tab only on Apple devices. */
  function ShareTabs(isAppleDevice: bool): (labels: seq<string>)
    ensures |labels| == if isAppleDevice then 3 else 2
    ensures labels[..2] == ["Enlace", "Código QR"]
    ensures isAppleDevice ==> labels[2] == "Calendario"
  {
    ["Enlace", "Código QR"] + (if isAppleDevice then ["Calendario"] else [])
  }

  // ---------------------------------------------------------------------
  // generateShareableLink
  // ---------------------------------------------------------------------

  /** `TaskToShare` as `JSON.stringify` sees it: the task without `id` and
      `sharedBy`, which are `undefined` and therefore not serialised, and
      with `category` only when categories are enabled. */
  datatype SharedTask = SharedTask(
    done: bool,
    pinned: bool,
    name: string,
    description: Option<string>,
    emoji: Option<string>,
    color: string,
    date: int,
    deadline: Option<int>,
    category: Option<seq<Category>>,
    lastSave: Option<int>,
    position: Option<int>)

  /** The payload of a shared task. */
  function TaskToShare(task: Task, enableCategories: bool): (p: SharedTask)
    ensures p.category == if enableCategories then task.category else None
  {
    SharedTask(task.done, task.pinned, task.name, task.description, task.emoji, task.color,
               task.date, task.deadline, if enableCategories then task.category else None,
               task.lastSave, task.position)
  }

  /** A task received from a payload, with the id and sender the receiving
      side supplies. */
  function Received(p: SharedTask, id: Id, sharedBy: Option<string>): (t: Task)
    ensures t.id == id && t.sharedBy == sharedBy && t.name == p.name
  {
    Task(id, p.done, p.pinned, p.name, p.description, p.emoji, p.color, p.date, p.deadline,
         p.category, p.lastSave, sharedBy, p.position)
  }

  /** Only `id`, `sharedBy` and, without categories, `category` are lost:
      giving them back restores the task. */
  lemma SharePayloadRoundTrip(task: Task, enableCategories: bool)
    ensures enableCategories ==> Received(TaskToShare(task, true), task.id, task.sharedBy) == task
    ensures !enableCategories ==>
              Received(TaskToShare(task, false), task.id, task.sharedBy) == task.(category := None)
  {
  }

  /** The name put into the link (`name || "Usuario"`). */
  function ShareUserName(name: Option<string>): (n: string)
    ensures name.None? || name.value == "" ==> n == "Usuario"
    ensures name.Some? && name.value != "" ==> n == name.value
  {
    if name.None? || name.value == "" then "Usuario" else name.value
  }

  /** `generateShareableLink` for the page address `href`, with `compress`
      standing for `LZString.compressToEncodedURIComponent` of the payload's
      JSON and `encode` for `encodeURIComponent`; without a task the link is
      empty. */
  function ShareableLink(task: Option<Task>, userName: string, href: string, enableCategories: bool,
                         compress: SharedTask -> string, encode: string -> string): (link: string)
    ensures task.None? ==> link == ""
    ensures task.Some? ==>
              Text.StartsWith(link, href + "share?task=") &&
              Text.EndsWith(link, "&userName=" + encode(userName))
  {
    if task.None? then ""
    else
      href + "share?task=" + compress(TaskToShare(task.value, enableCategories)) +
      "&userName=" + encode(userName)
  }

  /** The link is the page address followed by `share?` and a query whose
      two `&`-separated parameters carry the compressed task and the
      encoded name (neither encoder output contains `&`). */
  lemma ShareableLinkQuery(task: Task, userName: string, href: string, enableCategories: bool,
                           compress: SharedTask -> string, encode: string -> string)
    requires '&' !in compress(TaskToShare(task, enableCategories)) && '&' !in encode(userName)
    ensures var link := ShareableLink(Some(task), userName, href, enableCategories, compress, encode);
            Text.StartsWith(link, href + "share?") &&
            Text.Split(link[|href| + 6..], '&') ==
              ["task=" + compress(TaskToShare(task, enableCategories)), "userName=" + encode(userName)]
  {
    var c := compress(TaskToShare(task, enableCategories));
    var e := encode(userName);
    var link := ShareableLink(Some(task), userName, href, enableCategories, compress, encode);
    var parts := ["task=" + c, "userName=" + e];
    assert link == (href + "share?") + (parts[0] + ['&'] + parts[1]);
    assert link[..|href| + 6] == href + "share?";
    assert link[|href| + 6..] == Text.Join(parts, '&');
    assert '&' !in parts[0] by {
      assert forall k :: 0 <= k < |parts[0]| ==> parts[0][k] == if k < 5 then "task="[k] else c[k - 5];
    }
    assert '&' !in parts[1] by {
      assert forall k :: 0 <= k < |parts[1]| ==> parts[1][k] == if k < 9 then "userName="[k] else e[k - 9];
    }
    Text.SplitJoin(parts, '&');
  }

  // ---------------------------------------------------------------------
  // formatICSDate
  // ---------------------------------------------------------------------

  /** The characters `/[-:]/g` removes. */
  predicate IsDateSeparator(c: char) {
    c == '-' || c == ':'
  }

  /** `formatICSDate` on the text `date.toISOString()`: separators removed,
      everything from the first `.` dropped, and `Z` appended. */
  function FormatIcsDate(iso: string): (stamp: string)
    ensures |stamp| >= 1 && stamp[|stamp| - 1] == 'Z'
    ensures forall i :: 0 <= i < |stamp| - 1 ==> !IsDateSeparator(stamp[i]) && stamp[i] != '.'
  {
    var stripped := Text.RemoveAll(iso, IsDateSeparator);
    var head := Text.Split(stripped, '.')[0];
    assert forall i :: 0 <= i < |head| ==> !IsDateSeparator(head[i]) by {
      SplitFirstIsPrefix(stripped, '.');
    }
    head + "Z"
  }

  /** The first part of a split is a prefix of the string. */
  lemma SplitFirstIsPrefix(s: string, c: char)
    ensures Text.StartsWith(s, Text.Split(s, c)[0])
  {
  }

  /** The fields of an ISO time text `YYYY-MM-DDTHH:mm:ss.sssZ`. */
  datatype IsoParts = IsoParts(year: string, month: string, day: string,
                               hour: string, minute: string, second: string, millis: string)

  /** Fields made of digits contain no separator and no `.`. */
  predicate PlainField(s: string) {
    forall i :: 0 <= i < |s| ==> '0' <= s[i] <= '9'
  }

  predicate PlainParts(p: IsoParts) {
    PlainField(p.year) && PlainField(p.month) && PlainField(p.day) &&
    PlainField(p.hour) && PlainField(p.minute) && PlainField(p.second) && PlainField(p.millis)
  }

  /** The ISO text of the fields. */
  function IsoText(p: IsoParts): string {
    p.year + ("-" + (p.month + ("-" + (p.day + ("T" + (p.hour + (":" + (p.minute + (":" + (p.second + ("." + (p.millis + "Z"))))))))))))
  }

  /** The date and time of the fields without separators and fraction. */
  function BasicDateTime(p: IsoParts): string {
    p.year + (p.month + (p.day + ("T" + (p.hour + (p.minute + p.second)))))
  }

  /** The basic-format stamp of the fields, as an ICS date-time wants it. */
  function IcsStamp(p: IsoParts): string {
    BasicDateTime(p) + "Z"
  }

  /** `formatICSDate` turns the ISO text into the basic-format stamp with
      the milliseconds dropped. */
  lemma FormatIcsDateOfIso(p: IsoParts)
    requires PlainParts(p)
    ensures FormatIcsDate(IsoText(p)) == IcsStamp(p)
  {
    StripIso(p);
    var x := BasicDateTime(p);
    var y := p.millis + "Z";
    assert StrippedIso(p) == x + (['.'] + y);
    assert '.' !in x by {
      assert forall i :: 0 <= i < |x| ==> x[i] == 'T' || '0' <= x[i] <= '9';
    }
    SplitFirst(x, y, '.');
  }

  /** The ISO text with its separators removed. */
  function StrippedIso(p: IsoParts): string {
    p.year + (p.month + (p.day + ("T" + (p.hour + (p.minute + (p.second + ("." + (p.millis + "Z"))))))))
  }

  lemma StripIso(p: IsoParts)
    requires PlainParts(p)
    ensures Text.RemoveAll(IsoText(p), IsDateSeparator) == StrippedIso(p)
  {
    var t := "." + (p.millis + "Z");
    assert forall i :: 0 <= i < |t| ==> !IsDateSeparator(t[i]);
    Text.RemoveAllNone(t, IsDateSeparator);
    var t1 := p.second + t;
    PlainKept(p.second, t);
    var t2 := ":" + t1;
    DroppedSeparator(':', t1);
    var t3 := p.minute + t2;
    PlainKept(p.minute, t2);
    var t4 := ":" + t3;
    DroppedSeparator(':', t3);
    var t5 := p.hour + t4;
    PlainKept(p.hour, t4);
    var t6 := "T" + t5;
    PlainKept("T", t5);
    var t7 := p.day + t6;
    PlainKept(p.day, t6);
    var t8 := "-" + t7;
    DroppedSeparator('-', t7);
    var t9 := p.month + t8;
    PlainKept(p.month, t8);
    var t10 := "-" + t9;
    DroppedSeparator('-', t9);
    PlainKept(p.year, t10);
  }

  /** A field free of separators is kept as it is in front of the rest. */
  lemma PlainKept(a: string, rest: string)
    requires forall i :: 0 <= i < |a| ==> !IsDateSeparator(a[i])
    ensures Text.RemoveAll(a + rest, IsDateSeparator) == a + Text.RemoveAll(rest, IsDateSeparator)
  {
    Text.RemoveAllAppend(a, rest, IsDateSeparator);
    Text.RemoveAllNone(a, IsDateSeparator);
  }

  /** A separator in front of the rest is removed. */
  lemma DroppedSeparator(c: char, rest: string)
    requires IsDateSeparator(c)
    ensures Text.RemoveAll([c] + rest, IsDateSeparator) == Text.RemoveAll(rest, IsDateSeparator)
  {
    assert ([c] + rest)[1..] == rest;
  }

  /** Splitting at the first separator gives the part before it first. */
  lemma SplitFirst(x: string, y: string, c: char)
    requires c !in x
    ensures Text.Split(x + ([c] + y), c)[0] == x
  {
    var s := x + ([c] + y);
    assert s[|x|] == c;
    assert s[..|x|] == x;
    assert forall j :: 0 <= j < |x| ==> s[j] == x[j];
    assert c in s[..|x| + 1];
    assert Text.IndexOf(s, c) == |x|;
  }

  // ---------------------------------------------------------------------
  // handleAddToAppleCalendar
  // ---------------------------------------------------------------------

  /** The URL that `/(https?:\/\/[^\s]+)/` matches at offset `i`, as the
      offset just past it: `https://` first, then `http://`, each followed by
      the longest run of non-white-space characters, which must not be
      empty. */
  function MatchAt(s: string, i: nat): (e: Option<nat>)
    ensures e.Some? ==> i + 8 <= e.value <= |s|
  {
    if SchemeAt(s, i, "https://") then Some(RunEnd(s, i + 8))
    else if SchemeAt(s, i, "http://") then Some(RunEnd(s, i + 7))
    else None
  }

  /** `scheme` occurs at `i` and a non-white-space character follows it. */
  predicate SchemeAt(s: string, i: nat, scheme: string) {
    i + |scheme| < |s| && s[i..i + |scheme|] == scheme && !Text.IsWhitespace(s[i + |scheme|])
  }

  /** The end of the run of non-white-space characters starting at `j`. */
  function RunEnd(s: string, j: nat): (k: nat)
    requires j <= |s|
    ensures j <= k <= |s|
    ensures forall m :: j <= m < k ==> !Text.IsWhitespace(s[m])
    ensures k < |s| ==> Text.IsWhitespace(s[k])
    ensures j < |s| && !Text.IsWhitespace(s[j]) ==> j < k
    decreases |s| - j
  {
    if j == |s| || Text.IsWhitespace(s[j]) then j else RunEnd(s, j + 1)
  }

  /** The leftmost match at or after `from`, as its start and end. */
  function FirstMatchFrom(s: string, from: nat): (m: Option<(nat, nat)>)
    ensures m.Some? ==> from <= m.value.0 && MatchAt(s, m.value.0) == Some(m.value.1)
    ensures forall k :: from <= k && (m.None? || k < m.value.0) ==> MatchAt(s, k).None?
    decreases |s| - from
  {
    if from >= |s| then
      assert forall k :: from <= k ==> MatchAt(s, k).None?;
      None
    else if MatchAt(s, from).Some? then Some((from, MatchAt(s, from).value))
    else FirstMatchFrom(s, from + 1)
  }

  /** `description.match(/(https?:\/\/[^\s]+)/)`, as the offsets of the
      match. */
  function UrlMatch(description: string): (m: Option<(nat, nat)>)
    ensures m.Some? ==> m.value.0 < m.value.1 <= |description|
  {
    FirstMatchFrom(description, 0)
  }

  /** Some offset of the description starts an `http(s)://` URL. */
  predicate HasUrl(description: string) {
    exists i: nat | i < |description| :: MatchAt(description, i).Some?
  }

  /** There is a match exactly when the description holds a URL, and then
      no URL starts before it. */
  lemma UrlMatchFacts(description: string)
    ensures UrlMatch(description).Some? <==> HasUrl(description)
    ensures UrlMatch(description).Some? ==>
              forall k: nat :: k < UrlMatch(description).value.0 ==> MatchAt(description, k).None?
  {
    var m := UrlMatch(description);
    if m.Some? {
      assert MatchAt(description, m.value.0).Some?;
    }
  }

  /** `urlMatch?.[0] || ""`. */
  function EventUrl(description: string): (url: string)
    ensures UrlMatch(description).None? ==> url == ""
    ensures UrlMatch(description).Some? ==>
              url == description[UrlMatch(description).value.0..UrlMatch(description).value.1] && url != ""
  {
    var m := UrlMatch(description);
    if m.None? then "" else description[m.value.0..m.value.1]
  }

  /** The description written to the calendar: the URL cut out and the rest
      trimmed. */
  function EventDescription(description: string): (d: string)
    ensures |d| <= |description|
    ensures |d| > 0 ==> !Text.IsWhitespace(d[0]) && !Text.IsWhitespace(d[|d| - 1])
  {
    Text.Trim(Text.ReplaceFirst(description, EventUrl(description)))
  }

  /** The matched URL is the first occurrence of its text, so replacing it
      cuts out exactly the matched offsets; without a URL only the trimming
      applies. */
  lemma EventDescriptionCut(description: string)
    ensures UrlMatch(description).None? ==> EventDescription(description) == Text.Trim(description)
    ensures UrlMatch(description).Some? ==>
              var (a, b) := UrlMatch(description).value;
              EventDescription(description) == Text.Trim(description[..a] + description[b..])
  {
    if UrlMatch(description).None? {
      NoUrlKept(description);
    } else {
      UrlCut(description);
    }
  }

  /** Without a URL, replacing `""` changes nothing. */
  lemma NoUrlKept(s: string)
    requires UrlMatch(s).None?
    ensures Text.ReplaceFirst(s, EventUrl(s)) == s
  {
    assert EventUrl(s) == "";
    assert s[0..0] == "";
    assert Text.FindFrom(s, "", 0) == 0;
    assert s[..0] + s[0..] == s;
  }

  /** With a URL, replacing its text cuts out the matched offsets. */
  lemma UrlCut(s: string)
    requires UrlMatch(s).Some?
    ensures var (a, b) := UrlMatch(s).value;
            Text.ReplaceFirst(s, EventUrl(s)) == s[..a] + s[b..]
  {
    var (a, b) := UrlMatch(s).value;
    var u := s[a..b];
    assert EventUrl(s) == u;
    forall k | 0 <= k < a ensures !Text.OccursAt(s, u, k) {
      if Text.OccursAt(s, u, k) {
        EarlierOccurrenceMatches(s, a, b, k);
        assert false;
      }
    }
    assert Text.OccursAt(s, u, a);
    FirstOccurrence(s, u, a);
  }

  /** The first offset where `p` occurs is what the search finds. */
  lemma FirstOccurrence(s: string, p: string, a: nat)
    requires Text.OccursAt(s, p, a)
    requires forall k :: 0 <= k < a ==> !Text.OccursAt(s, p, k)
    ensures Text.FindFrom(s, p, 0) == a
  {
  }

  /** An earlier occurrence of a matched URL's text would itself be a match. */
  lemma EarlierOccurrenceMatches(s: string, a: nat, b: nat, k: nat)
    requires MatchAt(s, a) == Some(b) && k < a && Text.OccursAt(s, s[a..b], k)
    ensures MatchAt(s, k).Some?
  {
    var u := s[a..b];
    assert forall m :: 0 <= m < |u| ==> s[k + m] == u[m] == s[a + m];
    if SchemeAt(s, a, "https://") {
      assert b >= a + 9;
      var left, right := s[k..k + 8], s[a..a + 8];
      forall m | 0 <= m < 8 ensures left[m] == right[m] {
        assert left[m] == u[m];
      }
      assert s[k..k + 8] == s[a..a + 8];
      assert s[k + 8] == s[a + 8];
      assert SchemeAt(s, k, "https://");
    } else {
      assert SchemeAt(s, a, "http://");
      assert b >= a + 8;
      var left, right := s[k..k + 7], s[a..a + 7];
      forall m | 0 <= m < 7 ensures left[m] == right[m] {
        assert left[m] == u[m];
      }
      assert s[k..k + 7] == s[a..a + 7];
      assert s[k + 7] == s[a + 7];
      assert SchemeAt(s, k, "http://");
    }
  }

  /** The non-empty lines of the calendar text (`filter(Boolean)`). */
  predicate NonEmpty(line: string) {
    line != ""
  }

  /** The calendar lines up to the end time, for the description `text`
      written to the calendar. */
  function IcsHead(name: string, text: string, stamp: string): (lines: seq<string>)
    ensures |lines| == 7 && forall i :: 0 <= i < 7 ==> NonEmpty(lines[i])
  {
    var lines := ["BEGIN:VCALENDAR", "VERSION:2.0", "BEGIN:VEVENT",
                  "SUMMARY:" + name, "DESCRIPTION:" + text,
                  "DTSTART:" + stamp, "DTEND:" + stamp];
    assert NonEmpty(lines[0]) && NonEmpty(lines[1]) && NonEmpty(lines[2]) by {
      assert |lines[0]| == 15 && |lines[1]| == 11 && |lines[2]| == 12;
    }
    assert NonEmpty(lines[3]) && NonEmpty(lines[4]) && NonEmpty(lines[5]) && NonEmpty(lines[6]) by {
      assert |lines[3]| > 0 && |lines[4]| > 0 && |lines[5]| > 0 && |lines[6]| > 0;
    }
    lines
  }

  /** The closing lines. */
  const IcsTail: seq<string> := ["END:VEVENT", "END:VCALENDAR"]

  /** The `URL:` line, empty without a URL. */
  function UrlLine(description: string): (line: string)
    ensures NonEmpty(line) <==> EventUrl(description) != ""
  {
    var url := EventUrl(description);
    if url != "" then "URL:" + url else ""
  }

  /** The lines before the filter. */
  function RawIcsLines(name: string, description: string, stamp: string): seq<string> {
    IcsHead(name, EventDescription(description), stamp) + [UrlLine(description)] + IcsTail
  }

  /** The calendar lines. */
  function IcsLines(name: string, description: string, stamp: string): seq<string> {
    Seqs.Filter(RawIcsLines(name, description, stamp), NonEmpty)
  }

  /** The filter drops only the empty `URL:` line: the lines are the head,
      a `URL:` line with the matched URL exactly when the description holds
      a URL, and the closing lines. */
  lemma IcsLinesContent(name: string, description: string, stamp: string)
    ensures IcsLines(name, description, stamp) ==
            IcsHead(name, EventDescription(description), stamp) +
            (if HasUrl(description) then ["URL:" + EventUrl(description)] else []) +
            IcsTail
  {
    var head := IcsHead(name, EventDescription(description), stamp);
    var mid := [UrlLine(description)];
    UrlMatchFacts(description);
    Seqs.FilterConcat(head + mid, IcsTail, NonEmpty);
    Seqs.FilterConcat(head, mid, NonEmpty);
    Seqs.FilterAll(head, NonEmpty);
    assert NonEmpty(IcsTail[0]) && NonEmpty(IcsTail[1]);
    Seqs.FilterAll(IcsTail, NonEmpty);
    if HasUrl(description) {
      Seqs.FilterAll(mid, NonEmpty);
    } else {
      Seqs.FilterNone(mid, NonEmpty);
    }
  }

  /** The calendar starts and ends with the calendar markers, its start and
      end times are the same stamp, and it has the `URL:` line exactly when
      the description holds a URL. */
  lemma IcsLinesShape(name: string, description: string, stamp: string)
    ensures var lines := IcsLines(name, description, stamp);
            |lines| == (if HasUrl(description) then 10 else 9) &&
            lines[0] == "BEGIN:VCALENDAR" && lines[|lines| - 1] == "END:VCALENDAR" &&
            lines[5] == "DTSTART:" + stamp && lines[6] == "DTEND:" + stamp
  {
    IcsLinesContent(name, description, stamp);
    var head := IcsHead(name, EventDescription(description), stamp);
    var mid := if HasUrl(description) then ["URL:" + EventUrl(description)] else [];
    IcsHeadLines(name, EventDescription(description), stamp);
    ThreePartLines(head, mid, IcsTail);
  }

  /** The head opens the calendar and carries the stamp twice. */
  lemma IcsHeadLines(name: string, text: string, stamp: string)
    ensures var head := IcsHead(name, text, stamp);
            head[0] == "BEGIN:VCALENDAR" && head[5] == "DTSTART:" + stamp && head[6] == "DTEND:" + stamp
  {
  }

  /** The lines of a head of seven, at most one middle line and a tail of two. */
  lemma ThreePartLines(head: seq<string>, mid: seq<string>, tail: seq<string>)
    requires |head| == 7 && |mid| <= 1 && |tail| == 2
    ensures var lines := head + mid + tail;
            |lines| == 9 + |mid| && lines[0] == head[0] && lines[5] == head[5] && lines[6] == head[6] &&
            lines[|lines| - 1] == tail[1]
  {
  }

  /** `handleAddToAppleCalendar`'s file content for a time stamp
      `formatICSDate` produced; `None` without a task. */
  function IcsContent(task: Option<Task>, stamp: string): (ics: Option<string>)
    ensures task.None? <==> ics.None?
  {
    if task.None? then None
    else Some(Text.Join(IcsLines(task.value.name, task.value.description.GetOr(""), stamp), '\n'))
  }

  /** The file opens and closes the calendar. */
  lemma IcsContentBounds(task: Task, stamp: string)
    ensures Text.StartsWith(IcsContent(Some(task), stamp).value, "BEGIN:VCALENDAR")
    ensures Text.EndsWith(IcsContent(Some(task), stamp).value, "END:VCALENDAR")
  {
    var lines := IcsLines(task.name, task.description.GetOr(""), stamp);
    IcsLinesShape(task.name, task.description.GetOr(""), stamp);
    Text.JoinEnds(lines, '\n');
  }

  /** The stamp of the event: the deadline when there is one, the current
      time `now` otherwise, each turned into ISO text by `isoOf`. */
  function EventStamp(task: Task, now: int, isoOf: int -> string): (stamp: string)
    ensures |stamp| >= 1 && stamp[|stamp| - 1] == 'Z'
  {
    FormatIcsDate(isoOf(task.deadline.GetOr(now)))
  }
}
