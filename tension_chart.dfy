/**
  The Tension Graph view: each (chapter, tension) pair becomes a row of the data
  frame, labelled 'Chapter ' + str(chapter); the label is looked up in the event
  map, and every row whose lookup found an event gets one annotation at
  (label, tension) carrying the event's text.
*/
module TensionChart {

  datatype Option<T> = None | Some(value: T)

  // ---------------------------------------------------------------------------
  // str() of an integer

  /** The character of one decimal digit. */
  function DigitChar(d: nat): (c: char)
    requires d < 10
    ensures '0' <= c <= '9' && c as int - '0' as int == d
  {
    (48 + d) as char
  }

  /** Python's str() of a non-negative integer: its decimal digits, no leading zero. */
  function DecimalString(n: nat): (s: string)
    ensures 1 <= |s|
    ensures forall k :: 0 <= k < |s| ==> '0' <= s[k] <= '9'
    ensures |s| == 1 <==> n < 10
    decreases n
  {
    if n < 10 then [DigitChar(n)] else DecimalString(n / 10) + [DigitChar(n % 10)]
  }

  /** str() writes no leading zero: only 0 itself starts with '0'. */
  lemma {:induction false} DecimalStringCanonical(n: nat)
    ensures DecimalString(n)[0] == '0' ==> n == 0
    decreases n
  {
    if n >= 10 {
      DecimalStringCanonical(n / 10);
      assert DecimalString(n)[0] == DecimalString(n / 10)[0];
    }
  }

  /** Python's str() of an integer: a '-' before the digits of a negative one. */
  function IntString(n: int): (s: string)
    ensures 1 <= |s|
    ensures s[0] == '-' <==> n < 0
  {
    if n < 0 then "-" + DecimalString(-n) else DecimalString(n)
  }

  /** Reads a run of decimal digits back as a number. */
  function ParseDecimal(s: string): nat
    requires forall k :: 0 <= k < |s| ==> '0' <= s[k] <= '9'
  {
    if s == [] then 0
    else ParseDecimal(s[..|s| - 1]) * 10 + (s[|s| - 1] as int - '0' as int)
  }

  /** Reads an optionally signed run of decimal digits back as a number. */
  function ParseInt(s: string): int
    requires 1 <= |s|
    requires s[0] == '-' ==> forall k :: 1 <= k < |s| ==> '0' <= s[k] <= '9'
    requires s[0] != '-' ==> forall k :: 0 <= k < |s| ==> '0' <= s[k] <= '9'
  {
    if s[0] == '-' then 0 - ParseDecimal(s[1..]) else ParseDecimal(s)
  }

  /** The digits read back give the number they were written from. */
  lemma {:induction false} DecimalRoundTrip(n: nat)
    ensures ParseDecimal(DecimalString(n)) == n
    decreases n
  {
    var s := DecimalString(n);
    if n >= 10 {
      DecimalRoundTrip(n / 10);
      assert s[..|s| - 1] == DecimalString(n / 10);
    }
  }

  /** str() of an integer read back gives the integer. */
  lemma IntRoundTrip(n: int)
    ensures ParseInt(IntString(n)) == n
  {
    var s := IntString(n);
    if n < 0 {
      assert s[1..] == DecimalString(-n);
      DecimalRoundTrip(-n);
    } else {
      DecimalRoundTrip(n);
    }
  }

  /** str() of a negative integer writes no leading zero after the '-' either. */
  lemma IntStringCanonical(n: int)
    requires n < 0
    ensures 2 <= |IntString(n)| && IntString(n)[1] != '0'
  {
    DecimalStringCanonical(-n);
    assert IntString(n)[1..] == DecimalString(-n);
  }

  /** Two integers with the same str() are equal. */
  lemma IntStringInjective(a: int, b: int)
    requires IntString(a) == IntString(b)
    ensures a == b
  {
    IntRoundTrip(a);
    IntRoundTrip(b);
  }

  // ---------------------------------------------------------------------------
  // The data frame

  /** The 'Label' column: 'Chapter ' + the chapter number as a string. */
  function ChapterLabel(n: int): string
  {
    "Chapter " + IntString(n)
  }

  /** Different chapters get different labels. */
  lemma ChapterLabelInjective(a: int, b: int)
    requires ChapterLabel(a) == ChapterLabel(b)
    ensures a == b
  {
    assert IntString(a) == ChapterLabel(a)[8..] == ChapterLabel(b)[8..] == IntString(b);
    IntStringInjective(a, b);
  }

  /** The (chapter, tension) pairs the chart is drawn from. */
  const Chapters: seq<(int, int)> := [
    (1, 5), (2, 6), (3, 6), (4, 8),
    (5, 7), (6, 9), (7, 6), (8, 10),
    (9, 7), (10, 8), (11, 9), (12, 10)
  ]

  const Event1 := "\U{1F534} Offred's Introduction to Gilead"
  const Event2 := "\U{1F494} The Ceremony"
  const Event3 := "\U{1F4DD} Offred's Rebellion Begins"
  const Event4 := "\U{1F441}\U{FE0F} Eyes Everywhere: Surveillance"
  const Event5 := "\U{1F525} The Escape Attempt"

  /** The chapter labels that have a key event, and its text. */
  const EventMap: map<string, string> := map[
    "Chapter 1" := Event1,
    "Chapter 2" := Event2,
    "Chapter 3" := Event3,
    "Chapter 4" := Event4,
    "Chapter 5" := Event5
  ]

  /** One row of the frame: `labelText` is its 'Label' column, and `event` is None where
      the map lookup gave NaN. */
  datatype Row = Row(chapter: int, tension: int, labelText: string, event: Option<string>)

  /** `Series.map(event_map)`: the text for a key of the map, NaN (None) for any other label. */
  function LookupEvent(key: string): Option<string>
  {
    if key in EventMap then Some(EventMap[key]) else None
  }

  /** f applied to each element of s, in order. */
  function Map<A, B>(f: A -> B, s: seq<A>): seq<B>
  {
    seq(|s|, i requires 0 <= i < |s| => f(s[i]))
  }

  /** Element i of the mapped sequence is f of element i. */
  lemma MapAt<A, B>(f: A -> B, s: seq<A>, i: nat)
    requires i < |s|
    ensures |Map(f, s)| == |s| && Map(f, s)[i] == f(s[i])
  {
  }

  /** Mapping a concatenation maps each part. */
  lemma MapAppend<A, B>(f: A -> B, a: seq<A>, b: seq<A>)
    ensures Map(f, a + b) == Map(f, a) + Map(f, b)
  {
    forall i | 0 <= i < |a + b|
      ensures Map(f, a + b)[i] == (Map(f, a) + Map(f, b))[i]
    {
      if i < |a| {
        assert (a + b)[i] == a[i];
      } else {
        assert (a + b)[i] == b[i - |a|];
      }
    }
  }

  /** The frame built from the pairs, with its 'Label' and 'Event' columns. */
  function Frame(chapters: seq<(int, int)>): (rows: seq<Row>)
    ensures |rows| == |chapters|
  {
    Map(RowOf, chapters)
  }

  /** The row of one (chapter, tension) pair. */
  function RowOf(p: (int, int)): Row
  {
    Row(p.0, p.1, ChapterLabel(p.0), LookupEvent(ChapterLabel(p.0)))
  }

  /** Row i of the frame holds pair i, its label, and the event found for that label. */
  lemma FrameRow(chapters: seq<(int, int)>, i: nat)
    requires i < |chapters|
    ensures var r := Frame(chapters)[i];
      && r.chapter == chapters[i].0 && r.tension == chapters[i].1
      && r.labelText == ChapterLabel(chapters[i].0)
      && r.event == LookupEvent(r.labelText)
  {
    FrameAt(chapters, i);
  }

  /** Row i of the frame is the row of pair i. */
  lemma FrameAt(chapters: seq<(int, int)>, i: nat)
    requires i < |chapters|
    ensures Frame(chapters)[i] == RowOf(chapters[i])
  {
    MapAt(RowOf, chapters, i);
  }

  /** A chapter has an event exactly when it is one of chapters 1 to 5. */
  lemma LabelHasEvent(n: int)
    ensures ChapterLabel(n) in EventMap <==> 1 <= n <= 5
  {
    assert ChapterLabel(1) == "Chapter 1";
    assert ChapterLabel(2) == "Chapter 2";
    assert ChapterLabel(3) == "Chapter 3";
    assert ChapterLabel(4) == "Chapter 4";
    assert ChapterLabel(5) == "Chapter 5";
    if ChapterLabel(n) in EventMap {
      var k :| 1 <= k <= 5 && ChapterLabel(n) == ChapterLabel(k);
      ChapterLabelInjective(n, k);
    }
  }

  /** Row i of the frame has an event exactly when its chapter is 1 to 5, and the
      event is then the map's text for the row's label. */
  lemma FrameEvent(chapters: seq<(int, int)>, i: nat)
    requires i < |chapters|
    ensures Frame(chapters)[i].event.Some? <==> 1 <= chapters[i].0 <= 5
    ensures Frame(chapters)[i].event.Some? ==>
      ChapterLabel(chapters[i].0) in EventMap &&
      Frame(chapters)[i].event.value == EventMap[ChapterLabel(chapters[i].0)]
  {
    FrameRow(chapters, i);
    LabelHasEvent(chapters[i].0);
  }

  // ---------------------------------------------------------------------------
  // The annotation loop

  /** What `fig.add_annotation` is given: the point and the text. */
  datatype Annotation = Annotation(x: string, y: int, text: string)

  /** The annotation drawn for a row that has an event. */
  function Note(r: Row): Annotation
    requires r.event.Some?
  {
    Annotation(r.labelText, r.tension, r.event.value)
  }

  /** The annotations added by the loop over the rows, in the order they are added. */
  function Annotations(rows: seq<Row>): seq<Annotation>
  {
    if rows == [] then []
    else
      var last := rows[|rows| - 1];
      Annotations(rows[..|rows| - 1]) + (if last.event.Some? then [Note(last)] else [])
  }

  /** The positions of the rows that have an event, in row order. */
  ghost function EventRows(rows: seq<Row>): seq<nat>
  {
    if rows == [] then []
    else EventRows(rows[..|rows| - 1]) + (if rows[|rows| - 1].event.Some? then [|rows| - 1] else [])
  }

  /** The positions of the rows with an event, listed once each, in increasing order. */
  lemma {:induction false} EventRowsAreTheMatches(rows: seq<Row>)
    ensures forall k :: 0 <= k < |EventRows(rows)| ==>
      EventRows(rows)[k] < |rows| && rows[EventRows(rows)[k]].event.Some?
    ensures forall k, l :: 0 <= k < l < |EventRows(rows)| ==> EventRows(rows)[k] < EventRows(rows)[l]
    ensures forall i :: 0 <= i < |rows| && rows[i].event.Some? ==> i in EventRows(rows)
  {
    if rows != [] {
      var init := rows[..|rows| - 1];
      EventRowsAreTheMatches(init);
      forall k | 0 <= k < |EventRows(init)|
        ensures rows[EventRows(init)[k]] == init[EventRows(init)[k]]
      {
      }
    }
  }

  /** Exactly one annotation per row with an event, in row order: annotation k is the
      note of the k-th such row. */
  lemma {:induction false} AnnotationPerEventRow(rows: seq<Row>)
    ensures |Annotations(rows)| == |EventRows(rows)|
    ensures forall k :: 0 <= k < |EventRows(rows)| ==>
      EventRows(rows)[k] < |rows| && rows[EventRows(rows)[k]].event.Some? &&
      Annotations(rows)[k] == Note(rows[EventRows(rows)[k]])
  {
    EventRowsAreTheMatches(rows);
    if rows != [] {
      var init := rows[..|rows| - 1];
      AnnotationPerEventRow(init);
      EventRowsAreTheMatches(init);
      forall k | 0 <= k < |EventRows(init)|
        ensures rows[EventRows(init)[k]] == init[EventRows(init)[k]]
      {
      }
    }
  }

  /** The annotations of two runs of rows are those of the first, then those of the second. */
  lemma {:induction false} AnnotationsAppend(a: seq<Row>, b: seq<Row>)
    ensures Annotations(a + b) == Annotations(a) + Annotations(b)
    decreases |b|
  {
    if b == [] {
      assert a + b == a;
    } else {
      var init := b[..|b| - 1];
      assert (a + b)[..|a + b| - 1] == a + init;
      AnnotationsAppend(a, init);
    }
  }

  /** An annotation is drawn exactly for the rows that have an event. */
  lemma AnnotationsMembers(rows: seq<Row>)
    ensures forall a :: a in Annotations(rows) <==>
      exists i :: 0 <= i < |rows| && rows[i].event.Some? && a == Note(rows[i])
  {
    AnnotationPerEventRow(rows);
    EventRowsAreTheMatches(rows);
    var ns := Annotations(rows);
    var ix := EventRows(rows);
    forall a | a in ns
      ensures exists i :: 0 <= i < |rows| && rows[i].event.Some? && a == Note(rows[i])
    {
      var k :| 0 <= k < |ns| && ns[k] == a;
      assert a == Note(rows[ix[k]]);
    }
    forall i | 0 <= i < |rows| && rows[i].event.Some?
      ensures Note(rows[i]) in ns
    {
      var k :| 0 <= k < |ix| && ix[k] == i;
      assert ns[k] == Note(rows[i]);
    }
  }

  // ---------------------------------------------------------------------------
  // The chart that is shown

  /** The frame of two runs of pairs is the frame of the first, then that of the second. */
  lemma FrameAppend(a: seq<(int, int)>, b: seq<(int, int)>)
    ensures Frame(a + b) == Frame(a) + Frame(b)
  {
    MapAppend(RowOf, a, b);
  }

  /** Rows none of which has an event get no annotation. */
  lemma {:induction false} NoEventNoAnnotation(rows: seq<Row>)
    requires forall i :: 0 <= i < |rows| ==> rows[i].event.None?
    ensures Annotations(rows) == []
  {
    if rows != [] {
      var init := rows[..|rows| - 1];
      assert forall i :: 0 <= i < |init| ==> init[i] == rows[i];
      NoEventNoAnnotation(init);
    }
  }

  /** Chapters 6 to 12 have no event. */
  lemma LaterChaptersQuiet()
    ensures Annotations(Frame(Chapters[5..])) == []
  {
    var tail := Chapters[5..];
    LaterChapterNumbers();
    forall i | 0 <= i < |tail|
      ensures Frame(tail)[i].event.None?
    {
      FrameEvent(tail, i);
    }
    NoEventNoAnnotation(Frame(tail));
  }

  /** The pairs after the fifth are for chapters 6 and later. */
  lemma LaterChapterNumbers()
    ensures forall i :: 0 <= i < |Chapters[5..]| ==> 6 <= Chapters[5..][i].0
  {
  }

  /** The rows of chapters 1 to 5. */
  lemma EarlyChapterRows()
    ensures Frame(Chapters[..5]) == [
      Row(1, 5, "Chapter 1", Some(Event1)), Row(2, 6, "Chapter 2", Some(Event2)),
      Row(3, 6, "Chapter 3", Some(Event3)), Row(4, 8, "Chapter 4", Some(Event4)),
      Row(5, 7, "Chapter 5", Some(Event5))]
  {
    assert Chapters[..5] == [(1, 5), (2, 6), (3, 6), (4, 8), (5, 7)];
    FiveRows((1, 5), (2, 6), (3, 6), (4, 8), (5, 7));
    EarlyRowsOf();
  }

  /** The rows of chapter 1 to 5, one pair at a time. */
  lemma EarlyRowsOf()
    ensures RowOf((1, 5)) == Row(1, 5, "Chapter 1", Some(Event1))
    ensures RowOf((2, 6)) == Row(2, 6, "Chapter 2", Some(Event2))
    ensures RowOf((3, 6)) == Row(3, 6, "Chapter 3", Some(Event3))
    ensures RowOf((4, 8)) == Row(4, 8, "Chapter 4", Some(Event4))
    ensures RowOf((5, 7)) == Row(5, 7, "Chapter 5", Some(Event5))
  {
    EarlyLabels();
  }

  /** The frame of three pairs is their three rows. */
  lemma ThreeRows(p1: (int, int), p2: (int, int), p3: (int, int))
    ensures Frame([p1, p2, p3]) == [RowOf(p1), RowOf(p2), RowOf(p3)]
  {
    assert Frame([p1]) == [RowOf(p1)] by {
      FrameSnoc([], p1);
      assert [] + [p1] == [p1];
    }
    assert Frame([p1, p2]) == [RowOf(p1), RowOf(p2)] by {
      FrameSnoc([p1], p2);
      assert [p1] + [p2] == [p1, p2];
    }
    FrameSnoc([p1, p2], p3);
    assert [p1, p2] + [p3] == [p1, p2, p3];
  }

  /** The frame of five pairs is their five rows. */
  lemma FiveRows(p1: (int, int), p2: (int, int), p3: (int, int), p4: (int, int), p5: (int, int))
    ensures Frame([p1, p2, p3, p4, p5]) == [RowOf(p1), RowOf(p2), RowOf(p3), RowOf(p4), RowOf(p5)]
  {
    ThreeRows(p1, p2, p3);
    assert Frame([p1, p2, p3, p4]) == [RowOf(p1), RowOf(p2), RowOf(p3), RowOf(p4)] by {
      FrameSnoc([p1, p2, p3], p4);
      assert [p1, p2, p3] + [p4] == [p1, p2, p3, p4];
    }
    FrameSnoc([p1, p2, p3, p4], p5);
    assert [p1, p2, p3, p4] + [p5] == [p1, p2, p3, p4, p5];
  }

  /** One more pair adds its row after the earlier ones. */
  lemma FrameSnoc(chapters: seq<(int, int)>, p: (int, int))
    ensures Frame(chapters + [p]) == Frame(chapters) + [RowOf(p)]
  {
    MapAppend(RowOf, chapters, [p]);
    MapAt(RowOf, [p], 0);
  }

  /** The labels of chapters 1 to 5. */
  lemma EarlyLabels()
    ensures ChapterLabel(1) == "Chapter 1" && ChapterLabel(2) == "Chapter 2"
    ensures ChapterLabel(3) == "Chapter 3" && ChapterLabel(4) == "Chapter 4"
    ensures ChapterLabel(5) == "Chapter 5"
  {
  }

  /** Adding a row adds its note, if it has an event, after the earlier ones. */
  lemma AnnotationsSnoc(rows: seq<Row>, r: Row)
    ensures Annotations(rows + [r]) == Annotations(rows) + (if r.event.Some? then [Note(r)] else [])
  {
    assert (rows + [r])[..|rows|] == rows;
  }

  /** Three rows that all have an event give their three notes in order. */
  lemma ThreeNotes(r1: Row, r2: Row, r3: Row)
    requires r1.event.Some? && r2.event.Some? && r3.event.Some?
    ensures Annotations([r1, r2, r3]) == [Note(r1), Note(r2), Note(r3)]
  {
    assert Annotations([r1]) == [Note(r1)] by {
      AnnotationsSnoc([], r1);
      assert [] + [r1] == [r1];
    }
    assert Annotations([r1, r2]) == [Note(r1), Note(r2)] by {
      AnnotationsSnoc([r1], r2);
      assert [r1] + [r2] == [r1, r2];
    }
    assert Annotations([r1, r2, r3]) == [Note(r1), Note(r2), Note(r3)] by {
      AnnotationsSnoc([r1, r2], r3);
      assert [r1, r2] + [r3] == [r1, r2, r3];
    }
  }

  /** Five rows that all have an event give their five notes in order. */
  lemma FiveNotes(r1: Row, r2: Row, r3: Row, r4: Row, r5: Row)
    requires r1.event.Some? && r2.event.Some? && r3.event.Some? && r4.event.Some? && r5.event.Some?
    ensures Annotations([r1, r2, r3, r4, r5]) == [Note(r1), Note(r2), Note(r3), Note(r4), Note(r5)]
  {
    ThreeNotes(r1, r2, r3);
    assert Annotations([r1, r2, r3, r4]) == [Note(r1), Note(r2), Note(r3), Note(r4)] by {
      AnnotationsSnoc([r1, r2, r3], r4);
      assert [r1, r2, r3] + [r4] == [r1, r2, r3, r4];
    }
    assert Annotations([r1, r2, r3, r4, r5]) == [Note(r1), Note(r2), Note(r3), Note(r4), Note(r5)] by {
      AnnotationsSnoc([r1, r2, r3, r4], r5);
      assert [r1, r2, r3, r4] + [r5] == [r1, r2, r3, r4, r5];
    }
  }

  /** The chart shows five annotations, for chapters 1 to 5, in chapter order. */
  lemma ShownAnnotations()
    ensures Annotations(Frame(Chapters)) == [
      Annotation("Chapter 1", 5, Event1), Annotation("Chapter 2", 6, Event2),
      Annotation("Chapter 3", 6, Event3), Annotation("Chapter 4", 8, Event4),
      Annotation("Chapter 5", 7, Event5)]
  {
    var head, tail := Chapters[..5], Chapters[5..];
    assert head + tail == Chapters;
    FrameAppend(head, tail);
    AnnotationsAppend(Frame(head), Frame(tail));
    LaterChaptersQuiet();
    EarlyChapterRows();
    FiveNotes(Row(1, 5, "Chapter 1", Some(Event1)), Row(2, 6, "Chapter 2", Some(Event2)),
      Row(3, 6, "Chapter 3", Some(Event3)), Row(4, 8, "Chapter 4", Some(Event4)),
      Row(5, 7, "Chapter 5", Some(Event5)));
  }
}
