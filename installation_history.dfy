/**
 * AcInstallationHistoryPojo: the audit log of one installation run. Every
 * recorded event becomes a `HistoryEntry` in one of four categories and
 * takes the next sequence number; `success` records whether the run
 * succeeded; the renderers merge the categories into one report.
 */
module InstallationHistory {
  import opened Wrappers
  import opened Exceptions

  /** A wall-clock instant (`new Date().getTime()`); its value is never inspected. */
  datatype Instant = Instant(millis: int)

  /** One log line: its sequence number, its creation time and its text. */
  datatype HistoryEntry = HistoryEntry(index: nat, timestamp: Instant, message: string)

  const MSG_IDENTIFIER_EXCEPTION := "EXCEPTION:"
  const MSG_IDENTIFIER_WARNING := "WARNING:"
  const FONT_COLOR_SUCCESS_HTML_OPEN := "<font color='green'><b>"
  const FONT_COLOR_NO_SUCCESS_HTML_OPEN := "<font color='red'><b>"
  const FONT_COLOR_SUCCESS_HTML_CLOSE := "</b></font>"
  const WARNING_HTML_OPEN := "<font color='orange'><b>"

  /** The stored text of a warning: the warning, marked `"WARNING: "`, in orange. */
  function WarningText(warning: string): (t: string)
    ensures |t| == |WARNING_HTML_OPEN| + |MSG_IDENTIFIER_WARNING| + 1 + |warning| + |FONT_COLOR_SUCCESS_HTML_CLOSE|
    ensures t[|WARNING_HTML_OPEN|..|WARNING_HTML_OPEN| + |MSG_IDENTIFIER_WARNING| + 1 + |warning|]
         == MSG_IDENTIFIER_WARNING + " " + warning
  {
    WARNING_HTML_OPEN + MSG_IDENTIFIER_WARNING + " " + warning + "</b></font>"
  }

  /** The stored text of an exception: `"EXCEPTION:"`, then the exception's text after `"</b> "`, in red. */
  function ExceptionText(exception: string): (t: string)
    ensures |t| == |FONT_COLOR_NO_SUCCESS_HTML_OPEN| + |MSG_IDENTIFIER_EXCEPTION| + 5 + |exception| + |FONT_COLOR_SUCCESS_HTML_CLOSE|
    ensures var k := |FONT_COLOR_NO_SUCCESS_HTML_OPEN|;
      && t[k..k + |MSG_IDENTIFIER_EXCEPTION|] == MSG_IDENTIFIER_EXCEPTION
      && t[k + |MSG_IDENTIFIER_EXCEPTION| + 5..k + |MSG_IDENTIFIER_EXCEPTION| + 5 + |exception|] == exception
  {
    FONT_COLOR_NO_SUCCESS_HTML_OPEN + MSG_IDENTIFIER_EXCEPTION + "</b>" + " " + exception + "</b></font>"
  }

  /** The stored text of a message or a verbose message: the message after one space. */
  function MessageText(message: string): (t: string)
    ensures |t| == |message| + 1 && t[0] == ' ' && t[1..] == message
  {
    " " + message
  }

  // ---------------------------------------------------------------------
  // The merge order
  // ---------------------------------------------------------------------

  /** Ascending sequence numbers: the order of the `TreeSet` the renderers merge into. */
  ghost predicate IndexSorted(s: seq<HistoryEntry>)
  {
    forall i, j :: 0 <= i < j < |s| ==> s[i].index < s[j].index
  }

  predicate HasIndex(s: seq<HistoryEntry>, index: nat)
  {
    exists y :: y in s && y.index == index
  }

  /** No two entries of `s` share a sequence number. */
  ghost predicate UniqueIndices(s: set<HistoryEntry>)
  {
    forall x, y :: x in s && y in s && x.index == y.index ==> x == y
  }

  /** All entries of `sets`. */
  ghost function UnionAll(sets: seq<set<HistoryEntry>>): set<HistoryEntry>
    decreases |sets|
  {
    if sets == [] then {} else UnionAll(sets[..|sets| - 1]) + sets[|sets| - 1]
  }

  lemma UnionAllThree(a: set<HistoryEntry>, b: set<HistoryEntry>, c: set<HistoryEntry>)
    ensures UnionAll([a, b, c]) == a + b + c
  {
    var three := [a, b, c];
    assert three[..2] == [a, b];
    assert [a, b][..1] == [a];
    assert [a][..0] == [];
    assert UnionAll([a]) == a;
    assert UnionAll([a, b]) == a + b;
  }

  /** `TreeSet.add` under the sequence-number order: an entry whose number is already present is not added. */
  function InsertByIndex(s: seq<HistoryEntry>, e: HistoryEntry): (r: seq<HistoryEntry>)
    requires IndexSorted(s)
    ensures IndexSorted(r)
    ensures forall y :: y in r <==> y in s || (y == e && !HasIndex(s, e.index))
    ensures HasIndex(r, e.index)
  {
    if s == [] then [e]
    else if e.index == s[0].index then s
    else if e.index < s[0].index then [e] + s
    else
      var tail := InsertByIndex(s[1..], e);
      assert HasIndex(s, e.index) <==> HasIndex(s[1..], e.index);
      assert forall k :: 0 <= k < |tail| ==> s[0].index < tail[k].index by {
        forall k | 0 <= k < |tail|
          ensures s[0].index < tail[k].index
        {
          assert tail[k] in tail;
          if tail[k] in s[1..] {
            var j :| 0 <= j < |s[1..]| && s[1..][j] == tail[k];
            assert s[j + 1] == tail[k];
          }
        }
      }
      [s[0]] + tail
  }

  /** The entries of `s` in ascending sequence-number order. */
  ghost function Chronological(s: set<HistoryEntry>): (r: seq<HistoryEntry>)
    ensures IndexSorted(r)
    ensures forall y :: y in r ==> y in s
    ensures forall x :: x in s ==> HasIndex(r, x.index)
    decreases |s|
  {
    if s == {} then []
    else
      var e :| e in s;
      var rest := Chronological(s - {e});
      assert forall x :: x in rest ==> x in s;
      InsertByIndex(rest, e)
  }

  /** An ascending sequence is determined by its elements. */
  lemma {:induction false} IndexSortedUnique(a: seq<HistoryEntry>, b: seq<HistoryEntry>)
    requires IndexSorted(a) && IndexSorted(b)
    requires forall y :: y in a <==> y in b
    ensures a == b
    decreases |a|
  {
    if a == [] {
      assert forall k :: 0 <= k < |b| ==> b[k] in a;
    } else {
      assert a[0] in b && b[0] in a;
      assert a[0] == b[0];
      forall y
        ensures y in a[1..] <==> y in b[1..]
      {
        if y in a[1..] {
          assert y != a[0] && y in b;
        }
        if y in b[1..] {
          assert y != b[0] && y in a;
        }
      }
      IndexSortedUnique(a[1..], b[1..]);
      assert a == [a[0]] + a[1..] && b == [b[0]] + b[1..];
    }
  }

  /**
   * When the entries of `s` have distinct sequence numbers, an ascending
   * sequence drawn from `s` that has every number of `s` is exactly the
   * chronological listing of `s`.
   */
  lemma MergeIsChronological(r: seq<HistoryEntry>, s: set<HistoryEntry>)
    requires UniqueIndices(s)
    requires IndexSorted(r)
    requires forall y :: y in r ==> y in s
    requires forall x :: x in s ==> HasIndex(r, x.index)
    ensures r == Chronological(s)
  {
    var c := Chronological(s);
    forall y
      ensures y in r <==> y in c
    {
      if y in s {
        var yr :| yr in r && yr.index == y.index;
        var yc :| yc in c && yc.index == y.index;
        assert yr == y && yc == y;
      }
    }
    IndexSortedUnique(r, c);
  }

  /**
   * An entry numbered above every entry of `s` comes last: recording one
   * more entry adds it at the end of the chronological listing.
   */
  lemma ChronologicalAppend(s: set<HistoryEntry>, e: HistoryEntry)
    requires UniqueIndices(s)
    requires forall x :: x in s ==> x.index < e.index
    ensures Chronological(s + {e}) == Chronological(s) + [e]
  {
    var c := Chronological(s);
    var r := c + [e];
    SortedAppend(c, s, e);
    forall x | x in s + {e}
      ensures HasIndex(r, x.index)
    {
      if x == e {
        assert r[|c|] == e;
      } else {
        var y :| y in c && y.index == x.index;
        assert y in r;
      }
    }
    MergeIsChronological(r, s + {e});
  }

  lemma SortedAppend(c: seq<HistoryEntry>, s: set<HistoryEntry>, e: HistoryEntry)
    requires UniqueIndices(s) && IndexSorted(c)
    requires forall y :: y in c ==> y in s
    requires forall x :: x in s ==> x.index < e.index
    ensures UniqueIndices(s + {e})
    ensures IndexSorted(c + [e])
    ensures forall y :: y in c + [e] ==> y in s + {e}
  {
  }

  // ---------------------------------------------------------------------
  // The report text
  // ---------------------------------------------------------------------

  /** One line of the report: `"\n" + timestamp + ": " + message`. */
  function Line(e: HistoryEntry, showTime: Instant -> string): string
  {
    "\n" + showTime(e.timestamp) + ": " + e.message
  }

  /** The lines of `es`, in order. */
  function Lines(es: seq<HistoryEntry>, showTime: Instant -> string): string
    decreases |es|
  {
    if es == [] then "" else Lines(es[..|es| - 1], showTime) + Line(es[|es| - 1], showTime)
  }

  function CountChar(s: string, c: char): nat
    decreases |s|
  {
    if s == [] then 0 else CountChar(s[..|s| - 1], c) + if s[|s| - 1] == c then 1 else 0
  }

  lemma {:induction false} CountCharAppend(a: string, b: string, c: char)
    ensures CountChar(a + b, c) == CountChar(a, c) + CountChar(b, c)
    decreases |b|
  {
    if b != [] {
      var ab := a + b;
      assert ab[..|ab| - 1] == a + b[..|b| - 1];
      CountCharAppend(a, b[..|b| - 1], c);
    } else {
      assert a + b == a;
    }
  }

  /**
   * One line per entry: when no timestamp text and no message holds a line
   * break, the rendering of `es` holds exactly `|es|` line breaks, and each
   * entry's line starts where the previous one ends.
   */
  lemma {:induction false} OneLinePerEntry(es: seq<HistoryEntry>, showTime: Instant -> string)
    requires forall e :: e in es ==> '\n' !in showTime(e.timestamp) && '\n' !in e.message
    ensures CountChar(Lines(es, showTime), '\n') == |es|
    decreases |es|
  {
    if es != [] {
      var e := es[|es| - 1];
      assert e in es;
      var body := showTime(e.timestamp) + ": " + e.message;
      assert forall c :: c in body ==> c in showTime(e.timestamp) || c in ": " || c in e.message;
      assert Line(e, showTime) == "\n" + body;
      OneLinePerEntry(es[..|es| - 1], showTime);
      CountCharAppend(Lines(es[..|es| - 1], showTime), Line(e, showTime), '\n');
      NoBreakCount(body);
      CountCharAppend("\n", body, '\n');
      assert "\n"[..0] == "";
    }
  }

  lemma {:induction false} NoBreakCount(s: string)
    requires '\n' !in s
    ensures CountChar(s, '\n') == 0
    decreases |s|
  {
    if s != [] {
      assert s[|s| - 1] in s;
      assert forall c :: c in s[..|s| - 1] ==> c in s;
      NoBreakCount(s[..|s| - 1]);
    }
  }

  /** `String.valueOf(boolean)`. */
  function BoolText(b: bool): (t: string)
    ensures t == "true" <==> b
  {
    if b then "true" else "false"
  }

  /** The decimal digits of `n`, most significant first. */
  function DigitText(n: nat): string
    decreases n
  {
    var d := n % 10;
    (if n < 10 then "" else DigitText(n / 10)) + [(d as int + '0' as int) as char]
  }

  /** The number a string of decimal digits denotes. */
  function DigitsValue(s: string): int
    decreases |s|
  {
    if s == [] then 0 else DigitsValue(s[..|s| - 1]) * 10 + (s[|s| - 1] as int - '0' as int)
  }

  /** The digits of `n` are decimal digits without a leading zero, and reading them back gives `n`. */
  lemma {:induction false} DigitTextValue(n: nat)
    ensures var t := DigitText(n);
      && |t| > 0
      && (forall k :: 0 <= k < |t| ==> '0' <= t[k] <= '9')
      && (|t| > 1 ==> t[0] != '0')
      && DigitsValue(t) == n
    decreases n
  {
    var t := DigitText(n);
    if n >= 10 {
      DigitTextValue(n / 10);
      assert t[..|t| - 1] == DigitText(n / 10);
    } else {
      assert t[..|t| - 1] == [];
    }
  }

  /** `Long.toString`. */
  function LongText(n: int): string
  {
    if n < 0 then "-" + DigitText(-n) else DigitText(n)
  }

  /** `Long.toString` starts with a minus sign exactly for a negative number, then gives the digits of its magnitude. */
  lemma LongTextReadsBack(n: int)
    ensures var r := LongText(n);
      && |r| > 0 && (r[0] == '-' <==> n < 0)
      && var digits := if n < 0 then r[1..] else r;
      && |digits| > 0
      && (forall k :: 0 <= k < |digits| ==> '0' <= digits[k] <= '9')
      && (|digits| > 1 ==> digits[0] != '0')
      && DigitsValue(digits) == (if n < 0 then -n else n)
  {
    var magnitude := if n < 0 then -n else n;
    DigitTextValue(magnitude);
    var r := LongText(n);
    var digits := if n < 0 then r[1..] else r;
    assert digits == DigitText(magnitude);
  }

  /** The colour the closing banner opens with: green when the run succeeded, red otherwise. */
  function BannerOpen(success: bool): (open: string)
    ensures open == FONT_COLOR_SUCCESS_HTML_OPEN <==> success
    ensures !success ==> open == FONT_COLOR_NO_SUCCESS_HTML_OPEN
  {
    if success then FONT_COLOR_SUCCESS_HTML_OPEN else FONT_COLOR_NO_SUCCESS_HTML_OPEN
  }

  /** The last line of the report: `"Success: "` and the flag, closing the colour. */
  function StatusLine(success: bool): string
  {
    "\n" + "Success: " + BoolText(success) + FONT_COLOR_SUCCESS_HTML_CLOSE
  }

  /** The text before the message history: the installation date. */
  function DateHeader(dateText: string): string
  {
    "\n" + "Installation triggered: " + dateText + "\n"
  }

  /**
   * The text `toString` builds: the date header, the message history on
   * its own lines, the execution time, then the banner, whose colour and
   * text tell whether the run succeeded.
   */
  function Report(dateText: string, history: string, executionTime: int, success: bool): (r: string)
    ensures var k := |DateHeader(dateText)| + 1;
      && k + |history| <= |r|
      && r[..k - 1] == DateHeader(dateText)
      && r[k..k + |history|] == history
    ensures var tail := BannerOpen(success) + StatusLine(success);
      |tail| <= |r| && r[|r| - |tail|..] == tail
  {
    var middle := ReportBody(dateText, history, executionTime);
    assert middle[..|DateHeader(dateText)|] == DateHeader(dateText);
    assert middle[|DateHeader(dateText)| + 1..|DateHeader(dateText)| + 1 + |history|] == history;
    middle + (BannerOpen(success) + StatusLine(success))
  }

  /** The report up to the banner: date header, message history and execution time. */
  function ReportBody(dateText: string, history: string, executionTime: int): string
  {
    DateHeader(dateText) + "\n" + history + "\n" + "\n" + "Execution time: " + LongText(executionTime) + " ms\n"
  }

  /** The appends `toString` performs around the message history, in order. */
  method AppendReport(dateText: string, history: string, executionTime: int, success: bool) returns (sb: string)
    ensures sb == Report(dateText, history, executionTime, success)
  {
    sb := DateHeader(dateText);
    sb := sb + "\n" + history + "\n";
    sb := sb + "\n" + "Execution time: " + LongText(executionTime) + " ms\n";
    ghost var body := sb;
    assert body == ReportBody(dateText, history, executionTime);
    if success {
      sb := sb + FONT_COLOR_SUCCESS_HTML_OPEN;
    } else {
      sb := sb + FONT_COLOR_NO_SUCCESS_HTML_OPEN;
    }
    assert sb == body + BannerOpen(success);
    sb := sb + StatusLine(success);
    assert sb == body + (BannerOpen(success) + StatusLine(success));
  }

  // ---------------------------------------------------------------------
  // The log
  // ---------------------------------------------------------------------

  class AcInstallationHistoryPojo {
    var warnings: set<HistoryEntry>
    var messages: set<HistoryEntry>
    var exceptions: set<HistoryEntry>
    var verboseMessages: set<HistoryEntry>

    var success: bool
    var installationDate: Option<Instant>
    var executionTime: int
    var msgIndex: nat

    /** Every entry recorded, all categories together. */
    ghost function Entries(): set<HistoryEntry>
      reads this
    {
      warnings + messages + exceptions + verboseMessages
    }

    /**
     * Every entry has a sequence number below `msgIndex`, no two entries
     * share one, and no entry is in two categories.
     */
    ghost predicate Valid()
      reads this
    {
      && (forall e :: e in Entries() ==> e.index < msgIndex)
      && UniqueIndices(Entries())
      && warnings !! messages && warnings !! exceptions && warnings !! verboseMessages
      && messages !! exceptions && messages !! verboseMessages
      && exceptions !! verboseMessages
    }

    constructor ()
      ensures Valid()
      ensures success && msgIndex == 0
      ensures warnings == {} && messages == {} && exceptions == {} && verboseMessages == {}
      ensures installationDate == None && executionTime == 0
    {
      warnings, messages, exceptions, verboseMessages := {}, {}, {}, {};
      success := true;
      installationDate := None;
      executionTime := 0;
      msgIndex := 0;
    }

    /** `setInstallationDate`: `None` is a `null` date, which `toString` later fails on. */
    method SetInstallationDate(date: Option<Instant>)
      modifies this`installationDate
      ensures installationDate == date
    {
      installationDate := date;
    }

    method SetExecutionTime(time: int)
      modifies this`executionTime
      ensures executionTime == time
    {
      executionTime := time;
    }

    method AddWarning(warning: string, now: Instant)
      requires Valid()
      modifies this`warnings, this`msgIndex
      ensures Valid()
      ensures warnings == old(warnings) + {HistoryEntry(old(msgIndex), now, WarningText(warning))}
      ensures msgIndex == old(msgIndex) + 1
    {
      warnings := warnings + {HistoryEntry(msgIndex, now, WarningText(warning))};
      msgIndex := msgIndex + 1;
    }

    method AddMessage(message: string, now: Instant)
      requires Valid()
      modifies this`messages, this`msgIndex
      ensures Valid()
      ensures messages == old(messages) + {HistoryEntry(old(msgIndex), now, MessageText(message))}
      ensures msgIndex == old(msgIndex) + 1
    {
      messages := messages + {HistoryEntry(msgIndex, now, MessageText(message))};
      msgIndex := msgIndex + 1;
    }

    method SetException(exception: string, now: Instant)
      requires Valid()
      modifies this`exceptions, this`success, this`msgIndex
      ensures Valid()
      ensures exceptions == old(exceptions) + {HistoryEntry(old(msgIndex), now, ExceptionText(exception))}
      ensures !success
      ensures msgIndex == old(msgIndex) + 1
    {
      exceptions := exceptions + {HistoryEntry(msgIndex, now, ExceptionText(exception))};
      success := false;
      msgIndex := msgIndex + 1;
    }

    method AddVerboseMessage(message: string, now: Instant)
      requires Valid()
      modifies this`verboseMessages, this`msgIndex
      ensures Valid()
      ensures verboseMessages == old(verboseMessages) + {HistoryEntry(old(msgIndex), now, MessageText(message))}
      ensures msgIndex == old(msgIndex) + 1
    {
      verboseMessages := verboseMessages + {HistoryEntry(msgIndex, now, MessageText(message))};
      msgIndex := msgIndex + 1;
    }

    method SetSuccess(success: bool)
      modifies this`success
      ensures this.success == success
    {
      this.success := success;
    }

    /** `getMessageSet`: the entries of all `sets` merged into a `TreeSet` ordered by sequence number. */
    method GetMessageSet(sets: seq<set<HistoryEntry>>) returns (resultSet: seq<HistoryEntry>)
      ensures IndexSorted(resultSet)
      ensures forall y :: y in resultSet ==> y in UnionAll(sets)
      ensures forall x :: x in UnionAll(sets) ==> HasIndex(resultSet, x.index)
    {
      resultSet := [];
      var k := 0;
      while k < |sets|
        invariant 0 <= k <= |sets|
        invariant IndexSorted(resultSet)
        invariant forall y :: y in resultSet ==> y in UnionAll(sets[..k])
        invariant forall x :: x in UnionAll(sets[..k]) ==> HasIndex(resultSet, x.index)
      {
        assert sets[..k + 1][..k] == sets[..k];
        var rest := sets[k];
        while rest != {}
          invariant rest <= sets[k]
          invariant IndexSorted(resultSet)
          invariant forall y :: y in resultSet ==> y in UnionAll(sets[..k + 1])
          invariant forall x :: x in UnionAll(sets[..k]) + (sets[k] - rest) ==> HasIndex(resultSet, x.index)
          decreases rest
        {
          var entry :| entry in rest;
          resultSet := InsertByIndex(resultSet, entry);
          rest := rest - {entry};
        }
        k := k + 1;
      }
      assert sets[..k] == sets;
    }

    /** `getMessageString`: one line per entry, in the order given; `""` when there is none. */
    method GetMessageString(messageHistorySet: seq<HistoryEntry>, showTime: Instant -> string) returns (sb: string)
      ensures messageHistorySet == [] ==> sb == ""
      ensures sb == Lines(messageHistorySet, showTime)
    {
      sb := "";
      if messageHistorySet != [] {
        var i := 0;
        while i < |messageHistorySet|
          invariant 0 <= i <= |messageHistorySet|
          invariant sb == Lines(messageHistorySet[..i], showTime)
        {
          assert messageHistorySet[..i + 1][..i] == messageHistorySet[..i];
          var entry := messageHistorySet[i];
          sb := sb + "\n" + showTime(entry.timestamp) + ": " + entry.message;
          i := i + 1;
        }
        assert messageHistorySet[..i] == messageHistorySet;
      }
    }

    /** `getMessageHistory`: warnings, messages and exceptions, in sequence-number order; no verbose message. */
    method GetMessageHistory(showTime: Instant -> string) returns (history: string)
      requires Valid()
      ensures history == Lines(Chronological(warnings + messages + exceptions), showTime)
    {
      var merged := GetMessageSet([warnings, messages, exceptions]);
      assert UnionAll([warnings, messages, exceptions]) == warnings + messages + exceptions by {
        UnionAllThree(warnings, messages, exceptions);
      }
      assert UniqueIndices(warnings + messages + exceptions) by {
        assert warnings + messages + exceptions <= Entries();
      }
      MergeIsChronological(merged, warnings + messages + exceptions);
      history := GetMessageString(merged, showTime);
    }

    /** `getVerboseMessageHistory`: all four categories, in sequence-number order. */
    method GetVerboseMessageHistory(showTime: Instant -> string) returns (history: string)
      requires Valid()
      ensures history == Lines(Chronological(Entries()), showTime)
    {
      var merged := GetMessageSet([warnings, messages, verboseMessages, exceptions]);
      assert UnionAll([warnings, messages, verboseMessages, exceptions]) == Entries() by {
        UnionAllThree(warnings, messages, verboseMessages);
        var four := [warnings, messages, verboseMessages, exceptions];
        assert four[..3] == [warnings, messages, verboseMessages];
      }
      MergeIsChronological(merged, Entries());
      history := GetMessageString(merged, showTime);
    }

    /**
     * `toString`: the installation date, the message history, the execution
     * time and the success banner; a `NullPointerException` when no
     * installation date was set.
     */
    method ToString(showDate: Instant -> string, showTime: Instant -> string) returns (r: Result<string, Error>)
      requires Valid()
      ensures installationDate.None? ==> r == Err(NullPointerException)
      ensures installationDate.Some? ==>
        r == Ok(Report(showDate(installationDate.value),
                       Lines(Chronological(warnings + messages + exceptions), showTime),
                       executionTime, success))
    {
      if installationDate.None? {
        return Err(NullPointerException);
      }
      var history := GetMessageHistory(showTime);
      var sb := AppendReport(showDate(installationDate.value), history, executionTime, success);
      return Ok(sb);
    }
  }

  /**
   * The message history holds exactly the warnings, messages and exceptions
   * and no verbose message; the verbose history holds every entry.
   */
  lemma HistoryContents(w: set<HistoryEntry>, m: set<HistoryEntry>, x: set<HistoryEntry>, v: set<HistoryEntry>)
    requires UniqueIndices(w + m + x + v)
    requires v !! w && v !! m && v !! x
    ensures forall e :: e in Chronological(w + m + x) <==> e in w || e in m || e in x
    ensures forall e :: e in v ==> e !in Chronological(w + m + x)
    ensures forall e :: e in Chronological(w + m + x + v) <==> e in w || e in m || e in x || e in v
  {
  }

  /**
   * Recording one more entry in a category the message history shows, with
   * the next sequence number, adds exactly one line, for that entry, at the
   * end of the history.
   */
  lemma HistoryGrowsByOneLine(s: set<HistoryEntry>, e: HistoryEntry, showTime: Instant -> string)
    requires UniqueIndices(s)
    requires forall x :: x in s ==> x.index < e.index
    ensures Lines(Chronological(s + {e}), showTime) == Lines(Chronological(s), showTime) + Line(e, showTime)
  {
    ChronologicalAppend(s, e);
    var c := Chronological(s) + [e];
    assert c[..|c| - 1] == Chronological(s);
  }

  /**
   * `setSuccess(true)` after `setException` leaves a log with an exception
   * that reports success: "exceptions recorded implies failure" is not an
   * invariant of the class.
   */
  method ExceptionThenSuccess() returns (log: AcInstallationHistoryPojo)
    ensures log.exceptions != {} && log.success
  {
    log := new AcInstallationHistoryPojo();
    log.SetException("failure", Instant(0));
    log.SetSuccess(true);
  }

}
