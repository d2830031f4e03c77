/** The review-stats bot of main.py: reading the two hour counts off the rendered
    dashboard text, composing the reply, and deciding what is sent. */
module Dashboard {
  import opened PyStr

  const PendingLabel := "Hours pending review"
  const ApprovedLabel := "Hours approved in past 7 days"
  const FailureMessage := "Failed to extract data from the page."
  const PendingPrefix := "Hours pending review: "
  const ApprovedPrefix := "Hours approved in past 7 days: "

  /** `int(lines[j].strip())`, with `None` for the `IndexError` of a missing line
      and for the `ValueError` of a line that is not an integer. */
  function ValueAt(lines: seq<string>, j: nat): Option<int> {
    if j < |lines| then ParseInt(Strip(lines[j])) else None
  }

  /** What the line at index `i` yields for the field labelled `title`: when the
      stripped line is exactly `title`, the value on the line two further down.
      The line in between is never looked at. */
  function Reading(lines: seq<string>, i: nat, title: string): Option<int>
    requires i < |lines|
  {
    if Strip(lines[i]) == title then ValueAt(lines, i + 2) else None
  }

  /** A value is read exactly when the line exists and strips to an integer. */
  lemma ValueAtIff(lines: seq<string>, j: nat)
    ensures ValueAt(lines, j).Some? <==> j < |lines| && IsIntLiteral(Strip(lines[j]))
  {
  }

  /** A line yields a reading exactly when it strips to the label and the line two
      further down exists and strips to an integer. */
  lemma ReadingIff(lines: seq<string>, i: nat, title: string)
    requires i < |lines|
    ensures Reading(lines, i, title).Some?
        <==> Strip(lines[i]) == title && i + 2 < |lines| && IsIntLiteral(Strip(lines[i + 2]))
  {
  }

  /** The value a field holds after the first `n` lines have been scanned: the
      reading of the last line before `n` that yielded one, or `None`. Each field
      is computed from its own label's readings alone. */
  function Latest(lines: seq<string>, title: string, n: nat): Option<int>
    requires n <= |lines|
  {
    if n == 0 then None
    else if Reading(lines, n - 1, title).Some? then Reading(lines, n - 1, title)
    else Latest(lines, title, n - 1)
  }

  /** Both fields are set once the first `n` lines have been scanned. */
  predicate Found(lines: seq<string>, n: nat)
    requires n <= |lines|
  {
    Latest(lines, PendingLabel, n).Some? && Latest(lines, ApprovedLabel, n).Some?
  }

  /** The first count of scanned lines, from `n` on, after which both fields are
      set; `|lines|` when that never happens. */
  function StopFrom(lines: seq<string>, n: nat): (s: nat)
    requires n <= |lines|
    ensures n <= s <= |lines|
    decreases |lines| - n
  {
    if n == |lines| || Found(lines, n) then n else StopFrom(lines, n + 1)
  }

  /** `StopFrom(lines, n)` is the first point at or after `n` where both fields
      are set, or the end of the lines when there is none. */
  lemma {:induction false} StopFromSpec(lines: seq<string>, n: nat)
    requires n <= |lines|
    ensures var s := StopFrom(lines, n);
      && (s == |lines| || Found(lines, s))
      && forall m :: n <= m < s ==> !Found(lines, m)
    decreases |lines| - n
  {
    if n < |lines| && !Found(lines, n) {
      StopFromSpec(lines, n + 1);
    }
  }

  /** How many lines `parse_data` scans before it returns. */
  function Consumed(lines: seq<string>): (n: nat)
    ensures n <= |lines|
  {
    StopFrom(lines, 0)
  }

  /** What `parse_data` returns for the given lines: each field as it stood when
      the scan stopped. */
  function ExtractLines(lines: seq<string>): (Option<int>, Option<int>) {
    var n := Consumed(lines);
    (Latest(lines, PendingLabel, n), Latest(lines, ApprovedLabel, n))
  }

  /** What `parse_data` returns for the rendered text. */
  function Extract(text: string): (Option<int>, Option<int>) {
    ExtractLines(Split(text))
  }

  /** `parse_data`: split the text into lines, scan them in order, read a value
      two lines after each label, keep the field unchanged when that fails, and
      stop as soon as both fields are set. It never fails. */
  method ParseData(text: string) returns (pending: Option<int>, approved: Option<int>)
    ensures (pending, approved) == Extract(text)
  {
    var lines := Split(text);
    pending, approved := None, None;
    var i := 0;
    while i < |lines|
      invariant i <= |lines|
      invariant pending == Latest(lines, PendingLabel, i)
      invariant approved == Latest(lines, ApprovedLabel, i)
      invariant !Found(lines, i)
      invariant StopFrom(lines, i) == Consumed(lines)
    {
      ScanStep(lines, i);
      StopStep(lines, i);
      var line := Strip(lines[i]);
      if line == PendingLabel {
        var v := ValueAt(lines, i + 2);
        if v.Some? {
          pending := v;
        }
      } else if line == ApprovedLabel {
        var v := ValueAt(lines, i + 2);
        if v.Some? {
          approved := v;
        }
      }
      assert pending == Latest(lines, PendingLabel, i + 1);
      assert approved == Latest(lines, ApprovedLabel, i + 1);
      i := i + 1;
      if pending.Some? && approved.Some? {
        break;
      }
    }
  }

  /** One step of the stop point: past a line where the scan did not stop, the
      stop point is unchanged, and it is the next line once both fields are set. */
  lemma StopStep(lines: seq<string>, i: nat)
    requires i < |lines| && !Found(lines, i)
    ensures StopFrom(lines, i) == StopFrom(lines, i + 1)
    ensures Found(lines, i + 1) ==> StopFrom(lines, i + 1) == i + 1
  {
  }

  /** What line `i` does to the two fields: a pending label can only change the
      pending field, an approved label only the approved field, any other line
      neither. */
  lemma ScanStep(lines: seq<string>, i: nat)
    requires i < |lines|
    ensures Strip(lines[i]) == PendingLabel ==>
      && Latest(lines, PendingLabel, i + 1)
         == (if ValueAt(lines, i + 2).Some? then ValueAt(lines, i + 2) else Latest(lines, PendingLabel, i))
      && Latest(lines, ApprovedLabel, i + 1) == Latest(lines, ApprovedLabel, i)
    ensures Strip(lines[i]) == ApprovedLabel ==>
      && Latest(lines, ApprovedLabel, i + 1)
         == (if ValueAt(lines, i + 2).Some? then ValueAt(lines, i + 2) else Latest(lines, ApprovedLabel, i))
      && Latest(lines, PendingLabel, i + 1) == Latest(lines, PendingLabel, i)
    ensures Strip(lines[i]) != PendingLabel && Strip(lines[i]) != ApprovedLabel ==>
      && Latest(lines, PendingLabel, i + 1) == Latest(lines, PendingLabel, i)
      && Latest(lines, ApprovedLabel, i + 1) == Latest(lines, ApprovedLabel, i)
  {
  }

  /** A field's value after `n` lines is `None` exactly when no line before `n`
      yielded a reading for it: a failed reading never clears a field. */
  lemma {:induction false} LatestNoneIff(lines: seq<string>, title: string, n: nat)
    requires n <= |lines|
    ensures Latest(lines, title, n).None? <==> forall i :: 0 <= i < n ==> Reading(lines, i, title).None?
  {
    if n > 0 {
      LatestNoneIff(lines, title, n - 1);
    }
  }

  /** Otherwise the field holds the reading of the LAST line before `n` that
      yielded one: a later successful label overwrites an earlier one, and a
      failed one leaves the field as it was. */
  lemma {:induction false} LatestIsLastReading(lines: seq<string>, title: string, n: nat, i: nat)
    requires i < n <= |lines|
    requires Reading(lines, i, title).Some?
    requires forall j :: i < j < n ==> Reading(lines, j, title).None?
    ensures Latest(lines, title, n) == Reading(lines, i, title)
  {
    if i < n - 1 {
      LatestIsLastReading(lines, title, n - 1, i);
    }
  }

  /** The fields are independent: a field's value depends on its own label's
      readings and on nothing else in the text. */
  lemma {:induction false} LatestOwnReadings(l1: seq<string>, l2: seq<string>, title: string, n: nat)
    requires n <= |l1| && n <= |l2|
    requires forall i :: 0 <= i < n ==> Reading(l1, i, title) == Reading(l2, i, title)
    ensures Latest(l1, title, n) == Latest(l2, title, n)
  {
    if n > 0 {
      LatestOwnReadings(l1, l2, title, n - 1);
    }
  }

  /** The scan stops at the first point where both fields are set, whatever the
      lines that follow. */
  lemma StopFromUnique(lines: seq<string>, n: nat, s: nat)
    requires n <= s <= |lines|
    requires s == |lines| || Found(lines, s)
    requires forall m :: n <= m < s ==> !Found(lines, m)
    ensures StopFrom(lines, n) == s
  {
    StopFromSpec(lines, n);
  }

  /** The line that completed the pair yielded a value, so the scan stopped at
      least two lines before the end. */
  lemma CompletedEarly(lines: seq<string>)
    requires Found(lines, Consumed(lines))
    ensures Consumed(lines) + 1 < |lines|
  {
    var s := Consumed(lines);
    StopFromSpec(lines, 0);
    assert s > 0;
    assert !Found(lines, s - 1);
    assert Reading(lines, s - 1, PendingLabel).Some? || Reading(lines, s - 1, ApprovedLabel).Some?;
  }

  /** Lines appended after the first `s + 2` change no reading before `s`, hence
      neither field's value at any point up to `s`. */
  lemma PrefixLatest(lines: seq<string>, rest: seq<string>, s: nat)
    requires s + 1 < |lines|
    ensures forall m | 0 <= m <= s :: Found(lines + rest, m) == Found(lines, m)
    ensures Latest(lines + rest, PendingLabel, s) == Latest(lines, PendingLabel, s)
    ensures Latest(lines + rest, ApprovedLabel, s) == Latest(lines, ApprovedLabel, s)
  {
    var all := lines + rest;
    forall i, title | 0 <= i < s
      ensures Reading(all, i, title) == Reading(lines, i, title)
    {
      assert all[i] == lines[i] && all[i + 2] == lines[i + 2];
    }
    forall m | 0 <= m <= s
      ensures Latest(all, PendingLabel, m) == Latest(lines, PendingLabel, m)
      ensures Latest(all, ApprovedLabel, m) == Latest(lines, ApprovedLabel, m)
    {
      LatestOwnReadings(all, lines, PendingLabel, m);
      LatestOwnReadings(all, lines, ApprovedLabel, m);
    }
  }

  /** Once both fields are set the scan is over: lines appended after the input
      cannot change the result. */
  lemma EarlyExit(lines: seq<string>, rest: seq<string>)
    requires Found(lines, Consumed(lines))
    ensures ExtractLines(lines + rest) == ExtractLines(lines)
  {
    var s := Consumed(lines);
    CompletedEarly(lines);
    PrefixLatest(lines, rest, s);
    StopFromSpec(lines, 0);
    StopFromUnique(lines + rest, 0, s);
  }

  /** When both fields are set at some point, they are set where the scan stops,
      which is no later than that point. */
  lemma FoundWhenStopped(lines: seq<string>, m: nat)
    requires m <= |lines| && Found(lines, m)
    ensures Consumed(lines) <= m && Found(lines, Consumed(lines))
  {
    StopFromSpec(lines, 0);
  }

  /** A pending reading anywhere and an approved reading anywhere, in either
      order and with any lines before, between and after them: both fields are
      set in the result. */
  lemma BothLabelsRead(lines: seq<string>, i: nat, j: nat)
    requires i < |lines| && j < |lines|
    requires Reading(lines, i, PendingLabel).Some? && Reading(lines, j, ApprovedLabel).Some?
    ensures ExtractLines(lines).0.Some? && ExtractLines(lines).1.Some?
  {
    var m := if i < j then j + 1 else i + 1;
    LatestNoneIff(lines, PendingLabel, m);
    LatestNoneIff(lines, ApprovedLabel, m);
    FoundWhenStopped(lines, m);
  }

  /** A label that yields no reading anywhere: its field is never set, so the scan
      runs to the end of the lines. */
  lemma NeverRead(lines: seq<string>, title: string)
    requires title == PendingLabel || title == ApprovedLabel
    requires forall i :: 0 <= i < |lines| ==> Reading(lines, i, title).None?
    ensures forall n :: 0 <= n <= |lines| ==> Latest(lines, title, n).None?
    ensures Consumed(lines) == |lines|
  {
    forall n | 0 <= n <= |lines|
      ensures Latest(lines, title, n).None?
    {
      LatestNoneIff(lines, title, n);
    }
    StopFromSpec(lines, 0);
  }

  /** No pending reading anywhere: the pending field is `None`, and the approved
      field is the reading of the last approved label that yielded one. */
  lemma PendingMissing(lines: seq<string>, j: nat)
    requires forall i :: 0 <= i < |lines| ==> Reading(lines, i, PendingLabel).None?
    requires j < |lines| && Reading(lines, j, ApprovedLabel).Some?
    requires forall k :: j < k < |lines| ==> Reading(lines, k, ApprovedLabel).None?
    ensures ExtractLines(lines) == (None, Reading(lines, j, ApprovedLabel))
  {
    NeverRead(lines, PendingLabel);
    LatestIsLastReading(lines, ApprovedLabel, |lines|, j);
  }

  /** No approved reading anywhere: the approved field is `None`, and the pending
      field is the reading of the last pending label that yielded one. */
  lemma ApprovedMissing(lines: seq<string>, i: nat)
    requires forall j :: 0 <= j < |lines| ==> Reading(lines, j, ApprovedLabel).None?
    requires i < |lines| && Reading(lines, i, PendingLabel).Some?
    requires forall k :: i < k < |lines| ==> Reading(lines, k, PendingLabel).None?
    ensures ExtractLines(lines) == (Reading(lines, i, PendingLabel), None)
  {
    NeverRead(lines, ApprovedLabel);
    LatestIsLastReading(lines, PendingLabel, |lines|, i);
  }

  /** A field whose only reading is at line `i` holds that reading where the scan
      stops, provided the scan stops with the field set. */
  lemma OnlyReading(lines: seq<string>, title: string, i: nat, s: nat)
    requires s <= |lines| && Latest(lines, title, s).Some?
    requires i < |lines| && forall k :: 0 <= k < |lines| && k != i ==> Reading(lines, k, title).None?
    ensures Latest(lines, title, s) == Reading(lines, i, title)
  {
    LatestNoneIff(lines, title, s);
    LatestIsLastReading(lines, title, s, i);
  }

  /** Each label yields exactly one reading, anywhere in the lines: the result is
      those two readings. */
  lemma SingleReadings(lines: seq<string>, i: nat, j: nat)
    requires i < |lines| && j < |lines|
    requires Reading(lines, i, PendingLabel).Some? && Reading(lines, j, ApprovedLabel).Some?
    requires forall k :: 0 <= k < |lines| && k != i ==> Reading(lines, k, PendingLabel).None?
    requires forall k :: 0 <= k < |lines| && k != j ==> Reading(lines, k, ApprovedLabel).None?
    ensures ExtractLines(lines) == (Reading(lines, i, PendingLabel), Reading(lines, j, ApprovedLabel))
  {
    var m := if i < j then j + 1 else i + 1;
    LatestNoneIff(lines, PendingLabel, m);
    LatestNoneIff(lines, ApprovedLabel, m);
    FoundWhenStopped(lines, m);
    var s := Consumed(lines);
    OnlyReading(lines, PendingLabel, i, s);
    OnlyReading(lines, ApprovedLabel, j, s);
  }

  /** Each label appears once, anywhere in the lines, with the decimal text of a
      number two lines below it: the result is those two numbers, whatever the
      other lines hold. */
  lemma LabelsOnce(lines: seq<string>, i: nat, j: nat, p: int, a: int)
    requires i + 2 < |lines| && j + 2 < |lines|
    requires Strip(lines[i]) == PendingLabel && lines[i + 2] == ShowInt(p)
    requires Strip(lines[j]) == ApprovedLabel && lines[j + 2] == ShowInt(a)
    requires forall k :: 0 <= k < |lines| && k != i ==> Strip(lines[k]) != PendingLabel
    requires forall k :: 0 <= k < |lines| && k != j ==> Strip(lines[k]) != ApprovedLabel
    ensures ExtractLines(lines) == (Some(p), Some(a))
  {
    ReadsAnyInteger(lines, i, PendingLabel, p);
    ReadsAnyInteger(lines, j, ApprovedLabel, a);
    SingleReadings(lines, i, j);
  }

  /** Every integer written in decimal is read back, negative ones included: there
      is no range check. Whitespace around the label is ignored. */
  lemma ReadsAnyInteger(lines: seq<string>, i: nat, title: string, v: int)
    requires i + 2 < |lines|
    requires Strip(lines[i]) == title
    requires lines[i + 2] == ShowInt(v)
    ensures Reading(lines, i, title) == Some(v)
  {
    ReadBackInt(v);
  }

  /** The labels have no surrounding whitespace, differ, and do not parse as
      integers. */
  lemma LabelFacts()
    ensures Strip(PendingLabel) == PendingLabel && Strip(ApprovedLabel) == ApprovedLabel
    ensures PendingLabel != ApprovedLabel
    ensures ParseInt(PendingLabel) == None && ParseInt(ApprovedLabel) == None
  {
    StripTrimmed(PendingLabel);
    StripTrimmed(ApprovedLabel);
    assert !IsDigit(PendingLabel[0]) && !IsDigit(ApprovedLabel[0]);
  }

  /** The dashboard's layout: each label, a line that is skipped whatever it
      holds, then the label's number. */
  function Layout(p: int, a: int, gap1: string, gap2: string): seq<string> {
    [PendingLabel, gap1, ShowInt(p), ApprovedLabel, gap2, ShowInt(a)]
  }

  /** A line holding the decimal text of `v` has the value `v`. */
  lemma NumberLineValue(lines: seq<string>, j: nat, v: int)
    requires j < |lines| && lines[j] == ShowInt(v)
    ensures ValueAt(lines, j) == Some(v)
  {
    ReadBackInt(v);
  }

  /** In a six-line layout `pt, _, p, at, _, a`, where the titles are distinct
      and already stripped, and the third and sixth lines read as numbers, each
      title's own line reads its number. */
  lemma TwoFieldHits(lines: seq<string>, pt: string, at: string, p: int, a: int)
    requires |lines| == 6
    requires lines[0] == pt && lines[3] == at
    requires ValueAt(lines, 2) == Some(p) && ValueAt(lines, 5) == Some(a)
    requires Strip(pt) == pt && Strip(at) == at && pt != at
    ensures Reading(lines, 0, pt) == Some(p) && Reading(lines, 0, at) == None
    ensures Reading(lines, 3, at) == Some(a) && Reading(lines, 3, pt) == None
  {
  }

  /** In the same layout the two lines after the first title read nothing for a
      title that is not an integer: the line two below the gap is the second
      title, and the number line is not a title. */
  lemma TwoFieldMisses(lines: seq<string>, at: string, title: string)
    requires |lines| == 6
    requires lines[3] == at && Strip(at) == at && ParseInt(at) == None
    requires ValueAt(lines, 2).Some?
    requires ParseInt(title) == None
    ensures Reading(lines, 1, title) == None && Reading(lines, 2, title) == None
  {
  }

  /** What each line of the layout yields for each label: each label line its
      own number, every other line nothing. */
  lemma LayoutReadings(p: int, a: int, gap1: string, gap2: string)
    ensures var lines := Layout(p, a, gap1, gap2);
      && Reading(lines, 0, PendingLabel) == Some(p) && Reading(lines, 0, ApprovedLabel) == None
      && Reading(lines, 1, PendingLabel) == None && Reading(lines, 1, ApprovedLabel) == None
      && Reading(lines, 2, PendingLabel) == None && Reading(lines, 2, ApprovedLabel) == None
      && Reading(lines, 3, PendingLabel) == None && Reading(lines, 3, ApprovedLabel) == Some(a)
      && Reading(lines, 4, PendingLabel) == None && Reading(lines, 4, ApprovedLabel) == None
      && Reading(lines, 5, PendingLabel) == None && Reading(lines, 5, ApprovedLabel) == None
  {
    var lines := Layout(p, a, gap1, gap2);
    NumberLineValue(lines, 2, p);
    NumberLineValue(lines, 5, a);
    LabelFacts();
    TwoFieldHits(lines, PendingLabel, ApprovedLabel, p, a);
    TwoFieldMisses(lines, ApprovedLabel, PendingLabel);
    TwoFieldMisses(lines, ApprovedLabel, ApprovedLabel);
  }

  lemma LayoutLatest(p: int, a: int, gap1: string, gap2: string)
    ensures var lines := Layout(p, a, gap1, gap2);
      && Latest(lines, ApprovedLabel, 1) == None
      && Latest(lines, ApprovedLabel, 2) == None
      && Latest(lines, ApprovedLabel, 3) == None
      && Latest(lines, PendingLabel, 4) == Some(p)
      && Latest(lines, ApprovedLabel, 4) == Some(a)
  {
    var lines := Layout(p, a, gap1, gap2);
    LayoutReadings(p, a, gap1, gap2);
    assert Latest(lines, ApprovedLabel, 1) == None;
    assert Latest(lines, ApprovedLabel, 2) == None;
    assert Latest(lines, PendingLabel, 1) == Some(p);
    assert Latest(lines, PendingLabel, 2) == Some(p);
    assert Latest(lines, PendingLabel, 3) == Some(p);
  }

  /** In the dashboard's layout the scan stops after the fourth line, the
      approved label's. */
  lemma LayoutStop(p: int, a: int, gap1: string, gap2: string)
    ensures Consumed(Layout(p, a, gap1, gap2)) == 4
  {
    var lines := Layout(p, a, gap1, gap2);
    LayoutLatest(p, a, gap1, gap2);
    assert StopFrom(lines, 4) == 4;
    assert StopFrom(lines, 3) == 4;
    assert StopFrom(lines, 2) == 4;
    assert StopFrom(lines, 1) == 4;
  }

  /** In the dashboard's layout both numbers come back exactly, whatever the
      skipped lines hold. */
  lemma LayoutExtract(p: int, a: int, gap1: string, gap2: string)
    requires '\n' !in gap1 && '\n' !in gap2
    ensures Extract(Join(Layout(p, a, gap1, gap2))) == (Some(p), Some(a))
  {
    var lines := Layout(p, a, gap1, gap2);
    assert '\n' !in PendingLabel && '\n' !in ApprovedLabel;
    SplitJoin(lines);
    LayoutStop(p, a, gap1, gap2);
    LayoutLatest(p, a, gap1, gap2);
  }

  /** The layout with the numbers 7 and 42. */
  lemma ExampleBothFields()
    ensures Extract(Join([PendingLabel, "", "7", ApprovedLabel, "", "42"])) == (Some(7), Some(42))
  {
    assert DigitChar(7) == '7' && DigitChar(4) == '4' && DigitChar(2) == '2';
    assert ShowInt(7) == "7";
    assert ShowNat(42) == ShowNat(4) + [DigitChar(2)];
    assert ShowInt(42) == "42";
    assert Layout(7, 42, "", "") == [PendingLabel, "", "7", ApprovedLabel, "", "42"];
    LayoutExtract(7, 42, "", "");
  }

  /** In three lines whose last one is not an integer, nothing is read for
      `title`, whatever the other lines hold: only the first line has a line two
      further down. */
  lemma NoReadingInThree(lines: seq<string>, title: string)
    requires |lines| == 3
    requires ParseInt(Strip(lines[2])) == None
    ensures Latest(lines, title, 3) == None
  {
    assert Reading(lines, 0, title) == None;
    assert Reading(lines, 1, title) == None;
    assert Reading(lines, 2, title) == None;
    assert Latest(lines, title, 1) == None;
    assert Latest(lines, title, 2) == None;
  }

  /** A number line that is not an integer leaves the field unset, without
      raising. */
  lemma ExampleNotANumber()
    ensures Extract(Join([PendingLabel, "", "not-a-number"])) == (None, None)
  {
    var lines := [PendingLabel, "", "not-a-number"];
    SplitJoin(lines);
    NotANumberReadings(lines);
    NeverRead(lines, PendingLabel);
    NeverRead(lines, ApprovedLabel);
  }

  /** No line of the page in `ExampleNotANumber` yields a reading for either
      field. */
  lemma NotANumberReadings(lines: seq<string>)
    requires lines == [PendingLabel, "", "not-a-number"]
    ensures forall i :: 0 <= i < |lines| ==> Reading(lines, i, PendingLabel).None?
    ensures forall i :: 0 <= i < |lines| ==> Reading(lines, i, ApprovedLabel).None?
  {
    var word := lines[2];
    StripTrimmed(word);
    assert ParseInt(word) == None by {
      assert Unsigned(word) == word && !IsDigit(word[0]);
    }
    assert word != PendingLabel && word != ApprovedLabel;
    NoReadingInThree(lines, PendingLabel);
    NoReadingInThree(lines, ApprovedLabel);
  }

  /** A label on one of the last two lines has no number line: when the label
      appears nowhere else, its field stays unset, without raising. */
  lemma LabelAtEnd(lines: seq<string>, title: string)
    requires title == PendingLabel || title == ApprovedLabel
    requires forall i :: 0 <= i < |lines| - 2 ==> Strip(lines[i]) != title
    ensures title == PendingLabel ==> ExtractLines(lines).0 == None
    ensures title == ApprovedLabel ==> ExtractLines(lines).1 == None
  {
    forall i | 0 <= i < |lines|
      ensures Reading(lines, i, title) == None
    {
    }
    LatestNoneIff(lines, title, Consumed(lines));
  }

  /** The reply text: the fixed failure sentence exactly when a field is missing,
      and otherwise a two-line message carrying both numbers. */
  function Reply(pending: Option<int>, approved: Option<int>): (r: string)
    ensures r == FailureMessage <==> pending.None? || approved.None?
  {
    if pending.None? || approved.None? then FailureMessage
    else
      var first := PendingPrefix + ShowInt(pending.value);
      var second := ApprovedPrefix + ShowInt(approved.value);
      first + "\n" + second
  }

  /** The reply for the page of `ExampleBothFields`. The numbers come in as
      parameters so that the verifier does not unfold `Reply` on constants. */
  lemma ExampleReply(p: int, a: int)
    requires p == 7 && a == 42
    ensures Reply(Some(p), Some(a)) == PendingPrefix + "7\n" + ApprovedPrefix + "42"
  {
    assert DigitChar(7) == '7' && DigitChar(4) == '4' && DigitChar(2) == '2';
    assert ShowInt(p) == "7";
    assert ShowNat(a) == ShowNat(4) + [DigitChar(2)];
    assert ShowInt(a) == "42";
    assert PendingPrefix + "7" + "\n" == PendingPrefix + "7\n";
  }

  /** The success reply is two lines, one per field, each its prefix followed by
      the field's number in decimal, and each number reads back from its line. */
  lemma ReplyLines(p: int, a: int)
    ensures Split(Reply(Some(p), Some(a))) == [PendingPrefix + ShowInt(p), ApprovedPrefix + ShowInt(a)]
    ensures var lines := Split(Reply(Some(p), Some(a)));
      && ParseInt(lines[0][|PendingPrefix|..]) == Some(p)
      && ParseInt(lines[1][|ApprovedPrefix|..]) == Some(a)
  {
    PrefixedNumber(PendingPrefix, p);
    PrefixedNumber(ApprovedPrefix, a);
    SplitTwoLines(PendingPrefix + ShowInt(p), ApprovedPrefix + ShowInt(a));
  }

  /** A prefix without a newline followed by a number: one line, and the number
      reads back from the text after the prefix. */
  lemma PrefixedNumber(prefix: string, v: int)
    requires '\n' !in prefix
    ensures '\n' !in prefix + ShowInt(v)
    ensures ParseInt((prefix + ShowInt(v))[|prefix|..]) == Some(v)
  {
    assert (prefix + ShowInt(v))[|prefix|..] == ShowInt(v);
    ParseShowInt(v);
  }

  /** What rendering the dashboard came to: its visible text, or an exception
      (a timeout or a navigation error). */
  datatype Render = Rendered(text: string) | RenderFailed

  /** One ephemeral chat message, addressed to a user in a channel. */
  datatype Message = Message(user: string, channel: string, text: string)

  /** The messages `process_request` attempts to send. */
  function ProcessRequest(user: string, channel: string, render: Render): (sent: seq<Message>)
    ensures render.RenderFailed? ==> sent == []
    ensures render.Rendered? ==> |sent| == 1
    ensures forall k :: 0 <= k < |sent| ==> sent[k].user == user && sent[k].channel == channel
  {
    match render
    case RenderFailed => []
    case Rendered(text) =>
      var (pending, approved) := Extract(text);
      [Message(user, channel, Reply(pending, approved))]
  }

  /** A rendered page yields one message to the requester whose text is the
      failure sentence exactly when a field could not be read, and otherwise
      carries both numbers, one per line. */
  lemma RequestReply(user: string, channel: string, text: string)
    ensures var sent := ProcessRequest(user, channel, Rendered(text));
      var (p, a) := Extract(text);
      && |sent| == 1
      && (sent[0].text == FailureMessage <==> p.None? || a.None?)
      && (p.Some? && a.Some? ==>
            Split(sent[0].text) == [PendingPrefix + ShowInt(p.value), ApprovedPrefix + ShowInt(a.value)])
  {
    var (p, a) := Extract(text);
    if p.Some? && a.Some? {
      ReplyLines(p.value, a.value);
    }
  }

  /** End to end: a dashboard in the expected layout produces exactly one message,
      reporting both numbers. */
  lemma LayoutRequest(user: string, channel: string, p: int, a: int, gap1: string, gap2: string)
    requires '\n' !in gap1 && '\n' !in gap2
    ensures ProcessRequest(user, channel, Rendered(Join(Layout(p, a, gap1, gap2))))
         == [Message(user, channel, (PendingPrefix + ShowInt(p)) + "\n" + (ApprovedPrefix + ShowInt(a)))]
  {
    LayoutExtract(p, a, gap1, gap2);
  }
}
