/** `monitor_output`: a thread that tails hashcat's output file and sends one notice per
    line it reads, until the supervisor sets the stop event. The file is its text so far
    (hashcat appends to it between iterations); the thread's file object is a read
    position into it; the stop event is a flag set between iterations. Sleeping and the
    notification transport are not modelled. */
module Tailer {
  import opened Wrappers
  import Paths

  /** The text every notice starts with. */
  const NOTICE: string := "Found recovered hash: "

  /** Non-empty, with a '\n' at most as its last character: what a non-empty
      `readline()` returns. */
  predicate IsLine(line: string) {
    line != [] && forall k :: 0 <= k < |line| - 1 ==> line[k] != '\n'
  }

  /** A line hashcat has finished writing. */
  predicate IsCompleteLine(line: string) {
    IsLine(line) && line[|line| - 1] == '\n'
  }

  /** `f.readline()` with `rest` the unread text of the file: up to and including the
      first '\n', or all of `rest` when it holds none; empty only at end of file. */
  function ReadLine(rest: string): (line: string)
    ensures |line| <= |rest|
    ensures line == [] <==> rest == []
  {
    if rest == [] then []
    else if rest[0] == '\n' then ['\n']
    else [rest[0]] + ReadLine(rest[1..])
  }

  /** What `readline()` returns: a prefix of the unread text that holds no '\n' before
      its end and stops at the first '\n' or at the end of the file. */
  lemma {:induction false} ReadLineSpec(rest: string)
    ensures var line := ReadLine(rest);
      line == rest[..|line|] &&
      (forall k :: 0 <= k < |line| - 1 ==> line[k] != '\n') &&
      (|line| == |rest| || line[|line| - 1] == '\n')
  {
    if rest != [] && rest[0] != '\n' {
      ReadLineSpec(rest[1..]);
      var tail := ReadLine(rest[1..]);
      assert ReadLine(rest) == [rest[0]] + tail;
      assert rest == [rest[0]] + rest[1..];
    }
  }

  /** The contract of ReadLine pins it down: a prefix of `rest` that is empty only at end
      of file, holds no '\n' before its end, and stops at a '\n' or at end of file is
      ReadLine(rest). */
  lemma {:induction false} ReadLineUnique(rest: string, line: string)
    requires |line| <= |rest| && line == rest[..|line|]
    requires line == [] <==> rest == []
    requires forall k :: 0 <= k < |line| - 1 ==> line[k] != '\n'
    requires |line| == |rest| || line[|line| - 1] == '\n'
    ensures line == ReadLine(rest)
  {
    if rest != [] && rest[0] != '\n' {
      assert line[0] == rest[0];
      ReadLineUnique(rest[1..], line[1..]);
      assert line == [rest[0]] + line[1..];
    }
  }

  /** A complete line at the read position is read whole, whatever follows it. */
  lemma ReadLineOfCompleteLine(line: string, more: string)
    requires IsCompleteLine(line)
    ensures ReadLine(line + more) == line
  {
    ReadLineUnique(line + more, line);
  }

  /** Text without a '\n' at the end of the file is read as it stands. */
  lemma ReadLineOfPartialLine(rest: string)
    requires '\n' !in rest
    ensures ReadLine(rest) == rest
  {
    ReadLineUnique(rest, rest);
  }

  /** The lines repeated `readline()` calls return for `s`, until end of file. */
  function SplitLines(s: string): (lines: seq<string>)
    ensures lines == [] <==> s == []
    ensures |lines| <= |s|
    decreases |s|
  {
    if s == [] then [] else [ReadLine(s)] + SplitLines(s[|ReadLine(s)|..])
  }

  /** The lines read together are the whole text; each is a line, and all but the last
      end with '\n'. */
  lemma {:induction false} SplitLinesSpec(s: string)
    ensures var lines := SplitLines(s);
      Paths.Concat(lines) == s &&
      (forall i :: 0 <= i < |lines| ==> IsLine(lines[i])) &&
      (forall i :: 0 <= i < |lines| - 1 ==> IsCompleteLine(lines[i]))
    decreases |s|
  {
    if s != [] {
      var line := ReadLine(s);
      var rest := SplitLines(s[|line|..]);
      ReadLineSpec(s);
      SplitLinesSpec(s[|line|..]);
      assert SplitLines(s) == [line] + rest;
      assert ([line] + rest)[1..] == rest;
      assert line + s[|line|..] == s;
      assert |rest| > 0 ==> |line| < |s|;
    }
  }

  /** Reading one line at `p` leaves the lines that follow it. */
  lemma SplitLinesNext(s: string, p: nat)
    requires p < |s|
    ensures var line := ReadLine(s[p..]);
      SplitLines(s[p..]) == [line] + SplitLines(s[p + |line|..])
  {
    var rest := s[p..];
    var line := ReadLine(rest);
    assert rest != [];
    assert SplitLines(rest) == [line] + SplitLines(rest[|line|..]);
    assert rest[|line|..] == s[p + |line|..];
  }

  /** The message sent for one line read: the line follows NOTICE unchanged, its
      trailing '\n' included. */
  function Notice(line: string): (m: string)
    ensures |m| == |NOTICE| + |line| && m[..|NOTICE|] == NOTICE && m[|NOTICE|..] == line
  {
    NOTICE + line
  }

  /** The notices for a sequence of lines, in order. */
  function Notices(lines: seq<string>): (r: seq<string>)
    ensures |r| == |lines|
  {
    if lines == [] then [] else [Notice(lines[0])] + Notices(lines[1..])
  }

  /** What one iteration of `while not stop_event.is_set()` does. */
  datatype TailStep =
    | Exited             // the stop event is set: the loop ends
    | Notified(line: string)   // a notice was sent for `line`
    | Slept              // `readline()` returned "": `time.sleep(0.5)`
  {
    /** The notices this iteration sent. */
    function Sent(): seq<string> {
      if Notified? then [Notice(line)] else []
    }

    /** The text this iteration read. */
    function Consumed(): string {
      if Notified? then line else []
    }
  }

  /** What an iteration does with the stop flag and the unread text. */
  function NextStep(stopped: bool, rest: string): (r: TailStep)
    ensures r.Exited? <==> stopped
    ensures r.Slept? <==> !stopped && rest == []
    ensures r.Notified? ==>
      IsLine(r.line) && |r.line| <= |rest| && r.line == rest[..|r.line|] &&
      (|r.line| == |rest| || r.line[|r.line| - 1] == '\n')
  {
    if stopped then Exited
    else if ReadLine(rest) == [] then Slept
    else
      ReadLineSpec(rest);
      Notified(ReadLine(rest))
  }

  /** The tailer's record of a read position: the lines read so far are lines in the
      sense of `readline()`, together they are exactly the text read, and one notice was
      sent per line, in order. */
  ghost predicate Delivered(lines: seq<string>, notices: seq<string>, read: string) {
    Paths.Concat(lines) == read && notices == Notices(lines) &&
    forall i :: 0 <= i < |lines| ==> IsLine(lines[i])
  }

  class ResultTailer {
    /** The text of the output file so far. */
    var contents: string
    /** The read position of the thread's file object. */
    var pos: nat
    /** `stop_event.is_set()`. */
    var stopped: bool
    /** The notices sent, in order. */
    var notices: seq<string>
    /** The lines `readline()` returned so far, in order. */
    ghost var lines: seq<string>

    /** The read position never passes the end of the file, and the text before it was
        read as `lines`, each sent as one notice: nothing is skipped or sent twice. */
    ghost predicate Valid()
      reads this
    {
      pos <= |contents| && Delivered(lines, notices, contents[..pos])
    }

    /** The start of `monitor_output`: the file is created empty when missing
        (`existing` is its text, `None` when it does not exist) and opened at its
        start. */
    constructor (existing: Option<string>)
      ensures Valid()
      ensures contents == existing.GetOr("") && pos == 0 && !stopped && notices == []
      ensures lines == []
    {
      contents := existing.GetOr("");
      pos := 0;
      stopped := false;
      notices := [];
      lines := [];
      assert existing.GetOr("")[..0] == [];
    }

    /** hashcat appends recovered hashes to the file. */
    method Append(text: string)
      requires Valid()
      modifies this`contents
      ensures Valid()
      ensures contents == old(contents) + text
    {
      assert (contents + text)[..pos] == contents[..pos];
      contents := contents + text;
    }

    /** The supervisor's `stop_event.set()`. */
    method Stop()
      requires Valid()
      modifies this`stopped
      ensures Valid() && stopped
    {
      stopped := true;
    }

    /** One iteration of the loop: check the stop event, then read a line and send a
        notice for it, or sleep when there is none. The text it reads is exactly the
        text its notice carries. */
    method Step() returns (r: TailStep)
      requires Valid()
      modifies this`pos, this`notices, this`lines
      ensures Valid()
      ensures r == NextStep(stopped, contents[old(pos)..])
      ensures pos == old(pos) + |r.Consumed()| && contents[old(pos)..pos] == r.Consumed()
      ensures notices == old(notices) + r.Sent()
      ensures lines == old(lines) + (if r.Notified? then [r.line] else [])
      ensures !stopped && old(pos) < |contents| ==>
        var line := ReadLine(contents[old(pos)..]);
        pos == old(pos) + |line| && notices == old(notices) + [Notice(line)]
    {
      if stopped {
        r := Exited;
        assert r.Consumed() == [] && r.Sent() == [];
        return;
      }
      var line := ReadLine(contents[pos..]);
      if line == [] {
        r := Slept;
        assert r.Consumed() == [] && r.Sent() == [];
        return;
      }
      r := Notified(line);
      assert r.Consumed() == line && r.Sent() == [Notice(line)];
      ReadLineSpec(contents[pos..]);
      assert contents[pos..pos + |line|] == line;
      DeliveredStep(lines, notices, contents[..pos], line);
      assert contents[..pos + |line|] == contents[..pos] + line;
      pos := pos + |line|;
      notices := notices + [Notice(line)];
      lines := lines + [line];
    }

    /** The loop while the file has unread text: it reads every line up to the end of the
        file and sends their notices in order; once stopped it reads nothing. */
    method CatchUp()
      requires Valid()
      modifies this`pos, this`notices, this`lines
      ensures Valid()
      ensures stopped ==> pos == old(pos) && notices == old(notices)
      ensures !stopped ==>
        pos == |contents| && notices == old(notices) + Notices(SplitLines(contents[old(pos)..]))
    {
      if stopped {
        return;
      }
      ghost var goal := notices + Notices(SplitLines(contents[pos..]));
      while pos < |contents|
        invariant Valid()
        invariant goal == notices + Notices(SplitLines(contents[pos..]))
        decreases |contents| - pos
      {
        ghost var at, sent := pos, notices;
        var r := Step();
        CatchUpStep(contents, at, pos, sent, notices, goal);
      }
      assert contents[pos..] == [];
    }
  }

  /** Sending the notice for the line at `p` moves it from the notices still to send to
      the notices sent. */
  lemma CatchUpStep(contents: string, p: nat, q: nat, sent: seq<string>, sent': seq<string>,
                    goal: seq<string>)
    requires p < |contents|
    requires q == p + |ReadLine(contents[p..])|
    requires sent' == sent + [Notice(ReadLine(contents[p..]))]
    requires goal == sent + Notices(SplitLines(contents[p..]))
    ensures goal == sent' + Notices(SplitLines(contents[q..]))
  {
    var line := ReadLine(contents[p..]);
    var later := SplitLines(contents[q..]);
    SplitLinesNext(contents, p);
    NoticesConcat([line], later);
    assert Notices([line]) == [Notice(line)];
    AppendAssoc(sent, [Notice(line)], Notices(later));
  }

  /** Reading one more line keeps the record: the line joins the text read and its notice
      joins the notices sent. */
  lemma DeliveredStep(lines: seq<string>, notices: seq<string>, read: string, line: string)
    requires Delivered(lines, notices, read) && IsLine(line)
    ensures Delivered(lines + [line], notices + [Notice(line)], read + line)
  {
    ConcatAppend(lines, line);
    NoticesConcat(lines, [line]);
    assert Notices([line]) == [Notice(line)];
    assert forall i :: 0 <= i < |lines| ==> (lines + [line])[i] == lines[i];
  }

  lemma {:induction false} ConcatAppend(pieces: seq<string>, last: string)
    ensures Paths.Concat(pieces + [last]) == Paths.Concat(pieces) + last
  {
    if pieces == [] {
      assert [last][1..] == [];
    } else {
      assert (pieces + [last])[1..] == pieces[1..] + [last];
      ConcatAppend(pieces[1..], last);
    }
  }

  lemma AppendAssoc<T>(a: seq<T>, b: seq<T>, c: seq<T>)
    ensures a + (b + c) == (a + b) + c
  {
  }

  lemma {:induction false} NoticesConcat(a: seq<string>, b: seq<string>)
    ensures Notices(a + b) == Notices(a) + Notices(b)
  {
    if a != [] {
      assert (a + b)[1..] == a[1..] + b;
      NoticesConcat(a[1..], b);
    } else {
      assert a + b == b;
    }
  }

  /** An iteration that finds a complete line at the read position sends it whole. */
  lemma NextStepOfCompleteLine(line: string, more: string)
    requires IsCompleteLine(line)
    ensures NextStep(false, line + more) == Notified(line)
  {
    ReadLineOfCompleteLine(line, more);
  }

  /** An iteration that reaches the end of a partly written line sends what is there. */
  lemma NextStepOfPartialLine(part: string)
    requires part != [] && '\n' !in part
    ensures NextStep(false, part) == Notified(part)
  {
    ReadLineOfPartialLine(part);
  }

  /** A complete line at the front is the first line read, whatever follows it. */
  lemma SplitLinesOfCompleteLine(line: string, more: string)
    requires IsCompleteLine(line)
    ensures SplitLines(line + more) == [line] + SplitLines(more)
  {
    ReadLineOfCompleteLine(line, more);
    assert (line + more)[|line|..] == more;
  }

  /** A partly written line at the end of the file is read as one piece. */
  lemma SplitLinesOfPartialLine(part: string)
    requires part != [] && '\n' !in part
    ensures SplitLines(part) == [part]
  {
    ReadLineOfPartialLine(part);
    assert part[|part|..] == [];
  }

  /** The output file does not exist yet; hashcat appends one line and, later, another:
      the tailer sends exactly one notice per line, in the order written. */
  method TwoLinesInOrder(first: string, second: string) returns (sent: seq<string>)
    requires IsCompleteLine(first) && IsCompleteLine(second)
    ensures sent == [Notice(first), Notice(second)]
  {
    var t := new ResultTailer(None);
    t.CatchUp();
    AppendCompleteLine(t, first);
    AppendCompleteLine(t, second);
    sent := t.notices;
  }

  /** A running tailer that has read the whole file sends a complete line hashcat appends
      as one notice, and is at the end of the file again. */
  method AppendCompleteLine(t: ResultTailer, line: string)
    requires t.Valid() && !t.stopped && t.pos == |t.contents| && IsCompleteLine(line)
    modifies t
    ensures t.Valid() && !t.stopped && t.pos == |t.contents|
    ensures t.notices == old(t.notices) + [Notice(line)]
  {
    SplitLinesOfCompleteLine(line, []);
    assert line + [] == line;
    t.Append(line);
    assert t.contents[t.pos..] == line;
    t.CatchUp();
  }

  /** A line hashcat has only partly written when the tailer reaches the end of the file
      is sent in two pieces: the part already written, then the rest once hashcat
      appends it. */
  method PartialLineSplit(head: string, tail: string) returns (sent: seq<string>)
    requires head != [] && '\n' !in head && IsCompleteLine(tail)
    ensures sent == [Notice(head), Notice(tail)]
  {
    var t := new ResultTailer(Some(head));
    SplitLinesOfPartialLine(head);
    SplitLinesOfCompleteLine(tail, []);
    assert tail + [] == tail;
    t.CatchUp();
    assert t.notices == [Notice(head)] && t.pos == |head|;
    t.Append(tail);
    assert t.contents[t.pos..] == tail;
    t.CatchUp();
    sent := t.notices;
  }

  /** The file is read from its start: hashes an earlier run left in it are sent
      again, one notice per line. */
  method ExistingFileResent(existing: string) returns (sent: seq<string>)
    ensures sent == Notices(SplitLines(existing))
  {
    var t := new ResultTailer(Some(existing));
    t.CatchUp();
    assert existing[0..] == existing;
    sent := t.notices;
  }

  /** Stopped while the file has nothing new, the tailer leaves at its next iteration
      without reading or sending anything more. */
  method StopWhileIdle(existing: string) returns (r: TailStep, sent: seq<string>)
    ensures r == Exited && sent == Notices(SplitLines(existing))
  {
    var t := new ResultTailer(Some(existing));
    t.CatchUp();
    assert existing[0..] == existing;
    t.Stop();
    r := t.Step();
    sent := t.notices;
  }

  /** Lines the tailer has not yet read when the stop event is set are never sent:
      once stopped, the tailer leaves without reading them. */
  method LateLineDropped(existing: string, late: string) returns (r: TailStep, sent: seq<string>, unread: string)
    ensures r == Exited && sent == Notices(SplitLines(existing)) && unread == late
  {
    var t := new ResultTailer(Some(existing));
    t.CatchUp();
    assert existing[0..] == existing;
    t.Append(late);
    t.Stop();
    r := t.Step();
    sent := t.notices;
    unread := t.contents[t.pos..];
  }
}
