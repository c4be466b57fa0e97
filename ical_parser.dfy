/**
 * The VEVENT state machine of the feed parser (section 3.6.1 of RFC 5545):
 * outside or inside an event block, one partial record at a time, and an
 * event emitted at `END:VEVENT` when the record has both a start and an end.
 */
module ICalParser {
  import opened Wrappers
  import opened ICalLines
  import opened ICalTime

  /** An event as the parser hands it on. */
  datatype Event = Event(uid: string, summary: string, start: Instant, end: Instant, isBusy: bool)

  /** The record being built inside a block; `None` is a property not seen yet. */
  datatype Partial = Partial(
    uid: Option<string>, summary: Option<string>,
    start: Option<Instant>, end: Option<Instant>, transp: Option<string>)

  /** The empty record `{}` that `BEGIN:VEVENT` starts. */
  function Blank(): Partial {
    Partial(None, None, None, None, None)
  }

  /**
   * What the parser takes from its surroundings: the offset of local time
   * from UTC in milliseconds, the general date-string parser `new Date(text)`,
   * and the text `Date.now()` and `Math.random()` make for the default UID
   * of the `k`-th event.
   */
  datatype Env = Env(offset: int, fallback: string -> Instant, entropy: nat -> string)

  /** The loop state: whether a block is open, the record, and the events emitted so far. */
  datatype Machine = Machine(inEvent: bool, current: Partial, events: seq<Event>)

  /** A string that JavaScript treats as true: present and not empty. */
  predicate Truthy(s: Option<string>) {
    s.Some? && s.value != ""
  }

  /** A record is emitted only when both its start and its end are set. */
  predicate Complete(p: Partial) {
    p.start.Some? && p.end.Some?
  }

  /**
   * The event a complete record becomes as the `k`-th event: a missing or
   * empty UID becomes `unknown_` and a generated text, a missing or empty
   * summary `Busy`, and only `TRANSP:TRANSPARENT` makes it free time.
   */
  function Emit(env: Env, p: Partial, k: nat): Event
    requires Complete(p)
  {
    Event(
      if Truthy(p.uid) then p.uid.value else "unknown_" + env.entropy(k),
      if Truthy(p.summary) then p.summary.value else "Busy",
      p.start.value, p.end.value,
      p.transp != Some("TRANSPARENT"))
  }

  /** The `switch (name)` of one property line inside a block; other names change nothing. */
  function Apply(env: Env, p: Partial, prop: Property): Partial
  {
    if prop.name == "DTSTART" then p.(start := Some(ParseICalDate(prop.value, env.offset, env.fallback)))
    else if prop.name == "DTEND" then p.(end := Some(ParseICalDate(prop.value, env.offset, env.fallback)))
    else if prop.name == "DURATION" then
      if p.start.Some? && p.end.None? then p.(end := Some(EndAfter(p.start.value, prop.value))) else p
    else if prop.name == "SUMMARY" then p.(summary := Some(prop.value))
    else if prop.name == "UID" then p.(uid := Some(prop.value))
    else if prop.name == "TRANSP" then p.(transp := Some(prop.value))
    else p
  }

  /**
   * One logical line: `BEGIN:VEVENT` opens a block with an empty record,
   * `END:VEVENT` closes it and emits the record if complete (without
   * checking that a block was open and without clearing the record), lines
   * outside a block are skipped and lines inside one update the record.
   */
  function Step(env: Env, m: Machine, line: string): Machine
  {
    if line == "BEGIN:VEVENT" then Machine(true, Blank(), m.events)
    else if line == "END:VEVENT" then
      Machine(false, m.current,
        if Complete(m.current) then m.events + [Emit(env, m.current, |m.events|)] else m.events)
    else if !m.inEvent then m
    else m.(current := Apply(env, m.current, PropertyOf(line)))
  }

  /** The machine after the given lines, from outside any block with nothing emitted. */
  function Run(env: Env, lines: seq<string>): Machine
  {
    if lines == [] then Machine(false, Blank(), [])
    else Step(env, Run(env, lines[..|lines| - 1]), lines[|lines| - 1])
  }

  /** The events of a feed: its logical lines run through the machine. */
  function EventsOf(env: Env, text: string): seq<Event>
  {
    Run(env, UnfoldLines(text)).events
  }

  /** Runs the machine over the unfolded lines, one line at a time. */
  method ParseICal(env: Env, icalText: string) returns (events: seq<Event>)
    ensures events == EventsOf(env, icalText)
  {
    events := [];
    var lines := UnfoldLines(icalText);
    var inEvent := false;
    var current := Blank();
    for i := 0 to |lines|
      invariant Machine(inEvent, current, events) == Run(env, lines[..i])
    {
      RunStep(env, lines, i);
      var line := lines[i];
      if line == "BEGIN:VEVENT" {
        inEvent := true;
        current := Blank();
        continue;
      }
      if line == "END:VEVENT" {
        inEvent := false;
        if current.start.Some? && current.end.Some? {
          var uid := if Truthy(current.uid) then current.uid.value else "unknown_" + env.entropy(|events|);
          var summary := if Truthy(current.summary) then current.summary.value else "Busy";
          events := events + [Event(uid, summary, current.start.value, current.end.value,
                                    current.transp != Some("TRANSPARENT"))];
        }
        continue;
      }
      if !inEvent {
        continue;
      }
      var prop := ParseLine(line);
      if prop.name == "DTSTART" {
        current := current.(start := Some(ParseICalDate(prop.value, env.offset, env.fallback)));
      } else if prop.name == "DTEND" {
        current := current.(end := Some(ParseICalDate(prop.value, env.offset, env.fallback)));
      } else if prop.name == "DURATION" {
        if current.start.Some? && current.end.None? {
          var end := AddDuration(current.start.value, prop.value);
          current := current.(end := Some(end));
        }
      } else if prop.name == "SUMMARY" {
        current := current.(summary := Some(prop.value));
      } else if prop.name == "UID" {
        current := current.(uid := Some(prop.value));
      } else if prop.name == "TRANSP" {
        current := current.(transp := Some(prop.value));
      }
    }
    assert lines[..|lines|] == lines;
  }

  lemma RunStep(env: Env, lines: seq<string>, i: nat)
    requires i < |lines|
    ensures Run(env, lines[..i + 1]) == Step(env, Run(env, lines[..i]), lines[i])
  {
    assert lines[..i + 1][..i] == lines[..i];
  }

  /** Running `lines + rest` is running `rest` after `lines`. */
  lemma RunAppendLast(env: Env, lines: seq<string>, rest: seq<string>)
    requires rest != []
    ensures Run(env, lines + rest)
         == Step(env, Run(env, lines + rest[..|rest| - 1]), rest[|rest| - 1])
  {
    var n := |rest| - 1;
    assert lines + rest == (lines + rest[..n]) + [rest[n]];
    RunOneMore(env, lines + rest[..n], rest[n]);
  }

  // ---------------------------------------------------------------------
  // Blocks

  /** A line that neither opens nor closes a block. */
  predicate IsBodyLine(line: string) {
    line != "BEGIN:VEVENT" && line != "END:VEVENT"
  }

  /** The record after the property lines of `body`, applied in order to `p`. */
  function Fold(env: Env, p: Partial, body: seq<string>): Partial
  {
    if body == [] then p
    else Apply(env, Fold(env, p, body[..|body| - 1]), PropertyOf(body[|body| - 1]))
  }

  /** Inside an open block, body lines only update the record. */
  lemma {:induction false} InsideBlock(env: Env, lines: seq<string>, body: seq<string>)
    requires Run(env, lines).inEvent
    requires forall k :: 0 <= k < |body| ==> IsBodyLine(body[k])
    ensures Run(env, lines + body)
         == Run(env, lines).(current := Fold(env, Run(env, lines).current, body))
  {
    if body == [] {
      assert lines + body == lines;
    } else {
      InsideBlock(env, lines, body[..|body| - 1]);
      RunAppendLast(env, lines, body);
    }
  }

  /** Outside a block, lines other than `BEGIN:VEVENT` and `END:VEVENT` change nothing. */
  lemma {:induction false} OutsideIgnored(env: Env, lines: seq<string>, rest: seq<string>)
    requires !Run(env, lines).inEvent
    requires forall k :: 0 <= k < |rest| ==> IsBodyLine(rest[k])
    ensures Run(env, lines + rest) == Run(env, lines)
  {
    if rest == [] {
      assert lines + rest == lines;
    } else {
      OutsideIgnored(env, lines, rest[..|rest| - 1]);
      RunAppendLast(env, lines, rest);
    }
  }

  /**
   * A whole block, `BEGIN:VEVENT`, body lines, `END:VEVENT`, adds exactly
   * the event its record makes if the record is complete, and nothing
   * otherwise; whatever came before, the block starts from an empty record.
   */
  lemma BlockEmits(env: Env, pre: seq<string>, body: seq<string>)
    requires forall k :: 0 <= k < |body| ==> IsBodyLine(body[k])
    ensures var before := Run(env, pre).events;
            var r := Fold(env, Blank(), body);
            Run(env, pre + ["BEGIN:VEVENT"] + body + ["END:VEVENT"]).events
            == before + (if Complete(r) then [Emit(env, r, |before|)] else [])
    ensures !Run(env, pre + ["BEGIN:VEVENT"] + body + ["END:VEVENT"]).inEvent
  {
    var open := pre + ["BEGIN:VEVENT"];
    RunAppendLast(env, pre, ["BEGIN:VEVENT"]);
    assert pre + ["BEGIN:VEVENT"][..0] == pre;
    InsideBlock(env, open, body);
    RunAppendLast(env, open + body, ["END:VEVENT"]);
    assert open + body + ["END:VEVENT"][..0] == open + body;
  }

  /** The number of `END:VEVENT` lines. */
  function EndCount(lines: seq<string>): nat
  {
    if lines == [] then 0
    else EndCount(lines[..|lines| - 1]) + (if lines[|lines| - 1] == "END:VEVENT" then 1 else 0)
  }

  /** Every event is emitted at an `END:VEVENT` line, at most one per line. */
  lemma {:induction false} EventsAtMostEnds(env: Env, lines: seq<string>)
    ensures |Run(env, lines).events| <= EndCount(lines)
  {
    if lines != [] {
      EventsAtMostEnds(env, lines[..|lines| - 1]);
    }
  }

  /** Lines without `END:VEVENT` emit nothing, so an unterminated block yields no event. */
  lemma {:induction false} NoEndNoEvents(env: Env, lines: seq<string>, rest: seq<string>)
    requires forall k :: 0 <= k < |rest| ==> rest[k] != "END:VEVENT"
    ensures Run(env, lines + rest).events == Run(env, lines).events
  {
    if rest == [] {
      assert lines + rest == lines;
    } else {
      NoEndNoEvents(env, lines, rest[..|rest| - 1]);
      RunAppendLast(env, lines, rest);
    }
  }

  /** A final `BEGIN:VEVENT` block that is never closed adds no event. */
  lemma UnterminatedBlock(env: Env, pre: seq<string>, rest: seq<string>)
    requires forall k :: 0 <= k < |rest| ==> rest[k] != "END:VEVENT"
    ensures Run(env, pre + ["BEGIN:VEVENT"] + rest).events == Run(env, pre).events
  {
    NoEndNoEvents(env, pre + ["BEGIN:VEVENT"], rest);
    RunAppendLast(env, pre, ["BEGIN:VEVENT"]);
    assert pre + ["BEGIN:VEVENT"][..0] == pre;
  }

  /** Running one more line is one more step. */
  lemma RunOneMore(env: Env, lines: seq<string>, line: string)
    ensures Run(env, lines + [line]) == Step(env, Run(env, lines), line)
  {
    assert (lines + [line])[..|lines|] == lines;
  }

  /** Two `END:VEVENT` steps on a complete record emit it twice. */
  lemma TwoEnds(env: Env, m: Machine)
    requires Complete(m.current)
    ensures Step(env, Step(env, m, "END:VEVENT"), "END:VEVENT").events
         == m.events + [Emit(env, m.current, |m.events|), Emit(env, m.current, |m.events| + 1)]
  {
  }

  /**
   * A second `END:VEVENT` emits the same record again, after any lines
   * outside a block; only a generated UID can tell the two events apart.
   */
  lemma StrayEndReemits(env: Env, lines: seq<string>, between: seq<string>)
    requires Complete(Run(env, lines).current)
    requires forall k :: 0 <= k < |between| ==> IsBodyLine(between[k])
    ensures var m := Run(env, lines);
            Run(env, lines + ["END:VEVENT"] + between + ["END:VEVENT"]).events
            == m.events + [Emit(env, m.current, |m.events|), Emit(env, m.current, |m.events| + 1)]
  {
    var closed := lines + ["END:VEVENT"];
    RunOneMore(env, lines, "END:VEVENT");
    OutsideIgnored(env, closed, between);
    RunOneMore(env, closed + between, "END:VEVENT");
    TwoEnds(env, Run(env, lines));
  }

  /** With a UID of its own, an event is the same whichever position it is emitted at. */
  lemma OwnUidIsStable(env: Env, p: Partial, j: nat, k: nat)
    requires Complete(p) && Truthy(p.uid)
    ensures Emit(env, p, j) == Emit(env, p, k)
    ensures Emit(env, p, k).uid == p.uid.value
  {
  }

  /** Without a UID of its own, an event's id is whatever the entropy gives: two runs tell it apart. */
  lemma DefaultUidFollowsEntropy(env1: Env, env2: Env, p: Partial, k: nat)
    requires Complete(p) && !Truthy(p.uid)
    requires env1.entropy(k) != env2.entropy(k)
    ensures Emit(env1, p, k).uid != Emit(env2, p, k).uid
  {
    var u1, u2 := Emit(env1, p, k).uid, Emit(env2, p, k).uid;
    assert u1[8..] == env1.entropy(k) && u2[8..] == env2.entropy(k);
  }

  /** Every `END:VEVENT` that emits a record finds a UID of its own in it. */
  predicate NamedBlocks(env: Env, lines: seq<string>) {
    forall i :: 0 <= i < |lines| && lines[i] == "END:VEVENT" && Complete(Run(env, lines[..i]).current)
                ==> Truthy(Run(env, lines[..i]).current.uid)
  }

  lemma SameReading(env1: Env, env2: Env, p: Partial, prop: Property)
    requires env1.offset == env2.offset && env1.fallback == env2.fallback
    ensures Apply(env1, p, prop) == Apply(env2, p, prop)
  {
  }

  lemma StepIgnoresEntropy(env1: Env, env2: Env, m: Machine, line: string)
    requires env1.offset == env2.offset && env1.fallback == env2.fallback
    requires line == "END:VEVENT" && Complete(m.current) ==> Truthy(m.current.uid)
    ensures Step(env1, m, line) == Step(env2, m, line)
  {
    SameReading(env1, env2, m.current, PropertyOf(line));
  }

  lemma NamedPrefix(env: Env, lines: seq<string>, n: nat)
    requires n <= |lines| && NamedBlocks(env, lines)
    ensures NamedBlocks(env, lines[..n])
  {
    var init := lines[..n];
    forall i | 0 <= i < |init| ensures init[i] == lines[i] && init[..i] == lines[..i] {
    }
  }

  /**
   * When every emitted record has its own UID, the entropy plays no part:
   * two runs that read dates alike give the same machine.
   */
  lemma {:induction false} RunIgnoresEntropy(env1: Env, env2: Env, lines: seq<string>)
    requires env1.offset == env2.offset && env1.fallback == env2.fallback
    requires NamedBlocks(env1, lines)
    ensures Run(env1, lines) == Run(env2, lines)
  {
    if lines != [] {
      var n := |lines| - 1;
      NamedPrefix(env1, lines, n);
      RunIgnoresEntropy(env1, env2, lines[..n]);
      StepIgnoresEntropy(env1, env2, Run(env1, lines[..n]), lines[n]);
    }
  }

  /** A feed whose every emitted event carries a UID of its own. */
  predicate NamedFeed(env: Env, text: string) {
    NamedBlocks(env, UnfoldLines(text))
  }

  /** A feed whose emitted events all carry their own UID parses the same under any entropy. */
  lemma FeedIgnoresEntropy(env1: Env, env2: Env, text: string)
    requires env1.offset == env2.offset && env1.fallback == env2.fallback
    requires NamedFeed(env1, text)
    ensures EventsOf(env1, text) == EventsOf(env2, text)
  {
    RunIgnoresEntropy(env1, env2, UnfoldLines(text));
  }

  // ---------------------------------------------------------------------
  // The record a block builds

  /** The value of the last line of `body` whose property is named `key`. */
  function LastValue(body: seq<string>, key: string): Option<string>
  {
    if body == [] then None
    else if PropertyOf(body[|body| - 1]).name == key then Some(PropertyOf(body[|body| - 1]).value)
    else LastValue(body[..|body| - 1], key)
  }

  /** The properties kept as text. */
  predicate IsTextKey(key: string) {
    key == "UID" || key == "SUMMARY" || key == "TRANSP"
  }

  /** The text field of a record that `key` sets. */
  function Text(p: Partial, key: string): Option<string>
    requires IsTextKey(key)
  {
    if key == "UID" then p.uid else if key == "SUMMARY" then p.summary else p.transp
  }

  lemma ApplyText(env: Env, p: Partial, prop: Property, key: string)
    requires IsTextKey(key)
    ensures Text(Apply(env, p, prop), key) == if prop.name == key then Some(prop.value) else Text(p, key)
  {
  }

  /** The last UID, SUMMARY or TRANSP line of a block wins; without one the field keeps its value. */
  lemma {:induction false} LastTextWins(env: Env, p: Partial, body: seq<string>, key: string)
    requires IsTextKey(key)
    ensures Text(Fold(env, p, body), key)
         == if LastValue(body, key).Some? then LastValue(body, key) else Text(p, key)
  {
    if body != [] {
      LastTextWins(env, p, body[..|body| - 1], key);
      ApplyText(env, Fold(env, p, body[..|body| - 1]), PropertyOf(body[|body| - 1]), key);
    }
  }

  lemma ApplyStart(env: Env, p: Partial, prop: Property)
    ensures Apply(env, p, prop).start
         == if prop.name == "DTSTART" then Some(ParseICalDate(prop.value, env.offset, env.fallback)) else p.start
  {
  }

  /** The last DTSTART line of a block sets the start. */
  lemma {:induction false} LastStartWins(env: Env, p: Partial, body: seq<string>)
    ensures Fold(env, p, body).start
         == if LastValue(body, "DTSTART").Some?
            then Some(ParseICalDate(LastValue(body, "DTSTART").value, env.offset, env.fallback))
            else p.start
  {
    if body != [] {
      LastStartWins(env, p, body[..|body| - 1]);
      ApplyStart(env, Fold(env, p, body[..|body| - 1]), PropertyOf(body[|body| - 1]));
    }
  }

  lemma ApplyKeepsEnd(env: Env, p: Partial, prop: Property)
    requires prop.name != "DTEND" && prop.name != "DURATION"
    ensures Apply(env, p, prop).end == p.end
  {
  }

  /** Without a DTEND or DURATION line, a block leaves the end as it was. */
  lemma {:induction false} EndNeedsEndOrDuration(env: Env, p: Partial, body: seq<string>)
    requires LastValue(body, "DTEND").None? && LastValue(body, "DURATION").None?
    ensures Fold(env, p, body).end == p.end
  {
    if body != [] {
      EndNeedsEndOrDuration(env, p, body[..|body| - 1]);
      ApplyKeepsEnd(env, Fold(env, p, body[..|body| - 1]), PropertyOf(body[|body| - 1]));
    }
  }

  /**
   * DTEND always sets the end; DURATION sets it to the start moved by the
   * duration, but only when a start is set and no end is.
   */
  lemma EndRules(env: Env, p: Partial, prop: Property)
    ensures prop.name == "DTEND"
        ==> Apply(env, p, prop).end == Some(ParseICalDate(prop.value, env.offset, env.fallback))
    ensures prop.name == "DURATION" && p.start.Some? && p.end.None?
        ==> Apply(env, p, prop).end == Some(EndAfter(p.start.value, prop.value))
    ensures prop.name == "DURATION" && !(p.start.Some? && p.end.None?)
        ==> Apply(env, p, prop) == p
  {
  }

  lemma FoldLast(env: Env, p: Partial, body: seq<string>)
    requires body != []
    ensures Fold(env, p, body) == Apply(env, Fold(env, p, body[..|body| - 1]), PropertyOf(body[|body| - 1]))
  {
  }

  /** Folding two runs of lines is folding the first and then the second. */
  lemma {:induction false} FoldAppend(env: Env, p: Partial, b1: seq<string>, b2: seq<string>)
    ensures Fold(env, p, b1 + b2) == Fold(env, Fold(env, p, b1), b2)
  {
    if b2 == [] {
      assert b1 + b2 == b1;
    } else {
      var n := |b2| - 1;
      var c := b1 + b2;
      assert c[..|c| - 1] == b1 + b2[..n];
      assert c[|c| - 1] == b2[n];
      FoldAppend(env, p, b1, b2[..n]);
      FoldLast(env, p, c);
      FoldLast(env, Fold(env, p, b1), b2);
    }
  }

  /** The last line named `key` of two runs of lines is in the second run if it has one. */
  lemma {:induction false} LastValueAppend(b1: seq<string>, b2: seq<string>, key: string)
    ensures LastValue(b1 + b2, key) == if LastValue(b2, key).Some? then LastValue(b2, key) else LastValue(b1, key)
  {
    if b2 == [] {
      assert b1 + b2 == b1;
    } else {
      var n := |b2| - 1;
      assert (b1 + b2)[..|b1 + b2| - 1] == b1 + b2[..n];
      assert (b1 + b2)[|b1 + b2| - 1] == b2[n];
      LastValueAppend(b1, b2[..n], key);
    }
  }

  lemma ApplyKeepsUnset(env: Env, p: Partial, prop: Property)
    requires p.start.None? && p.end.None?
    requires prop.name != "DTSTART" && prop.name != "DTEND"
    ensures Apply(env, p, prop).start.None? && Apply(env, p, prop).end.None?
  {
  }

  /** Before the first DTSTART line, DURATION lines are ignored: start and end stay unset. */
  lemma {:induction false} UnsetUntilStart(env: Env, p: Partial, body: seq<string>)
    requires p.start.None? && p.end.None?
    requires LastValue(body, "DTSTART").None? && LastValue(body, "DTEND").None?
    ensures Fold(env, p, body).start.None? && Fold(env, p, body).end.None?
  {
    if body != [] {
      UnsetUntilStart(env, p, body[..|body| - 1]);
      ApplyKeepsUnset(env, Fold(env, p, body[..|body| - 1]), PropertyOf(body[|body| - 1]));
    }
  }

  /**
   * A block without a DTEND line, and without a DURATION line after its
   * first DTSTART line (`b1` holds the lines before it), is never emitted.
   */
  lemma BlockWithoutEnd(env: Env, pre: seq<string>, body: seq<string>, b1: seq<string>, b2: seq<string>)
    requires forall k :: 0 <= k < |body| ==> IsBodyLine(body[k])
    requires body == b1 + b2
    requires LastValue(b1, "DTSTART").None?
    requires LastValue(body, "DTEND").None? && LastValue(b2, "DURATION").None?
    ensures Run(env, pre + ["BEGIN:VEVENT"] + body + ["END:VEVENT"]).events == Run(env, pre).events
  {
    BlockEmits(env, pre, body);
    LastValueAppend(b1, b2, "DTEND");
    UnsetUntilStart(env, Blank(), b1);
    FoldAppend(env, Blank(), b1, b2);
    EndNeedsEndOrDuration(env, Fold(env, Blank(), b1), b2);
  }

  /**
   * The event a complete block makes: the last UID unless it is absent or
   * empty, the last SUMMARY or `Busy`, the last DTSTART read as a date, and
   * busy unless the last TRANSP is exactly `TRANSPARENT`.
   */
  lemma BodyEvent(env: Env, body: seq<string>, k: nat)
    requires Complete(Fold(env, Blank(), body))
    ensures var e := Emit(env, Fold(env, Blank(), body), k);
            && e.uid == (if Truthy(LastValue(body, "UID")) then LastValue(body, "UID").value
                         else "unknown_" + env.entropy(k))
            && e.summary == (if Truthy(LastValue(body, "SUMMARY")) then LastValue(body, "SUMMARY").value
                             else "Busy")
            && LastValue(body, "DTSTART").Some?
            && e.start == ParseICalDate(LastValue(body, "DTSTART").value, env.offset, env.fallback)
            && (e.isBusy <==> LastValue(body, "TRANSP") != Some("TRANSPARENT"))
  {
    LastTextWins(env, Blank(), body, "UID");
    LastTextWins(env, Blank(), body, "SUMMARY");
    LastTextWins(env, Blank(), body, "TRANSP");
    LastStartWins(env, Blank(), body);
  }

  /** A complete block appends exactly one event, the one its record makes. */
  lemma BlockEvent(env: Env, pre: seq<string>, body: seq<string>)
    requires forall k :: 0 <= k < |body| ==> IsBodyLine(body[k])
    requires Complete(Fold(env, Blank(), body))
    ensures var before := Run(env, pre).events;
            var after := Run(env, pre + ["BEGIN:VEVENT"] + body + ["END:VEVENT"]).events;
            |after| == |before| + 1 && after[|before|] == Emit(env, Fold(env, Blank(), body), |before|)
  {
    BlockEmits(env, pre, body);
  }

  /** Two lines fold as their two properties applied in order. */
  lemma FoldPair(env: Env, p: Partial, a: string, b: string)
    ensures Fold(env, p, [a, b]) == Apply(env, Apply(env, p, PropertyOf(a)), PropertyOf(b))
  {
    assert [a, b][..1] == [a];
    assert [a][..0] == [];
    assert Fold(env, p, [a]) == Apply(env, p, PropertyOf(a));
  }

  lemma StartThenDurationApplied(env: Env, s: Property, d: Property)
    requires s.name == "DTSTART" && d.name == "DURATION"
    ensures var r := Apply(env, Apply(env, Blank(), s), d);
            var start := ParseICalDate(s.value, env.offset, env.fallback);
            r.start == Some(start) && r.end == Some(EndAfter(start, d.value))
  {
  }

  /** A DTSTART line followed by a DURATION line gives the end that the duration adds to the start. */
  lemma StartThenDuration(env: Env, startLine: string, durationLine: string)
    requires PropertyOf(startLine).name == "DTSTART" && PropertyOf(durationLine).name == "DURATION"
    ensures var r := Fold(env, Blank(), [startLine, durationLine]);
            var start := ParseICalDate(PropertyOf(startLine).value, env.offset, env.fallback);
            r.start == Some(start) && r.end == Some(EndAfter(start, PropertyOf(durationLine).value))
  {
    FoldPair(env, Blank(), startLine, durationLine);
    StartThenDurationApplied(env, PropertyOf(startLine), PropertyOf(durationLine));
  }

  lemma DurationThenStartApplied(env: Env, d: Property, s: Property)
    requires s.name == "DTSTART" && d.name == "DURATION"
    ensures Apply(env, Apply(env, Blank(), d), s).end.None?
  {
  }

  /** A DURATION line before any DTSTART line is ignored. */
  lemma DurationBeforeStart(env: Env, durationLine: string, startLine: string)
    requires PropertyOf(startLine).name == "DTSTART" && PropertyOf(durationLine).name == "DURATION"
    ensures Fold(env, Blank(), [durationLine, startLine]).end.None?
  {
    FoldPair(env, Blank(), durationLine, startLine);
    DurationThenStartApplied(env, PropertyOf(durationLine), PropertyOf(startLine));
  }
}
