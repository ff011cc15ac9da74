/** The alarm merge of a ControllerStatus message: a flat map of alarm flags and a stack of
    active alarms, most recent first, whose head is the alarm on display. Line numbers refer to
    src/app/app.component.ts. */
module Alarms {
  import opened Protocol

  /** `Array.prototype.findIndex` on the stack, matching keys: the first position holding
      `key`, or -1 when no entry does. */
  function FindIndex(stack: seq<AlarmEntry>, key: string): (r: int)
    ensures -1 <= r < |stack|
    ensures 0 <= r ==> stack[r].key == key && forall j :: 0 <= j < r ==> stack[j].key != key
    ensures r == -1 <==> forall j :: 0 <= j < |stack| ==> stack[j].key != key
  {
    if |stack| == 0 then -1
    else if stack[0].key == key then 0
    else
      var i := FindIndex(stack[1..], key);
      if i == -1 then -1 else i + 1
  }

  /** `Array.prototype.splice(start, 1)`: a negative start counts back from the end (and is
      clamped at 0); a start at or past the end removes nothing. */
  function SpliceOne(s: seq<AlarmEntry>, start: int): (r: seq<AlarmEntry>)
    ensures 0 <= start < |s| ==> r == s[..start] + s[start + 1..]
    ensures start < 0 && |s| + start >= 0 ==> r == s[..|s| + start] + s[|s| + start + 1..]
    ensures start >= |s| ==> r == s
    ensures |r| == if -|s| <= start < |s| then |s| - 1 else if start < -|s| && |s| > 0 then |s| - 1 else |s|
  {
    var k := if start >= 0 then start else if |s| + start >= 0 then |s| + start else 0;
    if k < |s| then s[..k] + s[k + 1..] else s
  }

  /** Lines 351-355: the stack after deleting the entry `findIndex` reports. The guard
      `index !== undefined` always holds, so -1 reaches `splice` and takes the LAST entry. */
  function Remaining(stack: seq<AlarmEntry>, key: string): (r: seq<AlarmEntry>)
    ensures 0 <= FindIndex(stack, key) ==>
              r == stack[..FindIndex(stack, key)] + stack[FindIndex(stack, key) + 1..]
    ensures FindIndex(stack, key) == -1 && |stack| > 0 ==> r == stack[..|stack| - 1]
    ensures |r| == if |stack| == 0 then 0 else |stack| - 1
  {
    SpliceOne(stack, FindIndex(stack, key))
  }

  /** The alarm on display is the head of the stack, or none when the stack is empty. */
  ghost predicate ShowsHead(c: ControllerState) {
    c.alarm == if |c.activeAlarms| > 0 then Some(c.activeAlarms[0]) else None
  }

  /** What the merge keeps true of every record: the display shows the stack's head, the stack
      holds at most one entry, and that entry is an active alarm flagged in `alarms`. */
  ghost predicate AlarmsOk(c: ControllerState) {
    && ShowsHead(c)
    && |c.activeAlarms| <= 1
    && (|c.activeAlarms| == 1 ==>
          c.activeAlarms[0].value && c.activeAlarms[0].key in c.alarms && c.alarms[c.activeAlarms[0].key])
  }

  /** Lines 343-372: fold one alarm event, stamped `ts`, into a record. */
  function MergeAlarm(c: ControllerState, ev: AlarmEvent, ts: nat): (r: ControllerState)
    ensures r.alarms == c.alarms[ev.key := ev.value]
    ensures r.activeAlarms == if ev.value then [AlarmEntry(ev.key, true, ts)] + Remaining(c.activeAlarms, ev.key)
                              else Remaining(c.activeAlarms, ev.key)
    ensures ShowsHead(r)
    ensures ev.value ==> r.alarm == Some(AlarmEntry(ev.key, true, ts))
    ensures AlarmsOk(c) ==> AlarmsOk(r)
    ensures r.(alarms := c.alarms, activeAlarms := c.activeAlarms, alarm := c.alarm) == c
  {
    var alarms := c.alarms[ev.key := ev.value];
    var rest := Remaining(c.activeAlarms, ev.key);
    if ev.value then
      var entry := AlarmEntry(ev.key, ev.value, ts);
      c.(alarms := alarms, activeAlarms := [entry] + rest, alarm := Some(entry))
    else
      c.(alarms := alarms, activeAlarms := rest, alarm := if |rest| > 0 then Some(rest[0]) else None)
  }

  /** Raising a second alarm evicts the first from the stack, and clearing the first then
      evicts the second as well: the stack and the display end up empty while the second
      alarm is still flagged active. */
  lemma ClearingEvictsStillActiveAlarm(c: ControllerState, k1: string, k2: string, t1: nat, t2: nat, t3: nat)
    requires c.activeAlarms == [] && k1 != k2
    ensures var c1 := MergeAlarm(c, AlarmEvent(k1, true), t1);
            var c2 := MergeAlarm(c1, AlarmEvent(k2, true), t2);
            var c3 := MergeAlarm(c2, AlarmEvent(k1, false), t3);
            && c1.activeAlarms == [AlarmEntry(k1, true, t1)]
            && c2.activeAlarms == [AlarmEntry(k2, true, t2)]
            && c3.activeAlarms == [] && c3.alarm == None
            && c3.alarms[k2] && !c3.alarms[k1]
  {
    var c1 := MergeAlarm(c, AlarmEvent(k1, true), t1);
    var c2 := MergeAlarm(c1, AlarmEvent(k2, true), t2);
    assert c1.activeAlarms[0].key != k2;
    assert c2.activeAlarms[0].key != k1;
  }

  /** Since the stack never holds more than one entry, a raise leaves exactly the new entry on
      it and any clear, of the shown key or of another, leaves it and the display empty. */
  lemma MergeOnSingleEntry(c: ControllerState, ev: AlarmEvent, ts: nat)
    requires AlarmsOk(c)
    ensures var r := MergeAlarm(c, ev, ts);
            && (ev.value ==> r.activeAlarms == [AlarmEntry(ev.key, true, ts)])
            && (!ev.value ==> r.activeAlarms == [] && r.alarm == None)
  {
  }
}
