/** The new-booking form's time-slot grid: every half hour from 09:00 through
    17:30. Whether a slot is offered comes from a random draw in the
    application; here the draws are a parameter, `draw(k)` being the outcome
    for the k-th slot generated. */
module TimeSlots {
  import opened Wrappers
  import opened Clock
  import opened Seqs

  datatype Slot = Slot(time: string, available: bool)

  const StartHour := 9
  const EndHour := 17
  /** The minute marks tried within every hour, in order. */
  const MinuteMarks: seq<nat> := [0, 30]

  /** Minutes since midnight of a well-formed slot time. */
  function SlotMinute(time: string): int
    requires WellFormedTime(time)
  {
    MinuteOfDay(HoursOf(time), MinutesOf(time))
  }

  /** The slots of one hour, one per minute mark; `first` numbers the first
      of them among all slots generated. */
  function HourSlots(h: nat, first: nat, draw: nat -> bool, fmt: (nat, nat) -> string): seq<Slot> {
    seq(|MinuteMarks|, i requires 0 <= i < |MinuteMarks| => Slot(fmt(h, MinuteMarks[i]), draw(first + i)))
  }

  /** The grid for the hours from `StartHour` up to, not including, `h`. */
  function Grid(h: nat, draw: nat -> bool, fmt: (nat, nat) -> string): seq<Slot>
    requires StartHour <= h
    decreases h
  {
    if h == StartHour then [] else Grid(h - 1, draw, fmt) + HourSlots(h - 1, 2 * (h - 1 - StartHour), draw, fmt)
  }

  lemma {:induction false} GridLength(h: nat, draw: nat -> bool, fmt: (nat, nat) -> string)
    requires StartHour <= h
    ensures |Grid(h, draw, fmt)| == 2 * (h - StartHour)
    decreases h
  {
    if h > StartHour {
      GridLength(h - 1, draw, fmt);
    }
  }

  /** Entry `2q + i` of the grid is mark i of hour `StartHour + q`. */
  lemma {:induction false} GridAt(h: nat, q: nat, i: nat, draw: nat -> bool, fmt: (nat, nat) -> string)
    requires StartHour + q < h && i < |MinuteMarks|
    ensures |Grid(h, draw, fmt)| == 2 * (h - StartHour)
    ensures Grid(h, draw, fmt)[2 * q + i] == Slot(fmt(StartHour + q, MinuteMarks[i]), draw(2 * q + i))
    decreases h
  {
    GridLength(h, draw, fmt);
    GridLength(h - 1, draw, fmt);
    var before, row := Grid(h - 1, draw, fmt), HourSlots(h - 1, 2 * (h - 1 - StartHour), draw, fmt);
    assert Grid(h, draw, fmt) == before + row;
    if StartHour + q < h - 1 {
      GridAt(h - 1, q, i, draw, fmt);
      assert Grid(h, draw, fmt)[2 * q + i] == before[2 * q + i];
    } else {
      assert Grid(h, draw, fmt)[2 * q + i] == row[i];
    }
  }

  lemma GridEnds()
    ensures FormatTime(9, 0) == "09:00" && FormatTime(17, 30) == "17:30"
  {
    Pad2TwoDigits(9);
    Pad2TwoDigits(0);
    Pad2TwoDigits(17);
    Pad2TwoDigits(30);
  }

  /** Mark i of hour `StartHour + q`, formatted, is well formed and lies
      `2q + i` half hours after 09:00. */
  lemma ClockFacts(q: nat, i: nat)
    requires q <= EndHour - StartHour && i < |MinuteMarks|
    ensures var t := FormatTime(StartHour + q, MinuteMarks[i]);
            WellFormedTime(t) && SlotMinute(t) == 9 * 60 + 30 * (2 * q + i)
  {
    var g, m := StartHour + q, MinuteMarks[i];
    assert m == 30 * i;
    FormatShows(g, m);
  }

  /** What the k-th slot of the finished grid holds. This lemma and the two
      after it take the end hour as a parameter `h`, fixed by their
      precondition to `EndHour + 1`, rather than writing the literal: a
      literal argument lets the verifier unroll `Grid` through all nine
      hours, which a variable does not. */
  lemma GridSlot(h: nat, k: nat, draw: nat -> bool)
    requires h == EndHour + 1 && k < 2 * (h - StartHour)
    ensures |Grid(h, draw, FormatTime)| == 2 * (h - StartHour)
    ensures WellFormedTime(Grid(h, draw, FormatTime)[k].time)
    ensures SlotMinute(Grid(h, draw, FormatTime)[k].time) == 9 * 60 + 30 * k
    ensures Grid(h, draw, FormatTime)[k].available == draw(k)
  {
    var q, i := k / 2, k % 2;
    assert k == 2 * q + i;
    GridAt(h, q, i, draw, FormatTime);
    ClockFacts(q, i);
  }

  /** The finished grid runs from "09:00" to "17:30". */
  lemma GridEndpoints(h: nat, draw: nat -> bool)
    requires h == EndHour + 1
    ensures |Grid(h, draw, FormatTime)| == 18
    ensures Grid(h, draw, FormatTime)[0].time == "09:00" && Grid(h, draw, FormatTime)[17].time == "17:30"
  {
    GridAt(h, 0, 0, draw, FormatTime);
    GridAt(h, 8, 1, draw, FormatTime);
    GridEnds();
  }

  /** The finished grid: 18 slots, the k-th k half hours after 09:00 and
      available as the k-th draw says. */
  lemma GridFacts(h: nat, draw: nat -> bool)
    requires h == EndHour + 1
    ensures |Grid(h, draw, FormatTime)| == 18
    ensures forall k :: 0 <= k < |Grid(h, draw, FormatTime)| ==>
              WellFormedTime(Grid(h, draw, FormatTime)[k].time) && SlotMinute(Grid(h, draw, FormatTime)[k].time) == 9 * 60 + 30 * k
    ensures forall k :: 0 <= k < |Grid(h, draw, FormatTime)| ==> Grid(h, draw, FormatTime)[k].available == draw(k)
  {
    GridLength(h, draw, FormatTime);
    forall k | 0 <= k < 18
      ensures WellFormedTime(Grid(h, draw, FormatTime)[k].time) && SlotMinute(Grid(h, draw, FormatTime)[k].time) == 9 * 60 + 30 * k
      ensures Grid(h, draw, FormatTime)[k].available == draw(k)
    {
      GridSlot(h, k, draw);
    }
  }

  /** Slots spaced by a positive number of minutes are strictly increasing. */
  lemma StrictlyIncreasing(slots: seq<Slot>)
    requires forall k :: 0 <= k < |slots| ==>
               WellFormedTime(slots[k].time) && SlotMinute(slots[k].time) == 9 * 60 + 30 * k
    ensures forall j, k :: 0 <= j < k < |slots| ==> SlotMinute(slots[j].time) < SlotMinute(slots[k].time)
  {
  }

  /** One turn of the inner loop extends the row by the slot of mark i. */
  lemma RowStep(slots: seq<Slot>, result: seq<Slot>, hour: nat, i: nat, draw: nat -> bool, fmt: (nat, nat) -> string)
    requires i < |MinuteMarks|
    requires result == slots + HourSlots(hour, |slots|, draw, fmt)[..i]
    ensures result + [Slot(fmt(hour, MinuteMarks[i]), draw(|result|))]
            == slots + HourSlots(hour, |slots|, draw, fmt)[..i + 1]
  {
    var row := HourSlots(hour, |slots|, draw, fmt);
    TakeSnoc(row, i);
    assert row[i] == Slot(fmt(hour, MinuteMarks[i]), draw(|result|));
  }

  /** The inner loop: one slot per minute mark of `hour`, numbered on from
      the slots already generated. */
  method AppendHour(slots: seq<Slot>, hour: nat, draw: nat -> bool) returns (result: seq<Slot>)
    ensures result == slots + HourSlots(hour, |slots|, draw, FormatTime)
  {
    result := slots;
    var i := 0;
    while i < |MinuteMarks|
      invariant 0 <= i <= |MinuteMarks|
      invariant result == slots + HourSlots(hour, |slots|, draw, FormatTime)[..i]
    {
      var minute := MinuteMarks[i];
      var time := FormatTime(hour, minute);
      RowStep(slots, result, hour, i, draw, FormatTime);
      result := result + [Slot(time, draw(|result|))];
      i := i + 1;
    }
  }

  /** The outer loop: hours 9 to 17 inclusive, each contributing its row. */
  method BuildGrid(draw: nat -> bool) returns (slots: seq<Slot>)
    ensures slots == Grid(EndHour + 1, draw, FormatTime)
  {
    slots := [];
    var hour := StartHour;
    while hour <= EndHour
      invariant StartHour <= hour <= EndHour + 1
      invariant slots == Grid(hour, draw, FormatTime)
    {
      GridLength(hour, draw, FormatTime);
      slots := AppendHour(slots, hour, draw);
      hour := hour + 1;
    }
  }

  /** Builds the grid as the nested `for` loops do: hours 9 to 17 inclusive,
      and within each hour the marks 0 and 30. The grid therefore has 18
      entries, the k-th at 09:00 plus 30k minutes, all zero-padded "HH:MM". */
  method GenerateSlots(draw: nat -> bool) returns (slots: seq<Slot>)
    ensures |slots| == 18
    ensures slots[0].time == "09:00" && slots[17].time == "17:30"
    ensures forall k :: 0 <= k < |slots| ==>
              WellFormedTime(slots[k].time) && SlotMinute(slots[k].time) == 9 * 60 + 30 * k
    ensures forall j, k :: 0 <= j < k < |slots| ==> SlotMinute(slots[j].time) < SlotMinute(slots[k].time)
    ensures forall k :: 0 <= k < |slots| ==> slots[k].available == draw(k)
  {
    slots := BuildGrid(draw);
    GridEndpoints(EndHour + 1, draw);
    GridFacts(EndHour + 1, draw);
    StrictlyIncreasing(slots);
  }
}
