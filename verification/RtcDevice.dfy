// The clock commands as they run: registers and command buffer changed in place.
// firmware/src/rtc.c

module RtcDevice {
  import opened Words
  import opened RtcTime

  /** The accesses to a running clock: its time, in seconds, at the n-th register access. */
  ghost predicate Running(now: nat -> nat, settled: nat) {
    && (forall n: nat :: now(n) <= now(n + 1))
    && (forall n: nat :: now(n + 3) < now(n) + 86400)
    && (forall n: nat :: n >= settled ==> now(n) == now(settled))
  }

  class Rtc {
    var twelve: bool    // RTC_CR_FMT
    var time: Time      // TR
    var date: Date      // DR

    constructor (twelve: bool, time: Time, date: Date)
      ensures this.twelve == twelve && this.time == time && this.date == date
    {
      this.twelve, this.time, this.date := twelve, time, date;
    }

    ghost function State(): Clock
      reads this
    {
      Clock(twelve, time)
    }

    method WriteStatus(value: u8)
      modifies this`twelve, this`time
      ensures State() == AfterStatuses(old(State()), [value])
    {
      assert [value][1..] == [];
      var old12 := twelve;
      twelve := value / S3511A_1224 % 2 == 0;
      var t := time;
      if old12 && !twelve {
        if t.hour == 0x12 {
          t := t.(hour := 0);
          if t.pm {
            t := t.(hour := 0x12);
          }
        } else if t.pm {
          if t.hour == 0x08 || t.hour == 0x09 {
            t := t.(hour := (t.hour + 0x18) % 0x40);
          } else {
            t := t.(hour := (t.hour + 0x12) % 0x40);
          }
        }
        t := t.(pm := false);
        time := t;
      } else if !old12 && twelve {
        t := t.(pm := false);
        if t.hour == 0 {
          t := t.(hour := 0x12);
        } else if t.hour == 0x12 {
          t := t.(pm := true);
        } else if t.hour > 0x12 {
          if t.hour == 0x20 || t.hour == 0x21 {
            t := t.(hour := t.hour - 0x18);
          } else {
            t := t.(hour := t.hour - 0x12);
          }
          t := t.(pm := true);
        }
        time := t;
      }
    }

    /** Corrects the buffer in place and loads the registers from it. */
    method WriteDatetime(buffer: array<u8>, withDate: bool)
      requires buffer.Length >= (if withDate then 7 else 3)
      modifies this`time, this`date, buffer
      ensures var o := if withDate then 4 else 0;
              && time == TimeFrom(FixedTime(twelve, old(buffer[o..o + 3])))
              && buffer[o..o + 3] == FixedTime(twelve, old(buffer[o..o + 3]))
              && buffer[o + 3..] == old(buffer[o + 3..])
      ensures if withDate then date == DateFrom(FixedDate(old(buffer[..4]))) && buffer[..4] == FixedDate(old(buffer[..4]))
              else date == old(date)
    {
      hide FixedTime, FixedDate, TimeFrom, DateFrom;
      if withDate {
        WriteDate(buffer);
        assert buffer[4..7] == buffer[4..][..3] == old(buffer[4..7]);
        assert buffer[7..] == buffer[4..][3..] == old(buffer[7..]);
        WriteTime(buffer, 4);
        assert buffer[..4] == buffer[..4];
      } else {
        WriteTime(buffer, 0);
      }
    }

    method WriteTime(buffer: array<u8>, o: nat)
      requires o + 3 <= buffer.Length
      modifies this`time, buffer
      ensures time == TimeFrom(FixedTime(twelve, old(buffer[o..o + 3])))
      ensures buffer[o..o + 3] == FixedTime(twelve, old(buffer[o..o + 3]))
      ensures buffer[..o] == old(buffer[..o]) && buffer[o + 3..] == old(buffer[o + 3..])
    {
      hide RangeCorrect;
      ghost var b := buffer[o..o + 3];
      assert buffer[o] == b[0] && buffer[o + 1] == b[1] && buffer[o + 2] == b[2];
      if twelve {
        if buffer[o] % 0x20 == 0 {
          buffer[o] := buffer[o] + 0x12;
        } else {
          buffer[o] := RangeCorrect(buffer[o], 0, 0x11, 0x1F);
        }
      } else {
        buffer[o] := RangeCorrect(buffer[o], 0, 0x23, 0x3F);
      }
      assert buffer[o] == FixedHour(twelve, b[0]);
      hide FixedHour;
      buffer[o + 1] := RangeCorrect(buffer[o + 1], 0, 0x59, 0x7F);
      if buffer[o + 2] % 0x80 != 0x7F && (buffer[o + 2] % 0x80 >= 0x60 || buffer[o + 2] % 16 > 9) {
        buffer[o + 2] := 0x59;
      }
      assert buffer[o + 2] == FixedSecond(b[2]);
      hide FixedSecond;
      time := Time(buffer[o] / 0x80 == 1, buffer[o] % 0x40, buffer[o + 1] % 0x80, buffer[o + 2] % 0x80);
      assert buffer[o..o + 3] == FixedTime(twelve, b);
    }

    method WriteDate(buffer: array<u8>)
      requires buffer.Length >= 4
      modifies this`date, buffer
      ensures date == DateFrom(FixedDate(old(buffer[..4]))) && buffer[..4] == FixedDate(old(buffer[..4]))
      ensures buffer[4..] == old(buffer[4..])
    {
      hide RangeCorrect;
      buffer[0] := RangeCorrect(buffer[0], 0x00, 0x99, 0xFF);
      buffer[1] := RangeCorrect(buffer[1], 0x01, 0x12, 0x1F);
      buffer[2] := RangeCorrect(buffer[2], 0x01, 0x31, 0x3F);
      buffer[3] := RangeCorrect(buffer[3], 0x00, 0x06, 0x07);
      var dow := buffer[3] % 8;
      date := Date(buffer[0], buffer[1] % 0x20, buffer[2] % 0x40, if dow == 0 then 7 else dow);
    }

    /** Unpacks register values that were read together. */
    method ReadDatetime(buffer: array<u8>, withDate: bool)
      requires buffer.Length >= (if withDate then 7 else 3)
      modifies buffer
      ensures var o := if withDate then 4 else 0;
              && buffer[o..o + 3] == ReadTime(twelve, time)
              && buffer[o + 3..] == old(buffer[o + 3..])
              && (withDate ==> buffer[..4] == ReadDate(date))
    {
      var o := 0;
      if withDate {
        var dow := date.weekday;
        buffer[0], buffer[1], buffer[2] := date.year, date.month, date.day;
        buffer[3] := if dow == 7 then 0 else dow;
        o := 4;
      }
      buffer[o] := HourByte(twelve, time);
      buffer[o + 1] := time.minute;
      buffer[o + 2] := time.second;
    }
  }

  /** The read loop: time and date registers are separate, so read both until two rounds agree.
      The result was the clock's time at one instant of the reading, whatever ticks fell in
      between.  `tr` and `dr` give the registers' contents at a time. */
  method ReadConsistently<T(==), D(==)>(now: nat -> nat, tr: nat -> T, dr: nat -> D, ghost settled: nat)
    returns (t: T, d: D)
    requires Running(now, settled)
    requires forall a, b :: tr(a) == tr(b) <==> a % 86400 == b % 86400
    requires forall a, b :: a / 86400 == b / 86400 ==> dr(a) == dr(b)
    ensures exists at: nat :: t == tr(now(at)) && d == dr(now(at))
  {
    var n := 2;
    t, d := tr(now(0)), dr(now(1));
    var t2, d2;
    while true
      invariant n >= 2 && t == tr(now(n - 2)) && d == dr(now(n - 1))
      decreases settled + 4 - n
    {
      t2, d2 := t, d;
      t, d := tr(now(n)), dr(now(n + 1));
      n := n + 2;
      if t == t2 && d == d2 {
        SameDayTime(now, settled, n - 4, n - 2);
        assert now(n - 4) <= now(n - 4 + 1) <= now(n - 4 + 2);
        assert t == tr(now(n - 3)) && d == dr(now(n - 3));
        return;
      }
      SettledAgree(now, settled, n);
    }
  }

  /** Once the clock is still, two rounds agree. */
  lemma SettledAgree(now: nat -> nat, settled: nat, n: nat)
    requires Running(now, settled) && n >= 4
    ensures n >= settled + 4 ==> now(n - 4) == now(n - 2) && now(n - 3) == now(n - 1)
  {
    if n >= settled + 4 {
      assert now(n - 4) == now(settled) && now(n - 3) == now(settled);
      assert now(n - 2) == now(settled) && now(n - 1) == now(settled);
    }
  }

  /** Two accesses less than a day apart that see the same time of day see the same time. */
  lemma SameDayTime(now: nat -> nat, settled: nat, i: nat, k: nat)
    requires Running(now, settled) && k == i + 2 && now(i) % 86400 == now(k) % 86400
    ensures now(i) == now(k)
  {
    assert now(i) <= now(i + 1) <= now(i + 1 + 1) <= now(i + 1 + 1 + 1);
    assert now(i + 3) < now(i) + 86400;
    assert i + 1 + 1 == k && i + 1 + 1 + 1 == i + 3;
    assert now(k) - now(i) < 86400;
  }
}
