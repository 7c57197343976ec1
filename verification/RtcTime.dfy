// How the microcontroller keeps the cartridge clock's time in its own BCD registers:
// 12/24-hour switching, correction of written values, reading back.  firmware/src/rtc.c

module RtcTime {
  import opened Words

  /** The time register: PM bit, then hour (six bits), minute and second (seven bits) in BCD. */
  datatype Time = Time(pm: bool, hour: Six, minute: Seven, second: Seven)

  /** The date register: year (eight bits), month (five), day (six) in BCD, weekday 1 to 7. */
  datatype Date = Date(year: u8, month: Five, day: Six, weekday: Three)

  type Three = x: int | 0 <= x < 0x08
  type Five = x: int | 0 <= x < 0x20
  type Six = x: int | 0 <= x < 0x40
  type Seven = x: int | 0 <= x < 0x80

  predicate IsBcd(v: nat, max: nat) {
    v % 16 <= 9 && v / 16 <= 9 && v <= max
  }

  function Decimal(v: nat): nat {
    v / 16 * 10 + v % 16
  }

  // ----- what a register value means -----

  /** Hour of the day, 0 to 23.  In 12-hour mode hour 00 is an alias of 12. */
  function HourOf(twelve: bool, t: Time): nat {
    if twelve then Decimal(t.hour) % 12 + (if t.pm then 12 else 0) else Decimal(t.hour)
  }

  predicate ValidHour(twelve: bool, t: Time) {
    IsBcd(t.hour, if twelve then 0x12 else 0x23)
  }

  // ----- status writes -----

  /** rtc_write_status, 12-hour to 24-hour.  The addition is to the register, so a carry out of
      the hour would go to the PM bit, which is cleared next. */
  function ToTwentyFour(t: Time): Time {
    var h := if t.hour == 0x12 then (if t.pm then 0x12 else 0)
             else if t.pm then (t.hour + (if t.hour == 0x08 || t.hour == 0x09 then 0x18 else 0x12)) % 0x40
             else t.hour;
    t.(hour := h, pm := false)
  }

  /** rtc_write_status, 24-hour to 12-hour. */
  function ToTwelve(t: Time): Time {
    if t.hour == 0 then t.(hour := 0x12, pm := false)
    else if t.hour == 0x12 then t.(pm := true)
    else if t.hour > 0x12 then
      t.(hour := t.hour - (if t.hour == 0x20 || t.hour == 0x21 then 0x18 else 0x12), pm := true)
    else t.(pm := false)
  }

  const S3511A_1224 := 0x40

  predicate AsksTwelve(status: u8) {
    status / S3511A_1224 % 2 == 0
  }

  function AfterStatus(twelve: bool, t: Time, status: u8): Time {
    if twelve && !AsksTwelve(status) then ToTwentyFour(t)
    else if !twelve && AsksTwelve(status) then ToTwelve(t)
    else t
  }

  datatype Clock = Clock(twelve: bool, time: Time)

  function AfterStatuses(c: Clock, statuses: seq<u8>): Clock
    decreases |statuses|
  {
    if statuses == [] then c
    else AfterStatuses(Clock(AsksTwelve(statuses[0]), AfterStatus(c.twelve, c.time, statuses[0])), statuses[1..])
  }

  /** The BCD values up to 23, ten at a time. */
  lemma BcdTens(h: Six, max: nat)
    requires IsBcd(h, max) && max <= 0x23
    ensures (h < 10 && Decimal(h) == h) || (0x10 <= h < 0x1A && Decimal(h) == h - 6)
            || (0x20 <= h && Decimal(h) == h - 12)
    ensures h <= max
  {
  }

  lemma TensAreBcd(h: Six, max: nat)
    requires h < 10 || 0x10 <= h < 0x1A || 0x20 <= h < 0x2A
    requires h <= max
    ensures IsBcd(h, max)
    ensures Decimal(h) == if h < 10 then h else if h < 0x20 then h - 6 else h - 12
  {
  }

  lemma ToTwentyFourHour(t: Time)
    requires ValidHour(true, t)
    ensures ToTwentyFour(t).hour ==
            if t.hour == 0x12 then (if t.pm then 0x12 else 0)
            else if !t.pm then t.hour
            else if t.hour == 0x08 || t.hour == 0x09 then t.hour + 0x18 else t.hour + 0x12
  {
  }

  lemma ToTwentyFourKeepsTime(t: Time)
    requires ValidHour(true, t)
    ensures var t' := ToTwentyFour(t); ValidHour(false, t') && HourOf(false, t') == HourOf(true, t) && !t'.pm
  {
    ToTwentyFourHour(t);
    hide ToTwentyFour, Decimal, IsBcd;
    BcdTens(t.hour, 0x12);
    TensAreBcd(ToTwentyFour(t).hour, 0x23);
  }

  lemma ToTwelveKeepsTime(t: Time)
    requires ValidHour(false, t)
    ensures var t' := ToTwelve(t); ValidHour(true, t') && HourOf(true, t') == HourOf(false, t)
  {
    hide IsBcd, Decimal;
    BcdTens(t.hour, 0x23);
    TensAreBcd(ToTwelve(t).hour, 0x12);
  }

  lemma StatusKeepsTime(c: Clock, status: u8)
    requires ValidHour(c.twelve, c.time)
    ensures var t := AfterStatus(c.twelve, c.time, status);
            && ValidHour(AsksTwelve(status), t)
            && HourOf(AsksTwelve(status), t) == HourOf(c.twelve, c.time)
            && t.minute == c.time.minute && t.second == c.time.second
  {
    hide AsksTwelve, ValidHour, HourOf;
    if c.twelve && !AsksTwelve(status) {
      ToTwentyFourKeepsTime(c.time);
    } else if !c.twelve && AsksTwelve(status) {
      ToTwelveKeepsTime(c.time);
    }
  }

  /** Main result: any sequence of status writes, switching modes any number of times, keeps the
      time of day. */
  lemma {:induction false} StatusesKeepTime(c: Clock, statuses: seq<u8>)
    requires ValidHour(c.twelve, c.time)
    ensures var c' := AfterStatuses(c, statuses);
            && ValidHour(c'.twelve, c'.time)
            && HourOf(c'.twelve, c'.time) == HourOf(c.twelve, c.time)
            && c'.time.minute == c.time.minute && c'.time.second == c.time.second
            && (statuses != [] ==> (c'.twelve <==> statuses[|statuses| - 1] / 64 % 2 == 0))
    decreases |statuses|
  {
    hide AfterStatus, HourOf, ValidHour;
    if statuses != [] {
      var s := statuses[0];
      StatusKeepsTime(c, s);
      StatusesKeepTime(Clock(AsksTwelve(s), AfterStatus(c.twelve, c.time, s)), statuses[1..]);
    }
  }

  // ----- correction -----

  /** rtc_range_correct: the low bits of `v` under `mask`, replaced by `min` if out of range. */
  function RangeCorrect(v: u8, min: nat, max: nat, mask: nat): (r: u8)
    requires min <= mask && mask in {0x07, 0x1F, 0x3F, 0x7F, 0xFF}
  {
    ReplaceLow(v, mask + 1, min);
    var low := v % (mask + 1);
    if low > max || (min > 0 && low < min) || (mask >= 0xF && v % 16 > 9) then v - low + min else v
  }

  lemma ReplaceLow8(v: u8, low: nat)
    requires low < 8
    ensures var r := v - v % 8 + low;
            0 <= r < 0x100 && r % 8 == low && r / 8 == v / 8
  {
    var q := v / 8;
    var r := 8 * q + low;
    assert v == 8 * q + v % 8;
    assert r / 8 == q && r % 8 == low;
  }

  lemma ReplaceLow32(v: u8, low: nat)
    requires low < 32
    ensures var r := v - v % 32 + low;
            0 <= r < 0x100 && r % 32 == low && r / 32 == v / 32 && r % 16 == low % 16
  {
    var q := v / 32;
    var r := 32 * q + low;
    assert v == 32 * q + v % 32;
    assert r / 32 == q && r % 32 == low;
    assert r == 16 * (2 * q + low / 16) + low % 16;
    assert r % 16 == low % 16;
  }

  lemma ReplaceLow64(v: u8, low: nat)
    requires low < 64
    ensures var r := v - v % 64 + low;
            0 <= r < 0x100 && r % 64 == low && r / 64 == v / 64 && r % 16 == low % 16
  {
    var q := v / 64;
    var r := 64 * q + low;
    assert v == 64 * q + v % 64;
    assert r / 64 == q && r % 64 == low;
    assert r == 16 * (4 * q + low / 16) + low % 16;
    assert r % 16 == low % 16;
  }

  lemma ReplaceLow128(v: u8, low: nat)
    requires low < 128
    ensures var r := v - v % 128 + low;
            0 <= r < 0x100 && r % 128 == low && r / 128 == v / 128 && r % 16 == low % 16
  {
    var q := v / 128;
    var r := 128 * q + low;
    assert v == 128 * q + v % 128;
    assert r / 128 == q && r % 128 == low;
    assert r == 16 * (8 * q + low / 16) + low % 16;
    assert r % 16 == low % 16;
  }

  lemma ReplaceLow256(v: u8, low: nat)
    requires low < 256
    ensures var r := v - v % 256 + low;
            0 <= r < 0x100 && r % 256 == low && r / 256 == v / 256 && r % 16 == low % 16
  {
    var q := v / 256;
    var r := 256 * q + low;
    assert v == 256 * q + v % 256;
    assert r / 256 == q && r % 256 == low;
    assert r == 16 * (16 * q + low / 16) + low % 16;
    assert r % 16 == low % 16;
  }

  lemma ReplaceLow(v: u8, m: nat, low: nat)
    requires m in {8, 32, 64, 128, 256} && low < m
    ensures var r := v - v % m + low;
            0 <= r < 0x100 && r % m == low && r / m == v / m && (m > 8 ==> r % 16 == low % 16)
  {
    if m == 8 {
      ReplaceLow8(v, low);
    } else if m == 32 {
      ReplaceLow32(v, low);
    } else if m == 64 {
      ReplaceLow64(v, low);
    } else if m == 128 {
      ReplaceLow128(v, low);
    } else {
      ReplaceLow256(v, low);
    }
  }

  lemma LowDigit(v: u8, m: nat)
    requires m in {32, 64, 128, 256}
    ensures v % m % 16 == v % 16
  {
    var q, low := v / m, v % m;
    if m == 32 {
      assert v == 16 * (2 * q) + low;
    } else if m == 64 {
      assert v == 16 * (4 * q) + low;
    } else if m == 128 {
      assert v == 16 * (8 * q) + low;
    } else {
      assert v == low;
    }
  }

  /** Correction leaves the bits above the mask alone and BCD in range below it; what was in
      range is not touched, and what was not becomes the smallest value. */
  lemma RangeCorrects(v: u8, min: nat, max: nat, mask: nat)
    requires min <= max <= mask && min <= 1 && mask in {0x07, 0x1F, 0x3F, 0x7F, 0xFF}
    ensures var r := RangeCorrect(v, min, max, mask);
            var m := mask + 1;
            && r / m == v / m && min <= r % m <= max
            && (mask > 7 ==> r % m % 16 <= 9)
            && (if min <= v % m <= max && (mask > 7 ==> v % m % 16 <= 9) then r == v else r % m == min)
  {
    var m := mask + 1;
    ReplaceLow(v, m, min);
    if mask > 7 {
      LowDigit(v, m);
      LowDigit(RangeCorrect(v, min, max, mask), m);
    }
    hide *;
  }

  function FixedHour(twelve: bool, v: u8): u8 {
    if !twelve then RangeCorrect(v, 0, 0x23, 0x3F)
    else if v % 0x20 == 0 then v + 0x12
    else RangeCorrect(v, 0, 0x11, 0x1F)
  }

  function FixedSecond(v: u8): u8 {
    if v % 0x80 != 0x7F && (v % 0x80 >= 0x60 || v % 16 > 9) then 0x59 else v
  }

  type TimeBytes = b: seq<u8> | |b| == 3 witness [0, 0, 0]
  type DateBytes = b: seq<u8> | |b| == 4 witness [0, 1, 1, 0]

  function FixedTime(twelve: bool, b: TimeBytes): TimeBytes {
    [FixedHour(twelve, b[0]), RangeCorrect(b[1], 0, 0x59, 0x7F), FixedSecond(b[2])]
  }

  function FixedDate(b: DateBytes): DateBytes {
    [RangeCorrect(b[0], 0, 0x99, 0xFF), RangeCorrect(b[1], 1, 0x12, 0x1F),
     RangeCorrect(b[2], 1, 0x31, 0x3F), RangeCorrect(b[3], 0, 6, 7)]
  }

  // ----- registers from bytes, and back -----

  function TimeFrom(b: TimeBytes): Time {
    Time(b[0] / 0x80 == 1, b[0] % 0x40, b[1] % 0x80, b[2] % 0x80)
  }

  function DateFrom(b: DateBytes): Date {
    Date(b[0], b[1] % 0x20, b[2] % 0x40, if b[3] % 8 == 0 then 7 else b[3] % 8)
  }

  /** rtc_hour_mcu_to_rtc */
  function HourByte(twelve: bool, t: Time): u8 {
    if twelve then (if t.hour == 0x12 then 0 else t.hour) + (if t.pm then 0x80 else 0)
    else t.hour + (if t.hour >= 0x12 then 0x80 else 0)
  }

  function ReadTime(twelve: bool, t: Time): TimeBytes {
    [HourByte(twelve, t), t.minute, t.second]
  }

  function ReadDate(d: Date): DateBytes {
    [d.year, d.month, d.day, if d.weekday == 7 then 0 else d.weekday]
  }

  /** Writing bytes and reading them back before the clock ticks. */
  function TimeReadBack(twelve: bool, b: TimeBytes): TimeBytes {
    ReadTime(twelve, TimeFrom(FixedTime(twelve, b)))
  }

  function DateReadBack(b: DateBytes): DateBytes {
    ReadDate(DateFrom(FixedDate(b)))
  }

  /** The form in which times are read: BCD in range, the top bit telling morning from afternoon.
      Second 0x7F is let through as written. */
  predicate CanonicalTime(twelve: bool, b: TimeBytes) {
    && IsBcd(b[0] % 0x80, if twelve then 0x11 else 0x23)
    && (!twelve ==> (b[0] >= 0x80 <==> b[0] % 0x80 >= 0x12))
    && IsBcd(b[1], 0x59)
    && (IsBcd(b[2], 0x59) || b[2] == 0x7F)
  }

  predicate CanonicalDate(b: DateBytes) {
    && IsBcd(b[0], 0x99)
    && IsBcd(b[1], 0x12) && b[1] >= 1
    && IsBcd(b[2], 0x31) && b[2] >= 1
    && b[3] <= 6
  }

  /** A corrected field is BCD in range, and a field that was so is not touched. */
  lemma FieldIsBcd(v: u8, min: nat, max: nat, mask: nat)
    requires min <= max <= mask && min <= 1 && max <= 0x99 && mask in {0x1F, 0x3F, 0x7F, 0xFF}
    ensures var r := RangeCorrect(v, min, max, mask);
            && IsBcd(r % (mask + 1), max) && min <= r % (mask + 1) && r / (mask + 1) == v / (mask + 1)
            && (if min <= v % (mask + 1) && IsBcd(v % (mask + 1), max) then r == v else r % (mask + 1) == min)
  {
    RangeCorrects(v, min, max, mask);
    hide RangeCorrect;
    var low := RangeCorrect(v, min, max, mask) % (mask + 1);
    assert low <= 0x99 ==> low / 16 <= 9;
  }

  /** Bit 5 sits between the hour's five corrected bits and the PM bit. */
  lemma HourBits(v: u8)
    ensures v % 0x40 == v % 0x20 + 0x20 * (v / 0x20 % 2)
    ensures v / 0x20 % 2 == 0 ==> v % 0x80 % 0x20 == v % 0x20
    ensures v / 0x80 == v / 0x20 / 4
  {
  }

  lemma TwelveHourBits(v: u8)
    ensures var r := FixedHour(true, v);
            && r / 0x20 == v / 0x20
            && (r % 0x20 == 0x12 || IsBcd(r % 0x20, 0x11))
  {
    if v % 0x20 == 0 {
      ReplaceLow32(v, 0x12);
    } else {
      FieldIsBcd(v, 0, 0x11, 0x1F);
    }
    hide RangeCorrect, IsBcd;
  }

  lemma HourByteLow(t: Time)
    ensures HourByte(true, t) % 0x80 == if t.hour == 0x12 then 0 else t.hour
  {
  }

  lemma TwelveHourReadBack(v: u8)
    ensures var t := Time(FixedHour(true, v) / 0x80 == 1, FixedHour(true, v) % 0x40, 0, 0);
            IsBcd(HourByte(true, t) % 0x80, 0x11) <==> v / 0x20 % 2 == 0
  {
    hide FixedHour, HourByte;
    TwelveHourBits(v);
    var r := FixedHour(true, v);
    HourBits(r);
    HourByteLow(Time(r / 0x80 == 1, r % 0x40, 0, 0));
  }

  lemma HourByteOfDay(t: Time)
    ensures HourByte(false, t) % 0x80 == t.hour && (HourByte(false, t) >= 0x80 <==> t.hour >= 0x12)
  {
  }

  lemma TwentyFourHourReadBack(v: u8)
    ensures var t := Time(FixedHour(false, v) / 0x80 == 1, FixedHour(false, v) % 0x40, 0, 0);
            var h := HourByte(false, t);
            IsBcd(h % 0x80, 0x23) && (h >= 0x80 <==> h % 0x80 >= 0x12)
  {
    FieldIsBcd(v, 0, 0x23, 0x3F);
    hide RangeCorrect, HourByte, IsBcd;
    HourByteOfDay(Time(FixedHour(false, v) / 0x80 == 1, FixedHour(false, v) % 0x40, 0, 0));
  }

  lemma SecondReadBack(v: u8)
    ensures var s := FixedSecond(v) % 0x80; IsBcd(s, 0x59) || s == 0x7F
    ensures (IsBcd(v, 0x59) || v == 0x7F) ==> FixedSecond(v) == v
  {
    LowDigit(v, 0x80);
    var s := v % 0x80;
    assert s < 0x60 ==> s / 16 <= 5;
  }

  /** Main result: whatever bytes are written, a canonical time reads back, exactly unless the
      12-hour correction overlooked bit 5 of the hour. */
  lemma TimeReadsBackCanonicalIff(twelve: bool, b: TimeBytes)
    ensures CanonicalTime(twelve, TimeReadBack(twelve, b)) <==> (twelve ==> b[0] / 0x20 % 2 == 0)
  {
    FieldIsBcd(b[1], 0, 0x59, 0x7F);
    SecondReadBack(b[2]);
    if twelve {
      TwelveHourReadBack(b[0]);
    } else {
      TwentyFourHourReadBack(b[0]);
    }
    hide RangeCorrect, FixedHour, FixedSecond, IsBcd;
  }

  /** A byte whose low seven bits are below 0x20. */
  lemma LowSeven(v: u8)
    requires v % 0x80 < 0x20
    ensures v == v / 0x80 * 0x80 + v % 0x80 && v % 0x20 == v % 0x40 == v % 0x80
    ensures v % 0x80 == 0 ==> (v + 0x12) / 0x80 == v / 0x80 && (v + 0x12) % 0x40 == 0x12
  {
    var q, low := v / 0x80, v % 0x80;
    assert v == 0x20 * (4 * q) + low && v == 0x40 * (2 * q) + low;
    if low == 0 {
      assert v + 0x12 == 0x80 * q + 0x12 && v + 0x12 == 0x40 * (2 * q) + 0x12;
    }
  }

  lemma CanonicalTwelveIsFixed(v: u8)
    requires IsBcd(v % 0x80, 0x11)
    ensures var r := FixedHour(true, v);
            HourByte(true, Time(r / 0x80 == 1, r % 0x40, 0, 0)) == v
  {
    LowSeven(v);
    if v % 0x80 != 0 {
      FieldIsBcd(v, 0, 0x11, 0x1F);
    }
    hide RangeCorrect, IsBcd;
  }

  lemma CanonicalTwentyFourIsFixed(v: u8)
    requires IsBcd(v % 0x80, 0x23) && (v >= 0x80 <==> v % 0x80 >= 0x12)
    ensures var r := FixedHour(false, v);
            HourByte(false, Time(r / 0x80 == 1, r % 0x40, 0, 0)) == v
  {
    var low := v % 0x80;
    assert v == 0x80 * (v / 0x80) + low && low <= 0x23;
    assert v % 0x40 == low;
    FieldIsBcd(v, 0, 0x23, 0x3F);
    hide RangeCorrect, IsBcd;
  }

  lemma CanonicalHourIsFixed(twelve: bool, v: u8)
    requires IsBcd(v % 0x80, if twelve then 0x11 else 0x23)
    requires !twelve ==> (v >= 0x80 <==> v % 0x80 >= 0x12)
    ensures var r := FixedHour(twelve, v);
            HourByte(twelve, Time(r / 0x80 == 1, r % 0x40, 0, 0)) == v
  {
    hide RangeCorrect, IsBcd, FixedHour, HourByte;
    if twelve {
      CanonicalTwelveIsFixed(v);
    } else {
      CanonicalTwentyFourIsFixed(v);
    }
  }

  lemma SecondIsFixed(v: u8)
    requires IsBcd(v, 0x59) || v == 0x7F
    ensures FixedSecond(v) == v && v % 0x80 == v
  {
    SecondReadBack(v);
  }

  /** Canonical bytes read back as they were written. */
  lemma CanonicalTimeIsFixed(twelve: bool, b: TimeBytes)
    requires CanonicalTime(twelve, b)
    ensures TimeReadBack(twelve, b) == b
  {
    hide RangeCorrect, FixedHour, FixedSecond, IsBcd;
    CanonicalHourIsFixed(twelve, b[0]);
    FieldIsFixed(b[1], 0, 0x59, 0x7F);
    SecondIsFixed(b[2]);
  }

  lemma YearIsBcd(v: u8)
    ensures IsBcd(RangeCorrect(v, 0, 0x99, 0xFF), 0x99)
  {
    FieldIsBcd(v, 0, 0x99, 0xFF);
    hide RangeCorrect, IsBcd;
    var r := RangeCorrect(v, 0, 0x99, 0xFF);
    assert r % 0x100 == r;
  }

  lemma DateReadsBackCanonical(b: DateBytes)
    ensures CanonicalDate(DateReadBack(b))
  {
    hide RangeCorrect, IsBcd;
    YearIsBcd(b[0]);
    FieldIsBcd(b[1], 1, 0x12, 0x1F);
    FieldIsBcd(b[2], 1, 0x31, 0x3F);
    RangeCorrects(b[3], 0, 6, 7);
  }

  lemma FieldIsFixed(v: u8, min: nat, max: nat, mask: nat)
    requires min <= max <= mask && min <= 1 && max <= 0x99 && mask in {0x1F, 0x3F, 0x7F, 0xFF}
    requires min <= v && IsBcd(v, max)
    ensures RangeCorrect(v, min, max, mask) == v && v % (mask + 1) == v
  {
    assert v % (mask + 1) == v;
    FieldIsBcd(v, min, max, mask);
    hide RangeCorrect, IsBcd;
  }

  /** Canonical dates, weekday 0 included, read back as they were written. */
  lemma CanonicalDateIsFixed(b: DateBytes)
    requires CanonicalDate(b)
    ensures DateReadBack(b) == b
  {
    hide RangeCorrect, IsBcd;
    FieldIsFixed(b[0], 0, 0x99, 0xFF);
    FieldIsFixed(b[1], 1, 0x12, 0x1F);
    FieldIsFixed(b[2], 1, 0x31, 0x3F);
    RangeCorrects(b[3], 0, 6, 7);
  }

  /** Writing back what was read changes nothing that can be read, nor the time it denotes. */
  lemma WriteBackChangesNothing(twelve: bool, b: TimeBytes, d: DateBytes)
    requires twelve ==> b[0] / 0x20 % 2 == 0
    ensures TimeReadBack(twelve, TimeReadBack(twelve, b)) == TimeReadBack(twelve, b)
    ensures DateReadBack(DateReadBack(d)) == DateReadBack(d)
  {
    TimeReadsBackCanonicalIff(twelve, b);
    CanonicalTimeIsFixed(twelve, TimeReadBack(twelve, b));
    DateReadsBackCanonical(d);
    CanonicalDateIsFixed(DateReadBack(d));
  }

  /** With bit 5 set, 12-hour mode accepts hour 31 and reads it back. */
  lemma TwelveHourOverlooksBitFive()
    ensures TimeReadBack(true, [0x31, 0, 0])[0] == 0x31
  {
  }

  // ----- the hour that a reader sees -----

  /** The hour of the day that an hour byte says. */
  function SaidHour(twelve: bool, v: u8): nat {
    Decimal(v % 0x80) + (if twelve && v >= 0x80 then 12 else 0)
  }

  /** In either mode the hour byte says the hour that the register denotes. */
  lemma HourByteSaysHour(twelve: bool, t: Time)
    requires ValidHour(twelve, t)
    ensures SaidHour(twelve, HourByte(twelve, t)) == HourOf(twelve, t) < 24
    ensures !twelve ==> (HourByte(twelve, t) >= 0x80 <==> HourOf(twelve, t) >= 12)
  {
    BcdTens(t.hour, if twelve then 0x12 else 0x23);
    var v := HourByte(twelve, t);
    assert v % 0x80 == if twelve && t.hour == 0x12 then 0 else t.hour;
    assert Decimal(0) == 0;
    hide Decimal, IsBcd;
  }

  /** End to end: a canonical time written in one mode and read in the other, after any status
      writes in between, says the same time. */
  lemma WriteSwitchRead(twelve: bool, b: TimeBytes, statuses: seq<u8>)
    requires CanonicalTime(twelve, b)
    ensures var c := AfterStatuses(Clock(twelve, TimeFrom(FixedTime(twelve, b))), statuses);
            var r := ReadTime(c.twelve, c.time);
            SaidHour(c.twelve, r[0]) == SaidHour(twelve, b[0]) && r[1] == b[1] && r[2] == b[2]
  {
    hide HourOf, SaidHour, HourByte, AfterStatuses, RangeCorrect, FixedHour, CanonicalTime, ValidHour;
    var t := TimeFrom(FixedTime(twelve, b));
    CanonicalTimeIsFixed(twelve, b);
    assert ReadTime(twelve, t) == b;
    WrittenHourIsValid(twelve, b);
    StatusesKeepTime(Clock(twelve, t), statuses);
    HourByteSaysHour(twelve, t);
    var c := AfterStatuses(Clock(twelve, t), statuses);
    HourByteSaysHour(c.twelve, c.time);
  }

  lemma WrittenHourIsValid(twelve: bool, b: TimeBytes)
    requires CanonicalTime(twelve, b)
    ensures ValidHour(twelve, TimeFrom(FixedTime(twelve, b)))
  {
    var v := b[0];
    assert v % 0x40 == v % 0x80;
    if twelve {
      assert v % 0x20 == v % 0x80;
      FieldIsBcd(v, 0, 0x11, 0x1F);
      assert v % 0x20 == 0 ==> (v + 0x12) % 0x40 == 0x12;
    } else {
      FieldIsBcd(v, 0, 0x23, 0x3F);
    }
    hide RangeCorrect;
  }

  // ----- byte for byte -----

  /** A BCD field as it is kept: itself if it is in range, else the smallest value. */
  function Kept(v: nat, min: nat, max: nat): nat {
    if min <= v <= max && v % 16 <= 9 then v else min
  }

  /** The hour byte that reads back in 12-hour mode: hour 0 stands for 12, and bit 5 is kept. */
  function TwelveHourKept(v: u8): nat {
    var bit5, low := v / 0x20 % 2, v % 0x20;
    var hour := bit5 * 0x20 + if low == 0 then 0x12 else Kept(low, 0, 0x11);
    (if hour == 0x12 then 0 else hour) + v / 0x80 * 0x80
  }

  lemma FieldIsKept(v: u8, min: nat, max: nat, mask: nat)
    requires min <= max <= mask && min <= 1 && max <= 0x99 && mask in {0x1F, 0x3F, 0x7F, 0xFF}
    ensures RangeCorrect(v, min, max, mask) % (mask + 1) == Kept(v % (mask + 1), min, max)
  {
    RangeCorrects(v, min, max, mask);
    hide RangeCorrect;
  }

  lemma TwelveHourIsKept(v: u8)
    ensures var r := FixedHour(true, v);
            HourByte(true, Time(r / 0x80 == 1, r % 0x40, 0, 0)) == TwelveHourKept(v)
  {
    TwelveHourBits(v);
    HourBits(FixedHour(true, v));
    if v % 0x20 == 0 {
      ReplaceLow32(v, 0x12);
    } else {
      FieldIsKept(v, 0, 0x11, 0x1F);
    }
    hide RangeCorrect, IsBcd, Kept;
  }

  lemma SecondIsKept(v: u8)
    ensures FixedSecond(v) % 0x80 ==
            if v % 0x80 == 0x7F || (v % 0x80 < 0x60 && v % 0x80 % 16 <= 9) then v % 0x80 else 0x59
  {
    LowDigit(v, 0x80);
  }

  /** What reads back of any time written: a minute out of range as 0, a second out of range as
      59 unless it is 7F, an hour out of range as 0; in 24-hour mode the top bit is that of the
      afternoon, in 12-hour mode the one written. */
  lemma TimeReadsBackAs(twelve: bool, b: TimeBytes)
    ensures var r := TimeReadBack(twelve, b);
            && (twelve ==> r[0] == TwelveHourKept(b[0]))
            && (!twelve ==> var h := Kept(b[0] % 0x40, 0, 0x23); r[0] == h + if h >= 0x12 then 0x80 else 0)
            && r[1] == Kept(b[1] % 0x80, 0, 0x59)
            && r[2] == var s := b[2] % 0x80; if s == 0x7F || (s < 0x60 && s % 16 <= 9) then s else 0x59
  {
    FieldIsKept(b[1], 0, 0x59, 0x7F);
    SecondIsKept(b[2]);
    if twelve {
      TwelveHourIsKept(b[0]);
    } else {
      FieldIsKept(b[0], 0, 0x23, 0x3F);
    }
    hide RangeCorrect, FixedSecond, IsBcd, Kept, TwelveHourKept;
    assert twelve ==> FixedHour(twelve, b[0]) == FixedHour(true, b[0]);
  }

  /** And of any date: a year out of range as 0, a month or a day out of range as 1, weekday 7 as 0. */
  lemma DateReadsBackAs(b: DateBytes)
    ensures var r := DateReadBack(b);
            && r[0] == Kept(b[0], 0, 0x99)
            && r[1] == Kept(b[1] % 0x20, 1, 0x12)
            && r[2] == Kept(b[2] % 0x40, 1, 0x31)
            && r[3] == if b[3] % 8 == 7 then 0 else b[3] % 8
  {
    FieldIsKept(b[0], 0, 0x99, 0xFF);
    FieldIsKept(b[1], 1, 0x12, 0x1F);
    FieldIsKept(b[2], 1, 0x31, 0x3F);
    RangeCorrects(b[3], 0, 6, 7);
    hide RangeCorrect, Kept;
    assert b[0] % 0x100 == b[0];
    assert RangeCorrect(b[0], 0, 0x99, 0xFF) % 0x100 == RangeCorrect(b[0], 0, 0x99, 0xFF);
  }

  /** The registers hold what will be read: the hour by its meaning, the rest as bytes. */
  lemma RegistersHold(twelve: bool, b: TimeBytes, d: DateBytes)
    requires CanonicalTime(twelve, b) && CanonicalDate(d)
    ensures var t := TimeFrom(FixedTime(twelve, b));
            HourOf(twelve, t) == SaidHour(twelve, b[0]) && t.minute == b[1] && t.second == b[2]
    ensures var r := DateFrom(FixedDate(d));
            r.year == d[0] && r.month == d[1] && r.day == d[2] && r.weekday == if d[3] == 0 then 7 else d[3]
  {
    WrittenHourIsValid(twelve, b);
    HourByteSaysHour(twelve, TimeFrom(FixedTime(twelve, b)));
    CanonicalTimeIsFixed(twelve, b);
    CanonicalDateIsFixed(d);
    RangeCorrects(d[3], 0, 6, 7);
    hide RangeCorrect, FixedTime, SaidHour, HourOf, HourByte, IsBcd;
  }
}
