// The elapsed-time report at the end of a run: the difference of two clock readings, cast to a
// 32-bit int and split into hours, minutes and seconds with C++ integer division.

module Timer {

  /** A duration split into hours, minutes and seconds. */
  datatype Clock = Clock(hour: int, min: int, sec: int)

  const TwoTo32: int := 0x1_0000_0000
  const IntMin: int := -0x8000_0000
  const IntMax: int := 0x7fff_ffff

  /** The conversion of a wider integer to a 32-bit int: the value congruent to d modulo 2^32 that fits. */
  function ToInt32(d: int): (r: int)
    ensures IntMin <= r <= IntMax
    ensures (r - d) % TwoTo32 == 0
    ensures IntMin <= d <= IntMax ==> r == d
  {
    var m := d % TwoTo32;
    if m <= IntMax then m else m - TwoTo32
  }

  /** C++ integer division: the quotient is truncated toward zero, and the remainder has the dividend's sign. */
  function Quot(a: int, b: int): (q: int)
    requires b > 0
    ensures a >= 0 ==> 0 <= a - b * q < b
    ensures a < 0 ==> -b < a - b * q <= 0
  {
    if a >= 0 then a / b else -((-a) / b)
  }

  /**
   * The report for clock readings t0 and t1: hour = interval / 3600, min = the rest / 60 and
   * sec = what is left. The three parts add back up to the interval; for a non-negative interval
   * minutes and seconds are in 0 .. 59, and for a negative one (a clock that went back, or a
   * difference the cast wrapped) all three parts are non-positive, minutes and seconds in -59 .. 0.
   */
  function Elapsed(t0: int, t1: int): (c: Clock)
    ensures 3600 * c.hour + 60 * c.min + c.sec == ToInt32(t1 - t0)
    ensures ToInt32(t1 - t0) >= 0 ==> c.hour >= 0 && 0 <= c.min < 60 && 0 <= c.sec < 60
    ensures ToInt32(t1 - t0) < 0 ==> c.hour <= 0 && -60 < c.min <= 0 && -60 < c.sec <= 0
  {
    var interval := ToInt32(t1 - t0);
    var hour := Quot(interval, 3600);
    var min := Quot(interval - 3600 * hour, 60);
    var sec := interval - 3600 * hour - 60 * min;
    Clock(hour, min, sec)
  }
}
