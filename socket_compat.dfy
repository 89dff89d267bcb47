/** The receive timeout of a UDP socket: on Windows the millisecond count is
    handed to `SO_RCVTIMEO` as it is; elsewhere it is split into the seconds
    and microseconds of a `struct timeval`. */
module SocketCompat {
  type U32 = n: int | 0 <= n < 0x1_0000_0000

  const MillisPerSecond := 1000
  const MicrosPerMilli := 1000
  const MicrosPerSecond := 1_000_000

  /** The two fields of a `struct timeval`. */
  datatype TimeVal = TimeVal(sec: int, usec: int)

  /** The split as written: `msec * 1000` is a product of two 32-bit
      unsigned values and so wraps modulo 2^32 before the remainder. */
  function TimeoutAsWritten(msec: U32): (t: TimeVal)
    ensures t.sec == msec / MillisPerSecond && 0 <= t.usec < MicrosPerSecond
  {
    TimeVal(msec / MillisPerSecond, ((msec * MicrosPerMilli) % 0x1_0000_0000) % MicrosPerSecond)
  }

  /** The split as intended: the milliseconds left over after the whole
      seconds, in microseconds, so nothing can wrap. */
  function Timeout(msec: U32): (t: TimeVal)
    ensures t.sec * MicrosPerSecond + t.usec == msec * MicrosPerMilli
    ensures 0 <= t.usec < MicrosPerSecond
    ensures t.sec == msec / MillisPerSecond
  {
    TimeVal(msec / MillisPerSecond, (msec % MillisPerSecond) * MicrosPerMilli)
  }

  /** The largest timeout whose product with 1000 still fits in 32 bits. */
  const LastExact: U32 := 4_294_967

  /** Up to that bound both splits agree. */
  lemma AgreeWhileNoWrap(msec: U32)
    requires msec <= LastExact
    ensures TimeoutAsWritten(msec) == Timeout(msec)
  {
    var s := msec / MillisPerSecond;
    var r := msec % MillisPerSecond;
    assert msec == s * 1000 + r;
    assert msec * 1000 == s * 1_000_000 + r * 1000;
    assert msec * 1000 < 0x1_0000_0000;
    assert (s * 1_000_000 + r * 1000) % 1_000_000 == r * 1000;
  }

  /** One past the bound the product wraps and the microseconds are wrong:
      704 instead of 968000. */
  lemma WrapsPastBound()
    ensures TimeoutAsWritten(LastExact + 1) == TimeVal(4294, 704)
    ensures Timeout(LastExact + 1) == TimeVal(4294, 968000)
  {
  }

  /** The value passed to `setsockopt`: on Windows the milliseconds
      themselves, elsewhere a `timeval`. */
  datatype SocketTimeout = Millis(msec: U32) | Split(tv: TimeVal)

  /** As written: elsewhere than on Windows the wrapping split is passed,
      which adds up to the timeout only while the product fits. */
  function SetUdpTimeout(msec: U32, windows: bool): (r: SocketTimeout)
    ensures windows ==> r == Millis(msec)
    ensures !windows ==> r.Split? && r.tv.sec == msec / MillisPerSecond && 0 <= r.tv.usec < MicrosPerSecond
  {
    if windows then Millis(msec) else Split(TimeoutAsWritten(msec))
  }

  /** While the product fits, the value passed as written adds up to the
      timeout exactly. */
  lemma SetUdpTimeoutExactWhileNoWrap(msec: U32)
    requires msec <= LastExact
    ensures SetUdpTimeout(msec, false).tv.sec * MicrosPerSecond + SetUdpTimeout(msec, false).tv.usec == msec * MicrosPerMilli
  {
    AgreeWhileNoWrap(msec);
  }

  /** As intended: elsewhere a `timeval` that always adds up to the timeout. */
  function SetUdpTimeoutIntended(msec: U32, windows: bool): (r: SocketTimeout)
    ensures windows ==> r == Millis(msec)
    ensures !windows ==> r.Split? && r.tv.sec * MicrosPerSecond + r.tv.usec == msec * MicrosPerMilli
  {
    if windows then Millis(msec) else Split(Timeout(msec))
  }

  /** Past the bound the value passed as written misses the timeout. */
  lemma SetUdpTimeoutMissesPastBound()
    ensures SetUdpTimeout(LastExact + 1, false) == Split(TimeVal(4294, 704))
    ensures SetUdpTimeoutIntended(LastExact + 1, false) == Split(TimeVal(4294, 968000))
  {
    WrapsPastBound();
  }
}
