// set_timeout of main/http3/http3.c: nanoseconds to struct timeval.
module Timers {
  import opened Common

  const INT64_MAX: int := 0x7FFF_FFFF_FFFF_FFFF

  // Division and remainder of C truncate toward zero.
  function CDiv(a: int, b: int): int
    requires b > 0
  {
    if a >= 0 then a / b else -(-a / b)
  }

  function CRem(a: int, b: int): int
    requires b > 0
  {
    a - b * CDiv(a, b)
  }

  // Conversion to, and multiplication in, unsigned int.
  function ToUnsigned(a: int): nat { a % INT_MODULUS }

  lemma QuotientAndRemainder(a: int, b: int)
    requires b > 0
    ensures a == b * CDiv(a, b) + CRem(a, b)
    ensures if a >= 0 then 0 <= CRem(a, b) < b else -b < CRem(a, b) <= 0
  {
  }

  // The remainder in microseconds, as unsigned int.
  lemma MicrosOf(r: int)
    requires -1000 < r < 1000
    ensures ToUnsigned(ToUnsigned(r) * 1000) == if r >= 0 then 1000 * r else INT_MODULUS + 1000 * r
  {
  }

  lemma WholeMillis(k: int)
    ensures (1_000_000 * k) % 1_000_000 == 0
  {
  }

  class TimeoutTimer {
    var sec: int
    var usec: int
    var pending: bool

    // The length of the timer in nanoseconds.
    function Nanos(): int
      reads this
    {
      sec * 1_000_000_000 + usec * 1000
    }

    // A positive timeout gives a normalised timer that is never shorter and less
    // than a millisecond longer: whole milliseconds. A negative one is cut to whole
    // milliseconds toward zero, and if these are no whole seconds, the carry makes
    // the timer 2^32 microseconds longer than that. The answer -1, quiche's "no
    // timeout", sets a timer that is due at once.
    method SetTimeout(timeout: int) returns (carried: bool)
      requires -INT64_MAX - 1 <= timeout <= INT64_MAX - 999999
      modifies this
      ensures timeout > 0 ==> 0 <= usec < 1_000_000 && 0 <= sec && timeout <= Nanos() < timeout + 1_000_000
      ensures timeout > 0 ==> Nanos() % 1_000_000 == 0
      ensures -1999999 < timeout < 0 ==> Nanos() == 0
      ensures timeout <= -999_999 ==>
        var nanos := Nanos() - if carried then 0x1_0000_0000 * 1000 else 0;
        nanos % 1_000_000 == 0 && nanos <= 0 && timeout + 999_999 <= nanos < timeout + 1_999_999
      ensures timeout == 0 ==> sec == old(sec) && usec == old(usec) && pending == old(pending)
      ensures timeout != 0 ==> pending
      ensures carried <==> timeout < 0 && CRem(CDiv(timeout + 999999, 1000000), 1000) != 0
    {
      QuotientAndRemainder(timeout + 999999, 1000000);
      QuotientAndRemainder(CDiv(timeout + 999999, 1000000), 1000);
      MicrosOf(CRem(CDiv(timeout + 999999, 1000000), 1000));
      hide CDiv, CRem, ToUnsigned;
      carried := false;
      if timeout != 0 {
        var millis := CDiv(timeout + 999999, 1000000);
        sec := CDiv(millis, 1000);
        usec := ToUnsigned(ToUnsigned(CRem(millis, 1000)) * 1000);
        if usec >= 1000000 {
          carried := true;
          sec := sec + 1;
          usec := usec - 1000000;
        }
        pending := true;
        assert Nanos() == 1_000_000 * millis + if carried then 0x1_0000_0000 * 1000 else 0;
        WholeMillis(millis);
      }
    }
  }
}
