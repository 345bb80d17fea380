/** sleep and sleep_ms of ulib.c: what reaches the kernel. */
module UserSleep {
  import opened Words
  import opened Machine

  const MAX_SECONDS: int := 2000000

  /** The ecall that a call makes, if any: its a0. */
  datatype Request = NoCall | SleepCall(a0: Word)

  /** A C int in a 64-bit register is sign-extended. */
  function Register(value: int): Word { value % WORD_LIMIT }

  /** The time that the kernel's filter in syscall_sleep lets through, else 0. */
  function Granted(r: Request): (ms: nat)
  {
    match r
    case NoCall => 0
    case SleepCall(a0) =>
      var ms := a0 % 0x1_0000_0000;
      if ms > MAX_SLEEP_MS then 0 else ms
  }

  /** Any positive time, up to the largest int, reaches a0 and is granted as it is; no
      other makes a call. */
  method SleepMs(ms: int) returns (r: Request)
    requires -0x8000_0000 <= ms <= 0x7fff_ffff
    ensures r == if ms <= 0 then NoCall else SleepCall(ms)
    ensures Granted(r) == if ms > 0 then ms else 0
  {
    if ms <= 0 {
      return NoCall;
    }
    return SleepCall(Register(ms));
  }

  /** 1000 ms for each second; from 2000000 seconds on always 2000000000 ms, so that the
      product stays an int. */
  method Sleep(seconds: int) returns (r: Request)
    requires -0x8000_0000 <= seconds <= 0x7fff_ffff
    ensures r == if seconds <= 0 then NoCall else SleepCall(if seconds <= 2000000 then 1000 * seconds else 2000000000)
    ensures Granted(r) == if seconds <= 0 then 0 else if seconds <= 2000000 then 1000 * seconds else 2000000000
  {
    if seconds <= 0 {
      return NoCall;
    }
    var s := seconds;
    if s > MAX_SECONDS {
      s := MAX_SECONDS;
    }
    r := SleepMs(s * 1000);
  }
}
