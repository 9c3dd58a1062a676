/**
 * The millisecond timestamp codec of src/date.cpp. A timestamp is a count
 * of milliseconds since 1970-01-01T00:00:00 UTC. It is written as
 * `YYYY-MM-DDTHH:MM:SS.<ms>+00:00`, where `<ms>` is the millisecond
 * remainder as a plain, unpadded integer, and it is read back from that form
 * or from the legacy form `YYYY-MM-DD HH:MM:SS <sign>HHMM`.
 *
 * The C++ functions return 0 when the text is malformed. The model decodes
 * into a Result first (DecodeIso, DecodeRuby) and maps every error to 0 in
 * the functions that stand for the C++ ones (FromISODate, FromRubyDate), so
 * that a lemma can tell the error branch from a real epoch 0.
 */
module Date {
  import opened Wrappers
  import opened CText
  import opened CTime
  import opened TimeText

  /** C++ `/` on integers: the quotient truncated toward zero. */
  function TruncDiv(a: int, b: int): (q: int)
    requires b > 0
    ensures 0 <= a ==> 0 <= a - q * b < b
    ensures a < 0 ==> -b < a - q * b <= 0
  {
    if a >= 0 then a / b else -((-a) / b)
  }

  /** `t - (t / 1000) * 1000` with C++ division: the milliseconds after the whole seconds. */
  function Millis(t: int): int {
    t - TruncDiv(t, 1000) * 1000
  }

  /** The remainder lies in 0..999 for a non-negative `t`, in -999..0 otherwise, and recombines exactly. */
  lemma {:induction false} MillisBounds(t: int)
    ensures 0 <= t ==> 0 <= Millis(t) <= 999
    ensures t < 0 ==> -999 <= Millis(t) <= 0
    ensures TruncDiv(t, 1000) * 1000 + Millis(t) == t
  {
  }

  /** The text `toISODate` assembles: the calendar fields, `.`, the milliseconds, `+00:00`. */
  function IsoText(tm: Tm, ms: int): string {
    PutTime(tm, IsoFormat) + "." + IntToString(ms) + "+00:00"
  }

  /**
   * `Date::toISODate`: the UTC calendar fields of the whole seconds
   * `t / 1000` (truncating), then the millisecond remainder, unpadded and
   * with its minus sign when `t` is negative.
   */
  function ToISODate(t: int): string {
    IsoText(Gmtime(TruncDiv(t, 1000)), Millis(t))
  }

  /** Why a decode failed; the C++ code logs it and returns 0. */
  datatype DecodeError = NoDot | NoPlus | NoSpace

  /** The C++ failure convention: an error becomes the timestamp 0. */
  function OrZero(r: Result<int, DecodeError>): int {
    match r
    case Ok(v) => v
    case Err(_) => 0
  }

  /**
   * `Date::fromISODate` before errors become 0. Without a `T` anywhere the
   * text is legacy. Otherwise it is split at its last `.` into the calendar
   * fields and the rest.
   */
  function DecodeIso(d: string): Result<int, DecodeError> {
    match LastIndexOf(d, 'T')
    case None => DecodeRuby(d)
    case Some(_) =>
      match LastIndexOf(d, '.')
      case None => Err(NoDot)
      case Some(dot) => DecodeIsoParts(d[..dot], d[dot + 1..])
  }

  /** The whole seconds of the fields `get_time` reads from `start` with TIME_FORMAT. */
  function IsoSeconds(start: string): int {
    Timegm(GetTime(start, IsoFormat, ZeroTm))
  }

  /**
   * The text before and after the last `.`: the text of `rem` up to its last
   * `+` is read with `atol` as a count of milliseconds, and the offset after
   * that `+` is ignored.
   */
  function DecodeIsoParts(start: string, rem: string): Result<int, DecodeError> {
    match LastIndexOf(rem, '+')
    case None => Err(NoPlus)
    case Some(plus) => Ok(IsoMillis(start, rem[..plus]))
  }

  /** The timestamp for the fields `start` and the millisecond text `ms`. */
  function IsoMillis(start: string, ms: string): int {
    IsoSeconds(start) * 1000 + Atol(ms)
  }

  function FromISODate(d: string): int {
    OrZero(DecodeIso(d))
  }

  /**
   * `Date::fromRubyDate` before errors become 0: the text is split at its
   * last space into the clock reading and the offset token.
   */
  function DecodeRuby(d: string): Result<int, DecodeError> {
    match LastIndexOf(d, ' ')
    case None => Err(NoSpace)
    case Some(spc) => DecodeRubyParts(d[..spc], d[spc + 1..])
  }

  /** The whole seconds of the naive clock reading `get_time` reads from `start` with RUBY_TIME_FORMAT. */
  function RubySeconds(start: string): int {
    Timegm(GetTime(start, RubyFormat, ZeroTm))
  }

  /**
   * The offset in seconds of a token: `atol` of the token without its first
   * character, divided by 100 (truncating) to whole hours, negated when the
   * token starts with `-`.
   */
  function RubyOffset(token: string): int
    requires |token| > 0
  {
    var hrs := TruncDiv(Atol(token[1..]), 100);
    var offs := hrs * 60 * 60;
    if token[0] == '-' then -offs else offs
  }

  /**
   * The clock reading and the token after the last space: the token must
   * hold a `+` somewhere, and its offset is added to the clock reading.
   */
  function DecodeRubyParts(start: string, token: string): Result<int, DecodeError> {
    match LastIndexOf(token, '+')
    case None => Err(NoPlus)
    case Some(_) => Ok(RubyMillis(start, token))
  }

  /** The timestamp for the clock reading `start` moved by the offset of `token`. */
  function RubyMillis(start: string, token: string): int
    requires |token| > 0
  {
    (RubySeconds(start) + RubyOffset(token)) * 1000
  }

  function FromRubyDate(d: string): int {
    OrZero(DecodeRuby(d))
  }

  /**
   * The timestamp `Date::getFutureTime` prints: the whole seconds of `now`
   * moved by `hours` hours through `std::chrono` time points, times 1000,
   * plus the millisecond remainder of `now`. The split into whole seconds
   * and remainder recombines exactly, whatever the sign of `now`.
   */
  function ShiftedMillis(now: int, hours: int): (t: int)
    ensures t == now + hours * 3600000
  {
    var tnum := TruncDiv(now, 1000);
    var t := (tnum + hours * 3600) * 1000;
    var ms := now - tnum * 1000;
    t + ms
  }

  /** `Date::getFutureTime`: the shifted timestamp, encoded. */
  function GetFutureTime(now: int, hours: int): string {
    ToISODate(ShiftedMillis(now, hours))
  }
}
