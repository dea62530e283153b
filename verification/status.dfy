/**
 * `StatusFile` from pwnagotchi/utils.py: a small file remembering when
 * something last happened (its modification time) and, optionally, some data
 * (the raw text, or a JSON document). Instants are integers counting
 * microseconds, the resolution of Python's `datetime`; the clock and the
 * file system are parameters.
 */
module StatusFiles {
  import opened Wrappers
  import opened Python
  import opened Text

  /** An instant, in microseconds since an arbitrary epoch. */
  type Instant = int

  const MicrosPerSecond: int := 1_000_000
  const SecondsPerDay: int := 86_400
  const MicrosPerDay: int := SecondsPerDay * MicrosPerSecond

  /** How the file's content is read and written: `data_format == 'json'`
      selects JSON, every other format name means raw text. */
  datatype Format = Raw | Json

  function FormatOf(dataFormat: string): Format {
    if dataFormat == "json" then Json else Raw
  }

  function FormatName(f: Format): (name: string)
    ensures FormatOf(name) == f
  {
    match f
    case Json => "json"
    case Raw => "raw"
  }

  /** The object's state: `updated` is None until a timestamp is known, and
      `data` is Python's `None` (`PNone`) until something is read or set. */
  datatype StatusFile = StatusFile(path: string, format: Format, updated: Option<Instant>, data: PyValue)

  /** What the constructor finds at `path`. */
  datatype OnDisk = Absent | Present(mtime: Instant, text: string)

  // ---------------------------------------------------------------- constructor

  /** `StatusFile(path, data_format)`: a missing file leaves everything None;
      an existing one supplies the timestamp (its modification time) and the
      data (its text, or the JSON it decodes to; a decoding error propagates).
      The file is opened in text mode, so line endings are translated before
      anything else sees the content. */
  function Load(path: string, dataFormat: string, disk: OnDisk, decode: string -> PyResult<PyValue>): (r: PyResult<StatusFile>)
    ensures r.Success? ==> r.value.path == path && r.value.format == FormatOf(dataFormat)
    ensures r.Success? ==> r.value.updated == (if disk.Present? then Some(disk.mtime) else None)
    ensures disk.Absent? ==> r.Success? && r.value.data == PNone
    ensures disk.Present? && FormatOf(dataFormat).Raw? ==>
              r.Success? && r.value.data == PStr(UniversalNewlines(disk.text))
    ensures disk.Present? && FormatOf(dataFormat).Json? ==>
              (r.Success? <==> decode(UniversalNewlines(disk.text)).Success?) &&
              (r.Success? ==> r.value.data == decode(UniversalNewlines(disk.text)).value) &&
              (r.Failure? ==> r.error == decode(UniversalNewlines(disk.text)).error)
  {
    var format := FormatOf(dataFormat);
    match disk
    case Absent => Success(StatusFile(path, format, None, PNone))
    case Present(mtime, raw) =>
      var text := UniversalNewlines(raw);
      if format.Json? then
        var data :- decode(text);
        Success(StatusFile(path, format, Some(mtime), data))
      else
        Success(StatusFile(path, format, Some(mtime), PStr(text)))
  }

  // ---------------------------------------------------------------- time windows

  /** A `timedelta` in Python's normal form: whole days (possibly negative),
      then seconds and microseconds within the day. */
  datatype Delta = Delta(days: int, seconds: int, micros: int)

  /** `now - stamped` as a `timedelta`. */
  function Since(now: Instant, stamped: Instant): (d: Delta)
    ensures 0 <= d.seconds < SecondsPerDay && 0 <= d.micros < MicrosPerSecond
    ensures (d.days * SecondsPerDay + d.seconds) * MicrosPerSecond + d.micros == now - stamped
  {
    var elapsed := now - stamped;
    var rest := elapsed % MicrosPerDay;
    Delta(elapsed / MicrosPerDay, rest / MicrosPerSecond, rest % MicrosPerSecond)
  }

  /** `newer_then_minutes(minutes)`: False when no timestamp is known (the
      threshold is then not even looked at); otherwise
      `timedelta.seconds / 60 < minutes`. As a real-number comparison against
      an integer this is `seconds < 60 * minutes`. A threshold that is not a
      number makes `<` raise TypeError. */
  function NewerThenMinutes(sf: StatusFile, now: Instant, minutes: PyValue): (r: PyResult<bool>)
    ensures sf.updated.None? ==> r == Success(false)
    ensures sf.updated.Some? ==> (r.Success? <==> AsNumber(minutes).Success?)
    ensures r.Failure? ==> r.error == TypeError
    ensures r == Success(true) ==>
              sf.updated.Some? && Since(now, sf.updated.value).seconds < 60 * AsNumber(minutes).value
  {
    match sf.updated
    case None => Success(false)
    case Some(t) =>
      var n :- AsNumber(minutes);
      Success(Since(now, t).seconds < 60 * n)
  }

  /** `newer_then_hours(hours)`: as `newer_then_minutes`, with
      `timedelta.seconds / 3600 < hours`. Only the within-day part of the
      elapsed time is looked at: whole days are ignored. */
  function NewerThenHours(sf: StatusFile, now: Instant, hours: PyValue): (r: PyResult<bool>)
    ensures sf.updated.None? ==> r == Success(false)
    ensures sf.updated.Some? ==> (r.Success? <==> AsNumber(hours).Success?)
    ensures r.Failure? ==> r.error == TypeError
    ensures r == Success(true) ==>
              sf.updated.Some? && Since(now, sf.updated.value).seconds < 3600 * AsNumber(hours).value
  {
    match sf.updated
    case None => Success(false)
    case Some(t) =>
      var n :- AsNumber(hours);
      Success(Since(now, t).seconds < 3600 * n)
  }

  /** `newer_then_days(days)`: False without a timestamp, otherwise
      `timedelta.days < days` (whole days, rounded towards minus infinity). */
  function NewerThenDays(sf: StatusFile, now: Instant, days: PyValue): (r: PyResult<bool>)
    ensures sf.updated.None? ==> r == Success(false)
    ensures sf.updated.Some? ==> (r.Success? <==> AsNumber(days).Success?)
    ensures r.Failure? ==> r.error == TypeError
    ensures r == Success(true) ==>
              sf.updated.Some? && Since(now, sf.updated.value).days < AsNumber(days).value
  {
    match sf.updated
    case None => Success(false)
    case Some(t) =>
      var n :- AsNumber(days);
      Success(Since(now, t).days < n)
  }

  /** Without a timestamp nothing is ever newer than any window, whatever the
      window is (even one that is not a number). */
  lemma NeverNewerWithoutTimestamp(sf: StatusFile, now: Instant, window: PyValue)
    requires sf.updated.None?
    ensures NewerThenMinutes(sf, now, window) == Success(false)
    ensures NewerThenHours(sf, now, window) == Success(false)
    ensures NewerThenDays(sf, now, window) == Success(false)
  {
  }

  /** The `timedelta` of `now - stamped` is determined by its recomposition:
      two normal forms of the same span are equal. */
  lemma {:induction false} SinceUnique(d: Delta, now: Instant, stamped: Instant)
    requires 0 <= d.seconds < SecondsPerDay && 0 <= d.micros < MicrosPerSecond
    requires (d.days * SecondsPerDay + d.seconds) * MicrosPerSecond + d.micros == now - stamped
    ensures Since(now, stamped) == d
  {
    var e := Since(now, stamped);
    var a := d.seconds * MicrosPerSecond + d.micros;
    var b := e.seconds * MicrosPerSecond + e.micros;
    assert 0 <= a < MicrosPerDay && 0 <= b < MicrosPerDay;
    assert d.days * MicrosPerDay + a == e.days * MicrosPerDay + b;
    assert d.days == e.days;
    assert d.seconds == e.seconds;
  }

  /** Moving `now` by whole days does not change the seconds component. */
  lemma SinceShiftDays(now: Instant, stamped: Instant, k: int)
    ensures Since(now + k * MicrosPerDay, stamped).seconds == Since(now, stamped).seconds
  {
    var d := Since(now, stamped);
    SinceUnique(Delta(d.days + k, d.seconds, d.micros), now + k * MicrosPerDay, stamped);
  }

  /** The minute and hour windows only see the elapsed time modulo one day:
      checking any whole number of days later gives the same answer. */
  lemma WindowsIgnoreWholeDays(sf: StatusFile, now: Instant, window: PyValue, k: int)
    ensures NewerThenMinutes(sf, now + k * MicrosPerDay, window) == NewerThenMinutes(sf, now, window)
    ensures NewerThenHours(sf, now + k * MicrosPerDay, window) == NewerThenHours(sf, now, window)
  {
    if sf.updated.Some? {
      SinceShiftDays(now, sf.updated.value, k);
    }
  }

  /** Within the first day after the timestamp, the minute window means what
      its name says: newer than `m` minutes exactly when less than `m`
      minutes have passed. */
  lemma MinutesWithinADay(sf: StatusFile, now: Instant, m: int)
    requires sf.updated.Some? && sf.updated.value <= now < sf.updated.value + MicrosPerDay
    ensures NewerThenMinutes(sf, now, PInt(m)) == Success(now - sf.updated.value < m * 60 * MicrosPerSecond)
  {
    var e := now - sf.updated.value;
    var d := Since(now, sf.updated.value);
    SinceUnique(Delta(0, e / MicrosPerSecond, e % MicrosPerSecond), now, sf.updated.value);
    assert d.seconds < 60 * m <==> e < m * 60 * MicrosPerSecond;
  }

  /** Within the first day after the timestamp, the hour window means what
      its name says: newer than `h` hours exactly when less than `h` hours
      have passed. */
  lemma HoursWithinADay(sf: StatusFile, now: Instant, h: int)
    requires sf.updated.Some? && sf.updated.value <= now < sf.updated.value + MicrosPerDay
    ensures NewerThenHours(sf, now, PInt(h)) == Success(now - sf.updated.value < h * 3600 * MicrosPerSecond)
  {
    var e := now - sf.updated.value;
    var d := Since(now, sf.updated.value);
    SinceUnique(Delta(0, e / MicrosPerSecond, e % MicrosPerSecond), now, sf.updated.value);
    assert d.seconds < 3600 * h <==> e < h * 3600 * MicrosPerSecond;
  }

  /** A recording made one day and one second ago still counts as newer than
      one hour: the day is dropped and only the second is compared. */
  lemma HourWindowWrapsAfterADay()
    ensures NewerThenHours(StatusFile("", Raw, Some(0), PNone), MicrosPerDay + MicrosPerSecond, PInt(1)) == Success(true)
  {
    SinceUnique(Delta(1, 1, 0), MicrosPerDay + MicrosPerSecond, 0);
  }

  /** The day window is exact, in either direction of time: newer than `n`
      days exactly when less than `n` whole days' worth of microseconds
      separate `now` from the timestamp. */
  lemma DaysWindowExact(sf: StatusFile, now: Instant, n: int)
    requires sf.updated.Some?
    ensures NewerThenDays(sf, now, PInt(n)) == Success(now - sf.updated.value < n * MicrosPerDay)
  {
    var d := Since(now, sf.updated.value);
    assert now - sf.updated.value == d.days * MicrosPerDay + (d.seconds * MicrosPerSecond + d.micros);
    if d.days < n {
      assert d.days * MicrosPerDay + MicrosPerDay <= n * MicrosPerDay;
    } else {
      assert n * MicrosPerDay <= d.days * MicrosPerDay;
    }
  }

  // ---------------------------------------------------------------- data_field_or

  /** `data_field_or(name, default)`: `data[name]` when data is not None and
      `name in data`, else `default`. Membership and lookup follow Python:
      for a dictionary this is a key lookup; a string or list that contains
      `name` passes the membership test but cannot be indexed by a string,
      and a number is not a container at all, so those raise TypeError. */
  function DataFieldOr(sf: StatusFile, name: string, default: PyValue): (r: PyResult<PyValue>)
    ensures sf.data.PNone? ==> r == Success(default)
    ensures sf.data.PDict? ==> r == Success(if name in sf.data.entries then sf.data.entries[name] else default)
    ensures sf.data.PStr? ==> r == if Text.Contains(sf.data.s, name) then Failure(TypeError) else Success(default)
    ensures sf.data.PList? ==> r == if PStr(name) in sf.data.items then Failure(TypeError) else Success(default)
    ensures sf.data.PInt? || sf.data.PBool? ==> r == Failure(TypeError)
  {
    if sf.data.PNone? then Success(default)
    else
      var present :- ContainsKey(sf.data, name);
      if present then GetItem(sf.data, name) else Success(default)
  }

  // ---------------------------------------------------------------- update

  /** What `update(data)` leaves behind: the object's new state (assigned
      before the file is opened, so it stands even when opening or writing
      raises), the file's new content (None when the file could not be
      opened and is left as it was; empty when the write raised after
      `open` truncated it), and the exception, if any. */
  datatype UpdateOutcome = UpdateOutcome(state: StatusFile, written: Option<string>, raised: Option<Exc>)

  /** `update(data)`: the timestamp becomes `now` and the data becomes
      `data`; then the file is opened for writing, which raises `openError`
      when it is given (a missing directory, a read-only file system). Once
      open, the file holds `str(now)` when `data` is None, the JSON encoding
      of `data` in JSON format, and otherwise `data` itself, which `write`
      rejects with TypeError unless it is a string. `stamp` is
      `str(datetime)` and `encode` is `json.dump`. */
  function Update(sf: StatusFile, now: Instant, data: PyValue, openError: Option<Exc>,
                  encode: PyValue -> string, stamp: Instant -> string): (r: UpdateOutcome)
    ensures r.state == sf.(updated := Some(now), data := data)
    ensures openError.Some? ==> r.raised == openError && r.written == None
    ensures openError.None? ==> r.written.Some?
    ensures openError.None? ==> (r.raised.Some? <==> sf.format.Raw? && !data.PNone? && !data.PStr?)
    ensures openError.None? && r.raised.Some? ==> r.raised.value == TypeError && r.written == Some("")
    ensures openError.None? && data.PNone? ==> r.written == Some(stamp(now))
    ensures openError.None? && !data.PNone? && sf.format.Json? ==> r.written == Some(encode(data))
    ensures openError.None? && sf.format.Raw? && data.PStr? ==> r.written == Some(data.s)
  {
    var state := sf.(updated := Some(now), data := data);
    if openError.Some? then UpdateOutcome(state, None, openError)
    else if data.PNone? then UpdateOutcome(state, Some(stamp(now)), None)
    else if sf.format.Json? then UpdateOutcome(state, Some(encode(data)), None)
    else if data.PStr? then UpdateOutcome(state, Some(data.s), None)
    else UpdateOutcome(state, Some(""), Some(TypeError))
  }

  /** Right after `update`, whether or not the file could be written, every
      window of positive length reports the file as newer, and no window of
      length zero or less does. */
  lemma JustUpdatedIsNewer(sf: StatusFile, now: Instant, data: PyValue, openError: Option<Exc>,
                           encode: PyValue -> string, stamp: Instant -> string, n: int)
    ensures var s := Update(sf, now, data, openError, encode, stamp).state;
            && NewerThenMinutes(s, now, PInt(n)) == Success(n > 0)
            && NewerThenHours(s, now, PInt(n)) == Success(n > 0)
            && NewerThenDays(s, now, PInt(n)) == Success(n > 0)
  {
    SinceUnique(Delta(0, 0, 0), now, now);
  }

  /** A field written by `update` with a dictionary is what `data_field_or`
      returns for it, and a key it lacks gives the default. */
  lemma UpdateThenField(sf: StatusFile, now: Instant, m: map<string, PyValue>, openError: Option<Exc>,
                        encode: PyValue -> string, stamp: Instant -> string, name: string, default: PyValue)
    ensures var s := Update(sf, now, PDict(m), openError, encode, stamp).state;
            DataFieldOr(s, name, default) == Success(if name in m then m[name] else default)
  {
  }

  /** Writing with `update` and constructing the object again from the file
      gives back the data written, with the file's modification time as the
      new timestamp. For JSON this needs decoding to invert encoding, and the
      encoding to hold no carriage return (`json.dump` escapes it inside
      strings and never emits one between tokens). Raw text comes back as
      text mode reads it, its carriage returns turned into newlines. */
  lemma UpdateThenLoad(sf: StatusFile, now: Instant, data: PyValue, encode: PyValue -> string,
                       decode: string -> PyResult<PyValue>, stamp: Instant -> string, mtime: Instant)
    requires !data.PNone?
    requires sf.format.Json? ==> '\r' !in encode(data) && decode(encode(data)) == Success(data)
    requires Update(sf, now, data, None, encode, stamp).raised.None?
    ensures var u := Update(sf, now, data, None, encode, stamp);
            var back := if sf.format.Raw? then PStr(UniversalNewlines(data.s)) else data;
            Load(sf.path, FormatName(sf.format), Present(mtime, u.written.value), decode)
              == Success(u.state.(updated := Some(mtime), data := back))
  {
  }

  /** In particular raw text without a carriage return survives a write and
      a reload exactly. */
  lemma RawTextRoundTrip(sf: StatusFile, now: Instant, text: string, encode: PyValue -> string,
                         decode: string -> PyResult<PyValue>, stamp: Instant -> string, mtime: Instant)
    requires sf.format.Raw? && '\r' !in text
    ensures var u := Update(sf, now, PStr(text), None, encode, stamp);
            Load(sf.path, FormatName(Raw), Present(mtime, u.written.value), decode)
              == Success(u.state.(updated := Some(mtime)))
  {
    UpdateThenLoad(sf, now, PStr(text), encode, decode, stamp, mtime);
  }

  /** A carriage return does not: text mode reads `a\rb` back as `a\nb`. */
  lemma CarriageReturnReloadsAsNewline(sf: StatusFile, now: Instant, encode: PyValue -> string,
                                       decode: string -> PyResult<PyValue>, stamp: Instant -> string, mtime: Instant)
    requires sf.format.Raw?
    ensures var u := Update(sf, now, PStr("a\rb"), None, encode, stamp);
            Load(sf.path, FormatName(Raw), Present(mtime, u.written.value), decode)
              == Success(u.state.(updated := Some(mtime), data := PStr("a\nb")))
  {
    assert UniversalNewlines("a\rb") == "a\nb" by {
      assert "a\rb"[1..] == "\rb" && "\rb"[1..] == "b";
    }
  }

  /** `update()` without data does not survive a reload of a raw file as
      None: the constructor reads the timestamp text back as the data. */
  lemma UpdateNoneReloadsTimestamp(sf: StatusFile, now: Instant, encode: PyValue -> string,
                                   decode: string -> PyResult<PyValue>, stamp: Instant -> string, mtime: Instant)
    requires sf.format.Raw?
    ensures var u := Update(sf, now, PNone, None, encode, stamp);
            && u.state.data == PNone
            && Load(sf.path, FormatName(Raw), Present(mtime, u.written.value), decode)
                 == Success(sf.(updated := Some(mtime), data := PStr(UniversalNewlines(stamp(now)))))
  {
  }
}
