/** The values of dynamic columns: what is stored for each type, how long it is planned to be, and
    that reading gives it back. */
module DynValues {
  import opened Arith
  import opened Basics
  import opened DynCodec

  datatype Kind = KindNone | KindError | KindDate | KindDateTime | KindTime

  /** MYSQL_TIME, within the bounds that the store functions demand. */
  datatype TimeFields = TimeFields(year: nat, month: nat, day: nat, hour: nat, minute: nat, second: nat,
                                   micro: nat, neg: bool, kind: Kind)

  type Time = t: TimeFields | InRange(t) witness TimeFields(0, 0, 0, 0, 0, 0, 0, false, KindNone)

  predicate InRange(t: TimeFields) {
    t.year <= 9999 && t.month <= 12 && t.day <= 31 && t.hour <= 838 && t.minute <= 59 && t.second <= 59
    && t.micro <= 999999
  }

  type Octets8 = s: seq<Byte> | |s| == 8 witness [0, 0, 0, 0, 0, 0, 0, 0]
  type Charset = x: int | 0 <= x < 0x1_0000_0000

  /** A double is eight opaque bytes; a nested record is its bytes. */
  datatype Value = Null | Int(i: Int64) | Uint(u: Uint64) | Double(bits: Octets8)
    | Str(charset: Charset, text: seq<Byte>)
    | DateTime(t: Time) | Date(t: Time) | TimeOfDay(t: Time) | Nested(record: seq<Byte>)

  datatype Format = Numeric | Named

  /** The type numbers of the format; 0 is NULL and 5, decimal, is not compiled in. */
  function TypeOf(v: Value): nat {
    match v
    case Null => 0
    case Int(_) => 1
    case Uint(_) => 2
    case Double(_) => 3
    case Str(_, _) => 4
    case DateTime(_) => 6
    case Date(_) => 7
    case TimeOfDay(_) => 8
    case Nested(_) => 9
  }

  // ---- Dates and times ----

  /** Values of other kinds lose their date or time part when they are stored. */
  function DatePart(t: Time): Time {
    if t.kind == KindNone || t.kind == KindError || t.kind == KindTime then t.(year := 0, month := 0, day := 0) else t
  }

  function TimePart(t: Time): Time {
    if t.kind == KindNone || t.kind == KindError || t.kind == KindDate then
      t.(neg := false, micro := 0, hour := 0, minute := 0, second := 0)
    else
      t
  }

  /** 14 bits of year, 4 of month and 5 of day, in three bytes. */
  function DateStore(t: Time): (s: seq<Byte>)
    ensures |s| == 3
  {
    var d := DatePart(t);
    [d.day + d.month % 8 * 32, d.month / 8 + d.year % 128 * 2, d.year / 128]
  }

  function SixStore(c: Time): (s: seq<Byte>)
    ensures |s| == 6
  {
    [c.micro % 256, c.micro / 256 % 256, c.second % 16 * 16 + c.micro / 65536,
     c.minute * 4 + c.second / 16, c.hour % 256, c.hour / 256 + if c.neg then 4 else 0]
  }

  function ThreeStore(c: Time): (s: seq<Byte>)
    ensures |s| == 3
  {
    [c.second + c.minute % 4 * 64, c.minute / 4 + c.hour % 16 * 16, c.hour / 16 + if c.neg then 128 else 0]
  }

  /** With a fraction, or always in numeric records, six bytes; otherwise three. */
  function TimeStore(t: Time, format: Format): (s: seq<Byte>)
    ensures |s| == if format == Numeric || TimePart(t).micro > 0 then 6 else 3
  {
    var c := TimePart(t);
    if format == Numeric || c.micro > 0 then SixStore(c) else ThreeStore(c)
  }

  /** The layout in bits: day, month and year. */
  lemma DateBits(t: Time)
    ensures var d := DatePart(t); UintValue(DateStore(t)) == d.day + 32 * d.month + 512 * d.year
  {
    var d, s := DatePart(t), DateStore(t);
    ThreeValue(s);
  }

  lemma ThreeValue(s: seq<Byte>)
    requires |s| == 3
    ensures UintValue(s) == s[0] as int + 256 * s[1] as int + 65536 * s[2] as int
  {
    assert UintValue(s[2..]) == s[2] as int;
    assert s[1..][1..] == s[2..];
  }

  /** Microseconds, seconds, minutes, hours and sign; without the microseconds in the short form. */
  lemma TimeBits(c: Time)
    ensures UintValue(SixStore(c)) == c.micro + 0x10_0000 * c.second + 0x400_0000 * c.minute
              + 0x1_0000_0000 * c.hour + if c.neg then 0x400_0000_0000 else 0
    ensures UintValue(ThreeStore(c)) == c.second + 64 * c.minute + 4096 * c.hour + if c.neg then 0x80_0000 else 0
  {
    var s := SixStore(c);
    assert s == s[..3] + s[3..];
    ThreeValue(s[..3]);
    ThreeValue(s[3..]);
    SixValue(s);
    ThreeValue(ThreeStore(c));
    assert c.micro / 256 == c.micro / 65536 * 256 + c.micro / 256 % 256;
  }

  lemma SixValue(s: seq<Byte>)
    requires |s| == 6
    ensures UintValue(s) == UintValue(s[..3]) + 0x100_0000 * UintValue(s[3..])
  {
    var t := s[..3];
    ThreeValue(t);
    assert s[1..][1..] == s[2..] && s[2..][1..] == s[3..];
  }

  datatype Result<T> = Ok(value: T) | FormatError | UnknownCharset

  function DateRead(data: seq<Byte>, into: TimeFields): Result<TimeFields> {
    if |data| != 3 then FormatError else
      var (a: int, b: int, c: int) := (data[0], data[1], data[2]);
      var t := into.(day := a % 32, month := b % 2 * 8 + a / 32, year := c * 128 + b / 2);
      if t.day > 31 || t.month > 12 || t.year > 9999 then FormatError else Ok(t)
  }

  function SixRead(data: seq<Byte>, into: TimeFields): TimeFields
    requires |data| == 6
  {
    var (a: int, b: int, c: int) := (data[0], data[1], data[2]);
    var (d: int, e: int, f: int) := (data[3], data[4], data[5]);
    into.(micro := a + b * 256 + c % 16 * 65536, second := c / 16 + d % 4 * 16, minute := d / 4,
          hour := f % 4 * 256 + e, neg := f / 4 % 2 == 1)
  }

  function ThreeRead(data: seq<Byte>, into: TimeFields): TimeFields
    requires |data| == 3
  {
    var (a: int, b: int, c: int) := (data[0], data[1], data[2]);
    into.(micro := 0, second := a % 64, minute := a / 64 + b % 16 * 4, hour := b / 16 + c % 64 * 16,
          neg := c / 128 == 1)
  }

  function TimeRead(data: seq<Byte>, into: TimeFields): Result<TimeFields> {
    if |data| != 6 && |data| != 3 then FormatError else
      var t := if |data| == 6 then SixRead(data, into) else ThreeRead(data, into);
      if t.second > 59 || t.minute > 59 || t.hour > 838 || t.micro > 999999 then FormatError else Ok(t)
  }

  lemma DateRoundTrip(t: Time, into: TimeFields)
    ensures DateRead(DateStore(t), into)
         == Ok(into.(year := DatePart(t).year, month := DatePart(t).month, day := DatePart(t).day))
  {
  }

  lemma SixBytes(micro: nat, second: nat, minute: nat, hour: nat, flag: nat)
    requires micro < 0x10_0000 && second < 64 && hour < 1024 && flag in {0, 4}
    ensures var (c, d, f) := (second % 16 * 16 + micro / 65536, minute * 4 + second / 16, hour / 256 + flag);
      && micro % 256 + micro / 256 % 256 * 256 + c % 16 * 65536 == micro
      && c / 16 + d % 4 * 16 == second && d / 4 == minute && f % 4 * 256 + hour % 256 == hour && f / 4 == flag / 4
  {
    assert micro / 65536 < 16 && second / 16 < 4 && hour / 256 < 4;
    HighLow(second % 16, micro / 65536, 16);
    HighLow(minute, second / 16, 4);
    HighLow(flag / 4, hour / 256, 4);
    assert micro / 256 == micro / 65536 * 256 + micro / 256 % 256;
  }

  lemma ThreeBytes(second: nat, minute: nat, hour: nat, flag: nat)
    requires second < 64 && minute < 64 && hour < 1024 && flag in {0, 128}
    ensures var (a, b, c) := (second + minute % 4 * 64, minute / 4 + hour % 16 * 16, hour / 16 + flag);
      && a % 64 == second && a / 64 + b % 16 * 4 == minute && b / 16 + c % 64 * 16 == hour && c / 128 == flag / 128
  {
    HighLow(minute % 4, second, 64);
    HighLow(hour % 16, minute / 4, 16);
    HighLow(flag / 64, hour / 16, 64);
  }

  function WithTime(into: TimeFields, c: Time): TimeFields {
    into.(hour := c.hour, minute := c.minute, second := c.second, micro := c.micro, neg := c.neg)
  }

  lemma SixRoundTrip(c: Time, into: TimeFields)
    ensures SixRead(SixStore(c), into) == WithTime(into, c)
  {
    SixBytes(c.micro, c.second, c.minute, c.hour, if c.neg then 4 else 0);
  }

  lemma ThreeRoundTrip(c: Time, into: TimeFields)
    ensures ThreeRead(ThreeStore(c), into) == WithTime(into, c).(micro := 0)
  {
    ThreeBytes(c.second, c.minute, c.hour, if c.neg then 128 else 0);
  }

  lemma TimeRoundTrip(t: Time, format: Format, into: TimeFields)
    ensures TimeRead(TimeStore(t, format), into) == Ok(WithTime(into, TimePart(t)))
  {
    var c := TimePart(t);
    SixRoundTrip(c, into);
    ThreeRoundTrip(c, into);
    hide SixRead, SixStore, ThreeRead, ThreeStore;
  }

  // ---- Values ----

  /** The bytes of a value. */
  ghost function Encoding(v: Value, format: Format): seq<Byte> {
    match v
    case Null => []
    case Int(i) => UintEncoding(ZigZag(i))
    case Uint(u) => UintEncoding(u)
    case Double(bits) => bits
    case Str(charset, text) => VarUint(charset) + text
    case DateTime(t) => DateStore(t) + TimeStore(t, format)
    case Date(t) => DateStore(t)
    case TimeOfDay(t) => TimeStore(t, format)
    case Nested(record) => record
  }

  /** dynamic_column_value_len plans by the fraction that a value has before it is stored. */
  ghost predicate Misplanned(v: Value, format: Format) {
    && format == Named && (v.DateTime? || v.TimeOfDay?)
    && v.t.micro > 0 && (v.t.kind == KindNone || v.t.kind == KindError || v.t.kind == KindDate)
  }

  /** Times of another kind with a fraction are planned with the bytes of the fraction, which
      storing leaves out; all other values are planned right. */
  ghost function PlannedLen(v: Value, format: Format): nat {
    |Encoding(v, format)| + if Misplanned(v, format) then 3 else 0
  }

  method ValueLen(v: Value, format: Format) returns (len: nat)
    ensures len == PlannedLen(v, format)
  {
    hide UintEncoding, VarUint;
    match v
    case Null => len := 0;
    case Int(i) => len := UintBytes(ZigZag(i));
    case Uint(u) => len := UintBytes(u);
    case Double(_) => len := 8;
    case Str(charset, text) =>
      len := VarUintBytes(charset);
      len := len + |text|;
    case DateTime(t) => len := if format == Numeric || t.micro != 0 then 9 else 6;
    case Date(_) => len := 3;
    case TimeOfDay(t) => len := if format == Numeric || t.micro != 0 then 6 else 3;
    case Nested(record) => len := |record|;
  }

  /** A date with a fraction as the value of a date-time column: nine bytes planned, six stored. */
  lemma PlannedTooLong()
    ensures var v := DateTime(NO_TIME.(micro := 1, kind := KindDate));
      PlannedLen(v, Named) == 9 && |Encoding(v, Named)| == 6
  {
  }

  /** data_store: appends the bytes of a value. */
  method DataStore(str: DynString, v: Value, format: Format)
    requires v != Null
    modifies str
    ensures str.str == old(str.str) + Encoding(v, format)
  {
    hide UintEncoding, VarUint, DateStore, TimeStore;
    match v
    case Int(i) => UintStore(str, ZigZag(i));
    case Uint(u) => UintStore(str, u);
    case Double(bits) => str.Append(bits);
    case Str(charset, text) =>
      VarUintStore(str, charset);
      str.Append(text);
    case DateTime(t) =>
      str.Append(DateStore(t));
      str.Append(TimeStore(t, format));
    case Date(t) => str.Append(DateStore(t));
    case TimeOfDay(t) => str.Append(TimeStore(t, format));
    case Nested(record) => str.Append(record);
  }

  const NO_TIME := TimeFields(0, 0, 0, 0, 0, 0, 0, false, KindNone)

  function DateTimeRead(data: seq<Byte>): Result<TimeFields> {
    if |data| != 9 && |data| != 6 then FormatError else
      var d := DateRead(data[..3], NO_TIME.(kind := KindDateTime));
      if d.Ok? then TimeRead(data[3..], d.value) else d
  }

  /** What bytes of a column type denote; `known` are the character sets of the library. */
  ghost function Decoding(typ: nat, data: seq<Byte>, known: nat -> bool): Result<Value> {
    if typ == 0 then Ok(Null)
    else if typ == 1 then
      if |data| <= 8 && UintValue(data) < Exp(256, 8) then Ok(Int(SignedOf(data))) else FormatError
    else if typ == 2 then (if |data| <= 8 && UintValue(data) < Exp(256, 8) then Ok(Uint(WordOf(data))) else FormatError)
    else if typ == 3 then (if |data| == 8 then Ok(Double(data)) else FormatError)
    else if typ == 4 then
      var (charset, len) := VarUintValue(data);
      var nr := charset % 0x1_0000_0000;
      if len == 0 || len > |data| then FormatError
      else if !known(nr) then UnknownCharset
      else Ok(Str(nr, data[len..]))
    else if typ == 6 then AsValue(DateTimeRead(data), 6)
    else if typ == 7 then AsValue(DateRead(data, NO_TIME.(kind := KindDate)), 7)
    else if typ == 8 then AsValue(TimeRead(data, NO_TIME.(kind := KindTime)), 8)
    else if typ == 9 then Ok(Nested(data))
    else FormatError
  }

  ghost function WordOf(data: seq<Byte>): Uint64
    requires UintValue(data) < Exp(256, 8)
  {
    Base8();
    UintValue(data)
  }

  ghost function SignedOf(data: seq<Byte>): Int64
    requires UintValue(data) < Exp(256, 8)
  {
    UnZigZag(WordOf(data))
  }

  function AsValue(r: Result<TimeFields>, typ: nat): Result<Value> {
    match r
    case Ok(t) =>
      if !InRange(t) then FormatError
      else if typ == 6 then Ok(DateTime(t)) else if typ == 7 then Ok(Date(t)) else Ok(TimeOfDay(t))
    case FormatError => FormatError
    case UnknownCharset => UnknownCharset
  }

  /** What storing keeps of a value. */
  function Kept(v: Value): Value {
    match v
    case DateTime(t) => DateTime(DatePart(TimePart(t)).(kind := KindDateTime))
    case Date(t) => Date(DatePart(t).(hour := 0, minute := 0, second := 0, micro := 0, neg := false, kind := KindDate))
    case TimeOfDay(t) => TimeOfDay(TimePart(t).(year := 0, month := 0, day := 0, kind := KindTime))
    case _ => v
  }

  /** Times whose kind is that of the column, without parts that the column does not have. */
  predicate Matching(v: Value) {
    match v
    case DateTime(t) => t.kind == KindDateTime
    case Date(t) => t.kind == KindDate && t.hour == t.minute == t.second == t.micro == 0 && !t.neg
    case TimeOfDay(t) => t.kind == KindTime && t.year == t.month == t.day == 0
    case _ => true
  }

  /** Storing keeps exactly the matching values unchanged. */
  lemma KeptIffMatching(v: Value)
    ensures Kept(v) == v <==> Matching(v)
  {
  }

  /** Reading what was stored gives back what storing keeps. */
  lemma ValueRoundTrip(v: Value, format: Format, known: nat -> bool)
    requires v.Str? ==> known(v.charset)
    ensures Decoding(TypeOf(v), Encoding(v, format), known) == Ok(Kept(v))
  {
    hide TimeRead, TimeStore, DateRead, DateStore, UintEncoding, VarUint, UintValue, VarUintValue;
    Base8();
    match v
    case Int(i) => UintRoundTrip(ZigZag(i)); UintLength(ZigZag(i), 8); ZigZagInverse(i, 0);
    case Uint(u) => UintRoundTrip(u); UintLength(u, 8);
    case Str(charset, text) => VarUintRoundTrip(charset, text);
    case DateTime(t) =>
      var into := NO_TIME.(kind := KindDateTime);
      DateRoundTrip(t, into);
      var d := into.(year := DatePart(t).year, month := DatePart(t).month, day := DatePart(t).day);
      TimeRoundTrip(t, format, d);
      var data := Encoding(v, format);
      assert data[..3] == DateStore(t) && data[3..] == TimeStore(t, format);
    case Date(t) => DateRoundTrip(t, NO_TIME.(kind := KindDate));
    case TimeOfDay(t) => TimeRoundTrip(t, format, NO_TIME.(kind := KindTime));
    case _ =>
  }

  /** dynamic_column_get_value. The integer readers expect at most eight bytes. */
  method GetValue(typ: nat, data: seq<Byte>, known: nat -> bool) returns (r: Result<Value>)
    requires typ == 1 || typ == 2 ==> |data| <= 8
    ensures r == Decoding(typ, data, known)
  {
    hide UintValue, VarUintValue, DateRead, TimeRead, UnZigZag;
    Base8();
    match typ
    case 0 => r := Ok(Null);
    case 1 =>
      var u := UintRead(data);
      r := Ok(Int(UnZigZag(u)));
    case 2 =>
      var u := UintRead(data);
      r := Ok(Uint(u));
    case 3 => r := if |data| != 8 then FormatError else Ok(Double(data));
    case 4 => r := StringRead(data, known);
    case 6 => r := AsValue(DateTimeRead(data), 6);
    case 7 => r := AsValue(DateRead(data, NO_TIME.(kind := KindDate)), 7);
    case 8 => r := AsValue(TimeRead(data, NO_TIME.(kind := KindTime)), 8);
    case 9 => r := Ok(Nested(data));
    case _ => r := FormatError;
  }

  method StringRead(data: seq<Byte>, known: nat -> bool) returns (r: Result<Value>)
    ensures r == Decoding(4, data, known)
  {
    VarUintFits(data);
    hide VarUintValue;
    var val, len := VarUintGet(data);
    if len == 0 {
      return FormatError;
    }
    var nr := val % 0x1_0000_0000;
    r := if !known(nr) then UnknownCharset else Ok(Str(nr, data[len..]));
  }

  lemma {:induction false} VarUintFits(data: seq<Byte>)
    ensures VarUintValue(data).1 <= |data|
  {
    if data != [] && data[0] >= 128 {
      VarUintFits(data[1..]);
    }
  }
}
