/** FlagValue: typed flag values, their parser and their printer. */
module Values {
  import opened Text

  const TWO31: int := 0x8000_0000
  const TWO32: int := 0x1_0000_0000
  const TWO63: int := 0x8000_0000_0000_0000
  const TWO64: int := 0x1_0000_0000_0000_0000

  type int32 = x: int | -0x8000_0000 <= x < 0x8000_0000
  type uint32 = x: int | 0 <= x < 0x1_0000_0000
  type int64 = x: int | -0x8000_0000_0000_0000 <= x < 0x8000_0000_0000_0000
  type uint64 = x: int | 0 <= x < 0x1_0000_0000_0000_0000

  datatype FlagType = FvBool | FvInt32 | FvUint32 | FvInt64 | FvUint64 | FvString

  datatype Value =
    | BoolValue(b: bool)
    | Int32Value(i32: int32)
    | Uint32Value(u32: uint32)
    | Int64Value(i64: int64)
    | Uint64Value(u64: uint64)
    | StringValue(s: string)

  function TypeOf(v: Value): FlagType {
    match v
    case BoolValue(_) => FvBool
    case Int32Value(_) => FvInt32
    case Uint32Value(_) => FvUint32
    case Int64Value(_) => FvInt64
    case Uint64Value(_) => FvUint64
    case StringValue(_) => FvString
  }

  /** FlagValue::TypeName */
  function TypeName(t: FlagType): string {
    match t
    case FvBool => "bool"
    case FvInt32 => "int32"
    case FvUint32 => "uint32"
    case FvInt64 => "int64"
    case FvUint64 => "uint64"
    case FvString => "string"
  }

  /** FlagValue::New: the zero value of a type. */
  function ZeroOf(t: FlagType): (v: Value)
    ensures TypeOf(v) == t
  {
    match t
    case FvBool => BoolValue(false)
    case FvInt32 => Int32Value(0)
    case FvUint32 => Uint32Value(0)
    case FvInt64 => Int64Value(0)
    case FvUint64 => Uint64Value(0)
    case FvString => StringValue("")
  }

  // ----- strtoll / strtoull, section 7.22.1.4 of ISO/IEC 9899:2011 -----

  /** The value of a digit, or 16 for a character that is no digit in any base used here. */
  function DigitValue(c: char): nat {
    if '0' <= c <= '9' then c as int - '0' as int
    else if 'a' <= c <= 'f' then c as int - 'a' as int + 10
    else if 'A' <= c <= 'F' then c as int - 'A' as int + 10
    else 16
  }

  predicate AllDigits(s: string, base: nat) {
    forall i | 0 <= i < |s| :: DigitValue(s[i]) < base
  }

  /** Length of the longest digit prefix. */
  function DigitRun(s: string, base: nat): (n: nat)
    ensures n <= |s| && forall i | 0 <= i < n :: DigitValue(s[i]) < base
    ensures n < |s| ==> DigitValue(s[n]) >= base
  {
    if s == [] || DigitValue(s[0]) >= base then 0
    else 1 + DigitRun(s[1..], base)
  }

  /** The number that a digit string denotes in base 10 or 16. */
  function Magnitude(ds: string, base: nat): nat {
    if ds == [] then 0
    else
      var m := Magnitude(ds[..|ds| - 1], base);
      (if base == 16 then 16 * m else 10 * m) + DigitValue(ds[|ds| - 1])
  }

  /** What a strtoXXX call reports: the offset of `*endptr`, the sign seen, and the exact magnitude
      of the subject sequence, before any range adjustment. */
  datatype Subject = Subject(end: nat, negative: bool, magnitude: nat)

  predicate HasHexPrefix(s: string) {
    |s| >= 2 && s[0] == '0' && (s[1] == 'x' || s[1] == 'X')
  }

  function SignLength(s: string): nat {
    if s != [] && (s[0] == '+' || s[0] == '-') then 1 else 0
  }

  function ScanSubject(s: string, base: nat): Subject {
    var t := SkipSpace(s);
    var k := SignLength(t);
    var u := t[k..];
    var p := if base == 16 && HasHexPrefix(u) && |u| > 2 && DigitValue(u[2]) < 16 then 2 else 0;
    var n := DigitRun(u[p..], base);
    if n == 0 then Subject(0, false, 0)
    else Subject(|s| - |t| + k + p + n, t[0] == '-', Magnitude(u[p..][..n], base))
  }

  /** strtoll: None stands for errno == ERANGE or unread characters after the number. */
  function StrToInt64(s: string, base: nat): Option<int64> {
    var r := ScanSubject(s, base);
    var x: int := if r.negative then -(r.magnitude as int) else r.magnitude;
    if r.end == |s| && -TWO63 <= x < TWO63 then Some(x) else None
  }

  /** strtoull: a minus sign negates in the unsigned type. */
  function StrToUint64(s: string, base: nat): Option<uint64> {
    var r := ScanSubject(s, base);
    var x := if r.negative && r.magnitude != 0 then TWO64 - r.magnitude else r.magnitude;
    if r.end == |s| && r.magnitude < TWO64 then Some(x) else None
  }

  // ----- FlagValue::ParseFrom -----

  const TRUE_WORDS: seq<string> := ["1", "t", "true", "y", "yes"]
  const FALSE_WORDS: seq<string> := ["0", "f", "false", "n", "no"]

  predicate Among(s: string, words: seq<string>) {
    exists i | 0 <= i < |words| :: EqualIgnoringCase(s, words[i])
  }

  function BaseOf(s: string): nat {
    if HasHexPrefix(s) then 16 else 10
  }

  /** `while (*value == ' ') value++;` */
  function SkipBlanks(s: string): (r: string)
    ensures |r| <= |s|
  {
    if s != [] && s[0] == ' ' then SkipBlanks(s[1..]) else s
  }

  function ParseSigned(s: string): Option<int64> {
    if s == "" then None else StrToInt64(s, BaseOf(s))
  }

  function ParseUnsigned(s: string): Option<uint64> {
    if s == "" then None
    else
      var u := SkipBlanks(s);
      if u != "" && u[0] == '-' then None else StrToUint64(u, BaseOf(s))
  }

  function ParseBool(s: string): Option<bool> {
    if Among(s, TRUE_WORDS) then Some(true)
    else if Among(s, FALSE_WORDS) then Some(false)
    else None
  }

  function ParseValue(t: FlagType, s: string): (r: Option<Value>)
    ensures r.Some? ==> TypeOf(r.value) == t
  {
    match t
    case FvBool => (
      match ParseBool(s)
      case None => None
      case Some(b) => Some(BoolValue(b)))
    case FvString => Some(StringValue(s))
    case FvInt32 => (
      match ParseSigned(s)
      case None => None
      case Some(x) => if -TWO31 <= x < TWO31 then Some(Int32Value(x)) else None)
    case FvUint32 => (
      match ParseUnsigned(s)
      case None => None
      case Some(x) => if x < TWO32 then Some(Uint32Value(x)) else None)
    case FvInt64 => (
      match ParseSigned(s)
      case None => None
      case Some(x) => Some(Int64Value(x)))
    case FvUint64 => (
      match ParseUnsigned(s)
      case None => None
      case Some(x) => Some(Uint64Value(x)))
  }

  // ----- FlagValue::ToString -----

  function PrintNat(n: nat): (s: string)
    ensures s != "" && AllDigits(s, 10)
  {
    var d := [(n % 10 + '0' as int) as char];
    if n < 10 then d else PrintNat(n / 10) + d
  }

  function PrintInt(x: int): string {
    if x < 0 then "-" + PrintNat(-x) else PrintNat(x)
  }

  function ToString(v: Value): string {
    match v
    case BoolValue(b) => if b then "true" else "false"
    case Int32Value(x) => PrintInt(x)
    case Uint32Value(x) => PrintInt(x)
    case Int64Value(x) => PrintInt(x)
    case Uint64Value(x) => PrintInt(x)
    case StringValue(s) => s
  }
}
