/** The heap objects behind the flags: value buffers, FlagValue, CommandLineFlag and the
    FlagRegistry with its two indexes. Every method is proved against module Flags. */
module Registry {
  import opened Text
  import opened Values
  import ValueProofs
  import opened Flags
  import Names
  import Engine

  /** The storage of one value: what FLAGS_name names, or the place of a default value. */
  class Buffer {
    var value: Value

    constructor (v: Value)
      ensures value == v
    {
      value := v;
    }
  }

  /** A typed view of a buffer; which buffer it is never changes. */
  class FlagValue {
    const buffer: Buffer
    const valueType: FlagType

    constructor (b: Buffer, t: FlagType)
      ensures buffer == b && valueType == t
    {
      buffer, valueType := b, t;
    }

    ghost predicate Valid()
      reads buffer
    {
      TypeOf(buffer.value) == valueType
    }

    /** FlagValue::New: a value of the same type in a buffer of its own. */
    method New() returns (v: FlagValue)
      ensures fresh(v) && fresh(v.buffer) && v.valueType == valueType
      ensures v.Valid() && v.buffer.value == ZeroOf(valueType)
    {
      var b := new Buffer(ZeroOf(valueType));
      v := new FlagValue(b, valueType);
    }

    method CopyFrom(x: FlagValue)
      requires x.Valid() && x.valueType == valueType
      modifies buffer
      ensures buffer.value == old(x.buffer.value)
    {
      buffer.value := x.buffer.value;
    }

    /** The loop of ParseFrom over the spellings of true and false. */
    static method MatchBool(text: string) returns (r: Option<bool>)
      ensures r == ParseBool(text)
    {
      for i := 0 to |TRUE_WORDS|
        invariant forall k | 0 <= k < i :: !EqualIgnoringCase(text, TRUE_WORDS[k])
        invariant forall k | 0 <= k < i :: !EqualIgnoringCase(text, FALSE_WORDS[k])
      {
        if EqualIgnoringCase(text, TRUE_WORDS[i]) {
          return Some(true);
        } else if EqualIgnoringCase(text, FALSE_WORDS[i]) {
          TrueIsNotFalse(text);
          return Some(false);
        }
      }
      return None;
    }

    method ParseFrom(text: string) returns (ok: bool)
      requires Valid()
      modifies buffer
      ensures Valid()
      ensures ok <==> ParseValue(valueType, text).Some?
      ensures buffer.value ==
        if ok then ParseValue(valueType, text).value else old(buffer.value)
    {
      if valueType == FvBool {
        var b := MatchBool(text);
        if b.None? {
          return false;
        }
        buffer.value := BoolValue(b.value);
        return true;
      } else if valueType == FvString {
        buffer.value := StringValue(text);
        return true;
      }
      var r;
      if valueType == FvInt32 || valueType == FvInt64 {
        r := ReadSigned(text);
        if r.None? || (valueType == FvInt32 && !(-TWO31 <= r.value < TWO31)) {
          return false;
        }
        buffer.value := if valueType == FvInt32 then Int32Value(r.value) else Int64Value(r.value);
      } else {
        r := ReadUnsigned(text);
        if r.None? || (valueType == FvUint32 && r.value >= TWO32) {
          return false;
        }
        buffer.value := if valueType == FvUint32 then Uint32Value(r.value) else Uint64Value(r.value);
      }
      return true;
    }

    /** The cases of the signed types, up to the range check. */
    static method ReadSigned(text: string) returns (r: Option<int>)
      ensures r == ParseSigned(text)
    {
      if text == "" {
        return None;
      }
      var base := if HasHexPrefix(text) then 16 else 10;
      return StrToInt64(text, base);
    }

    /** The cases of the unsigned types, up to the range check. */
    static method ReadUnsigned(text: string) returns (r: Option<int>)
      ensures r == ParseUnsigned(text)
    {
      if text == "" {
        return None;
      }
      var base := if HasHexPrefix(text) then 16 else 10;
      var value := text;
      while value != "" && value[0] == ' '
        invariant SkipBlanks(value) == SkipBlanks(text)
        decreases |value|
      {
        value := value[1..];
      }
      if value != "" && value[0] == '-' {
        return None;
      }
      return StrToUint64(value, base);
    }
  }

  /** No text reads both as true and as false. */
  lemma TrueIsNotFalse(text: string)
    ensures Among(text, FALSE_WORDS) ==> !Among(text, TRUE_WORDS)
  {
    forall i, j | 0 <= i < |TRUE_WORDS| && 0 <= j < |FALSE_WORDS| && EqualIgnoringCase(text, FALSE_WORDS[j])
      ensures !EqualIgnoringCase(text, TRUE_WORDS[i])
    {
      assert ToLower(TRUE_WORDS[i][0]) != ToLower(FALSE_WORDS[j][0]);
    }
  }

  /** CommandLineFlagInfo of gflags.h */
  datatype CommandLineFlagInfo = CommandLineFlagInfo(
    name: string,
    flagType: FlagType,
    description: string,
    currentValue: string,
    defaultValue: string,
    filename: string,
    isDefault: bool,
    hasValidator: bool,
    flagPtr: Buffer)

  /** What is reported of a flag in state `f`. */
  function InfoOf(flag: CommandLineFlag, f: FlagState): CommandLineFlagInfo {
    var g := Touch(f);
    CommandLineFlagInfo(flag.name, TypeOf(g.defvalue), flag.help, ToString(g.current), ToString(g.defvalue), flag.filename,
      !g.modified, g.validator.Some?, flag.current.buffer)
  }

  /** The report reads back as the flag's own values, and says whether they were ever touched. */
  lemma InfoReads(flag: CommandLineFlag, f: FlagState)
    requires f.WellTyped()
    ensures var info := InfoOf(flag, f);
            && ParseValue(info.flagType, info.currentValue) == Some(f.current)
            && ParseValue(info.flagType, info.defaultValue) == Some(f.defvalue)
            && (info.isDefault <==> !f.modified && f.current == f.defvalue)
            && (info.hasValidator <==> f.validator.Some?)
  {
    ValueProofs.ParsePrintedText(f.current);
    ValueProofs.ParsePrintedText(f.defvalue);
    hide ParseValue, ToString;
  }

  class CommandLineFlag {
    const name: string
    const help: string
    const filename: string
    const defvalue: FlagValue
    const current: FlagValue
    var modified: bool
    var validator: Option<FnPtr>

    constructor (name: string, help: string, filename: string, current: FlagValue, defvalue: FlagValue)
      ensures this.name == name && this.help == help && this.filename == filename
      ensures this.current == current && this.defvalue == defvalue
      ensures !modified && validator == None
    {
      this.name, this.help, this.filename := name, help, filename;
      this.current, this.defvalue := current, defvalue;
      modified, validator := false, None;
    }

    ghost predicate Valid()
      reads current.buffer, defvalue.buffer
    {
      && current.Valid() && defvalue.Valid()
      && current.valueType == defvalue.valueType
      && current.buffer != defvalue.buffer
    }

    ghost function Objects(): set<object> {
      {this, current.buffer, defvalue.buffer}
    }

    ghost function State(): FlagState
      reads this, current.buffer, defvalue.buffer
    {
      FlagState(current.buffer.value, defvalue.buffer.value, modified, validator)
    }

    method UpdateModifiedBit()
      requires Valid()
      modifies `modified
      ensures State() == Touch(old(State()))
    {
      if !modified && current.buffer.value != defvalue.buffer.value {
        modified := true;
      }
    }

    /** Copies everything that can change; the buffers stay where they are. */
    method CopyFrom(src: CommandLineFlag)
      requires Valid() && src.Valid() && src.current.valueType == current.valueType
      requires Objects() !! src.Objects()
      modifies this, current.buffer, defvalue.buffer
      ensures Valid() && State() == old(src.State())
    {
      if modified != src.modified {
        modified := src.modified;
      }
      if current.buffer.value != src.current.buffer.value {
        current.CopyFrom(src.current);
      }
      if defvalue.buffer.value != src.defvalue.buffer.value {
        defvalue.CopyFrom(src.defvalue);
      }
      if validator != src.validator {
        validator := src.validator;
      }
    }

    method FillCommandLineFlagInfo() returns (info: CommandLineFlagInfo)
      requires Valid()
      modifies `modified
      ensures State() == Touch(old(State()))
      ensures info == InfoOf(this, old(State()))
    {
      var currentValue := ToString(current.buffer.value);
      var defaultValue := ToString(defvalue.buffer.value);
      UpdateModifiedBit();
      info := CommandLineFlagInfo(name, defvalue.valueType, help, currentValue, defaultValue, filename,
        !modified, validator.Some?, current.buffer);
    }
  }

  /** TryParseLocked: `target` is one of the two values of `flag`. The text is parsed into a
      tentative value first, so a refused text leaves the target alone. */
  method TryParseLocked(ok: Validators, flag: CommandLineFlag, target: FlagValue, text: string)
    returns (error: Option<Error>)
    requires flag.Valid() && (target == flag.current || target == flag.defvalue)
    modifies target.buffer
    ensures flag.Valid()
    ensures match TryParse(ok, flag.name, flag.validator, target.valueType, text)
            case Refused(e) => error == Some(e) && target.buffer.value == old(target.buffer.value)
            case Accepted(v) => error == None && target.buffer.value == v
  {
    var tentative := target.New();
    var parsed := tentative.ParseFrom(text);
    if !parsed {
      return Some(IllegalValue(text));
    }
    if flag.validator.Some? && !ok(flag.validator.value, flag.name, tentative.buffer.value) {
      return Some(FailedValidation(tentative.buffer.value));
    }
    target.CopyFrom(tentative);
    return None;
  }

  class FlagRegistry {
    var flags: map<string, CommandLineFlag>
    var flagsByPtr: map<Buffer, CommandLineFlag>
    ghost var Repr: set<object>   // the objects of all registered flags

    constructor ()
      ensures Valid() && flags == map[] && Repr == {}
    {
      flags, flagsByPtr, Repr := map[], map[], {};
    }

    ghost predicate Separate(f: CommandLineFlag, g: CommandLineFlag) {
      f.Objects() !! g.Objects()
    }

    /** The flags are filed under their own names and share no objects. */
    ghost predicate Apart()
      reads `flags, `Repr
    {
      && this !in Repr
      && (forall n | n in flags :: flags[n].name == n)
      && (forall n | n in flags :: flags[n] in Repr)
      && (forall n | n in flags :: flags[n].current.buffer in Repr)
      && (forall n | n in flags :: flags[n].defvalue.buffer in Repr)
      && (forall n, m {:trigger Separate(flags[n], flags[m])} | n in flags && m in flags && n != m ::
            Separate(flags[n], flags[m]))
    }

    /** The pointer index lists exactly the registered flags, under their current-value buffers. */
    ghost predicate Indexed()
      reads `flags, `flagsByPtr
    {
      && (forall n {:trigger flags[n].current.buffer} | n in flags ::
            flags[n].current.buffer in flagsByPtr && flagsByPtr[flags[n].current.buffer] == flags[n])
      && (forall b {:trigger flagsByPtr[b]} | b in flagsByPtr ::
            && flagsByPtr[b].name in flags && flags[flagsByPtr[b].name] == flagsByPtr[b]
            && flagsByPtr[b].current.buffer == b)
    }

    ghost predicate Valid()
      reads this, Repr
    {
      Apart() && Indexed() && forall n {:trigger flags[n].Valid()} | n in flags :: flags[n].Valid()
    }

    /** `table` is the state of every flag, by name. */
    ghost predicate Shows(table: Engine.FlagTable)
      requires Valid()
      reads this, Repr
    {
      table.Keys == flags.Keys && forall n {:trigger table[n]} | n in flags :: table[n] == flags[n].State()
    }

    lemma ShownKeys(table: Engine.FlagTable)
      requires Valid() && Shows(table)
      ensures table.Keys == flags.Keys
    {
    }

    lemma FlagFacts(table: Engine.FlagTable, n: string)
      requires Valid() && Shows(table) && n in flags
      ensures n in table && flags[n].Valid() && table[n] == flags[n].State() && flags[n].name == n
      ensures flags[n].Objects() <= Repr && this !in Repr && table.Keys == flags.Keys
    {
    }

    /** RegisterFlag; false stands for the fatal report of a second definition. */
    method RegisterFlag(flag: CommandLineFlag, ghost table: Engine.FlagTable) returns (ok: bool)
      requires Valid() && Shows(table)
      requires flag.Valid() && flag.Objects() !! Repr && this !in flag.Objects()
      modifies this
      ensures Valid()
      ensures ok <==> flag.name !in old(flags)
      ensures flags == if ok then old(flags)[flag.name := flag] else old(flags)
      ensures Repr == if ok then old(Repr) + flag.Objects() else old(Repr)
      ensures ok ==> Shows(table[flag.name := flag.State()])
      ensures !ok ==> Shows(table)
    {
      if flag.name in flags {
        return false;
      }
      Insert(flag, table);
      return true;
    }

    /** Enters a new flag into both indexes. */
    method Insert(flag: CommandLineFlag, ghost table: Engine.FlagTable)
      requires Valid() && Shows(table)
      requires flag.Valid() && flag.Objects() !! Repr && this !in flag.Objects()
      requires flag.name !in flags
      modifies this
      ensures Valid() && Shows(table[flag.name := flag.State()])
      ensures flags == old(flags)[flag.name := flag] && Repr == old(Repr) + flag.Objects()
    {
      Enter(flag);
      hide Apart, Indexed;
      forall n | n in table ensures n in flags && flags[n].Valid() && table[n] == flags[n].State() {
        assert old(flags[n].Valid());
      }
      RegisteredValid(flag, table);
    }

    /** The two indexes themselves. */
    method Enter(flag: CommandLineFlag)
      requires Apart() && Indexed()
      requires flag.Objects() !! Repr && this !in flag.Objects() && flag.name !in flags
      modifies this
      ensures Apart() && Indexed()
      ensures flags == old(flags)[flag.name := flag] && Repr == old(Repr) + flag.Objects()
    {
      flags := flags[flag.name := flag];
      flagsByPtr := flagsByPtr[flag.current.buffer := flag];
      Repr := Repr + flag.Objects();
      assert flag.current.buffer in flag.Objects();
      assert Apart() by { RegisteredApart(flag, old(flags), old(Repr)); }
      assert Indexed() by { RegisteredIndexed(flag, old(flags), old(flagsByPtr)); }
    }

    /** A flag whose objects are all new shares none with the flags registered before. */
    lemma RegisteredApart(flag: CommandLineFlag, before: map<string, CommandLineFlag>, repr: set<object>)
      requires flags == before[flag.name := flag] && flag.name !in before
      requires Repr == repr + flag.Objects() && this !in Repr && flag.Objects() !! repr
      requires forall n | n in before :: before[n].name == n && before[n].Objects() <= repr
      requires forall n, m | n in before && m in before && n != m :: Separate(before[n], before[m])
      ensures Apart()
    {
    }

    lemma RegisteredValid(flag: CommandLineFlag, before: Engine.FlagTable)
      requires Apart() && Indexed() && flag.name !in before && flags.Keys == before.Keys + {flag.name}
      requires flags[flag.name] == flag && flag.Valid()
      requires forall n | n in before :: flags[n].Valid() && before[n] == flags[n].State()
      ensures Valid() && Shows(before[flag.name := flag.State()])
    {
    }

    lemma RegisteredIndexed(
        flag: CommandLineFlag, before: map<string, CommandLineFlag>, byPtr: map<Buffer, CommandLineFlag>)
      requires flags == before[flag.name := flag] && flag.name !in before
      requires flagsByPtr == byPtr[flag.current.buffer := flag]
      requires forall n | n in before ::
        before[n].current.buffer != flag.current.buffer &&
        before[n].current.buffer in byPtr && byPtr[before[n].current.buffer] == before[n]
      requires forall b | b in byPtr ::
        byPtr[b].name in before && before[byPtr[b].name] == byPtr[b] && byPtr[b].current.buffer == b
      ensures Indexed()
    {
    }

    method FindFlagLocked(name: string, ghost table: Engine.FlagTable) returns (flag: CommandLineFlag?)
      requires Valid() && Shows(table)
      ensures match Names.FindFlag(Engine.Sig(table), name)
              case None => flag == null
              case Some(n) => n in flags && flag == flags[n] && flag.name == n
      decreases '-' in name
    {
      if name in flags {
        return flags[name];
      }
      if '-' !in name {
        return null;
      }
      flag := FindFlagLocked(Names.Underscored(name), table);
    }

    method FindFlagViaPtrLocked(ptr: Buffer) returns (flag: CommandLineFlag?)
      requires Valid()
      ensures flag == null <==> forall n | n in flags :: flags[n].current.buffer != ptr
      ensures flag == null <==> ptr !in flagsByPtr
      ensures flag != null ==>
        && flagsByPtr[ptr] == flag && flag.current.buffer == ptr
        && flag.name in flags && flags[flag.name] == flag
    {
      if ptr !in flagsByPtr {
        assert forall n | n in flags :: flags[n].current.buffer in flagsByPtr;
        return null;
      }
      return flagsByPtr[ptr];
    }

    /** When all flags but one are as `table` says, and that one is valid, the registry is valid and
        only that entry of the table differs. */
    lemma OneFlagChanged(flag: CommandLineFlag, table: Engine.FlagTable)
      requires Apart() && Indexed() && table.Keys == flags.Keys
      requires flag.name in flags && flags[flag.name] == flag && flag.Valid()
      requires forall n | n in flags && n != flag.name :: flags[n].Valid() && table[n] == flags[n].State()
      ensures Valid() && Shows(table[flag.name := flag.State()])
    {
    }

    method SetFlagLocked(
        ok: Validators, flag: CommandLineFlag, text: string, mode: Mode, ghost table: Engine.FlagTable)
      returns (error: Option<Error>)
      requires Valid() && Shows(table) && flag.name in flags && flags[flag.name] == flag
      modifies flag.Objects()
      ensures Valid()
      ensures var r := SetFlag(ok, flag.name, table[flag.name], text, mode);
              error == r.error && Shows(table[flag.name := r.flag])
    {
      error := SetFlagFields(ok, flag, text, mode);
      forall n | n in flags && n != flag.name
        ensures flags[n].Valid() && table[n] == flags[n].State()
      {
        assert Separate(flags[n], flags[flag.name]) && old(flags[n].Valid());
      }
      OneFlagChanged(flag, table);
    }

    /** FLAGS_name = v: the program writes to the buffer itself. */
    method WriteThrough(n: string, v: Value, ghost table: Engine.FlagTable)
      requires Valid() && Shows(table) && n in flags && n in table
      requires TypeOf(v) == TypeOf(table[n].defvalue)
      modifies flags[n].current.buffer
      ensures Valid() && Shows(table[n := table[n].(current := v)])
    {
      var flag := flags[n];
      assert flag.Valid() && table[n] == flag.State();
      flag.current.buffer.value := v;
      assert old(flag.Valid());
      forall m | m in flags && m != n
        ensures flags[m].Valid() && table[m] == flags[m].State()
      {
        assert Separate(flags[m], flags[n]) && old(flags[m].Valid());
      }
      OneFlagChanged(flag, table);
    }

    /** FillCommandLineFlagInfo on a registered flag. */
    method FillInfo(n: string, ghost table: Engine.FlagTable) returns (info: CommandLineFlagInfo)
      requires Valid() && Shows(table) && n in flags && n in table
      modifies flags[n]
      ensures Valid() && Shows(table[n := Touch(table[n])])
      ensures info == InfoOf(flags[n], table[n])
    {
      hide ToString;
      var flag := flags[n];
      assert flag.Valid() && table[n] == flag.State();
      info := flag.FillCommandLineFlagInfo();
      assert old(flag.Valid());
      forall m | m in flags && m != n
        ensures flags[m].Valid() && table[m] == flags[m].State()
      {
        assert Separate(flags[m], flags[n]) && old(flags[m].Valid());
      }
      OneFlagChanged(flag, table);
    }

    lemma IndexFacts(n: string)
      requires Valid() && n in flags
      ensures flags[n].current.buffer in flagsByPtr && flagsByPtr[flags[n].current.buffer] == flags[n]
    {
    }

    /** CommandLineFlag::CopyFrom on a registered flag; `src` belongs to a saver. */
    method CopyIntoFlag(flag: CommandLineFlag, src: CommandLineFlag, ghost table: Engine.FlagTable)
      requires Valid() && Shows(table) && flag.name in flags && flags[flag.name] == flag
      requires src.Valid() && src.current.valueType == flag.current.valueType
      requires src.Objects() !! Repr
      modifies flag.Objects()
      ensures Valid() && Shows(table[flag.name := old(src.State())])
    {
      assert flag.Objects() <= Repr;
      assert flag.Valid();
      flag.CopyFrom(src);
      forall n | n in flags && n != flag.name
        ensures flags[n].Valid() && table[n] == flags[n].State()
      {
        assert Separate(flags[n], flags[flag.name]) && old(flags[n].Valid());
      }
      OneFlagChanged(flag, table);
    }

    static method SetFlagFields(ok: Validators, flag: CommandLineFlag, text: string, mode: Mode)
      returns (error: Option<Error>)
      requires flag.Valid()
      modifies flag.Objects()
      ensures flag.Valid()
      ensures SetResult(flag.State(), error) == SetFlag(ok, flag.name, old(flag.State()), text, mode)
    {
      flag.UpdateModifiedBit();
      match mode {
        case SetFlagsValue =>
          error := TryParseLocked(ok, flag, flag.current, text);
          if error.Some? {
            return;
          }
          flag.modified := true;
        case SetFlagIfDefault =>
          error := None;
          if !flag.modified {
            error := TryParseLocked(ok, flag, flag.current, text);
            if error.Some? {
              return;
            }
            flag.modified := true;
          }
        case SetFlagsDefault =>
          error := TryParseLocked(ok, flag, flag.defvalue, text);
          if error.Some? {
            return;
          }
          if !flag.modified {
            var _ := TryParseLocked(ok, flag, flag.current, text);
          }
      }
    }

    /** AddFlagValidator on the flag whose current value lives in `ptr`; an unknown pointer is
        ignored. */
    method AddFlagValidator(ptr: Buffer, fn: Option<FnPtr>, ghost table: Engine.FlagTable) returns (ok: bool)
      requires Valid() && Shows(table)
      modifies Repr
      ensures Valid()
      ensures ptr !in flagsByPtr ==> !ok && Shows(table)
      ensures ptr in flagsByPtr ==>
        var name := flagsByPtr[ptr].name;
        var r := AddValidator(table[name], fn);
        ok == r.1 && Shows(table[name := r.0])
    {
      var flag := FindFlagViaPtrLocked(ptr);
      if flag == null {
        return false;
      }
      ok := SetValidator(flag, fn);
      forall n | n in flags && n != flag.name
        ensures flags[n].Valid() && table[n] == flags[n].State()
      {
        assert Separate(flags[n], flags[flag.name]) && old(flags[n].Valid());
      }
      assert old(flag.Valid());
      OneFlagChanged(flag, table);
    }

    static method SetValidator(flag: CommandLineFlag, fn: Option<FnPtr>) returns (ok: bool)
      modifies flag`validator
      ensures AddValidator(old(flag.State()), fn) == (flag.State(), ok)
    {
      if fn == flag.validator {
        ok := true;
      } else if fn.Some? && flag.validator.Some? {
        ok := false;
      } else {
        flag.validator := fn;
        ok := true;
      }
    }
  }
}
