# A verified model of the gflags flag engine

The project models how gflags keeps, parses, validates, saves and prints command-line flags, and proves
what every call and every run of that machinery keeps. It follows `src/gflags.cc` branch by branch, and
adds the word wrapper and XML escaper of `src/gflags_reporting.cc` and the match, categorise and trim
pipeline of `src/gflags_completions.cc`. `dafny verify dfyconfig.toml` checks everything.

## How it is built

The source changes objects in place, so the model does too, in two layers that are proved equal.

* The **heap layer** has the source's classes: `Registry` (value buffers, `FlagValue`,
  `CommandLineFlag`, `FlagRegistry` with its two indexes), `Parser` (`CommandLineFlagParser`, whose argv
  scan permutes an `array<string>`), `Saver` (`FlagSaverImpl`) and `Api` (the exported functions). Every
  method states its whole effect as a function of the old state.
* The **value layer** has those functions: `Values` and `Flags` (one flag), `Names` (argument splitting),
  `Flagfile` (the line language), `Engine` (the mutual recursion of `--flagfile`, `--fromenv` and
  `--tryfromenv`) and `Argv` (the scan of the arguments). The theorems are about them, so they hold of
  the methods: `ValueProofs`, `ParseProofs`, `ArgvProofs`, `References` and `Termination`, `Inlining` and
  `InliningAnywhere`, `RoundTrip`, `ErrorReports`, `CommandLine`, `CommandLineEnds`, `Reparse` and `ReparsePlain`.
* `OptionLaws` and `FlagfileLaws` state what the documentation says about the single options and the lines
  of a flagfile, in literal words rather than through the constants that the code shares with its functions.
* `ParserSteps` and `ArgvSteps` are the single steps that tie a loop of `Parser` to its function.
* `Reporting`, `Xml` and `Completions` hold one algorithm each; the first and the last work on the
  `CommandLineFlagInfo` that `Api.GetAllFlags` returns.

A parse works on a `PState`: the flag table, the error records (a cleared message is `None`), the undefined
names, whether the program was ended, and a history (`trace`) of every attempt to set a flag. A `World`
gives it the files, the environment, `argv[0]`, glob matching and the validators. A validator is known by
its address, as in the source, and `World` says what each answers. An error report that ends the program
stops the run (`Exited`).

The recursive flags can recurse without end, so `Engine` carries a call-stack budget `depth` whose
exhaustion is an outcome of its own (`Overflowed`). It bounds no statement: the theorems hold for every
depth, `Termination.DepthIrrelevant` shows that all sufficient depths agree, and
`Termination.TerminatesExactly` and `CommandLineEnds.CommandLineTerminates` say exactly when there is one.
`References` holds the graph they speak of: which files and environment values an assignment that the flag
accepts leads to.

## What turned out not to hold

These follow the code; each has a lemma with the exact condition or a concrete input.

* Unsigned flags strip only blanks before they test for a minus sign. A text of blanks reads as 0, and a
  minus sign behind a tab wraps around (`ValueProofs.UnsignedExact`, `NegativeUnsigned`,
  `UnsignedSurprises`). On text without white space every integer type is exact (`IntegerExact`).
* A string value that contains NUL is printed whole and read back up to the NUL; every other value of every
  type survives (`ValueProofs.ParsePrinted`, `NulIsLost`).
* Scanning an already permuted command line again reads the same assignments, except exactly when the last
  flag lacked its value and there are program arguments it can now swallow (`Argv.ReparseSame`,
  `ReparseSwallows`).
* A second parse of the same command line can change values, because it first follows the recursive flags as
  the first parse left them (`Reparse.SecondParseDiffers`). It leaves a flag as it is if and only if these
  presets do or the arguments assign the flag (`AgainExactly`). In particular it changes none if the recursive
  flags were empty before the first parse (`AgainWithoutPresets`), if they hold afterwards what they held before
  it (`AgainWithSamePresets`), or if nothing they refer to sets a recursive flag and each of them kept its value
  or was empty and then assigned by the arguments (`ReparsePlain.AgainWithPlainPresets`).
* The mutual recursion need not end. With lists and files that can be read it ends if and only if nothing
  that can be reached leads back to itself (`Termination.TerminatesExactly`). The guard against it looks at
  the whole environment value: `FLAGS_fromenv` listing `fromenv`, at any place, is caught if and only if the
  value is that word alone (`Termination.GuardIsExact`).
* A refused set may still raise the modified bit, although the comment on `SetFlagLocked` says that the
  flag is left unchanged. It does so exactly when the value had been written behind the API's back
  (`Flags.RejectedSetKeepsValues`, `RefusedSetRaisesBit`). Values are untouched.
* One `--undefok` entry `f` excuses `f`, or else `nof`, never both (`ErrorReports.UndefOkOnce`).
* `--nofoo=x` drops `x` (`Names.SplitNegated`).
* After a bare `--` the unscanned arguments come before those already moved (`Argv.Layout`).
* The file comment says that `--flagfile` is not saved by CommandlineFlagsIntoString; the code prints it
  like every other flag, and so does the model.
* Line ends are searched as CR first, anywhere in the rest of the text. The lines of a text are read as one
  would expect if and only if no visible line that ends in LF alone stands before one that ends in CR LF or CR
  (`Flagfile.LineEnds`, `MixedLineEnds`).

## Model

| member | source | states |
|---|---|---|
| ValueProofs.IntegerExact | src/gflags.cc:313-356 | on text without white space each integer type accepts exactly the signed decimal or 0x numerals whose mathematical value lies in its range, stores that value, takes no '-' for unsigned types and reads no octal |
| ValueProofs.SignedExact | src/gflags.cc:313-332 | for every text whatsoever, which texts a signed flag accepts and with which value: an if-and-only-if against a grammar that does not scan |
| ValueProofs.UnsignedExact | src/gflags.cc:333-356 | the same for unsigned flags, including the empty rest and the wrapped negative |
| ValueProofs.NegativeUnsigned | src/gflags.cc:334-337 | a text that begins with '-' behind white space is accepted as unsigned if and only if the sign does not follow directly on the blanks and decimal digits in range follow; the value is then taken modulo 2^64 |
| ValueProofs.UnsignedSurprises | src/gflags.cc:350-353 | two concrete texts that an unsigned flag accepts against intention |
| ValueProofs.OutOfRange | src/gflags.cc:313-356 | a text that denotes an integer outside the range of a type is refused by that type, for all four types |
| ValueProofs.DecimalText | src/gflags.cc:309-356 | a sign, or none, before decimal digits: the signed 64-bit values they are read as, to both ends of the range; a leading zero is no octal prefix |
| ValueProofs.HexadecimalText | src/gflags.cc:309-356 | 0x and 0X before hexadecimal digits are read as that number by the 64-bit types |
| ValueProofs.Positional | src/gflags.cc:309-356 | one more digit multiplies what the numeral denotes by 16 or by 10 and adds the digit |
| ValueProofs.DigitTable | src/gflags.cc:309-356 | the sixteen digits and their values in either case; no other character is a digit |
| ValueProofs.BoolWords | src/gflags.cc:293-306 | a text reads as true if and only if it is 1, t, true, y or yes ignoring case, and as false if and only if it is 0, f, false, n or no |
| ValueProofs.ParsePrinted | src/gflags.cc:292-396 | parsing the printed form through c_str() gives the value back if and only if it is not a string that contains NUL, for every type and both ends of each range |
| ValueProofs.PrintedForms | src/gflags.cc:371-396 | truth values are printed as the words true and false, numbers in decimal with a minus sign just if negative, strings as they are |
| ValueProofs.PrintedPositional | src/gflags.cc:371-396 | the printed form of ten times a number plus a digit is its printed form and that digit |
| ValueProofs.NulIsLost | src/gflags.cc:308-311 | a concrete string that comes back shorter |
| Registry.FlagValue.ParseFrom | src/gflags.cc:292-368 | changes the buffer exactly when the text is accepted, to the value it denotes, and leaves it alone otherwise |
| Registry.FlagValue.MatchBool | src/gflags.cc:293-306 | the loop over the spellings decides membership in the true and false words whatever their order |
| Registry.TrueIsNotFalse | src/gflags.cc:294-295 | no text reads both as true and as false, ignoring case |
| Text.LowerTable | src/gflags.cc:293-306 | ignoring case identifies exactly the 26 capitals with their small letters |
| Text.SpaceCharacters | src/gflags.cc:1279-1280 | white space is the blank, tab, line feed, vertical tab, form feed and carriage return, nothing else |
| Registry.FlagValue.New | src/gflags.cc:460-471 | a zero value of the same type in a buffer that nothing else refers to |
| Registry.TryParseLocked | src/gflags.cc:821-852 | the target changes only if the text parses and its value passes the validator; the kind of error otherwise |
| Registry.CommandLineFlag.UpdateModifiedBit | src/gflags.cc:589-595 | the bit rises if the value was changed behind the API's back, and nothing else changes |
| Registry.CommandLineFlag.CopyFrom | src/gflags.cc:597-604 | values, modified bit and validator equal the source flag's, in the same buffers |
| Registry.CommandLineFlag.FillCommandLineFlagInfo | src/gflags.cc:575-587 | the report shows name, type, description, values, file, buffer and validator of the flag, after the modified bit was brought up to date |
| Registry.InfoReads | src/gflags.cc:575-587 | the reported current and default texts read back as the current and default values, and is_default says that the flag is unmodified and holds its default |
| Registry.FlagRegistry.RegisterFlag | src/gflags.cc:716-738 | refused exactly for a name already registered; otherwise both indexes gain the flag and stay in agreement, no buffer is shared, no other flag changes |
| Registry.FlagRegistry.FindFlagLocked | src/gflags.cc:740-752 | returns the flag whose name is the given one, or the given one with dashes as underscores; NULL if and only if there is none |
| Registry.FlagRegistry.FindFlagViaPtrLocked | src/gflags.cc:754-761 | finds the flag whose current value lives in the given buffer |
| Registry.FlagRegistry.SetFlagLocked | src/gflags.cc:854-897 | one flag of the registry changes as the set mode says, no other flag and neither index changes |
| Registry.FlagRegistry.AddFlagValidator | src/gflags.cc:1380-1404 | installs, keeps or refuses a validator for the flag at a buffer; no other flag changes |
| Flags.RejectedSetKeepsValues | src/gflags.cc:854-897 | a set is refused if and only if it tries a text that is illegal or fails validation, with the error saying which; then both values and the validator stay, and so does the bit if and only if it was up or the value was the default |
| Flags.SetAcceptsExactly | src/gflags.cc:821-866 | SET_FLAGS_VALUE accepts a text if and only if it parses as the type of the flag and the validator, if there is one, takes the value; the flag then holds it and is modified |
| Flags.ValidatorRules | src/gflags.cc:1380-1404 | a first validator is taken, the same one may be given again, a different second one is refused without effect, NULL removes it |
| Flags.RefusedSetRaisesBit | src/gflags.cc:858-863 | a concrete refused set that raises the modified bit |
| Flags.AcceptedSet | src/gflags.h.in:226-236 | for each mode the exact new current value, default value and modified bit of an accepted set, as the three modes are documented |
| Flags.RunKeepsTypesAndBit | src/gflags.cc:589-612 | over every run of sets, direct writes, info queries and validator changes types stay and the modified bit never falls |
| Flags.UnmodifiedMeansDefault | src/gflags.cc:589-595 | after any such run that ends in a set or query, a flag whose bit is down has its default value |
| Flags.SetsKeepValidity | src/gflags.cc:821-897 | over every run of sets in any modes and queries, from any state, current and default value each stay as they were or become one that the validator accepts; type and validator never change |
| Flags.ExplicitValueSticks | src/gflags.h.in:226-236 | after an accepted SET_FLAGS_VALUE no run of the other two modes and queries changes the current value |
| Names.SplitResolves | src/gflags.cc:763-819 | a refused key never names a registered flag, an accepted one always does, and a boolean flag always gets a value |
| Names.FindsExactly | src/gflags.cc:740-752 | a name finds a flag if and only if it is the name of that flag, or no flag has the name and the flag has it with every dash as an underscore |
| Names.SplitBare | src/gflags.cc:812-816 | a name alone switches a boolean flag on with the text 1; any other flag still wants its value |
| Names.SplitRefused | src/gflags.cc:787-811 | a name that no flag has is unknown, with or without a value, except that "no" and a boolean flag switches it off and "no" and another flag is an error of its own |
| Names.SplitNameValue | src/gflags.cc:763-780 | name=value reaches that flag with exactly that value, whatever the value contains |
| Names.SplitNegated | src/gflags.cc:787-811 | noname switches a boolean flag off and drops any value given with it |
| Parser.CommandLineFlagParser.SplitArgumentLocked | src/gflags.cc:763-819 | the heap version resolves every argument as the value version does |
| Names.ParseFlagList | src/gflags.cc:989-1007 | the pieces between commas, or the end of the program for an empty piece or one that begins with '-' |
| Names.FlagListRoundTrip | src/gflags.cc:989-1007 | a list of usable names joined by commas is read back as the same list |
| Names.TrailingComma | src/gflags.cc:989-1007 | one comma behind such a list changes nothing |
| Names.ListRefused | src/gflags.cc:997-1002 | a list with an empty piece before its last comma or with a piece that begins with a dash ends the program, wherever the piece stands |
| Flagfile.ReadLinesDeclared | src/gflags.cc:1270-1354 | for every list of lines the two-variable automaton applies a flag line exactly when no filename line precedes it or some word of the latest group of filename lines matches; comments do not split a group, flag lines do |
| Flagfile.LineEnds | src/gflags.cc:1278-1291 | for every mixture of LF, CR LF and CR, the lines read are the visible ones, left-trimmed, and what follows the last line end, if and only if no visible LF line stands before a line with a CR |
| Flagfile.LineEndsAgree | src/gflags.cc:1281-1290 | two texts with the same lines and line ends of that kind, in particular LF, CR LF or CR throughout, make the same assignments |
| Flagfile.MixedLineEnds | src/gflags.cc:1282-1284 | a concrete text whose second line is lost in the value of the first |
| FlagfileLaws.FilenameSelects | doc/index.html:611-621 | a flag line below a line of program names is carried out if and only if one of the names matches this program |
| FlagfileLaws.FilenameOfProgram | src/gflags.cc:1330-1350 | for argv[0] = dir/base the matching names are exactly dir/base, base and the patterns that match one of the two |
| FlagfileLaws.ShortNameSelects | src/gflags.cc:1330-1350 | the line base alone selects the program dir/base, whatever dir is |
| FlagfileLaws.CommentSkipped | doc/index.html:618-624 | a line that begins with # is skipped, and a flag line that no filename line precedes is for every program |
| FlagfileLaws.FlagLineAssigns | doc/index.html:588-591 | --name=value and -name=value assign that value to that flag |
| Engine.ShortNameOf | src/gflags.cc:1548-1554 | the short name of dir/base and of base is base, for every slash-free base |
| Engine.ProgramNames | src/gflags.cc:1340-1350 | which glob patterns select a program: an if-and-only-if over its full and its short name |
| Parser.CommandLineFlagParser.AnyWordMatches | src/gflags.cc:1330-1352 | true if and only if some blank-separated word of the line matches the program's full or short name |
| Parser.CommandLineFlagParser.ProcessOptionsFromStringLocked | src/gflags.cc:1270-1356 | the cursor loop over a text carries out exactly the assignments of its lines, in order, recursive ones included |
| Parser.CommandLineFlagParser.ProcessSingleOptionLocked | src/gflags.cc:1181-1204 | sets the flag or records the error, unless the value is NULL, then follows a recursive flag's value |
| Parser.CommandLineFlagParser.ProcessFlagfileLocked | src/gflags.cc:1121-1134 | each listed file in turn, a missing one ends the program |
| Parser.CommandLineFlagParser.ProcessFromenvLocked | src/gflags.cc:1136-1179 | each listed name in turn: unknown, missing in the environment, refused by the recursion guard, or assigned |
| OptionLaws.MissingVariables | src/gflags.cc:1159-1166 | a list of registered names without environment values: --fromenv records NotInEnvironment("FLAGS_" + p) under exactly those names p, --tryfromenv records nothing; no undefined name, no other flag and no other error changes |
| OptionLaws.MissingReported | doc/index.html:565-567 | --fromenv with any list that holds such a name, at any position: the missing variable is complained about and the error stays, unless another entry ends the program |
| OptionLaws.EnvEntry | doc/index.html:546-581 | one name in --fromenv or --tryfromenv: unknown, missing (an error for --fromenv only), refused by the recursion guard, or assigned the value of FLAGS_name |
| OptionLaws.FileEntry | doc/index.html:585-587 | one file in --flagfile: its text is carried out at once, a missing file ends the program |
| Engine.RunAssignsKeeps | src/gflags.cc:1121-1204 | whatever every single legal step keeps, a whole parse with all its nested files and environment values keeps, in every mode |
| ParseProofs.RunAssignsReplays | src/gflags.cc:1121-1204 | a parse is nothing but the run of the steps its history records |
| ParseProofs.ParseKeepsFlags | src/gflags.cc:1121-1204 | names, types, validators and (outside SET_FLAGS_DEFAULT) default values never change, modified bits never fall |
| ParseProofs.ParseKeepsSoundErrors | src/gflags.cc:1149-1187 | over every parse the undefined names are exactly the keys of unknown-name errors and never resolve to a flag; every other error is about a name that does |
| ParseProofs.ParseKeepsErrors | src/gflags.cc:1061-1080 | a recorded error may be overwritten but is never forgotten while parsing |
| ParseProofs.RunAssignsInStep | src/gflags.cc:1192-1201 | with SET_FLAGS_VALUE two parses of the same assignments make the same attempts whatever values the flags had |
| ParseProofs.FlagAfter | src/gflags.cc:859-866 | a flag after any run: the value of the last accepted attempt or its old one, and exactly when its modified bit is up |
| Termination.DepthIrrelevant | src/gflags.cc:1121-1204 | two stacks that both suffice give the same result, in every mode |
| References.RunTracked | src/gflags.cc:1121-1204 | a run sets only flags that its start can reach, ends the program only for a text or file that cannot be read, and exhausts the stack only along a path longer than it |
| References.RunsAssigns | src/gflags.cc:1121-1204 | a run that is not stopped follows every path from its start, within the stack, and carries out every assignment found there |
| Termination.AcyclicTerminates | src/gflags.cc:1121-1204 | when nothing that the assignments can reach leads back to itself, a stack as deep as there are files and environment values suffices |
| Termination.CycleOverflows | src/gflags.cc:1121-1204 | a cycle of any length, reached through any entry of any list, stops the program at every depth, by exhausting the stack if all lists and files can be read |
| Termination.TerminatesExactly | src/gflags.cc:1121-1204 | with lists and files that can be read, some depth suffices if and only if no file or environment value that can be reached leads back to itself |
| CommandLineEnds.CommandLineTerminates | src/gflags.cc:1948-1956 | the same if-and-only-if for a whole command line with any recursive flags set before main, a preset counting unless an earlier one replaces it |
| Termination.GuardIsExact | src/gflags.cc:1168-1174 | for FLAGS_fromenv listing fromenv, or FLAGS_tryfromenv listing tryfromenv, at any place, the program goes on if and only if the value is just that word; otherwise the stack is exhausted, unless a list or file cannot be read |
| Inlining.RunSameBut | src/gflags.cc:1181-1204 | with SET_FLAGS_VALUE the starting value of one flag influences nothing but that flag |
| Inlining.FlagfileInlines | doc/index.html:585-604 | --flagfile=f,g ends with the same flags (but flagfile), errors and outcome as the flag lines of those files on the command line |
| InliningAnywhere.FlagfileInlinesAnywhere | doc/index.html:598-603 | the same in the middle of a longer command line, whatever stands before and after it, unless the flag before it lacks its value |
| InliningAnywhere.ScanParts | src/gflags.cc:1035-1106 | the scan of a command line is that of its front followed by that of the rest, unless the front ends with a flag that lacks its value or contains a bare -- |
| Inlining.FromenvInlines | doc/index.html:555-577 | --fromenv=a,b ends with the same flags (but fromenv) and errors as --a=... --b=... with the environment's values, and --tryfromenv too, skipping names that are not there |
| InliningAnywhere.FromenvInlinesAnywhere | doc/index.html:555-577 | the same in the middle of a longer command line |
| Argv.ScanInterleaves | src/gflags.cc:1035-1054 | for every command line flags with values and unscanned arguments keep their order, moved arguments keep theirs, both together are the input, and no moved argument looks like a flag |
| OptionLaws.KindsExactly | src/gflags.cc:1036-1053 | the argument -- ends the scan and no other argument does; program arguments are the empty one, a single dash and whatever does not begin with a dash |
| OptionLaws.DoubleDashEnds | doc/index.html:448-450 | for arguments before and after a bare -- that is not the value of a flag: the effects are those of the arguments before it, the arguments after it are left as they are, and -- is the last one scanned |
| OptionLaws.OneOrTwoDashes | doc/index.html:419-433 | one dash and two dashes in front of a name mean the same, on the command line and in a flagfile |
| OptionLaws.ValueForms | doc/index.html:416-424 | --name=value assigns the value, and so does --name value for a flag that is not boolean, whatever follows |
| OptionLaws.BoolOptions | doc/index.html:426-433 | after an accepted --x the boolean flag x holds true, after an accepted --nox false, without an error |
| Argv.LayoutPermutes | doc/index.html:383-389 | the rearranged command line is a permutation of the given one |
| Argv.ReparseSame | src/gflags.cc:1030-1107 | scanning the rearranged command line again reads the same assignments if and only if no missing value can be swallowed, and then leaves the arguments in the same order |
| Argv.ReparseSwallows | src/gflags.cc:1067-1081 | a concrete command line whose last flag lacks its value and, after the permutation, takes a program argument for it |
| Parser.CommandLineFlagParser.ProcessArgument | src/gflags.cc:1036-1105 | one argument is classified and carried out as the scan says |
| Parser.CommandLineFlagParser.ParseNewCommandLineFlags | src/gflags.cc:1030-1119 | the in-place loop ends with program name, scanned part, unscanned tail and moved arguments in this order, returns the boundary, removes the flags on request, and has the scan's effect on the flags |
| ArgvSteps.MoveToEnd | src/gflags.cc:1039-1044 | one argument goes to the end of the array, those behind it move up, the others stay |
| ArgvProofs.ScanLegal | src/gflags.cc:1059-1080 | every effect of scanning a command line is one that the invariants of a parse allow |
| ArgvProofs.RunArgsKeeps | src/gflags.cc:1030-1107 | the invariants of a parse hold of every command line |
| ArgvProofs.ArgsLastWins | src/gflags.h.in:343-344 | after any command line every flag holds the value of the last accepted assignment, nested files and environment values included |
| ArgvProofs.PlainArgsLastWins | src/gflags.h.in:343-344 | without recursive flags that is the last acceptable one among the arguments, in their order |
| ArgvProofs.ParseAgain | src/gflags.cc:1030-1107 | scanning and carrying out the same arguments, or any with the same events, again changes no value, recursive flags included |
| Reparse.AgainWithoutPresets | src/gflags.cc:1936-2008 | a whole second parse, presets first, changes no value when the recursive flags were empty before the first one: all it does first the first parse did too |
| Reparse.AgainWithSamePresets | src/gflags.cc:1936-2008 | nor does it when the first parse left the recursive flags with the values they had before it |
| ReparsePlain.AgainWithPlainPresets | src/gflags.cc:1936-2008 | nor when the presets set no recursive flag and each recursive flag kept its value or was empty and assigned by the arguments |
| Reparse.AgainExactly | src/gflags.cc:1936-2008 | for every flag: the second parse leaves it unchanged if and only if its presets alone do, or the arguments of the command line assign it |
| Reparse.SecondParseDiffers | src/gflags.cc:1948-1956 | a preset flagfile that the first parse replaces, with which the second parse ends with another value |
| RoundTrip.TheseCommandlineFlagsIntoString | src/gflags.cc:1753-1773 | one --name=value line per flag in the given order |
| RoundTrip.PrintedLine | src/gflags.cc:1753-1773 | the text of each flag is two dashes, its name, an equals sign, its value and a line feed, between the texts of the flags before and after it |
| RoundTrip.PrintedTextAssigns | src/gflags.cc:1753-1773 | that text read as a flagfile is exactly the list of the printed assignments, for any program name |
| RoundTrip.PrintedFlagsRestored | src/gflags.cc:1775-1790 | text printed from all flags in any order, read with SET_FLAGS_VALUE in any later state of the same registry whose validators accept the printed values, gives every flag its printed value and records no error |
| Api.CommandlineFlagsIntoString | src/gflags.cc:1775-1779 | the registry's own text prints every flag once with its current value |
| Parser.CommandLineFlagParser.ValidateFlags | src/gflags.cc:1206-1225 | an error is added for exactly the flags that fail validation and have none yet |
| Parser.CommandLineFlagParser.ReportErrors | src/gflags.cc:1231-1268 | clears exactly the excused unknown-name errors and answers true if and only if an error remains |
| ErrorReports.OnlyNameErrorsExcused | src/gflags.cc:1231-1254 | undefok and reparsing can clear only errors about names that no flag has; illegal or invalid values, missing arguments and missing variables are never excused |
| ErrorReports.UndefOkOnce | src/gflags.cc:1240-1244 | one undefok entry does not excuse a name and its negation at once |
| OptionLaws.UndefokExcuses | doc/index.html:530-535 | --undefok=names and then an unknown option f: f is recorded as undefined, and excused if and only if it is listed or is "no" and a listed name that is not undefined itself |
| OptionLaws.ErrorsLeft | src/gflags.cc:1206-1268 | a parse complains if and only if it recorded an error that is not excused in these words, or an unmodified flag fails its validator |
| ErrorReports.ClearStep | src/gflags.cc:1237-1245 | one undefok entry clears one record at most, which one is decided by the undefined names |
| ErrorReports.NoErrorAllAccepted | src/gflags.cc:1181-1187 | when no unexcused error is left, every assignment that was carried out was accepted |
| ErrorReports.CleanParseValidates | src/gflags.cc:1961-1965 | then a flag that was unmodified at the start satisfies its validator, whether it was set or not |
| CommandLine.RunCommandLineFacts | src/gflags.cc:1948-1956 | the invariants of a parse hold from the preset recursive flags to the last argument |
| OptionLaws.ParseOrder | src/gflags.cc:1942-1959 | a flagfile, a fromenv and a tryfromenv preset and an argument are carried out in exactly this order, for any flags and texts |
| CommandLine.CleanCommandLine | src/gflags.cc:1936-1967 | if ParseCommandLineFlags returns, everything it carried out was accepted, and every flag that was unmodified before or assigned since satisfies its validator; the others are exactly as the program had left them |
| Api.ParseCommandLineFlags | src/gflags.cc:1936-1967 | the heap version returns if and only if stage one runs to its end without an unexcused error, with the flags and the argv of the model |
| Api.GetAllFlags | src/gflags.cc:1483-1495 | every flag is described once, with its modified bit brought up to date |
| Api.SetCommandLineOptionWithMode | src/gflags.cc:1641-1656 | an unknown name does nothing, a known one is set as a single option, and a NULL value only follows a recursive flag |
| Saver.FlagSaverImpl.SaveFromRegistry | src/gflags.cc:1687-1702 | a copy of every flag's state in new objects; the registry is untouched |
| Saver.FlagSaverImpl.RestoreToRegistry | src/gflags.cc:1708-1717 | every saved flag has its saved values, modified bit and validator again, in the same buffers; flags registered later are untouched and both indexes still agree |
| Api.RegisterNew | src/gflags.cc:1423-1434 | a new flag has its default as current value, in storage of its own; no other flag changes, and a second definition ends the program |
| Api.FlagSaverScope | src/gflags.cc:1727-1735 | a FlagSaver undoes every sequence of sets in any mode, direct writes, validator changes, queries and registrations, which run exactly as they would without it; the saved flags keep their buffers, flags registered meanwhile keep what the sequence gave them |
| Api.ReadFlagsFromString | src/gflags.cc:1781-1802 | it returns if and only if the text runs to its end, --undefok is well formed and no fatal error is left; true if and only if no unexcused error is left, and then no assignment was refused; false leaves every value, default, modified bit and validator as at entry |
| Api.ReadBack | src/gflags.cc:1775-1802 | reading back the text of CommandlineFlagsIntoString returns true, whether errors are fatal or not, and gives every flag its printed value |
| Reporting.WordsConcat | src/gflags_reporting.cc:128-166 | words of a text split at a place that breaks no word are the words of both parts |
| Reporting.FindBreak | src/gflags_reporting.cc:131-160 | a line ends at a line end in reach or at the last white space in reach; none is found only when there is none |
| Reporting.WrapMain | src/gflags_reporting.cc:124-166 | the wrapping loop ends and breaks every NUL-free text as declared: at the first line end in reach, else at the last white space before column 80, else not at all, each new line behind six blanks; it keeps the exact sequence of words, never violates its own length assertion, leaves a text that fits alone, and with words of at most 72 characters keeps every line below 80 |
| Reporting.AddString | src/gflags_reporting.cc:92-104 | the words of both texts in order, the piece behind one blank if it ends before column 80 and otherwise behind a line end and six blanks, never beyond column 79 for pieces up to 73 |
| Reporting.GapText | src/gflags_reporting.cc:92-104 | a piece follows behind one blank if it then ends before column 80, otherwise behind a line end and six blanks |
| Reporting.DescribeOneFlag | src/gflags_reporting.cc:119-183 | the declared wrapping of name and description with the same words in order, then type, default and, if it differs, current value, each unbroken behind a blank or a new line, in lines below 80 characters as far as words and pieces allow |
| Reporting.PieceTexts | src/gflags_reporting.cc:106-178 | the literal texts of the main part and of the three pieces; string values in quotes, the default piece shows the default value and the current piece the current one |
| Xml.ReplaceAll | src/gflags_reporting.cc:188-191 | an in-place pass that moves one character past each hit ends and replaces every occurrence once |
| Xml.XMLText | src/gflags_reporting.cc:186-193 | the two passes together escape every character independently |
| Xml.TwoPasses | src/gflags_reporting.cc:188-191 | the pass for '<' leaves what the pass for '&' wrote alone |
| Xml.WrongOrder | src/gflags_reporting.cc:188-191 | the passes in the other order would not escape correctly |
| Xml.UnescapeEscape | src/gflags_reporting.cc:185-193 | the output has no bare '<' and no '&' outside the entities `&amp;` and `&lt;` of section 2.4 of XML 1.0, and a decoder for these two gives the input back |
| Xml.EscapeAnywhere | src/gflags_reporting.cc:188-191 | wherever they stand, '&' becomes `&amp;` and '<' becomes `&lt;` and every other character stays |
| Xml.EscapeUnescape | src/gflags_reporting.cc:185-193 | every decodable text over the two entities is the escape of what it decodes to, so escaping loses nothing and reaches all of them |
| Completions.DoesSingleFlagMatch | src/gflags_completions.cc:383-408 | a flag matches if and only if its name begins with the token or a requested substring search finds it |
| Completions.FindMatchingFlags | src/gflags_completions.cc:348-378 | exactly the matching flags, and the greatest common prefix of their names, which continues the token when only prefixes were searched |
| Completions.InPackage | src/gflags_completions.cc:432-459 | a flag of a file in the package directory is a package flag, one of a file below it a subpackage flag, unless name or module took it first |
| Completions.OtherCategories | src/gflags_completions.cc:432-459 | the if-and-only-ifs for a perfect match, a module flag and a flag that is not notable |
| Completions.CategorizeAllMatchingFlags | src/gflags_completions.cc:414-463 | every match is in the set of its category and in no other; the most common flags stay empty |
| Completions.RetrieveUnusedFlags | src/gflags_completions.cc:635-653 | exactly the matches in no notable set |
| Completions.ClassesOf | src/gflags_completions.cc:195-202 | notable sets and leftovers are the precedence classes, which partition the matches |
| Completions.GroupTitle | src/gflags_completions.cc:546-604 | the text above each group, and a rule below it that is as long as that text, except below the perfect matches and absent below the others |
| Completions.GroupRule | src/gflags_completions.cc:546-604 | every such rule consists of equals signs |
| Completions.Precedence | src/gflags_completions.cc:541-604 | perfect matches, module, package, common and sub-package flags and then the others, and the title above each |
| Completions.ChooseGroups | src/gflags_completions.cc:541-604 | one group for every nonempty class, as long as the groups before it leave some of the budget, in the order of precedence |
| Completions.OutputSingleGroupWithLimit | src/gflags_completions.cc:657-688 | the first flags of the group, as many as the limit allows, between a header that is whole or absent and a footer if a line is left; the limit falls by the number of entries |
| Completions.GroupShown | src/gflags_completions.cc:608-625 | one more group shown in part after complete ones still shows the first matches in the order of precedence |
| Completions.FinalizeCompletionOutput | src/gflags_completions.cc:527-633 | the flags shown are the first matches by precedence and position, none twice; the hidden-flags line appears if and only if some match is not shown, which happens only when the budget is used up and never when the groups fit; the entries exceed the budget by that line at most; long format is used for perfect matches only; every shown flag but a perfect match stands below the title of its class |
| Completions.FirstMatchesSize | src/gflags_completions.cc:627-632 | counting the shown flags tells whether all matches were shown |
| Completions.CompletionInfo | src/gflags_completions.cc:218-286 | the greatest common prefix alone if and only if it is longer than the token, nothing if and only if nothing matches, else the trimmed lines and a last entry for hidden flags or against replacing the word, 99 entries at most, or 1000000 when all matches are asked for, and nothing hidden when 98 or 999999 lines suffice; the prefix continues what was typed when only prefixes were searched |

## Left out

- `double` flags: `%.17g`, `strtod`, NaN and signed zero need floating-point semantics.
- Files, environment and stderr are maps and returned errors; ending the program is the outcome `Exited`, so nothing is said about what atexit handlers would see.
- Message texts: errors are a datatype that says which message it is and about what; the strings that the Process functions and SetCommandLineOption return on success are not modelled.
- `fnmatch` is an arbitrary predicate, and GetAllFlags leaves the order of its result open where the source sorts.
- The mutex: each locked operation is one atomic step.
- Help and version flags (`HandleCommandLineHelpFlags`), usage printing and the layout of single completion lines (`GetShortFlagLine`, `GetLongFlagLine`) are user interface.
- DEFINE and DECLARE macros, static initialisation, destructors and memory ownership.
- The warning about a string flag that looks like a boolean one changes no state.
- `AppendFlagsIntoFile`, `ReadFromFlagsFile` and the FromEnv functions are thin wrappers of what is modelled.
- The analysis of the word under the cursor and the search for the program's module and package directory are parameters of `Completions.CompletionInfo`.
- Characters are bytes of the "C" locale; `isspace` and `tolower` mean that locale's.
- Parser.CommandLineFlagParser.ValidateFlags: the source writes each error as it is found, the model collects them and assigns the map once; no other code runs in between.
- Parser.CommandLineFlagParser.ReportErrors: likewise for the cleared errors; the report to stderr is the returned answer.
- Registry.FlagRegistry.RegisterFlag: a second definition is a returned false where the source ends the program; the two wordings of that report are not told apart.
- Saver.FlagSaverImpl.RestoreToRegistry: assumes that no flag was deleted from the registry since, as the source's own comment does.
- Registry.FlagRegistry.RegisterFlag: requires storage that no registered flag uses, as the DEFINE macros give it; two flags over one variable would leave the pointer index with the later one only.
- Registry.FlagRegistry.Insert: likewise.
- Termination.TerminatesExactly: speaks of SET_FLAGS_VALUE; in the other modes a refused or skipped set makes the source follow an older value of the recursive flag. When a list or file cannot be read, the program may end before it comes to a cycle.
- Api.GetAllFlags: every flag once, in some order; the source's std::sort by file and name is left open.
- Api.CommandlineFlagsIntoString: in the same open order; the round trip holds for every order.
- Api.ParseCommandLineFlags: without the help and version flags that may end the program between parsing and validation.
- Api.ReadFlagsFromString: likewise.
- Api.SetCommandLineOptionWithMode: the returned text is not modelled.
- Inlining.FlagfileInlines: is about files of comments and flag lines that carry a value or name a boolean flag, because unknown names are errors on the command line and silently dropped in a file.
- RoundTrip.PrintedFlagsRestored: is about names and values without NUL and line ends, and about recursive flags printed as empty; a recursive flag with a value would be followed when the text is read.
- Api.ReadBack: likewise, and about an --undefok whose printed value is a list; a malformed one ends the program.
- Reporting.DescribeOneFlag: the type, default and current-value pieces are not wrapped by the source, so lines stay below 80 only if each piece has at most 73 characters.
- Xml.XMLText: escapes '&' and '<' as the source does; section 2.4 of XML 1.0 also asks to escape '>' in "]]>", which the source does not.
