# common-utils core, modelled in Dafny

This project models the core of the OSFramework common-utils library: five Java classes, one Dafny module each.

- **`ServiceClassLoader`** is a service-provider loader that, unlike `java.util.ServiceLoader`, hands out provider classes without instantiating them. Module `ServiceClassLoading` (file `service_class_loader.dfy`) models:
  - the line parser and the file parser of provider-configuration resources (`#` comments, trimming, the identifier check, duplicate suppression);
  - the lazy lookup cursor (`LazyIterator`), which parses resources one at a time;
  - the provider registry, a `LinkedHashMap`;
  - the iterator that yields registered classes first and then draws from the shared cursor.

  Each is a class with the source's fields. Each method is proved against specification functions (`ParseResource`, `HasNextSpec`, `NextSpec`), and lemmas about those functions state what the parser and the cursor guarantee.
- **`ClassLocator`** scans a classpath for the classes of a capability type. Module `ClassLocating` (file `class_locator.dfy`) models:
  - the `StringTokenizer` split of the classpath;
  - the directory walk, whose catch clauses let some throwables escape;
  - the jar scan, which swallows every throwable;
  - the derivation of class names from file and entry names.

  The class `ClassLocator` keeps the source's `list` field and its three methods. Each method is proved against the functions `WalkNodes`, `ScanArchive` and `ScanTokens`.
- **`DateUtil`** (module `DateUtil`, file `date_util.dfy`) models:
  - `isDate`, which matches three notations by prefix and checks month and day ranges;
  - the loops `findArrayIndex` and `isNumber`;
  - the dispatch and error branches of `parseDate`.
- **`HashCodeUtil`** (module `HashCodeUtil`, file `hash_code_util.dfy`) models the `hash` overloads for `boolean`, `char`, `int`, `long` and `Object`, using Java's 32-bit wrap-around. The `Object` overload recurses into arrays.
- **`ReusableInputStream`** (module `ReusableStreams`, file `reusable_input_stream.dfy`) is a stream that records its first pass and replays the record afterwards. It is modelled as a class with the fields `input`, `output` and `buffer`. The model includes the `java.nio.ByteBuffer` it replays from: position, limit, `get`, `flip` and `rewind`.

The remaining modules are shared:
- `Wrappers` holds `Option` and `Result`.
- `JavaTypes` is class loading as a table from names to load outcomes. A class is its name and the names of its supertypes.
- `JavaChars` holds `String.trim`, `StringUtils.isBlank`, the identifier character classes, ASCII lower case and `endsWith`.

Java's `int` is modelled as its 32-bit pattern read as an unsigned number (`HashCodeUtil.Int32`), so overflow is the remainder modulo 2^32. Java's `long` is a `bv64`.

Where the test suite and the code disagree, the model follows the code:
- The `isDate` test data expect `2011-02-29` and `2012-11-31` to be rejected (`DateUtilTest.java:114-115`). The code checks the day against 1..31 whatever the month, as its Javadoc says (`DateUtil.java:111-112`). So both strings are dates here (`IsoDayIgnoresMonth`).
- The same data expect `isDate(null)` to be false. The code throws; see Findings.
- The `HashCodeUtil` test comment says that element order does not matter (`HashCodeUtilTest.java:86-89`). In general it does (`OrderMatters`). What the test relies on is that the two swapped dates have equal hash codes (`SwapEquivalent`).

## Model

| member | source | states |
|---|---|---|
| JavaChars.Trim | src/main/java/org/osframework/util/ServiceClassLoader.java:143 | the trimmed string is no longer than the input, starts and ends with a character above U+0020, and is empty exactly when every character is at or below U+0020 |
| JavaChars.TrimPadded | src/main/java/org/osframework/util/DateUtil.java:120 | surrounding a string with characters at or below U+0020 does not change its trim |
| ServiceClassLoading.StripComment | src/main/java/org/osframework/util/ServiceClassLoader.java:140-142 | the result is the prefix of the line before its first `#`: it holds no `#` and, when shorter than the line, stops at a `#` |
| ServiceClassLoading.ClassifyLine | src/main/java/org/osframework/util/ServiceClassLoader.java:140-158 | definition: the line with its comment stripped and trimmed is blank, a syntax fault when a space or tab is left inside, a name fault when it is no legal identifier sequence, and otherwise a name |
| ServiceClassLoading.OutcomesAppend | src/main/java/org/osframework/util/ServiceClassLoader.java:140-158 | each line is classified on its own: the verdicts of two concatenated files are the verdicts of the first followed by those of the second |
| ServiceClassLoading.ParseFrom | src/main/java/org/osframework/util/ServiceClassLoader.java:166-187 | definition: lines are taken in order; a blank line is skipped, a name is admitted unless registered or already listed, and the first faulty line fails with its 1-based number |
| ServiceClassLoading.ReadAll | src/main/java/org/osframework/util/ServiceClassLoader.java:174-177 | definition: the parse of every line of a readable resource, failed by a read error that comes after the last line |
| ServiceClassLoading.ParseResource | src/main/java/org/osframework/util/ServiceClassLoader.java:166-187 | definition: an unopenable resource fails with the read error, a failing close replaces the outcome with the close error, otherwise the parse of its lines |
| ServiceClassLoading.ServiceClassLoader.ParseLine | src/main/java/org/osframework/util/ServiceClassLoader.java:134-164 | end of input answers -1. A line blank after its comment is dropped. A blank or tab inside fails with the syntax error, and an illegal identifier fails with the name error; both errors are tagged with the URL and line number. A legal name is appended only when neither the registry nor the list has it, and the line number advances |
| ServiceClassLoading.ServiceClassLoader.ReadLines | src/main/java/org/osframework/util/ServiceClassLoader.java:174-177 | numbering lines from 1 until `parseLine` answers -1 gives the parse of the whole file; a read error after the last line fails it |
| ServiceClassLoading.ServiceClassLoader.Parse | src/main/java/org/osframework/util/ServiceClassLoader.java:166-187 | an unopenable resource fails with the read error; a failure to close replaces whatever the parse produced; otherwise the parsed names |
| ServiceClassLoading.ParsedNames | src/main/java/org/osframework/util/ServiceClassLoader.java:145-161 | the names parsed from a resource are legal provider names and duplicate-free. They are exactly the declared names the registry lacks, in both directions |
| ServiceClassLoading.FirstFaultReported | src/main/java/org/osframework/util/ServiceClassLoader.java:146-157 | the first faulty line decides the error, with its 1-based line number, whatever the later lines hold |
| ServiceClassLoading.CommentedBlankLine | src/main/java/org/osframework/util/ServiceClassLoader.java:141-145 | a line holding only blanks before a `#` contributes nothing, whatever the comment says |
| ServiceClassLoading.InnerBlankIsSyntaxError | src/main/java/org/osframework/util/ServiceClassLoader.java:146-148 | a space inside a name is a syntax error even when blanks surround the name |
| ServiceClassLoading.NameLineAccepted | src/main/java/org/osframework/util/ServiceClassLoader.java:141-161 | a legal name padded with blanks is read back as itself |
| ServiceClassLoading.OneLineFile | src/main/java/org/osframework/util/ServiceClassLoader.java:159-161 | a one-line file yields its name, unless the registry already has it |
| ServiceClassLoading.Seek | src/main/java/org/osframework/util/ServiceClassLoader.java:216-223 | the `hasNext` loop answers true with a name staged, false with resources and pending names used up, or the parse error with nothing staged |
| ServiceClassLoading.HasNextSpec | src/main/java/org/osframework/util/ServiceClassLoader.java:202-224 | definition: a staged name answers true; a failed lookup with no enumeration yet fails; otherwise resources are parsed until one leaves names pending |
| ServiceClassLoading.NextSpec | src/main/java/org/osframework/util/ServiceClassLoader.java:226-250 | definition: `hasNext` first; an error or false answers the error or NoSuchElementException; otherwise the staged name is unstaged and resolved, and registered only when it resolves |
| ServiceClassLoading.Resolve | src/main/java/org/osframework/util/ServiceClassLoader.java:233-240 | resolves exactly when the loader loads the name to a class the service type is assignable from, and then to that class; a loaded class that is no subtype is exactly the "not a subtype" error; an unknown name is exactly the "not found" error; any other load failure is exactly the load error carrying that failure |
| ServiceClassLoading.SeekKeepsInv | src/main/java/org/osframework/util/ServiceClassLoader.java:216-223 | the parse loop keeps pending names legal, duplicate-free and out of the registry, and the staged name out of the pending list |
| ServiceClassLoading.HasNextKeepsInv | src/main/java/org/osframework/util/ServiceClassLoader.java:202-224 | `hasNext` keeps the cursor's promises about pending and staged names |
| ServiceClassLoading.HasNextStable | src/main/java/org/osframework/util/ServiceClassLoader.java:203-205 | asking `hasNext` again after an answer changes neither the answer nor the cursor |
| ServiceClassLoading.HasNextFalseIff | src/main/java/org/osframework/util/ServiceClassLoader.java:216-219 | false leaves the cursor exhausted, and an exhausted cursor answers false unchanged |
| ServiceClassLoading.NextWhenExhausted | src/main/java/org/osframework/util/ServiceClassLoader.java:227-229 | `next` on an exhausted cursor throws NoSuchElementException and changes nothing |
| ServiceClassLoading.NextKeepsInv | src/main/java/org/osframework/util/ServiceClassLoader.java:226-247 | `next` unstages the name. It registers a name exactly when it succeeds; that name was new to the registry and loads to a subtype of the service. The cursor's promises then hold for the enlarged registry |
| ServiceClassLoading.SingleProvider | src/main/java/org/osframework/util/ServiceClassLoader.java:202-244 | a single resource declaring one subtype stages that name and then resolves and registers it |
| ServiceClassLoading.ServiceClassLoader.Lookup | src/main/java/org/osframework/util/ServiceClassLoader.java:206-211 | the resources are those the loader has under `META-INF/services/` followed by the service's full name; a name the loader does not know enumerates nothing |
| ServiceClassLoading.InOrderAppend | src/main/java/org/osframework/util/ServiceClassLoader.java:83 | registering a new name appends its class to the registry's classes in key order, and updating another name leaves that order alone (`InOrderUpdate`) |
| ServiceClassLoading.ServiceClassLoader.Registered | src/main/java/org/osframework/util/ServiceClassLoader.java:83 | the registered classes in insertion order, one per registered name |
| ServiceClassLoading.ServiceClassLoader.Put | src/main/java/org/osframework/util/ServiceClassLoader.java:243 | `LinkedHashMap.put`: the class is stored under the name; a new name joins the end of the key order and its class the end of the registered classes, an old one keeps its place; the registry stays duplicate-free and every class in it a subtype of the service |
| ServiceClassLoading.ServiceClassLoader.constructor | src/main/java/org/osframework/util/ServiceClassLoader.java:128-132 | binds the service and the loader, then reloads: empty registry, fresh cursor |
| ServiceClassLoading.ServiceClassLoader.Reload | src/main/java/org/osframework/util/ServiceClassLoader.java:75-78 | the registry is emptied and a fresh cursor installed |
| ServiceClassLoading.ServiceClassLoader.Iterator | src/main/java/org/osframework/util/ServiceClassLoader.java:80-83 | a new iterator over the registry's classes as they stand, from the first |
| ServiceClassLoading.LazyIterator.constructor | src/main/java/org/osframework/util/ServiceClassLoader.java:197-200 | a cursor with no enumeration, no pending names and nothing staged |
| ServiceClassLoading.LazyIterator.HasNext | src/main/java/org/osframework/util/ServiceClassLoader.java:202-224 | the answer and the new cursor are those of `HasNextSpec`: a staged name answers true, a failed lookup fails, otherwise resources are parsed until one leaves names pending |
| ServiceClassLoading.LazyIterator.Next | src/main/java/org/osframework/util/ServiceClassLoader.java:226-250 | the answer and the new cursor are those of `NextSpec`. A resolved class is put in the registry under its name and appended to the key order, so the registered classes grow by exactly that class; on failure the registry is unchanged |
| ServiceClassLoading.ProviderIterator.constructor | src/main/java/org/osframework/util/ServiceClassLoader.java:82-83 | the iterator starts at the first known class |
| ServiceClassLoading.ProviderIterator.HasNext | src/main/java/org/osframework/util/ServiceClassLoader.java:85-90 | true while known classes remain, with the cursor untouched; afterwards the cursor's `hasNext` |
| ServiceClassLoading.ProviderIterator.Next | src/main/java/org/osframework/util/ServiceClassLoader.java:92-97 | the next known class while any remain, changing nothing else; afterwards the cursor's `next`: a registering step appends the name and its class to the registry and the class to the registered classes, any other step leaves the registry as it was |
| ServiceClassLoading.ServeDeclaredProvider | src/main/java/org/osframework/util/ServiceClassLoader.java:80-97 | a loader whose single configuration file names one subtype of the service answers `hasNext` true and hands out that class first |
| ClassLocating.Dotted | src/main/java/org/osframework/util/ClassLocator.java:152 | the same length; every `/` becomes `.` and every other character is kept |
| ClassLocating.DirectoryCandidate | src/main/java/org/osframework/util/ClassLocator.java:110-114 | the candidate is the package prefix followed by the file name without its six-character extension |
| ClassLocating.ArchiveCandidate | src/main/java/org/osframework/util/ClassLocator.java:151-152 | the entry name minus its last six characters, which read `.class` in lower case; character by character, `/` becomes `.` and everything else is the entry's |
| ClassLocating.Tokens | src/main/java/org/osframework/util/ClassLocator.java:84-88 | tokens are non-empty and hold no separator |
| ClassLocating.FileNameIsLastRun | src/main/java/org/osframework/util/ClassLocator.java:93 | the last name of a path is empty exactly when the path is separators only; otherwise it is the run of the path that follows a separator (or the start) and is followed by separators only |
| ClassLocating.FileName | src/main/java/org/osframework/util/ClassLocator.java:93 | the last name of a path holds no separator |
| ClassLocating.TokensLast | src/main/java/org/osframework/util/ClassLocator.java:84-88 | the last token of a string is the run before its trailing separators |
| ClassLocating.TokensNone | src/main/java/org/osframework/util/ClassLocator.java:84-88 | a string has no tokens exactly when it is separators only |
| ClassLocating.IsClassFile | src/main/java/org/osframework/util/ClassLocator.java:110 | definition: the name in lower case ends with `.class` |
| ClassLocating.TokensJoin | src/main/java/org/osframework/util/ClassLocator.java:84-88 | joining tokens with the separator and splitting again gives them back |
| ClassLocating.EmptyTokensSkipped | src/main/java/org/osframework/util/ClassLocator.java:84-88 | empty classpath entries and a trailing separator are skipped |
| ClassLocating.MatchIsInterface | src/main/java/org/osframework/util/ClassLocator.java:115-118 | with `interfaceClass.asSubclass(cls)`, a candidate matches exactly when it is the capability type itself |
| ClassLocating.ProperSubtypeIsFatal | src/main/java/org/osframework/util/ClassLocator.java:115-118 | a proper subtype makes `asSubclass` throw ClassCastException |
| ClassLocating.Examine | src/main/java/org/osframework/util/ClassLocator.java:113-130 | definition: a loaded class not assignable to the capability type is skipped; one that is assignable matches when the capability type is also assignable to it, and otherwise makes `asSubclass` throw ClassCastException; ClassNotFoundException and NoClassDefFoundError are skipped, an initializer error is skipped only when caused by a HeadlessException, any other throwable escapes |
| ClassLocating.WalkNode | src/main/java/org/osframework/util/ClassLocator.java:107-133 | every class a directory entry contributes is the capability type |
| ClassLocating.WalkNodes | src/main/java/org/osframework/util/ClassLocator.java:102-135 | every class a directory listing contributes is the capability type |
| ClassLocating.WalkStops | src/main/java/org/osframework/util/ClassLocator.java:120-130 | once a throwable escapes, the rest of the listing is never examined |
| ClassLocating.WalkNodesIntended | src/main/java/org/osframework/util/ClassLocator.java:115-118 | with `cls.asSubclass(interfaceClass)`, every class the directory walk finds is assignable to the capability type |
| ClassLocating.WalkNodesIntendedFinds | src/main/java/org/osframework/util/ClassLocator.java:102-135 | when nothing escapes, the corrected directory walk finds a class exactly when it is assignable to the capability type and some class file under the directory loads to it (`WalkNodeIntendedFinds` for one entry) |
| ClassLocating.DirectorySubtypeFound | src/main/java/org/osframework/util/ClassLocator.java:115-118 | a proper subtype in a directory makes the walk as written throw ClassCastException and is found by the corrected walk |
| ClassLocating.CatchPolicies | src/main/java/org/osframework/util/ClassLocator.java:113-163 | for each way loading a class file can end, what a one-file directory and a one-entry jar come to: not found, no class definition and a headless initializer error are skipped by both; another initializer error or throwable escapes the directory walk and is swallowed by the jar scan; the capability type itself is found by both; a class not assignable is skipped by both |
| ClassLocating.ArchiveEntry | src/main/java/org/osframework/util/ClassLocator.java:149-163 | definition: an entry adds the capability type when it is a class file whose class matches, and nothing otherwise, whatever is thrown |
| ClassLocating.ScanEntries | src/main/java/org/osframework/util/ClassLocator.java:148-164 | an archive contributes at most one class per entry, each the capability type |
| ClassLocating.ScanEntriesAppend | src/main/java/org/osframework/util/ClassLocator.java:148-164 | entries are scanned independently and in order: the scan of a concatenation is the concatenation of the scans |
| ClassLocating.ScanArchive | src/main/java/org/osframework/util/ClassLocator.java:137-147 | definition: a file that cannot be opened as a jar adds nothing; otherwise the scan of its entries |
| ClassLocating.ScanEntriesIntended | src/main/java/org/osframework/util/ClassLocator.java:155-158 | with `cls.asSubclass(interfaceClass)`, every class found is assignable to the capability type, at most one per entry |
| ClassLocating.ScanEntriesIntendedFinds | src/main/java/org/osframework/util/ClassLocator.java:151-158 | with the corrected cast, a class is found exactly when some class-file entry loads it and it is assignable to the capability type |
| ClassLocating.ArchiveSubtypeFound | src/main/java/org/osframework/util/ClassLocator.java:155-158 | a proper subtype in a jar is dropped by the scan as written and found by the corrected one |
| ClassLocating.ScanTokensAppend | src/main/java/org/osframework/util/ClassLocator.java:87-98 | classpath entries are scanned in order and their results appended, with no deduplication |
| ClassLocating.ScanToken | src/main/java/org/osframework/util/ClassLocator.java:88-97 | definition: a directory is walked, a regular file whose name ends in `.jar` is scanned as an archive, anything else adds nothing |
| ClassLocating.ScanTokens | src/main/java/org/osframework/util/ClassLocator.java:84-100 | definition: the classpath entries in order, each appending what it finds, until one throws |
| ClassLocating.Search | src/main/java/org/osframework/util/ClassLocator.java:64-100 | definition: the classes found over the classpath's tokens, or the throwable that escaped |
| ClassLocating.SearchFindsInterface | src/main/java/org/osframework/util/ClassLocator.java:64-67 | every class the search returns is the capability type itself |
| ClassLocating.RepeatedEntryTwice | src/main/java/org/osframework/util/ClassLocator.java:84-99 | a classpath naming the same entry twice reports its classes twice |
| ClassLocating.ClassFileInDirectory | src/main/java/org/osframework/util/ClassLocator.java:110 | whether a file is a class file does not depend on the directory path in front of it |
| ClassLocating.CandidateInDirectory | src/main/java/org/osframework/util/ClassLocator.java:112-114 | a class file in a directory and the same file as an archive entry give the same class name |
| ClassLocating.TreeMatchesJar | src/main/java/org/osframework/util/ClassLocator.java:102-165 | a directory tree whose walk throws nothing finds exactly what a jar of the same files finds |
| ClassLocating.SubtypePolicies | src/main/java/org/osframework/util/ClassLocator.java:115-130 | a proper subtype stops the directory walk with ClassCastException but is silently dropped from a jar |
| ClassLocating.ClassLocator.constructor | src/main/java/org/osframework/util/ClassLocator.java:53-55 | the list starts empty |
| ClassLocating.ClassLocator.FindInDirectory | src/main/java/org/osframework/util/ClassLocator.java:102-135 | the list grows by the walk's classes in order, and the escaping throwable is the walk's |
| ClassLocating.ClassLocator.FindInArchive | src/main/java/org/osframework/util/ClassLocator.java:137-165 | the list grows by the archive scan's classes in order; an unreadable archive adds nothing |
| ClassLocating.ClassLocator.FindInNode | src/main/java/org/osframework/util/ClassLocator.java:108-133 | one directory entry adds exactly what the walk of that entry finds, and lets its throwable escape |
| ClassLocating.ClassLocator.FindInEntry | src/main/java/org/osframework/util/ClassLocator.java:149-163 | one archive entry adds the capability type when its class file loads to it, and nothing otherwise |
| ClassLocating.ClassLocator.FindInToken | src/main/java/org/osframework/util/ClassLocator.java:88-97 | one classpath entry: a directory is walked, a file whose name ends in `.jar` is scanned as an archive, anything else adds nothing |
| ClassLocating.ClassLocator.FindInTokens | src/main/java/org/osframework/util/ClassLocator.java:87-98 | the classpath entries are handled in order until one throws; the list grows by the classpath scan's classes |
| ClassLocating.ClassLocator.FindProviderClasses | src/main/java/org/osframework/util/ClassLocator.java:69-100 | the list grows by the classpath scan's classes in order; the result is the list, or the throwable that escaped a directory walk |
| ClassLocating.SearchProviderClasses | src/main/java/org/osframework/util/ClassLocator.java:64-67 | a fresh locator's answer is the search over the tokens of the classpath |
| DateUtil.Template | src/main/java/org/osframework/util/DateUtil.java:75-85 | each of the three patterns spans exactly ten characters |
| DateUtil.Value | src/main/java/org/osframework/util/DateUtil.java:137-144 | the value of n digits is below 10^n, and one digit is worth its distance from `0` |
| DateUtil.ValueAppend | src/main/java/org/osframework/util/DateUtil.java:137-144 | positional notation: the value of two digit strings written one after the other is the first's value shifted by the length of the second, plus the second's value |
| DateUtil.LookingAt | src/main/java/org/osframework/util/DateUtil.java:129-131 | definition: the first ten characters fit the notation's template, digit for digit and separator for separator |
| DateUtil.Groups | src/main/java/org/osframework/util/DateUtil.java:134-149 | definition: year, month and day from the groups of the match; US reads month, day, year |
| DateUtil.InRange | src/main/java/org/osframework/util/DateUtil.java:150 | definition: the year is not negative, the month is in 1..12 and the day in 1..31 whatever the month |
| DateUtil.FirstMatch | src/main/java/org/osframework/util/DateUtil.java:261-271 | the index of a pattern matching a prefix with no earlier pattern matching, or none when no pattern matches |
| DateUtil.FindArrayIndex | src/main/java/org/osframework/util/DateUtil.java:261-271 | -1 exactly when no pattern matches a prefix; otherwise the first pattern that does |
| DateUtil.IsNumber | src/main/java/org/osframework/util/DateUtil.java:273-283 | true exactly when every character is a digit, so also for the empty string |
| DateUtil.IsDate | src/main/java/org/osframework/util/DateUtil.java:118-154 | a date is never blank and trims to at least ten characters |
| DateUtil.IsDateIff | src/main/java/org/osframework/util/DateUtil.java:118-154 | `isDate` holds exactly when the input is not blank and some pattern matches a prefix of the trimmed input with month in 1..12 and day in 1..31. The order of the patterns and the year check make no difference |
| DateUtil.PatternsExclusive | src/main/java/org/osframework/util/DateUtil.java:75-90 | no string matches two patterns |
| DateUtil.PrefixOnly | src/main/java/org/osframework/util/DateUtil.java:129-131 | text after ten matched characters affects neither the match nor the verdict |
| DateUtil.ParseDateFormat | src/main/java/org/osframework/util/DateUtil.java:234-251 | an error always carries the input; a success never comes from a blank input |
| DateUtil.DigitsAreNoPattern | src/main/java/org/osframework/util/DateUtil.java:240-241 | a string of digits matches no pattern, so `isDate` rejects what `parseDate` hands to the basic ISO 8601 format |
| DateUtil.ParseAgreesWithIsDate | src/main/java/org/osframework/util/DateUtil.java:243-248 | what `isDate` accepts, `parseDate` hands to the formatter of the same notation |
| DateUtil.ControlsOnlyGoToBasic | src/main/java/org/osframework/util/DateUtil.java:235-241 | a string of control characters is not blank, trims to nothing and is handed to the basic format |
| DateUtil.IsoDateAccepted | src/test/java/org/osframework/util/DateUtilTest.java:106 | `2012-12-25` is a date |
| DateUtil.UsDateAccepted | src/test/java/org/osframework/util/DateUtilTest.java:107 | `12/25/2012` is a date |
| DateUtil.UsReverseDateAccepted | src/test/java/org/osframework/util/DateUtilTest.java:108 | `2012/12/25` is a date |
| DateUtil.DottedDateRejected | src/test/java/org/osframework/util/DateUtilTest.java:109 | `25.12.2012` is no date |
| DateUtil.BlankRejected | src/test/java/org/osframework/util/DateUtilTest.java:111-112 | the empty and the blank string are no dates, and `parseDate` rejects blanks |
| DateUtil.IsoDayIgnoresMonth | src/main/java/org/osframework/util/DateUtil.java:150 | every ISO string with a month in 1..12 and a day in 1..31 is a date, whether or not the month has that day; so `2011-02-29` and `2012-11-31`, which DateUtilTest.java:114-115 expects to be rejected, are dates |
| DateUtil.BasicDateParsed | src/test/java/org/osframework/util/DateUtilTest.java:174 | `20121225` is handed to the basic ISO 8601 format |
| DateUtil.DottedDateNotParsed | src/test/java/org/osframework/util/DateUtilTest.java:182 | `12.25.2012` makes `parseDate` throw |
| DateUtil.IsDateOrNull | src/main/java/org/osframework/util/DateUtil.java:118-120 | as written, a null argument throws NullPointerException and a non-null one answers `isDate` |
| DateUtil.IsDateOrNullIntended | src/main/java/org/osframework/util/DateUtil.java:118-120 | with the trim after the blank check, null is no date |
| DateUtil.NullDate | src/test/java/org/osframework/util/DateUtilTest.java:110 | on null the method as written throws where the corrected one answers false; on every non-null string they agree |
| HashCodeUtil.FoldLong | src/main/java/org/osframework/util/HashCodeUtil.java:92 | the folded long is its low half xor-ed with its high half |
| HashCodeUtil.FirstTerm | src/main/java/org/osframework/util/HashCodeUtil.java:150-152 | definition: 37 times the running value, modulo 2^32 |
| HashCodeUtil.HashBool | src/main/java/org/osframework/util/HashCodeUtil.java:56-58 | definition: the first term plus 1 for true and 0 for false, modulo 2^32 |
| HashCodeUtil.HashChar | src/main/java/org/osframework/util/HashCodeUtil.java:67-69 | definition: the first term plus the char's code unit, modulo 2^32 |
| HashCodeUtil.HashInt | src/main/java/org/osframework/util/HashCodeUtil.java:80-82 | definition: the first term plus the int, modulo 2^32 |
| HashCodeUtil.HashLong | src/main/java/org/osframework/util/HashCodeUtil.java:91-93 | definition: the `int` hash of the folded long |
| HashCodeUtil.ObjectHash | src/main/java/org/osframework/util/HashCodeUtil.java:125-140 | definition: null hashes as the int 0, an array folds its elements from the seed, any other object hashes its `hashCode` |
| HashCodeUtil.ElementsHash | src/main/java/org/osframework/util/HashCodeUtil.java:129-135 | definition: the left fold of the object hash over the elements, starting from the seed |
| HashCodeUtil.Hash | src/main/java/org/osframework/util/HashCodeUtil.java:125-140 | the recursive loop computes `ObjectHash`: null hashes as 0, an array folds its elements from the seed, any other object hashes its `hashCode` |
| HashCodeUtil.FirstTermInjective | src/main/java/org/osframework/util/HashCodeUtil.java:150-152 | 37 times the running value is injective modulo 2^32 |
| HashCodeUtil.BoolHashesDiffer | src/main/java/org/osframework/util/HashCodeUtil.java:56-58 | true and false never hash alike under the same seed |
| HashCodeUtil.CharHashInjective | src/main/java/org/osframework/util/HashCodeUtil.java:67-69 | two chars hash alike under the same seed exactly when they are equal |
| HashCodeUtil.IntHashInjective | src/main/java/org/osframework/util/HashCodeUtil.java:80-82 | two ints hash alike under the same seed exactly when they are equal |
| HashCodeUtil.SmallLongHashesLikeInt | src/main/java/org/osframework/util/HashCodeUtil.java:91-93 | a long below 2^32 hashes like the int with the same bits |
| HashCodeUtil.LongHashCollides | src/main/java/org/osframework/util/HashCodeUtil.java:91-93 | 2^32 + 1 and 0 hash alike: the fold loses information |
| HashCodeUtil.AdjacentLongsDiffer | src/test/java/org/osframework/util/HashCodeUtilTest.java:74-75 | 1000000000 and 1000000001 hash apart |
| HashCodeUtil.NullHash | src/main/java/org/osframework/util/HashCodeUtil.java:127-128 | null contributes nothing beyond the first term |
| HashCodeUtil.EmptyArrayHash | src/main/java/org/osframework/util/HashCodeUtil.java:129-135 | an empty array leaves the running value unchanged |
| HashCodeUtil.ElementsHashAppend | src/main/java/org/osframework/util/HashCodeUtil.java:129-135 | the fold over a concatenation continues from the fold over its first part |
| HashCodeUtil.NestedArrayFlattens | src/main/java/org/osframework/util/HashCodeUtil.java:129-135 | an array that is the only element of an array hashes like its own elements |
| HashCodeUtil.EqualHashCodesEquivalent | src/main/java/org/osframework/util/HashCodeUtil.java:136-137 | distinct objects with equal `hashCode` contribute alike from every running value |
| HashCodeUtil.ReplaceEquivalent | src/main/java/org/osframework/util/HashCodeUtil.java:129-137 | replacing one element by an equivalent value keeps the array's hash |
| HashCodeUtil.SwapEquivalent | src/test/java/org/osframework/util/HashCodeUtilTest.java:86-89 | swapping two equivalent elements keeps the array's hash |
| HashCodeUtil.OrderMatters | src/main/java/org/osframework/util/HashCodeUtil.java:129-135 | two objects with hash codes 0 and 1 give different hashes in the two orders |
| ReusableStreams.ByteBuffer.Wrap | src/main/java/org/osframework/io/ReusableInputStream.java:93 | the buffer spans the whole record from its start |
| ReusableStreams.ByteBuffer.Remaining | src/main/java/org/osframework/io/ReusableInputStream.java:100 | what remains never exceeds the bytes after the position |
| ReusableStreams.ByteBuffer.Get | src/main/java/org/osframework/io/ReusableInputStream.java:104 | a bad range throws IndexOutOfBoundsException and a request beyond the limit throws BufferUnderflowException, both changing nothing. Otherwise the next bytes are copied to the offset and the position advances by that many |
| ReusableStreams.ByteBuffer.Flip | src/main/java/org/osframework/io/ReusableInputStream.java:115 | the limit comes down to the old position and the position goes to zero: what is left to read is what had been read |
| ReusableStreams.ByteBuffer.Rewind | src/main/java/org/osframework/io/ReusableInputStream.java:115 | the position goes to zero and the limit stays: the whole record is left to read |
| ReusableStreams.InputSource.Read | src/main/java/org/osframework/io/ReusableInputStream.java:89 | the underlying `read`: a bad range throws, a closed stream throws, a zero length answers 0, the end answers -1, otherwise min(length, remaining) bytes are copied to the offset and consumed |
| ReusableStreams.ReusableInputStream.constructor | src/main/java/org/osframework/io/ReusableInputStream.java:43-49 | recording from the given input, with nothing recorded |
| ReusableStreams.InputSource.Available | src/main/java/org/osframework/io/ReusableInputStream.java:48 | the underlying `available`: the bytes still to deliver, or an IOException once the stream is closed |
| ReusableStreams.ReusableInputStream.Open | src/main/java/org/osframework/io/ReusableInputStream.java:43-49 | fails with IllegalArgumentException when the input is null, with the input's IOException when sizing the record from a closed input, and otherwise starts recording from that input with an empty record |
| ReusableStreams.ReusableInputStream.Available | src/main/java/org/osframework/io/ReusableInputStream.java:51-62 | the input's count while recording, its IOException when that input is closed (also after `close`), the buffer's remaining bytes while replaying |
| ReusableStreams.AvailableAfterClose | src/main/java/org/osframework/io/ReusableInputStream.java:43-62 | after `close`, `available` throws the input's IOException, and constructing a stream over the closed input throws it too |
| ReusableStreams.ReusableInputStream.Read | src/main/java/org/osframework/io/ReusableInputStream.java:85-108 | recording: the input's read, with `length` bytes recorded after a non-negative count; at end of input the input is closed and the record becomes the buffer. Replaying: min(length, remaining) bytes copied from the position, or -1 when that is not positive |
| ReusableStreams.ReusableInputStream.ReadIntended | src/main/java/org/osframework/io/ReusableInputStream.java:97 | the same read recording only the bytes actually delivered |
| ReusableStreams.ReusableInputStream.Record | src/main/java/org/osframework/io/ReusableInputStream.java:88-98 | the recording branch, with the record growing by the requested length or by the count |
| ReusableStreams.ReusableInputStream.Replay | src/main/java/org/osframework/io/ReusableInputStream.java:99-106 | the replay branch |
| ReusableStreams.ReusableInputStream.ReadOne | src/main/java/org/osframework/io/ReusableInputStream.java:64-67 | `read()` answers 1 or -1, the count of a one-byte read, never the byte; while recording, the byte read is appended to the record, and at the end of input the input is closed and the record becomes the whole buffer, read from its start |
| ReusableStreams.ReusableInputStream.ReadByte | src/main/java/org/osframework/io/ReusableInputStream.java:64-67 | the intended `read()` answers the next byte's value in 0..255, or -1 at the end, and records exactly that byte; at the end of input the input is closed and the record becomes the whole buffer, read from its start |
| ReusableStreams.ReusableInputStream.ReadAll | src/main/java/org/osframework/io/ReusableInputStream.java:69-72 | `read(bytes)` is the read of the whole array from offset 0 |
| ReusableStreams.ReusableInputStream.Reset | src/main/java/org/osframework/io/ReusableInputStream.java:110-117 | while recording it throws IOException; while replaying it flips the buffer |
| ReusableStreams.ReusableInputStream.ResetIntended | src/main/java/org/osframework/io/ReusableInputStream.java:115 | the same with `rewind`: the limit stays and the position goes to zero |
| ReusableStreams.ReusableInputStream.Close | src/main/java/org/osframework/io/ReusableInputStream.java:119-124 | closes the input when it is still there and leaves its bytes and the buffer alone |
| ReusableStreams.Drain | src/main/java/org/osframework/io/ReusableInputStream.java:85-108 | reading to -1 delivers the input's remaining bytes while recording and ends in the replay phase, or delivers the buffer's unread bytes while replaying |
| ReusableStreams.DrainRecording | src/main/java/org/osframework/io/ReusableInputStream.java:88-98 | reading to -1 delivers exactly what the input had left and leaves the record, recorded by count, as the buffer |
| ReusableStreams.DrainReplay | src/main/java/org/osframework/io/ReusableInputStream.java:99-106 | reading to -1 delivers exactly the buffer's bytes between position and limit |
| ReusableStreams.ReplayAfterFlip | src/test/java/org/osframework/io/ReusableInputStreamTest.java:26-48 | as written, reading until the first -1, then `reset`, leaves a second pass that delivers nothing, whatever the content |
| ReusableStreams.ReplayAfterRewind | src/test/java/org/osframework/io/ReusableInputStreamTest.java:26-48 | with the count recorded and `rewind` on reset, every pass delivers the whole content |
| ReusableStreams.ShortReadRecordsStaleBytes | src/main/java/org/osframework/io/ReusableInputStream.java:97 | two bytes read into a four-byte array leave four bytes in the record |
| ReusableStreams.ShortReadRecordsCount | src/main/java/org/osframework/io/ReusableInputStream.java:97 | with the count recorded, the same read records the two bytes delivered |
| ReusableStreams.SingleByteRead | src/main/java/org/osframework/io/ReusableInputStream.java:64-67 | for a stream holding the byte 65, `read()` as written answers 1 and the intended one answers 65 |

## Left out

- Opening resources and reading them is not modelled. This covers URL opening, UTF-8 decoding, `BufferedReader`, `getResources` and `getSystemResources`. Each resource is the lines a reader returns, with flags for failing to open, read or close. The enumeration is a table from resource names to lookups. The case of a null class loader, which uses `getSystemResources`, is the same table.
- Class loading (`Class.forName`, `isAssignableFrom`, `asSubclass`) is a table from names to load outcomes, and a class is known by its supertype names. In `ServiceClassLoader.next`, `asSubclass` cannot fail once assignability holds, so that catch is not modelled.
- The `load` and `loadInstalled` factories and `toString` are not modelled; they are runtime plumbing.
- The iterators' `remove`, which always throws UnsupportedOperationException, is not modelled.
- ProviderIterator: the source iterates the live `LinkedHashMap`. The model takes a snapshot of the registry when the iterator is made. The two differ only where Java throws ConcurrentModificationException, which is not modelled.
- Thread safety of the shared cursor is not modelled. Neither is the `synchronized` on `reset`.
- The text of error messages is not modelled. Errors are datatype constructors that carry the URL, the line number and the name.
- `Character.isJavaIdentifierStart/Part` are exact below U+00A0; from U+00A0 on, every character counts as a letter. Supplementary code points, which `parseLine` walks by code point, are single characters here.
- `String.toLowerCase` is modelled on ASCII letters only.
- ClassLocator: finding the classpath is not modelled (the reflective `getClassPath` call and the `java.class.path` property). The classpath string and the file system are inputs.
- ClassLocator: the class loader is an input of `FindProviderClasses` and `SearchProviderClasses`. The source fixes it at line 71 to `ClassLoader.class.getClassLoader()`, which is null, the bootstrap loader. The model does not restrict which names that loader can load.
- ClassLocator: `Class.forName(name, false, loader)` does not initialize the class, so the `ExceptionInInitializerError` catch (lines 122-127) is dead code in the source. `Examine` models it as written.
- ClassLocator: `File.listFiles` returning null is not modelled.
- ClassLocator: the jar file that is never closed is not modelled.
- ClassLocator: the `.jar` test is written twice on line 94 and is modelled once.
- ClassLocator: paths use the Unix separators `:` and `/`.
- DateUtil: `forceMidnight`, the `formatDateTo*` methods and the Joda `parseDateTime` calls are not modelled. Nor are Joda's own errors on strings it cannot parse. `ParseDateFormat` stops at the choice of formatter.
- DateUtil: `Character.isDigit` in `isNumber` is modelled on ASCII digits; other Unicode digits are not modelled.
- DateUtil: `parseDate(null)` is not modelled; it is blank and throws IllegalArgumentException.
- DateUtil: the year check `0 <= year` always holds. The second `lookingAt` repeats the one `findArrayIndex` made. `IsDateIff` proves both redundant.
- HashCodeUtil: the `float` and `double` overloads are not modelled, because `floatToIntBits` and `doubleToLongBits` are floating point. On a bit pattern they are the `int` and `long` overloads.
- HashCodeUtil: an `Object[]` that contains itself makes `hash` recurse until StackOverflowError (line 132). `JValue` is a finite value and cannot express such an array.
- HashCodeUtil: `byte` and `short` widen to `int` before the call. Primitive array elements are boxed by `Array.get` and so contribute their box's `hashCode` (the `Obj` case).
- ReusableInputStream: the underlying stream is abstracted as the bytes it has left, and a read delivers as many as are asked for and available. A closed underlying stream throws IOException from both `read` and `available`, as a closed `BufferedInputStream` does; streams whose `available` still answers after `close`, such as `ByteArrayInputStream`, are not modelled. The initial capacity of the `ByteArrayOutputStream` is not modelled.
- ReusableInputStream: `available` answers 0 when neither input nor buffer is present. That state is unreachable and the model's invariant excludes it.
- EqualsUtil is not part of this model.

## Findings

| source | as written | input that shows it | evidently intended | confidence | as-written member | corrected member |
|---|---|---|---|---|---|---|
| src/main/java/org/osframework/io/ReusableInputStream.java:97 | `output.write(bytes, offset, length)` records the requested length after a short read | an input holding the bytes 65 and 66, read into a zeroed four-byte array with length 4: the count is 2 and the record is 65, 66, 0, 0 | record only the `read` bytes delivered | high; not executed | ReusableStreams.ShortReadRecordsStaleBytes | ReusableStreams.ShortReadRecordsCount |
| src/main/java/org/osframework/io/ReusableInputStream.java:115 | `reset` calls `flip` when the position is already 0, which sets the limit to 0 | any content read until the first -1, then `reset`, then read again until -1: the second pass delivers nothing. The test at ReusableInputStreamTest.java:26-48 re-reads through a `BufferedReader`, so what it sees depends on line terminators, but its assertion fails either way | `rewind`, so every pass replays the whole record | high; not executed | ReusableStreams.ReplayAfterFlip | ReusableStreams.ReplayAfterRewind |
| src/main/java/org/osframework/io/ReusableInputStream.java:64-67 | `read()` returns the count of a one-byte read | a stream holding the byte 65: `read()` answers 1 | the byte's value, 65, as `InputStream.read()` specifies | high; not executed | ReusableStreams.SingleByteRead | ReusableStreams.ReusableInputStream.ReadByte |
| src/main/java/org/osframework/util/ClassLocator.java:117 | `interfaceClass.asSubclass(cls)` succeeds only when `cls` is a supertype of the capability type | a class file for a proper subtype, visible to the loader of line 71 (`ClassLoader.class.getClassLoader()`, the bootstrap loader, so in practice only a subtype on the boot classpath): a directory walk throws ClassCastException, and a jar scan drops the class | `cls.asSubclass(interfaceClass)`, collecting every assignable class | high; not executed | ClassLocating.SubtypePolicies | ClassLocating.WalkNodesIntendedFinds, ClassLocating.ScanEntriesIntendedFinds |
| src/main/java/org/osframework/util/DateUtil.java:120 | `s.trim()` runs before the blank check is consulted | `isDate(null)` throws NullPointerException where DateUtilTest.java:110 expects false | trim only a non-blank argument | high; not executed | DateUtil.IsDateOrNull | DateUtil.IsDateOrNullIntended |

The corrected behaviour is modelled next to the as-written one; the members above are the places where each is proved:
- `ReadIntended`, `ReadByte` and `ResetIntended` are the stream's corrected operations.
- `WalkNodesIntended` and `ScanEntriesIntended` are the corrected directory walk and jar scan.
- `IsDateOrNullIntended` is the corrected `isDate` on null.

The locator's methods, the stream's `Read` and `Reset`, and `IsDate` keep the behaviour as written.
