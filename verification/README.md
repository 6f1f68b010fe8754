# A Dafny model of three IntelliJ helpers

This project models three small, self-contained pieces of the IntelliJ
platform source and proves what they promise:

- **`TokenSet`** (`TokenSets` module, `token_set.dfy`): an immutable set of
  PSI element types, built by `create`, `orSet` and `andSet` and queried by
  `isInSet` and `getTypes`. The hash set inside is modelled by its content, a
  duplicate-free sequence in insertion order; `Set.add`, `addAll` and
  `retainAll` are written out as `Add`, `AddAll` and `RetainAll`. The ordinary
  mathematical set of members (`Members`) is the reference: `orSet` is union,
  `andSet` is intersection, `create` collects the array's entries, and
  `getTypes` lists every member once.
- **The pure helpers of `JdkUtil`** (`JdkUtil` module, `jdk_util.dfy`):
  `quoteArg` and the text `writeArgumentsToParameterFile` writes into a Java
  argument file; `isUserDefinedProperty` and the split of VM options it drives;
  `getMainClassParams`; `suggestJdkName`; the version cut out of a cached
  version string; the jar path cut out of a `-javaagent` option.
  The partner of `quoteArg` is `ArgFileReader` (`arg_file_reader.dfy`): a
  reader for argument files written from the rules of the section
  "java Command-Line Argument Files" of the Java SE 9 `java` tool reference,
  which the source cites. Reading the file written for a list of arguments
  gives the list back, with one exception the proof brings out: an empty
  argument is written as an empty line, and an empty line holds no argument,
  so it is lost (`EmptyArgumentIsLost`).
- **`SynteticCodeBlock`** (`JavaFormatter` module, `synthetic_code_block.dfy`):
  a formatter block wrapping a non-empty ordered list of sub-blocks. Its text
  range runs from the first sub-block's start to the last one's end, it is
  incomplete exactly when its last sub-block is, and a new child gets the
  block's indent and no alignment.

Java `null` results are `Option.None`; exceptions thrown to the caller are
`Result.Failure` (`wrappers.dfy`). Element types, alignments, wraps and indents
are compared only by identity and are modelled as a type parameter or as
records with an identity field. Offsets and version numbers are unbounded
integers. The one place where the Java code can overflow, the buffer size
`arg.length() * 2` in `quoteArg`, is listed under "Left out".

`JavaAgentPath` fails exactly where `substring(11, end)` throws: when the
option is `-javaagent` alone or has `=` at index 10. Any other character at
index 10 (normally `:`) is skipped.

## Model

| member | source | states |
|---|---|---|
| TokenSets.AddAll | openapi/src/com/intellij/psi/tree/TokenSet.java:47 | `addAll` keeps the set duplicate-free, adds exactly the given types, and leaves the members already present in place |
| TokenSets.RetainAll | openapi/src/com/intellij/psi/tree/TokenSet.java:61 | `retainAll` keeps the set duplicate-free and keeps exactly the members the other set also holds |
| TokenSets.Create | openapi/src/com/intellij/psi/tree/TokenSet.java:45-49 | a created set holds a type iff the array holds it, with no type stored twice |
| TokenSets.CreateMembership | openapi/src/com/intellij/psi/tree/TokenSet.java:45-49 | `isInSet` after `create` is true iff some array entry equals the type |
| TokenSets.CreateCollapsesDuplicates | openapi/src/com/intellij/psi/tree/TokenSet.java:45-49 | repeated entries collapse: the set has at most as many members as the array has entries, and as many exactly when no entry repeats |
| TokenSets.OrSet | openapi/src/com/intellij/psi/tree/TokenSet.java:51-56 | `orSet(a, b)` holds a type iff `a` or `b` holds it |
| TokenSets.AndSet | openapi/src/com/intellij/psi/tree/TokenSet.java:58-63 | `andSet(a, b)` holds a type iff both `a` and `b` hold it |
| TokenSets.OrSetIsUnion | openapi/src/com/intellij/psi/tree/TokenSet.java:51-56 | as a set, `orSet` is the union of its arguments, so each argument lies within it |
| TokenSets.AndSetIsIntersection | openapi/src/com/intellij/psi/tree/TokenSet.java:58-63 | as a set, `andSet` is the intersection of its arguments, so it lies within each argument |
| TokenSets.SelfCombinationIsIdentity | openapi/src/com/intellij/psi/tree/TokenSet.java:51-63 | `orSet(a, a)` and `andSet(a, a)` have exactly the members of `a` |
| TokenSets.IsInSet | openapi/src/com/intellij/psi/tree/TokenSet.java:65-67 | `isInSet` is membership in the set |
| TokenSets.GetTypes | openapi/src/com/intellij/psi/tree/TokenSet.java:41-43 | `getTypes` lists every member exactly once and nothing else |
| TokenSets.GetTypesRoundTrip | openapi/src/com/intellij/psi/tree/TokenSet.java:41-49 | creating a set from its types gives a set with the same members; the types of a created set are the array's entries |
| JdkUtil.ContainsAnyChar | platform/lang-api/src/com/intellij/openapi/projectRoots/JdkUtil.java:293 | true iff some character of the string is one of the given characters |
| JdkUtil.QuoteArg | platform/lang-api/src/com/intellij/openapi/projectRoots/JdkUtil.java:290-309 | an argument without special characters is returned unchanged; the result never holds a raw newline, carriage return, tab or form feed; it is at least as long as the argument and at most four times as long |
| JdkUtil.QuoteChar | platform/lang-api/src/com/intellij/openapi/projectRoots/JdkUtil.java:300-306 | a character outside the special set is written as itself, and only such a character; a special character becomes three or four characters between double quotes |
| JdkUtil.QuoteCharFacts | platform/lang-api/src/com/intellij/openapi/projectRoots/JdkUtil.java:300-306 | each replacement is one to four characters long and holds no raw newline, carriage return, tab or form feed |
| JdkUtil.QuoteEachFacts | platform/lang-api/src/com/intellij/openapi/projectRoots/JdkUtil.java:297-307 | the character loop's output is one to four times as long as the argument and holds no raw newline, carriage return, tab or form feed |
| JdkUtil.ShortcutAgreesWithLoop | platform/lang-api/src/com/intellij/openapi/projectRoots/JdkUtil.java:292-307 | the early return for plain arguments gives what the character loop gives: characters outside the special set are copied verbatim and in order |
| JdkUtil.QuoteArgConcat | platform/lang-api/src/com/intellij/openapi/projectRoots/JdkUtil.java:297-307 | each character is replaced independently of its neighbours: quoting a concatenation concatenates the quoted parts |
| JdkUtil.ArgFileText | platform/lang-api/src/com/intellij/openapi/projectRoots/JdkUtil.java:279-287 | the file is empty iff there are no arguments, otherwise ends with a newline, and has at least one character per argument |
| JdkUtil.OneLinePerArgument | platform/lang-api/src/com/intellij/openapi/projectRoots/JdkUtil.java:279-287 | the written file holds exactly one newline per argument and no carriage return |
| ArgFileReader.QuoteCharIsRead | platform/lang-api/src/com/intellij/openapi/projectRoots/JdkUtil.java:300-306 | each replacement (`"c"` for space, `#` and `'`; `"\""` for a double quote; `"\n"`, `"\r"`, `"\t"`, `"\f"` for the control characters) is read back as the one character it replaces |
| ArgFileReader.LineIsRead | platform/lang-api/src/com/intellij/openapi/projectRoots/JdkUtil.java:282-285 | one written line is read as its argument, or as nothing when the argument is empty |
| ArgFileReader.CommentLineHoldsNoArgument | platform/lang-api/src/com/intellij/openapi/projectRoots/JdkUtil.java:289-300 | an unquoted `#` where an argument would start begins a comment: the line it is on holds no argument, which is why `quoteArg` writes `#` between quotes |
| ArgFileReader.ArgFileRoundTrip | platform/lang-api/src/com/intellij/openapi/projectRoots/JdkUtil.java:272-309 | reading the argument file gives back the arguments, without the empty ones |
| ArgFileReader.ArgFileKeepsNonEmptyArguments | platform/lang-api/src/com/intellij/openapi/projectRoots/JdkUtil.java:279-287 | a list without empty arguments survives the file unchanged |
| ArgFileReader.EmptyArgumentIsLost | platform/lang-api/src/com/intellij/openapi/projectRoots/JdkUtil.java:282-295 | an empty argument is returned unquoted and written as an empty line; wherever it stands among other arguments, the file reads as if it were absent |
| JdkUtil.IsUserDefinedProperty | platform/lang-api/src/com/intellij/openapi/projectRoots/JdkUtil.java:463-465 | true iff the option begins with `-D` and the text after those two characters begins with neither `sun.` nor `java.` |
| JdkUtil.UserDefinedPropertyByKey | platform/lang-api/src/com/intellij/openapi/projectRoots/JdkUtil.java:462-465 | true iff the option starts with `-D` and the property key after it starts with neither `sun.` nor `java.` |
| JdkUtil.PartitionVmOptions | platform/lang-api/src/com/intellij/openapi/projectRoots/JdkUtil.java:323-330 | user-defined properties go to the file and every other option to the command line, and the options are a merge of the two sides, each side keeping the original order |
| JdkUtil.PartitionKeepsEveryOption | platform/lang-api/src/com/intellij/openapi/projectRoots/JdkUtil.java:419-426 | the split loses and adds no option: the two sides together hold each option as often as the list does |
| JdkUtil.GetMainClassParams | platform/lang-api/src/com/intellij/openapi/projectRoots/JdkUtil.java:511-528 | main class with module gives `-m module/main`; else a main class gives itself; else a jar gives `-jar path`; it fails iff there is neither main class nor jar |
| JdkUtil.MainClassParamsNameTheTarget | platform/lang-api/src/com/intellij/openapi/projectRoots/JdkUtil.java:516-524 | the launcher's reading of the arguments recovers the chosen module and class, class, or jar, as module names hold no `/` |
| JdkUtil.ModuleWithoutMainIsIgnored | platform/lang-api/src/com/intellij/openapi/projectRoots/JdkUtil.java:516-527 | without a main class the module name plays no part |
| JdkUtil.IndexOf | platform/lang-api/src/com/intellij/openapi/projectRoots/JdkUtil.java:173 | `indexOf(c, from)` is the first position at or after `from` holding `c`, or -1 when there is none |
| JdkUtil.LastIndexOf | platform/lang-api/src/com/intellij/openapi/projectRoots/JdkUtil.java:70 | `lastIndexOf(c)` is the last position holding `c`, or -1 when there is none |
| JdkUtil.QuotedVersion | platform/lang-api/src/com/intellij/openapi/projectRoots/JdkUtil.java:66-75 | a version comes from the cached string iff it holds two double quotes, and it is the text between the first and the last of them |
| JdkUtil.QuotePositions | platform/lang-api/src/com/intellij/openapi/projectRoots/JdkUtil.java:70-71 | the first and the last double quote differ exactly when the string holds two double quotes |
| JdkUtil.QuotedVersionRoundTrip | platform/lang-api/src/com/intellij/openapi/projectRoots/JdkUtil.java:70-73 | a version placed in quotes between quote-free text is extracted unchanged, even when it holds quotes itself |
| JdkUtil.NatToString | platform/lang-api/src/com/intellij/openapi/projectRoots/JdkUtil.java:100 | the feature number is written as decimal digits without leading zeros |
| JdkUtil.ParseNatToString | platform/lang-api/src/com/intellij/openapi/projectRoots/JdkUtil.java:100 | reading the written digits gives the number back |
| JdkUtil.SuggestJdkName | platform/lang-api/src/com/intellij/openapi/projectRoots/JdkUtil.java:93-103 | no name iff the version does not parse; the name starts with `1.` iff the feature is below 9 and ends with `-ea` iff the build is early access |
| JdkUtil.SuggestedNameRoundTrip | platform/lang-api/src/com/intellij/openapi/projectRoots/JdkUtil.java:98-102 | the name can be read back into the feature number and early-access flag it was made from |
| JdkUtil.SuggestedNamesAreDistinct | platform/lang-api/src/com/intellij/openapi/projectRoots/JdkUtil.java:98-102 | different versions get different names |
| JdkUtil.JavaAgentPath | platform/lang-api/src/com/intellij/openapi/projectRoots/JdkUtil.java:171-175 | extraction fails iff the option is `-javaagent` alone or has `=` at index 10; otherwise the path is the text from index 11 up to the first `=` or the end, and holds no `=` |
| JdkUtil.JavaAgentPathRoundTrip | platform/lang-api/src/com/intellij/openapi/projectRoots/JdkUtil.java:172-174 | the path written into `-javaagent:<path>` or `-javaagent:<path>=<args>` is the path extracted, when it holds no `=` |
| JavaFormatter.NewSynteticCodeBlock | source/com/intellij/psi/formatter/java/SynteticCodeBlock.java:24-39 | construction fails iff there are no sub-blocks; otherwise the block keeps the sub-blocks in order and the given alignment, indent and wrap, and its range runs from the first sub-block's start to the last one's end |
| JavaFormatter.GettersReturnConstructorArguments | source/com/intellij/psi/formatter/java/SynteticCodeBlock.java:41-59 | the getters `GetTextRange`, `GetSubBlocks`, `GetWrap`, `GetIndent` and `GetAlignment` return the constructor's sub-blocks, alignment, indent and wrap, and the derived range |
| JavaFormatter.RangeCoversSubBlocks | source/com/intellij/psi/formatter/java/SynteticCodeBlock.java:37-38 | for sub-blocks in text order the range is well formed and covers every sub-block |
| JavaFormatter.GetChildAttributes | source/com/intellij/psi/formatter/java/SynteticCodeBlock.java:75-77 | a new child gets the block's indent and no alignment |
| JavaFormatter.ChildAttributesIgnoreIndex | source/com/intellij/psi/formatter/java/SynteticCodeBlock.java:75-77 | the attributes do not depend on the child's index |
| JavaFormatter.IsIncomplete | source/com/intellij/psi/formatter/java/SynteticCodeBlock.java:79-81 | a block of complete sub-blocks is complete, a block of incomplete sub-blocks is incomplete, and an incomplete block has an incomplete sub-block |
| JavaFormatter.IncompletenessIsTheLastSubBlocks | source/com/intellij/psi/formatter/java/SynteticCodeBlock.java:79-81 | whatever precedes it, the block is incomplete exactly when its last sub-block is |
| JavaFormatter.WrappingAloneKeepsExtent | source/com/intellij/psi/formatter/java/SynteticCodeBlock.java:79-81 | a synthetic block wrapped alone in another keeps its range and its incompleteness |

## Left out

- `JdkUtil` command-line assembly (`setupJVMCommandLine`, `setupCommandLine`, `setArgFileParams`, `setCommandLineWrapperParams`, `setClasspathJarParams`, `appendEncoding`, `appendParamsEncodingClasspath`, `isUrlClassloader`, `explicitClassPath`, `explicitModulePath`): temporary files, random file names, jar manifests, charset lookup and the `GeneralCommandLine`, `ParametersList` and `PathsList` classes, which are not part of this model. Of it, only the pure pieces are modelled: the `-javaagent` path, the VM-option split and the argument-file text.
- Moving `-javaagent` jars to the front of the class path (JdkUtil.java:170-177): `PathsList.addFirst` is not part of this model; only the path extraction is.
- `writeArgumentsToParameterFile` I/O: the file is modelled as the text written; the UTF-8 writer and the file handle are left out.
- `JdkUtil` file-system probing (`checkForJdk`, `checkForJre`, `checkForRuntime`, `isModularRuntime`, `isExplodedModularRuntime`, the `rt.jar` attribute lookup of `getJdkMainAttribute`): file-existence checks and jar reading.
- `useDynamicClasspath`, `useDynamicVMOptions`, `useDynamicParameters`, `useClasspathJar` read persisted settings; `getCommandLineWrapperClass` uses reflection.
- `JavaVersion.tryParse` is not part of this model: `SuggestJdkName` takes the parsed version (feature number and early-access flag) or `None`.
- `JdkBundle`, `CodeFoldingConfigurable` and `JavaDebuggerStreamsIcons`: file-system probing, process execution, Swing UI and icon loading.
- `SynteticCodeBlock.getSpaceProperty`, `toString` and `getFirstTreeNode`, and the `CodeStyleSettings` they use: they depend on PSI and formatter classes that are not part of this model. The logger call on an empty list is folded into the construction failure.
- `TextRange` is not part of this model; it is a pair of offsets, and nothing here assumes its start precedes its end except where a lemma requires it.
- `TokenSet` hash-table capacity and load factor: performance tuning without effect on membership. The Java hash set iterates in hash order, so `getTypes` promises no order; the model's sequence is kept in insertion order only as a representation.
- TokenSets.AddAll: its clause `s.elements <= r.elements` (old members keep their place) is a fact about the model's sequence, not about the Java hash set's iteration order.
- TokenSets.GetTypesRoundTrip: its clause `Create(GetTypes(s)) == s` is equality of the model's values; in Java the rebuilt set is a different object that is promised only the same members, which the clause before it states.
- Freshness and aliasing: `orSet` and `andSet` build new sets and the `SynteticCodeBlock` constructor copies its list; with immutable values this holds by construction and has no separate contract. `getSubBlocks` (SynteticCodeBlock.java:45-47) hands out that internal list itself, so a caller can change the sub-blocks after construction; `isIncomplete` would then follow the new last sub-block while the text range stays as computed, breaking `Valid`. The value model rules such mutation out.
- JdkUtil.QuoteArg: does not model the 32-bit overflow of `new StringBuilder(arg.length() * 2)` (JdkUtil.java:297); for an argument of 2^30 or more UTF-16 code units holding a special character the size is negative and Java throws `NegativeArraySizeException`, while the model returns the quoted text.
- Strings are sequences of Unicode characters, while Java strings are sequences of UTF-16 code units: positions and lengths here (`IndexOf`, `LastIndexOf`, `JavaAgentPath`'s index 11, the length bounds of `QuoteArg`) count characters, not code units, so a character outside the Basic Multilingual Plane counts once here and twice in Java. The extracted texts are the same; unpaired surrogates cannot be represented and are not modelled.
- `ArgFileReader` follows the documented reading rules, not the launcher's own code, which is not part of this repository; the `@` escape for options and nested argument files are not modelled.
