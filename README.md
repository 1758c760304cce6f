# LeetCode test-case helper, modelled in Dafny

The repository is a VS Code extension for practising LeetCode problems
locally. This project models its core:

- **Fetching examples** (`src/commands/fetchtestcases.ts`, `src/utils/leetcodeAPI.ts`).
  - The problem's slug is taken from the URL the user types.
  - Each `<pre>` block of the problem statement that holds an `Input:` line and an `Output:` line gives one example.
- **Saving them** (`src/utils/filehandler.ts`). Example `i` goes to `input_<i>.txt` and `output_<i>.txt` in a cleaned directory under the chosen folder.
- **Running a C++ solution** (`src/commands/runtestcases.ts`).
  - The first function signature is found in the user's code with the source's regular expression.
  - Its parameters are split into types and names.
  - A `main.cpp` harness is generated around the code: a decoder for each parameter type, helper functions chosen by the types, and the call.
- **Running a Python solution** (`dist/test_runner.py`).
  - The fixture files are listed and sorted.
  - Each input line is parsed with `parse_input`: text after `=`, then `ast.literal_eval`, then the quote/boolean/int/float fallbacks.
  - The solution is called and both sides are rendered with `convert_to_str`.
  - Passes are counted, and the process exits with the number of failures.

Modules:

| file | models |
|---|---|
| `wrappers.dfy` | `Option` and `Result` (an error carries its message) |
| `text.dfy` | JavaScript and Python string operations: character classes (JS `\s`, Python `isspace`, `\w`), `trim`/`strip`, `split`/`join`, the first-occurrence `replace`, decimal numerals |
| `signature.dfy` | the signature regular expression, stated declaratively (`ShapeAt`) and as a scanner, and the parameter split |
| `harness_gen.dfy` | the C++ snippets verbatim, type dispatch, argument passing, helper selection, the whole `main.cpp` text, `runTestCases` |
| `py_values.dfy` | Python values (None, booleans, integers, floats, strings, lists), `json.dumps` on them, and a decoder that reads every float-free rendering back |
| `name_order.dfy` | Python's `<` on `str` and `sorted` |
| `test_runner.dfy` | `read_input_file`, `parse_input`, `convert_to_str`, fixture listing, the run loop and the exit status |
| `file_handler.dfy` | `saveTestCases` as a class whose map of files is updated in place |
| `fetch_test_cases.dfy` | `extractTitleSlug` and `fetchTestCases` |
| `leetcode_api.dfy` | the `<pre>` scan |

Things the model takes as parameters:

- The file system is a map from locations to contents (`FixtureStore.files`, `Session.files`).
- The folder `getBaseUri` settles on is an `Option`.
- The page download is a function from slug to result.
- `ast.literal_eval` and `float` are oracle functions in an `Evaluator`.
- The solution is a function from arguments to an optional result; `None` means it raised an `Exception`.

## Model

| member | source | states |
|---|---|---|
| Signature.FirstLiteral | src/commands/runtestcases.ts:84 | the alternative tried first that occurs at a position: it occurs there and no earlier literal keyword (`int`…`bool`) does; or none of them occurs |
| Signature.KeywordEnd | src/commands/runtestcases.ts:84 | a keyword match at a position ends strictly after it and within the text |
| Signature.KeywordEndSound | src/commands/runtestcases.ts:84 | what the keyword scanner accepts is a literal keyword or `vector<\w+>` |
| Signature.KeywordEndComplete | src/commands/runtestcases.ts:84 | every keyword occurrence the pattern allows is the one the scanner finds (the alternatives never compete) |
| Signature.LiteralsDistinct | src/commands/runtestcases.ts:84 | the literal keywords differ in their first letter and none starts like `vector<` |
| Signature.LiteralKeywordEnd | src/commands/runtestcases.ts:84 | a literal keyword at a position is recognised with its own end |
| Signature.VectorKeywordEnd | src/commands/runtestcases.ts:84 | `vector<` + word characters + `>` is recognised up to its `>` |
| Signature.MatchAt | src/commands/runtestcases.ts:84 | a match found at a position starts there |
| Signature.MatchAtSound | src/commands/runtestcases.ts:84 | every match the scanner returns has the regular expression's shape (keyword, `\s+`, `\w+`, `\s*`, `(`, lazy body, `)`) |
| Signature.MatchAtComplete | src/commands/runtestcases.ts:84 | every occurrence of that shape at a position is exactly the match returned there (greedy runs, lazy body) |
| Signature.ShapeSpans | src/commands/runtestcases.ts:84 | in a match, the blanks, the name and the blanks before `(` are maximal runs |
| Signature.FindFrom | src/commands/runtestcases.ts:84 | the search returns the leftmost position where the scanner matches, or none exists |
| Signature.FindSignature | src/commands/runtestcases.ts:84 | `code.match` without the `g` flag; what it finds is stated by `Signature.FindSignatureLeftmost` and `Signature.FindSignatureNone` |
| Signature.FindSignatureLeftmost | src/commands/runtestcases.ts:84 | whenever the shape occurs, a match is found, at or before that occurrence |
| Signature.FindSignatureNone | src/commands/runtestcases.ts:84-85 | no match is found exactly when the shape occurs nowhere |
| Signature.ParseSignatureFails | src/commands/runtestcases.ts:84-87 | parsing fails, with "Could not find function signature in code", exactly when the shape occurs nowhere |
| Signature.ParseSignature | src/commands/runtestcases.ts:84-98 | the only failure is "Could not find function signature in code", and a parsed signature always has at least one parameter (the comma split never gives an empty list) |
| Signature.FunctionNameIsWord | src/commands/runtestcases.ts:84-90 | the function name is a non-empty run of word characters |
| Signature.KeywordHasNoSpace | src/commands/runtestcases.ts:84-89 | the matched keyword contains no space |
| Signature.ReturnTypeIsKeyword | src/commands/runtestcases.ts:89 | when a plain space follows the keyword, the return type is exactly the keyword |
| Signature.ParseParams | src/commands/runtestcases.ts:91-98 | one parameter per comma-separated piece of the body |
| Signature.ParamPieces | src/commands/runtestcases.ts:91 | the trimmed pieces are one per comma-separated piece |
| Signature.SynthesizedNamesDistinct | src/commands/runtestcases.ts:97 | the names `param<k>` differ for different `k` |
| Signature.EmptyParameterList | src/commands/runtestcases.ts:91-97 | an empty body still gives one parameter, of empty type, named `param0` |
| Signature.ParamOfDecl | src/commands/runtestcases.ts:94-97 | a declaration `type name` is read back as that type and name, with or without a leading space |
| Signature.DeclSplit | src/commands/runtestcases.ts:94-96 | a plain declaration splits on spaces into exactly its type and name |
| Signature.DeclPieces | src/commands/runtestcases.ts:91 | the comma split of joined declarations gives the declarations back after trimming |
| Signature.ParseParamsRoundTrip | src/commands/runtestcases.ts:91-98 | printing plain parameters as `type name, type name` and parsing gives the same parameters |
| HarnessGen.DeclarationListParse | src/commands/runtestcases.ts:84-98 | a declaration `kw name(T1 N1, …, Tn Nn)` with plain parameters parses to exactly `kw`, `name` and the parameters `T1 N1` … `Tn Nn`, in order |
| Signature.CanonicalShape | src/commands/runtestcases.ts:84 | `kw name(body)` has the pattern's shape with the expected groups |
| Signature.FindSignatureAtStart | src/commands/runtestcases.ts:84 | a shape at position 0 is the match found |
| Signature.CanonicalParse | src/commands/runtestcases.ts:84-98 | `kw name(body)` parses to return type `kw`, name `name` and the parameters of `body` |
| Signature.TwoSumExample | src/commands/runtestcases.ts:84-98 | `int twoSum(vector<int> nums, int target)` parses to `int`, `twoSum`, `[vector<int> nums, int target]` |
| Signature.TwoSumParams | src/commands/runtestcases.ts:91-98 | the two-sum body gives parameters `nums` of `vector<int>` and `target` of `int` |
| HarnessGen.SourceTemplatesShape | src/commands/runtestcases.ts:5-69 | the source's snippets have the shape the other properties rely on: every decoder ends in code, the tree and list decoders end by declaring `root` and `head`, and the vector helper is the longer helper |
| HarnessGen.SourceSnippetsEndInCode | src/commands/runtestcases.ts:5-67 | every decoder snippet and helper ends in code, not in a newline |
| HarnessGen.SourceDeclarations | src/commands/runtestcases.ts:35-50 | the tree snippet declares `root` and the list snippet declares `head` as their last statement |
| HarnessGen.MatrixBranchUnreachable | src/commands/runtestcases.ts:6-34 | the `vector<vector<int>>` decoder is never chosen: such a type contains `vector<int>`, so it gets the flat vector decoder |
| HarnessGen.ShortTypeIsNotStructured | src/commands/runtestcases.ts:6-50 | a type shorter than nine characters matches none of the containment tests |
| HarnessGen.Dispatch | src/commands/runtestcases.ts:5-69 | the if-chain of `generateInputReadingCode`; which branch each type takes is stated by `HarnessGen.MatrixBranchUnreachable`, `HarnessGen.ScalarsMatchedExactly` and `HarnessGen.UnsupportedPlaceholder` |
| HarnessGen.ScalarsMatchedExactly | src/commands/runtestcases.ts:51-68 | each scalar decoder is chosen exactly for its type names (`int`, `string`, `char`, `double`/`float`, `bool`); `int&` and `long` are unsupported |
| HarnessGen.UnsupportedPlaceholder | src/commands/runtestcases.ts:68 | the code is the "Unsupported type" comment exactly when no decoder applies |
| HarnessGen.InputReadingCode | src/commands/runtestcases.ts:5-69 | for an unsupported type the code is the "// Unsupported type: " comment and names the type |
| HarnessGen.ArgumentExpr | src/commands/runtestcases.ts:72-77 | the argument is the parameter's name, `root` or `head`; it differs from the name only for a type that is not a vector and mentions `TreeNode*` or `ListNode*` |
| HarnessGen.ArgumentIsDeclaredVariable | src/commands/runtestcases.ts:72-77 | an argument other than the parameter's name is `root` or `head`, and then the chosen decoder declares that variable |
| HarnessGen.NotVectorOf | src/commands/runtestcases.ts:73 | a type without `vector<` contains no `vector<…` |
| HarnessGen.VectorOfTreesPassesName | src/commands/runtestcases.ts:35-77 | `vector<TreeNode*>` gets the tree decoder (which declares `root`) yet passes its own name |
| HarnessGen.VectorHelperSelection | src/commands/runtestcases.ts:120-124 | `vectorToString` is emitted exactly when the return type or a parameter type mentions `vector<string>` or `vector<int>`, and twice when both are mentioned |
| HarnessGen.BoolHelperSelection | src/commands/runtestcases.ts:123 | `boolToString` ends the helpers exactly when the return type mentions `bool` |
| HarnessGen.HelperFunctions | src/commands/runtestcases.ts:120-124 | when no type mentions `vector<string>` or `vector<int>` and the return type does not mention `bool`, the helper block holds no helper, only its four newlines |
| HarnessGen.ArgumentsAreNames | src/commands/runtestcases.ts:127-132 | when every parameter type is a vector or mentions neither `TreeNode*` nor `ListNode*`, the arguments are the parameter names, in declaration order |
| HarnessGen.CallKeepsDeclarationOrder | src/commands/runtestcases.ts:84-177 | for a declaration `kw name(T1 N1, …, Tn Nn)` of plain parameters passed by name, generation succeeds and the harness calls `name(N1, …, Nn)`: parameter order is kept from the source text to the call |
| HarnessGen.MainText | src/commands/runtestcases.ts:135-210 | the harness text starts with the includes followed by the user's code verbatim |
| HarnessGen.GenerateMainFile | src/commands/runtestcases.ts:79-220 | the only failure is the not-found signature message, and a generated harness starts with the includes and the user's code |
| HarnessGen.RunTestCases | src/commands/runtestcases.ts:222-232 | `runTestCases` fails only with "Solution file not found: <path>" or the not-found signature message |
| HarnessGen.GenerateMainFileFails | src/commands/runtestcases.ts:84-87 | generation fails, with the signature message, exactly when the code has no signature |
| HarnessGen.MainFileContents | src/commands/runtestcases.ts:135-177 | the harness starts with the includes and the user's code, names `<testDir>/` and calls the function on the arguments in order |
| HarnessGen.RunTestCasesOutcome | src/commands/runtestcases.ts:222-232 | a missing solution file gives "Solution file not found: <path>"; otherwise failure exactly when no signature; success names `testCases/` |
| HarnessGen.TwoSumCall | src/commands/runtestcases.ts:84-177 | for two-sum the harness contains `twoSum(nums, target)` |
| PyValues.EscapeChar | dist/test_runner.py:53 | one character escaped as `json.dumps` does: printable ASCII, never a bare quote |
| PyValues.EscapeString | dist/test_runner.py:53 | an escaped string is printable ASCII |
| PyValues.Dumps | dist/test_runner.py:52-53 | `json.dumps` with default settings; what it means is stated by `PyValues.DumpsRoundTrip` below |
| PyValues.UnicodeEscapeRoundTrip | dist/test_runner.py:53 | a `\uXXXX` escape of a BMP character is read back as that character |
| PyValues.SurrogatePairRoundTrip | dist/test_runner.py:53 | a surrogate pair escape of a character beyond the BMP is read back as that character |
| PyValues.EscapeCharRoundTrip | dist/test_runner.py:53 | every escaped character is read back |
| PyValues.EscapeStringRoundTrip | dist/test_runner.py:53 | an escaped string followed by `"` is read back, the rest left over |
| PyValues.DigitsRoundTrip | dist/test_runner.py:53 | a decimal numeral is read back as its value |
| PyValues.IntRoundTrip | dist/test_runner.py:53 | an integer's rendering is read back as that integer |
| PyValues.StrRoundTrip | dist/test_runner.py:53 | a string's JSON rendering is read back as that string |
| PyValues.DumpsRoundTrip | dist/test_runner.py:52-53 | every float-free value's `json.dumps` text is read back as the same value: the rendering loses nothing |
| PyValues.ListRoundTrip | dist/test_runner.py:53 | a non-empty list is read back once its items are |
| PyValues.ElementsRoundTrip | dist/test_runner.py:53 | the items of a list from any index on are read back up to `]` |
| NameOrder.BelowIrreflexive | dist/test_runner.py:90-91 | no name is below itself |
| NameOrder.BelowTotal | dist/test_runner.py:90-91 | of two different names one is below the other |
| NameOrder.BelowTransitive | dist/test_runner.py:90-91 | the order is transitive |
| NameOrder.BelowAsymmetric | dist/test_runner.py:90-91 | the order is asymmetric |
| NameOrder.AtMostTransitive | dist/test_runner.py:90-91 | `<=` is transitive |
| NameOrder.AtMostAntisymmetric | dist/test_runner.py:90-91 | `<=` both ways means equal names |
| NameOrder.Insert | dist/test_runner.py:90-91 | insertion adds exactly the one name |
| NameOrder.Sorted | dist/test_runner.py:90-91 | sorting keeps exactly the names given (a permutation) |
| NameOrder.InsertAscending | dist/test_runner.py:90-91 | insertion into an ascending list keeps it ascending |
| NameOrder.SortedAscending | dist/test_runner.py:90-91 | `sorted` is ascending and a permutation |
| NameOrder.AscendingUnique | dist/test_runner.py:90-91 | there is one ascending arrangement of a collection of names |
| NameOrder.AscendingTail | dist/test_runner.py:90-91 | the tail of an ascending list is ascending |
| TestRunner.TranslateNewlines | dist/test_runner.py:14-15 | text-mode reading leaves no carriage return |
| TestRunner.TranslateCrlf | dist/test_runner.py:106-108 | in a file read in text mode a `\r\n` line break reads as `\n`, so an output file saved with Windows line breaks means what the same file saved with `\n` does |
| TestRunner.KeptLines | dist/test_runner.py:15 | at most as many lines are kept as were read |
| TestRunner.ReadInputFile | dist/test_runner.py:9-18 | the lines read are the file's non-blank lines, stripped |
| TestRunner.KeptLinesStripped | dist/test_runner.py:15 | every kept line is non-empty and already stripped |
| TestRunner.KeptLinesAppend | dist/test_runner.py:15 | the comprehension works line by line: kept lines of a concatenation are the concatenation of kept lines |
| TestRunner.KeptLine | dist/test_runner.py:15 | a line is kept, stripped, exactly when it is not blank |
| TestRunner.AfterEqualsField | dist/test_runner.py:25-26 | on `name=value`, what is evaluated is the stripped value |
| TestRunner.AfterEqualsIdempotent | dist/test_runner.py:25-26 | taking the text after `=` twice is taking it once |
| TestRunner.AfterEquals | dist/test_runner.py:25-26 | the text `parse_input` evaluates; its meaning is stated by `TestRunner.AfterEqualsField` and `TestRunner.AfterEqualsIdempotent` |
| TestRunner.DropUnderscores | dist/test_runner.py:41 | removing `_` from an underscored numeral leaves only digits |
| TestRunner.NoUnderscores | dist/test_runner.py:41 | a plain run of digits is a valid `int` literal body |
| TestRunner.SignedIntPlain | dist/test_runner.py:41 | `int` of a digit run is its decimal value |
| TestRunner.SignedIntNegative | dist/test_runner.py:41 | `int` of `-` and a digit run is the negated value |
| TestRunner.PyIntOfUnpadded | dist/test_runner.py:41 | on text without surrounding blanks `int` reads the signed numeral directly |
| TestRunner.PyIntOf | dist/test_runner.py:40-41 | blank text is not an integer, and only a leading `-` gives a negative one |
| TestRunner.PyIntOfPlain | dist/test_runner.py:41 | `int` reads a digit run as its decimal value |
| TestRunner.PyIntOfNegative | dist/test_runner.py:41 | `int` reads `-digits` as the negated value |
| TestRunner.PyIntOfRoundTrip | dist/test_runner.py:41 | `int(str(i)) == i` for every integer |
| TestRunner.PyIntOfNatRoundTrip | dist/test_runner.py:41 | `int` reads back every natural number's numeral |
| TestRunner.PyIntOfNegativeRoundTrip | dist/test_runner.py:41 | `int` reads back every negated numeral |
| TestRunner.DropUnderscoresNone | dist/test_runner.py:41 | a numeral without underscores is left as it is |
| TestRunner.FallbackReadsInt | dist/test_runner.py:33-41 | when quotes are absent at the ends and `int` succeeds, the fallback gives that integer |
| TestRunner.FallbackInteger | dist/test_runner.py:33-41 | the fallback reads every integer's numeral as that integer |
| TestRunner.StripQuotes | dist/test_runner.py:33 | stripping quotes removes exactly the enclosing quote pair |
| TestRunner.Fallback | dist/test_runner.py:31-46 | the fallback never gives `None` or a list; when it gives a string, that is the text with its enclosing quotes stripped |
| TestRunner.ParseInput | dist/test_runner.py:20-46 | `parse_input` raises exactly when `ast.literal_eval` raises something other than `SyntaxError` or `ValueError` |
| TestRunner.FallbackBoolean | dist/test_runner.py:33-37 | `true`/`false` in any letter case, quoted or not, become booleans |
| TestRunner.ParseInputField | dist/test_runner.py:25-30 | `name=value` yields what `literal_eval` gives for the stripped value |
| TestRunner.ConvertToStrIsJson | dist/test_runner.py:52-55 | lists, booleans and integers render as their JSON text |
| TestRunner.ConvertToStrLead | dist/test_runner.py:48-58 | a rendering is non-empty; it starts with `"` exactly for strings and with `N` exactly for `None` |
| TestRunner.ConvertToStr | dist/test_runner.py:48-58 | `convert_to_str`; its meaning is stated by `TestRunner.ConvertToStrIsJson`, `TestRunner.ConvertToStrLead` and `TestRunner.ConvertToStrInjective` |
| TestRunner.ConvertToStrInjective | dist/test_runner.py:48-58 | two float-free values render alike exactly when they are equal as model values; a boolean never equals an integer here, unlike Python's `True == 1` |
| TestRunner.Select | dist/test_runner.py:90-91 | the names kept are the listing's names with the prefix and the `.txt` suffix |
| TestRunner.FixturesSorted | dist/test_runner.py:90-91 | the fixture list is ascending, a permutation of the selected names, and holds exactly the matching names |
| TestRunner.TenthBeforeSecond | dist/test_runner.py:90 | `input_10.txt` sorts before `input_2.txt`, so cases run in text order, not number order |
| TestRunner.BelowAfterCommonPrefix | dist/test_runner.py:90 | a common prefix does not change the order |
| TestRunner.ParseAll | dist/test_runner.py:103 | the comprehension succeeds exactly when every line parses without raising, and then item `k` is line `k`'s parse |
| TestRunner.CaseOutcome | dist/test_runner.py:97-140 | a case that reaches a verdict had its input and output files both present |
| TestRunner.Judge | dist/test_runner.py:110-140 | a case is an error exactly when the solution raised an `Exception`; a comparison never gives an error |
| TestRunner.CountPassed | dist/test_runner.py:130-132 | the passes are at most the cases |
| TestRunner.Tally | dist/test_runner.py:97-140 | a run that did not end has one verdict per case |
| TestRunner.TallyEnded | dist/test_runner.py:97-140 | after the run ended, later cases change nothing |
| TestRunner.TallyPointwise | dist/test_runner.py:97-140 | in a completed run each verdict is its case's |
| TestRunner.TallyStopsAt | dist/test_runner.py:97-108 | a case that raises outside the `try` ends the run before its verdict |
| TestRunner.RunReport | dist/test_runner.py:93-144 | a completed report counts every input file, and its passes are at most its cases |
| TestRunner.ExitCode | dist/test_runner.py:144 | the status passed to `sys.exit` is 0 only for a completed run, and then exactly when every case passed |
| TestRunner.RunTestCases | dist/test_runner.py:93-144 | the loop's report is the specification's, and a completed run's status is the number of failures |
| TestRunner.CompletedRun | dist/test_runner.py:93-144 | a completed run has one verdict per input file, each its case's, and counts the passes |
| TestRunner.MissingOutputAborts | dist/test_runner.py:98-99 | fewer output files than input files ends the run before the missing case |
| TestRunner.PassesIffEqual | dist/test_runner.py:127-132 | a case passes exactly when the result equals the expected value as model values: a result `True` fails against an expected `1` although Python's `True == 1` holds, because `true` and `1` render differently |
| TestRunner.TrueIsNotOne | dist/test_runner.py:127-136 | a solution returning `True` fails a case expecting `1`, with expected `1` and got `true`, although Python's `True == 1` holds |
| TestRunner.RaisingSolutionErrs | dist/test_runner.py:110-140 | if a run completes, then with a solution that raises on case `i` and agrees on every other case the run still completes, case `i` is an error, and every other case keeps its verdict |
| TestRunner.RaisingCaseErrs | dist/test_runner.py:110-140 | a case whose arguments make the solution raise is an error, if it reaches a verdict |
| TestRunner.SolveKeepsReach | dist/test_runner.py:97-140 | whether a case reaches a verdict does not depend on the solution: every `Exception` that ends the run is raised before the `try` |
| TestRunner.SameResultSameOutcome | dist/test_runner.py:110-136 | a case's verdict depends on the solution only through its result on that case's arguments |
| TestRunner.TallyCompletes | dist/test_runner.py:97-140 | a run of cases that all reach a verdict does not end early |
| TestRunner.AllVerdictsComplete | dist/test_runner.py:93-144 | when every case reaches a verdict the run completes, the converse of `TestRunner.CompletedRun` |
| TestRunner.StatusWrapsAround | dist/test_runner.py:144 | 256 failures give the process status 0 |
| TestRunner.ProcessStatus | dist/test_runner.py:144 | the status a POSIX parent sees lies in 0..255 |
| TestRunner.CorrectedStatus | dist/test_runner.py:144 | the corrected status is a valid process status |
| TestRunner.CorrectedStatusFlagsFailures | dist/test_runner.py:144 | the corrected status is 0 exactly when every case of a completed run passed |
| FileHandler.CleanDirectoryExact | src/utils/filehandler.ts:66 | cleaning removes exactly the outer runs of `/` |
| FileHandler.CleanDirectoryIdempotent | src/utils/filehandler.ts:66 | cleaning twice is cleaning once |
| FileHandler.CleanDirectoryBare | src/utils/filehandler.ts:66 | a cleaned directory neither starts nor ends with `/` |
| FileHandler.CleanDirectory | src/utils/filehandler.ts:66 | the cleaned directory is no longer than the given one, and a directory made only of `/` cleans to the empty name |
| FileHandler.FixtureNamesDistinct | src/utils/filehandler.ts:74-75 | input and output names never clash, and each determines its case number |
| FileHandler.InputName | src/utils/filehandler.ts:74 | `input_<k>.txt`; its properties are stated by `FileHandler.FixtureNamesDistinct` |
| FileHandler.OutputName | src/utils/filehandler.ts:75 | `output_<k>.txt`; its properties are stated by `FileHandler.FixtureNamesDistinct` |
| FileHandler.WrittenContents | src/utils/filehandler.ts:72-88 | case `k` can be read back from its two files with exactly its text |
| FileHandler.WrittenElsewhere | src/utils/filehandler.ts:72-88 | every other file keeps what it held |
| FileHandler.WrittenKeys | src/utils/filehandler.ts:72-88 | the files after the writes are the old ones plus the fixture pairs 1 to `n` |
| FileHandler.FixtureLocationsCount | src/utils/filehandler.ts:74-75 | `n` cases make `2n` distinct files |
| FileHandler.LaterNotEarlier | src/utils/filehandler.ts:74-75 | a later case's files are not an earlier case's |
| FileHandler.Written | src/utils/filehandler.ts:72-88 | the files after the writes; what they hold is stated by `FileHandler.WrittenContents`, `FileHandler.WrittenElsewhere` and `FileHandler.WrittenKeys` |
| FileHandler.FixtureStore.SaveTestCases | src/utils/filehandler.ts:56-100 | an empty list fails with "No valid test cases provided"; a missing folder fails with the prefixed message; otherwise all cases are written and their count returned |
| FetchTestCases.SlugAtMatches | src/commands/fetchtestcases.ts:11 | the slug read at a position is a group of the regular expression matching there, and conversely |
| FetchTestCases.FirstSlugWitness | src/commands/fetchtestcases.ts:11 | the search stops at the leftmost matching position |
| FetchTestCases.FirstSlugAt | src/commands/fetchtestcases.ts:11 | the first matching position's slug is the one found |
| FetchTestCases.FirstSlugNone | src/commands/fetchtestcases.ts:11 | nothing is found exactly when no position matches |
| FetchTestCases.SlugAt | src/commands/fetchtestcases.ts:11 | a slug read at a position is non-empty and has no `/` |
| FetchTestCases.FirstSlug | src/commands/fetchtestcases.ts:11 | the scan for the leftmost match; stated by `FetchTestCases.FirstSlugWitness`, `FetchTestCases.FirstSlugAt` and `FetchTestCases.FirstSlugNone` |
| FetchTestCases.ExtractTitleSlugLeftmost | src/commands/fetchtestcases.ts:9-16 | the slug returned is the group of the leftmost match, and that group is always returned |
| FetchTestCases.ExtractTitleSlugRejects | src/commands/fetchtestcases.ts:11-22 | the URL is rejected with "Invalid URL format…" exactly when there is no match |
| FetchTestCases.ExtractTitleSlug | src/commands/fetchtestcases.ts:10-23 | the only error is "Invalid URL format…" |
| FetchTestCases.SlugShape | src/commands/fetchtestcases.ts:11-13 | a slug is non-empty, has no `/`, and stands between `problems/` and `/` |
| FetchTestCases.NoMatchInHost | src/commands/fetchtestcases.ts:11 | no match starts inside `https://leetcode.com/` |
| FetchTestCases.ProblemUrlSlug | src/commands/fetchtestcases.ts:11-13 | `https://leetcode.com/problems/<slug>/…` yields the slug |
| FetchTestCases.TwoSumUrl | src/extension.ts:25 | the placeholder URL yields `two-sum` |
| FetchTestCases.MissingClosingSlash | src/commands/fetchtestcases.ts:11-15 | a URL without the `/` after the slug is rejected |
| FetchTestCases.TestCasesDirectoryClean | src/commands/fetchtestcases.ts:36 | the directory `testCases/` cleans to `testCases` |
| FetchTestCases.FetchTestCases | src/commands/fetchtestcases.ts:30-46 | every error is swallowed; files change only for a valid URL, fetched cases and a folder, and then as the save writes them |
| LeetCodeApi.ExtractExamples | src/utils/leetcodeAPI.ts:17-27 | the loop collects the examples of the blocks in block order, at most one per block |
| LeetCodeApi.FindLineIndex | src/utils/leetcodeAPI.ts:20-21 | the line found is the first that starts with the marker |
| LeetCodeApi.FindLineAt | src/utils/leetcodeAPI.ts:20-21 | the first line starting with the marker is the one found |
| LeetCodeApi.FindLineNone | src/utils/leetcodeAPI.ts:20-21 | nothing is found exactly when no line starts with the marker |
| LeetCodeApi.FindLine | src/utils/leetcodeAPI.ts:20-21 | a line found is one of the block's lines and starts with the marker |
| LeetCodeApi.StripMarker | src/utils/leetcodeAPI.ts:23-24 | `replace(marker, '').trim()`; stated by `LeetCodeApi.StripLeadingMarker` |
| LeetCodeApi.BlockExample | src/utils/leetcodeAPI.ts:19-25 | one `<pre>` block's example, its text split on `\n`; stated by `LeetCodeApi.OneBlock` and `LeetCodeApi.TypicalBlock` |
| LeetCodeApi.StripLeadingMarker | src/utils/leetcodeAPI.ts:23-24 | on a line starting with the marker, `replace` removes that leading marker |
| LeetCodeApi.ExampleNeedsBoth | src/utils/leetcodeAPI.ts:20-22 | a block gives an example exactly when it has both an `Input:` and an `Output:` line |
| LeetCodeApi.ExampleFromFirstLines | src/utils/leetcodeAPI.ts:19-25 | the example is the first such lines without their markers, trimmed |
| LeetCodeApi.TypicalBlock | src/utils/leetcodeAPI.ts:19-25 | `Input: a` / `Output: b` / anything gives the example (a, b) trimmed |
| LeetCodeApi.IndentedInputIgnored | src/utils/leetcodeAPI.ts:20 | a marker after leading whitespace is not seen |
| LeetCodeApi.ExamplesAppend | src/utils/leetcodeAPI.ts:18-27 | examples keep block order across concatenation |
| LeetCodeApi.OneBlock | src/utils/leetcodeAPI.ts:18-25 | one block gives its own example or none |
| LeetCodeApi.LinesExample | src/utils/leetcodeAPI.ts:19-25 | the example of one block's lines; what it means is stated by `LeetCodeApi.ExampleNeedsBoth` and `LeetCodeApi.ExampleFromFirstLines` |
| LeetCodeApi.ExamplesOf | src/utils/leetcodeAPI.ts:18-27 | the blocks give at most one example each |
| Text.Trim | dist/test_runner.py:15 | the trimmed text is the middle of the input, with only the given class removed at both ends |
| Text.TrimIdempotent | dist/test_runner.py:15 | trimming twice is trimming once |
| Text.JoinSplit | src/commands/runtestcases.ts:91 | joining the split pieces gives the text back |
| Text.SplitJoin | src/commands/runtestcases.ts:91 | splitting joined separator-free pieces gives the pieces back |
| Text.ReplaceFirstAt | src/utils/leetcodeAPI.ts:23-24 | `replace` with a string pattern changes only the first occurrence |
| Text.DecimalRoundTrip | dist/test_runner.py:41 | a natural number's numeral reads back as the number |

## Left out

- File and network I/O: reading, listing and writing files, the HTTP fetch, and `ensureDirectoryExists`. Files are a map; the fetch is a function parameter.
- A missing test directory: `os.listdir` raises at `dist/test_runner.py:90` and the process exits with status 1. A `Session` always carries a listing, so the model has no such run.
- Paths are not normalised: `vscode.Uri.joinPath` folds `//`, `.` and `..`, while a `Location` keeps the directory text as given, so `a//b` and `a/b` are different keys. The extension only passes `testCases/`, which holds none of these.
- Strings are sequences of Unicode scalar values, so a Python `str` or a JavaScript string holding a lone surrogate (which `ast.literal_eval` can produce and `json.dumps` writes as `\udXXX`) cannot be represented.
- `getBaseUri`: the workspace folder, active editor and folder dialog are reduced to the `Option` they settle on.
- File-system errors inside `saveTestCases` beyond the missing folder are not modelled.
- `Promise.all` in `saveTestCases`: the writes are modelled one after another. They touch distinct files, so the final map does not depend on order.
- Console output, information and error messages: a success is modelled by the count of saved cases, a failure by its message.
- `getTestCases` in `src/utils/leetcodeAPI.ts` is not syntactically valid TypeScript: its body stands outside the function. The per-block loop is modelled, the download and the DOM parsing are not, and `fetchTestCases` gets its cases from a parameter.
- `textContent` being null is not modelled; blocks are taken as text.
- `Array.isArray` is not modelled: sequences are always arrays.
- `ast.literal_eval` and `float()` are oracles in `Evaluator`. Python's grammar of literals and float parsing is not modelled.
- Unicode digits accepted by `int()` are not modelled; only ASCII digits, `_`, signs and surrounding whitespace are.
- `int()`'s 4300-digit limit is not modelled, on either side: `int()` of a longer numeral raises `ValueError` (the fallback then tries `float`), and `str()` of such an integer raises inside `convert_to_str`'s `try`, which gives an Error verdict where `TestRunner.ConvertToStr` renders the number.
- `PyValues.DumpsRoundTrip`: requires a float-free value, because float values are left out.
- `TestRunner.ConvertToStrInjective`: requires float-free values, because float values are left out of the decoder. It also holds only because `PyValue` has no tuple, dict, set, bytes or complex values, which `ast.literal_eval` and a solution can produce: `json.dumps` writes a tuple as an array, so `[(1, 2)]` renders like `[[1, 2]]`.
- `TestRunner.PassesIffEqual`: holds only over `PyValue`, which has no tuple, dict, set, bytes or complex values. In Python a list of tuples passes against the equal-looking list of lists although the two values differ, and a list holding a set makes `json.dumps` raise, which gives an Error verdict that the model cannot produce.
- TestRunner.SolveKeepsReach, TestRunner.RaisingSolutionErrs, TestRunner.ExitCode: the solution raises only `Exception` subclasses. A `BaseException` outside `Exception`, such as `SystemExit` from `exit()` or `sys.exit(...)` or `KeyboardInterrupt`, escapes the `except Exception` at `dist/test_runner.py:138` and ends the run mid-loop with its own status (0 for a bare `exit()`), so no summary is printed and later cases never run. The model's solution cannot exit, so these lemmas and `ExitCode` say nothing about such a run.
- Dynamic import of the solution module, finding the `Solution` class or function, and calling it: the solution is a function from arguments to an optional result, where `None` stands for an `Exception`.
- The generated C++ program's behaviour (compiling it, running it, its stream reads) is not modelled. Only the text of `main.cpp` is.
- The C++ snippet texts are a `Templates` parameter. `HarnessGen.SourceTemplates` holds the source's exact text.
- `extractTitleSlug`'s console messages are not modelled; the error it rethrows is the `Err` value.
- `src/utils/createCodeFile.ts`, `src/utils/execution.ts` and the command wiring in `src/extension.ts` are not part of this model.

## Findings

| source | as written | input that shows it | evidently intended | confidence | as-written member | corrected member |
|---|---|---|---|---|---|---|
| dist/test_runner.py:144 | `sys.exit(total_tests - passed_tests)` passes the failure count as the status; the process status keeps only its low eight bits | a completed run with 256 failing cases exits with status 0, the same as a fully passing run | a non-zero status whenever a case fails | not executed | TestRunner.StatusWrapsAround | TestRunner.CorrectedStatusFlagsFailures |
