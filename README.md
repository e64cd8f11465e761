# Code editor analyzer and problem solvers, in Dafny

This project models the static analyzer of a browser-based coding-practice
app, together with the reference solvers its problem set uses.

Each time the user stops typing, the editor parses the program with acorn
and then runs three analyses:

- **Undeclared variables.** `findUndeclaredVars` walks the syntax tree with a
  stack of scope frames. It reports each identifier in a reference position
  whose name is neither a known global nor in an open frame, and keeps the
  first report per name.
- **Missing semicolons.** `findMissingSemicolons` reports expression
  statements, declarations and returns whose source text ends in neither
  `;` nor `}`.
- **Other lint rules.** `findAdditionalLintIssues` reports `var`, `==`/`!=`,
  `console.*` and unused bindings, with one warning per message and line.

The debounced step in `handleInput` then shows one of two things: an
"Undeclared Variable" error that lists the first six names, or the warnings.
A parse failure is shown as the parser's own error.

The problem set computes each expected answer with a small solver: two-sum,
palindrome number, fizzbuzz, reverse string, unique sorted, valid
parentheses, binary search, maximum subarray, longest common prefix,
container with most water, rotate array, move zeroes, power of two, group
anagrams and top-k frequent. `shuffle` reorders arrays from a seeded
generator. The archived `deepEqual` helper compares answers structurally.

## Layout

- `wrappers.dfy`: `Option`, plus the keep-first de-duplication (`DedupBy`)
  that the three analyses and two solvers share, and its properties.
- `decimal.dfy`: `String(n)` for non-negative integers, and its inverse.
- `ast.dfy`: the ESTree nodes the analyzer distinguishes. It also gives the
  children in `Object.keys` order, and the pre-order visit sequence of a
  walk.
- `patterns.dfy`: `collectPatternNames`.
- `scope_resolver.dfy`: `findUndeclaredVars`, built in three layers:
  - `Walked` is the walk as a function of the frame stack.
  - `Resolve` is an independent scope semantics over a set of visible names.
    `WalkedIsResolve` proves the two equal.
  - `UndeclaredFinder` is the walk over mutable fields, proved against
    `Walked`.
- `resolver_scenarios.dfy`: small programs whose outcome is proved for every
  identifier name: shadowing, block scoping, no hoisting.
- `text.dfy`: `slice` and `trimRight`.
- `semicolons.dfy`: `findMissingSemicolons`.
- `lint.dfy`: `findAdditionalLintIssues`. The class `Linter` holds the
  `declared`/`refs`/`warnings` state, and one lemma per rule states exactly
  when it fires.
- `diagnostics.dfy`: the decision in the debounced step of `handleInput`.
- `string_solvers.dfy`, `array_solvers.dfy`, `power_of_two.dfy` and
  `grouping_solvers.dfy`: the solvers and `shuffle`.
- `deep_equal.dfy`: `deepEqual`.

## Scoping behaviour of the source

- **Top-level scope.** Only `BlockStatement` pushes a frame (js/app.js:156-160).
  `Program` pushes none, so top-level declarations go into the bottom frame
  that the walk starts with (js/app.js:120-122).
- **Function bodies.** A function's parameters are declared in a frame of
  their own, and its body is then walked as an ordinary block
  (js/app.js:168, 176). The body therefore pushes a second frame, inside the
  parameters' frame.
- **Class bodies.** A class declaration's `body` is walked (js/app.js:191);
  its `superClass` is not.
- **Default values in patterns.** The resolver walks a declarator's `init`
  only, and a function's `body` only. Defaults inside `id` or inside
  parameters are never checked for undeclared names.
- **Globals.** The allow-list of globals is the fixed `GLOBALS` set
  (js/app.js:116-118).
- **Semicolon warnings.** These come from a separate pass and are placed
  before the other lint warnings (js/app.js:93-95). The message-and-line
  de-duplication applies only to the other lint warnings.

## Model

| member | source | states |
|---|---|---|
| KeepFirst.DedupKeys | js/app.js:238-251 | keep-first de-duplication keeps exactly the keys that occur in the input: none lost, none invented |
| KeepFirst.DedupFirst | js/app.js:241-248 | every kept element is the first element of the input with its key |
| KeepFirst.DedupOrdered | js/app.js:241-248 | kept elements have pairwise distinct keys and appear in the order of their first occurrence |
| KeepFirst.DedupDistinct | js/app.js:379-385 | no two kept elements share a key |
| KeepFirst.DedupSubset | js/app.js:379-385 | every kept element comes from the input |
| KeepFirst.DedupInjective | js/app.js:379-385 | when different elements never share a key, de-duplication loses no element |
| Decimal.ParseRendered | js/app.js:90 | `String(n)` of a non-negative integer is a canonical numeral that parses back to `n` |
| Decimal.RenderParsed | js/app.js:90 | parsing a canonical numeral and rendering it again gives the same text |
| Decimal.RenderInjective | js/app.js:90 | distinct numbers render to distinct texts |
| Patterns.CollectPatternNames | js/app.js:135-149 | appends to `res` exactly the names the pattern binds, left to right with repeats; a node that is not a pattern adds nothing |
| Patterns.CollectNames | js/app.js:135-137 | a `null` pattern gives an empty list; otherwise the pattern's names |
| Patterns.PatternNamesAreIdentifiers | js/app.js:138-147 | every collected name is the name of an identifier node that a walk of the pattern visits |
| ScopeResolver.Push | js/app.js:125 | `pushScope` adds one empty frame on top and changes nothing else |
| ScopeResolver.Pop | js/app.js:126 | `popScope` drops exactly the top frame; an empty stack stays empty |
| ScopeResolver.Bind | js/app.js:127 | `declare` adds the name to the top frame and to no other frame |
| ScopeResolver.BindAll | js/app.js:167 | declaring a list of names grows the top frame by exactly those names |
| ScopeResolver.PushedFrameDiscarded | js/app.js:166-169 | names declared into a pushed frame are gone after the pop, and reports survive |
| ScopeResolver.Walked | js/app.js:152-234 | the walk keeps the stack depth, leaves the frames below the top untouched, only adds names to the top frame, and only appends reports, none of them naming a global |
| ScopeResolver.FlattenMembers | js/app.js:128-132 | a name is visible exactly when some frame holds it |
| ScopeResolver.WalkedIsResolve | js/app.js:152-234 | the stack-based walk from any stack equals the set-based scope semantics `Resolve`, started from the names visible in that stack |
| ScopeResolver.ResolveFree | js/app.js:218-222 | every name the resolver reports is neither a global nor visible when the walk starts |
| ScopeResolver.WalkedReportsFree | js/app.js:218-222 | no report of a walk names something declared in a frame open at its start |
| ScopeResolver.UndeclaredFinder.constructor | js/app.js:120-122 | the stack starts as one empty frame and the report list is empty |
| ScopeResolver.UndeclaredFinder.PushScope | js/app.js:125 | the field state becomes `Push` of the old state |
| ScopeResolver.UndeclaredFinder.PopScope | js/app.js:126 | the field state becomes `Pop` of the old state |
| ScopeResolver.UndeclaredFinder.Declare | js/app.js:127 | the field state becomes `Bind` of the old state |
| ScopeResolver.UndeclaredFinder.DeclareNames | js/app.js:183 | `names.forEach(declare)` leaves `BindAll` of the old state |
| ScopeResolver.UndeclaredFinder.DeclareParams | js/app.js:167 | declares every parameter's pattern names, in order |
| ScopeResolver.UndeclaredFinder.IsDeclared | js/app.js:128-132 | answers true exactly for a global or a name in some frame |
| ScopeResolver.UndeclaredFinder.Walk | js/app.js:152-234 | the fields end as `Walked` of their old values |
| ScopeResolver.UndeclaredFinder.WalkBlock | js/app.js:156-161 | a block's statements are walked in a frame of their own, and that frame is popped afterwards |
| ScopeResolver.UndeclaredFinder.WalkFunctionDecl | js/app.js:163-170 | the function name goes into the enclosing frame, and the parameters go into a new frame around the body |
| ScopeResolver.UndeclaredFinder.WalkFrame | js/app.js:172-178 | function expressions, arrows and catch clauses (js/app.js:194-199) bind their parameters in a new frame around the body |
| ScopeResolver.UndeclaredFinder.WalkDeclarations | js/app.js:180-187 | for each declarator, its names are declared before its initializer is walked |
| ScopeResolver.UndeclaredFinder.WalkClassDecl | js/app.js:189-192 | the class name is declared, then the class body is walked; the superclass is never walked |
| ScopeResolver.UndeclaredFinder.WalkDefault | js/app.js:201-233 | an identifier in a reference position is checked, then every child is walked |
| ScopeResolver.UndeclaredFinder.WalkChildren | js/app.js:228-233 | the children are walked in key order, each with the node as parent |
| ScopeResolver.KeepFirstPerName | js/app.js:238-251 | the final loop keeps the first report of each name, skipping empty names and globals |
| ScopeResolver.AllFindingsResolve | js/app.js:122 | the walk from one empty frame reports what `Resolve` reports with nothing visible |
| ScopeResolver.GlobalsFilterIdle | js/app.js:243 | the walk never reports a global, so the final `GLOBALS` test never drops anything |
| ScopeResolver.UndeclaredSpec | js/app.js:238-251 | each result entry is a walk report with a non-empty, non-global name; names are distinct; every reported name appears; each entry is that name's first report; entries are in first-report order |
| ScopeResolver.FindUndeclaredVars | js/app.js:114-252 | returns `Undeclared(ast)`, whose meaning `UndeclaredSpec` and `AllFindingsResolve` state |
| ResolverScenarios.KeepOne | js/app.js:238-251 | a program with one reportable report returns exactly that report |
| ResolverScenarios.ReferenceLeaf | js/app.js:203-223 | an identifier in a reference position is reported, at its start line, exactly when its name is neither global nor visible |
| ResolverScenarios.LeafSilent | js/app.js:228-233 | a leaf that is not an identifier reports and binds nothing |
| ResolverScenarios.OnlyChild | js/app.js:228-233 | a generic node with one child reports what that child reports |
| ResolverScenarios.TwoStatements | js/app.js:156-159 | the second top-level statement sees the first statement's bindings |
| ResolverScenarios.OneDeclarator | js/app.js:180-187 | `x = init` walks `init` with `x` already visible |
| ResolverScenarios.SelfInitializer | js/app.js:180-187 | `let x = x;` reports nothing (no temporal dead zone) |
| ResolverScenarios.InnerBlockSilent | js/app.js:156-161 | `{ let y = 1; }` reports nothing and binds nothing outside itself |
| ResolverScenarios.LaterUseReports | js/app.js:218-222 | `y;` with nothing visible reports `y` at its line |
| ResolverScenarios.BlockScoped | js/app.js:156-161 | a use of `y` after the block that declared it is reported |
| ResolverScenarios.EarlyCallReports | js/app.js:218-222 | `f();` with nothing visible reports `f` |
| ResolverScenarios.EmptyFunctionSilent | js/app.js:163-170 | an empty function declaration reports nothing |
| ResolverScenarios.NoHoisting | js/app.js:163-170 | a call placed before the function's declaration is reported (no hoisting) |
| Text.TrimRightSpec | js/app.js:260 | `trimRight` removes a suffix consisting only of white space and leaves no trailing white space |
| Text.TrimRightUnique | js/app.js:260 | any prefix with those two properties is the trimmed string |
| Text.TrimRightIdempotent | js/app.js:260 | trimming twice is trimming once |
| Text.TrimRightSpace | js/app.js:260 | appended white space makes no difference |
| Text.Slice | js/app.js:260 | `slice` with non-negative offsets: `s[start..end]` when both are within the string, the rest of the string from `start` when only `end` is past its end, and empty when `start` is past the end or the range is reversed |
| Semicolons.Flag | js/app.js:259-267 | a node gives a report exactly when it is an expression statement, declaration or return whose trimmed text is non-empty and ends in neither `;` nor `}`; the report gives the type's message and the end line |
| Semicolons.MissingInVisits | js/app.js:256-277 | the recursive walk reports exactly what flagging every visit of a pre-order traversal reports, in that order |
| Semicolons.FlagAllMembers | js/app.js:259-274 | a warning is in the list exactly when some visited node of a checked type is unterminated and ends on that line with that message |
| Semicolons.TerminatedNotFlagged | js/app.js:260-262 | a statement whose text ends in `;` followed by white space is never reported |
| Semicolons.SemicolonChecker.constructor | js/app.js:255 | the issue list starts empty |
| Semicolons.SemicolonChecker.Walk | js/app.js:256-275 | appends exactly the reports of the walk from the node |
| Semicolons.SemicolonChecker.CheckNode | js/app.js:259-268 | appends exactly the node's own report, if it has one |
| Semicolons.SemicolonChecker.WalkChildren | js/app.js:270-274 | appends the reports of the children's walks, in key order |
| Semicolons.FindMissingSemicolons | js/app.js:254-279 | returns the walk's reports, which `FlagAllMembers` characterises |
| Lint.StepsValid | js/app.js:286 | the walk keeps the insertion order of `declared` as a repeat-free list of its keys |
| Lint.Linter.constructor | js/app.js:283-287 | starts with no warnings, no declarations and no references |
| Lint.Linter.Declare | js/app.js:308 | `addDecl` records or replaces the name's `{kind, line}`; a new name joins the end of the insertion order |
| Lint.Linter.DeclareAll | js/app.js:323 | records each listed name in turn |
| Lint.Linter.Reference | js/app.js:307 | `addRef` adds one to a non-empty name's count |
| Lint.Linter.DeclareDeclarators | js/app.js:320-324 | records every declarator's pattern names, with the declaration's kind and start line |
| Lint.Linter.DeclareParams | js/app.js:328-330 | records every parameter's pattern names, with kind `param` |
| Lint.Linter.Visit | js/app.js:312-358 | one visit pushes the rule warnings, records declarations and counts a reference |
| Lint.Linter.Walk | js/app.js:311-366 | the state ends as the visits of a pre-order traversal, applied one after the other |
| Lint.Linter.WalkChildren | js/app.js:361-365 | the children are walked in key order, each with the node as parent |
| Lint.Linter.ReportUnused | js/app.js:370-376 | appends the unused-variable warnings, in the insertion order of `declared`, and changes nothing else |
| Lint.DedupWarnings | js/app.js:378-385 | keeps the first warning for each `message@@line` key |
| Lint.FindAdditionalLintIssues | js/app.js:282-386 | returns `LintWarnings(ast)`, which the rule lemmas characterise |
| Lint.LastDecl | js/app.js:308 | gives the `{kind, line}` of the last visit that declares the name; none exists exactly when no visit declares it |
| Lint.RefsZero | js/app.js:372 | the reference count is zero exactly when no visit counts the name |
| Lint.StepsWarnings | js/app.js:315-339 | the walk pushes exactly the rule warnings of its visits, in order |
| Lint.StepsRefs | js/app.js:341-358 | the walk counts, for each name, exactly the visits that reference it |
| Lint.StepsDecls | js/app.js:314-330 | a name is recorded exactly when some visit declares it, with the `{kind, line}` of the last such visit |
| Lint.RuleWarningsMembers | js/app.js:317-339 | a rule warning is pushed exactly when some visited node produces it |
| Lint.UnusedFromMembers | js/app.js:371-376 | an unused warning for a recorded name is pushed exactly when the name has no reference and no leading `_`, at its recorded line |
| Lint.UnusedFromShape | js/app.js:371-376 | the final pass pushes only unused-variable warnings for recorded names |
| Lint.MessagesDistinct | js/app.js:318 | the `var`, `==`, `console` (js/app.js:334, 338) and unused (js/app.js:374) messages never coincide |
| Lint.WarningKeyInjective | js/app.js:382 | two warnings whose messages contain no `@` have equal keys only when they are equal |
| Lint.RawAtFree | js/app.js:382 | when no recorded name has an `@`, no produced message has one either |
| Lint.LintWarningsMembers | js/app.js:378-385 | the result holds exactly the produced warnings, each once |
| Lint.NoVarRule | js/app.js:317-319 | the `var` warning at a line is reported exactly when some `var` declaration starts on that line |
| Lint.EqEqEqRule | js/app.js:333-335 | the strict-equality warning for an operator at a line is reported exactly when a comparison with that operator starts there |
| Lint.NoConsoleRule | js/app.js:337-339 | the console warning at a line is reported exactly when a member access on `console` starts there |
| Lint.RuleCase | js/app.js:311-339 | a warning that is not an unused-variable warning is reported exactly when some visited node produces it |
| Lint.UnusedRule | js/app.js:370-376 | `Unused variable 'x'` at a line is reported exactly when the last declaration of `x` is on that line, no identifier refers to `x`, and `x` has no leading `_` |
| Lint.UnusedCase | js/app.js:370-376 | an unused warning is in the result exactly when the final pass pushes it |
| Diagnostics.EditorState.constructor | js/app.js:13-14 | the state starts with no error and no warnings, as the initial `syntaxError: null` and `lintWarnings: []` give, holding the code that `handleInput` reads at js/app.js:71 |
| Diagnostics.Diagnose | js/app.js:80-106 | the branches of the debounced step: a parse error, an undeclared-variable error, or the warnings; its meaning is stated by ErrorExcludesWarnings, ErrorIffUnresolved and CleanWarnings |
| Diagnostics.EditorState.Analyze | js/app.js:80-107 | the step leaves `syntaxError` and `lintWarnings` as `Diagnose` gives them |
| Diagnostics.ErrorExcludesWarnings | js/app.js:89-98 | an error and warnings are never shown together; warnings need a parse; a parse failure always gives a named error |
| Diagnostics.ErrorIffUnresolved | js/app.js:88-90 | a parsed program gets an error exactly when the scope semantics leaves some named reference unresolved, and the error is the undeclared-variable one |
| Diagnostics.CleanWarnings | js/app.js:91-95 | with no undeclared variable, the warnings are exactly the semicolon and lint warnings, with the semicolon ones first |
| Diagnostics.SummaryEntries | js/app.js:90 | the message lists `min(6, n)` entries, separated by commas |
| Diagnostics.SummaryListsFirstSix | js/app.js:90 | each of the first six findings appears as `name (line L)` in the message |
| Diagnostics.SummaryEnd | js/app.js:90 | the message ends with an entry's `)` exactly when no finding was left out of it |
| ArraySolvers.TwoSum | js/problems.js:340-348 | `null` exactly when no pair adds up to the target; otherwise a valid pair whose second index is the least possible and whose first index is the latest that pairs with it, since the map keeps each value's latest index |
| ArraySolvers.UniqueSorted | js/problems.js:371-375 | on any input, sorted or not: a subsequence with the same values, no equal neighbours and one element per run of equal neighbours, which is exactly one element kept per run; strictly increasing when the input is sorted |
| ArraySolvers.BinarySearch | js/problems.js:389-398 | -1 or an index holding the target; on a sorted array, -1 exactly when the target is absent |
| ArraySolvers.MaxSubArray | js/problems.js:400-404 | `-Infinity` exactly for an empty array; otherwise the largest sum of a non-empty run of neighbours |
| ArraySolvers.SideDone | js/problems.js:420-421 | moving the lower side inward skips only pairs that are no better |
| ArraySolvers.MaxArea | js/problems.js:416-424 | the largest area over all pairs of lines, attained by some pair; 0 with fewer than two lines |
| ArraySolvers.JsRem | js/problems.js:428 | JavaScript's truncating `%`: the remainder lies strictly between -n and n |
| ArraySolvers.RotateAmount | js/problems.js:428 | `((k % n) + n) % n` with the truncating `%`; its meaning is stated by RotateAmountMod |
| ArraySolvers.Rotate | js/problems.js:426-430 | keeps the length; the empty array is copied, otherwise the last k elements come first; its meaning is stated by RotateIndex and RotateInverse |
| ArraySolvers.RotateAmountMod | js/problems.js:428 | `((k % n) + n) % n`, with JavaScript's truncating `%`, is `k` modulo `n` for negative `k` too |
| ArraySolvers.RotateIndex | js/problems.js:426-430 | the element at `i` moves to `(i + k) mod n`, and the length is kept |
| ArraySolvers.RotateInverse | js/problems.js:426-430 | rotating back by `k` restores the array |
| ArraySolvers.MoveZeroes | js/problems.js:432-435 | the non-zeros in order, then zeros up to the input length; its meaning is stated by MoveZeroesSpec and MoveZeroesIdempotent |
| ArraySolvers.MoveZeroesSpec | js/problems.js:432-435 | same length and same elements; the non-zero ones come first in their order, then only zeros |
| ArraySolvers.MoveZeroesIdempotent | js/problems.js:432-435 | moving zeros twice is moving them once |
| ArraySolvers.Shuffle | js/problems.js:328-333 | the array becomes the swaps for positions `n-1` down to 1, applied with the given draws |
| ArraySolvers.ShuffledPermutation | js/problems.js:328-333 | shuffling only reorders: same multiset |
| ArraySolvers.ShuffledKeepsAbove | js/problems.js:329-331 | positions above the loop index are never touched again |
| ArraySolvers.ShuffledLast | js/problems.js:330-331 | the first draw decides the last element |
| ArraySolvers.ShuffledIdentity | js/problems.js:328-333 | draws with `j == i` every time leave the array unchanged |
| StringSolvers.Reverse | js/problems.js:367-369 | `split`, `reverse`, `join` as a recursive definition; its meaning is stated by ReverseIndex and ReverseInvolutive |
| StringSolvers.ReverseIndex | js/problems.js:367-369 | the reversal has the same length and reads the input from the end |
| StringSolvers.ReverseInvolutive | js/problems.js:367-369 | reversing twice gives the string back |
| StringSolvers.IsPalindrome | js/problems.js:350-354 | negative numbers are rejected, otherwise `String(x)` is compared with its reversal; its meaning is stated by PalindromeDigits |
| StringSolvers.PalindromeDigits | js/problems.js:350-354 | a number is a palindrome exactly when it is non-negative and its decimal digits mirror |
| StringSolvers.PalindromeExamples | js/problems.js:350-354 | one-digit numbers are palindromes; positive multiples of ten are not |
| StringSolvers.FizzBuzz | js/problems.js:356-365 | `max(n, 0)` entries, and entry `k` is the one for `k + 1` |
| StringSolvers.FizzBuzzCases | js/problems.js:359-362 | multiples of 15, 3 and 5 give `FizzBuzz`, `Fizz` and `Buzz`; every other entry is the number's decimal text |
| StringSolvers.IsValidParens | js/problems.js:377-387 | true exactly when every closer matches the latest open opener and nothing is left open |
| StringSolvers.BalancedConcat | js/problems.js:377-387 | two balanced strings in a row are balanced |
| StringSolvers.BalancedNest | js/problems.js:378-384 | a balanced string wrapped in a matching pair is balanced |
| StringSolvers.CloserFirst | js/problems.js:382-383 | a closer with nothing open makes the whole string unbalanced |
| StringSolvers.OtherIgnored | js/problems.js:379-385 | characters other than brackets make no difference |
| StringSolvers.BalancedCounts | js/problems.js:377-387 | a balanced string has as many openers as closers |
| StringSolvers.IndexOfZero | js/problems.js:410 | `s.indexOf(p) === 0` exactly when `p` is a prefix of `s` |
| StringSolvers.LongestCommonPrefix | js/problems.js:406-414 | `''` for no strings; otherwise a common prefix of all the strings that every common prefix is a prefix of |
| PowerOfTwo.PowerOfTwoCorrect | js/problems.js:437-439 | on unbounded integers, `n > 0 && (n & (n - 1)) == 0` holds exactly for powers of two |
| PowerOfTwo.IsPowerOfTwoAsWritten | js/problems.js:437-439 | `n > 0` and the `&` of both operands after ToInt32; its meaning is stated by AsWrittenAgrees and AsWrittenWrongAbove32Bits |
| PowerOfTwo.AsWrittenAgrees | js/problems.js:437-439 | up to 2^32, the 32-bit `&` gives the same answer |
| PowerOfTwo.AsWrittenWrongAbove32Bits | js/problems.js:437-439 | with 32-bit `&`, the check accepts 2^32 + 1 |
| PowerOfTwo.OffsetCaseAsWritten | js/problems.js:607 | the input uses the first offset draw and the expected answer a second one; OffsetCaseMismatch shows where they disagree |
| PowerOfTwo.OffsetCaseMismatch | js/problems.js:607 | with two separate draws, a generated case can pair a power of two with the answer `false` |
| PowerOfTwo.OffsetCaseCorrect | js/problems.js:605-607 | with one draw, every case the generator can make expects the true answer |
| GroupingSolvers.SortCharsSorted | js/problems.js:444 | the key's characters are sorted and are exactly the string's characters |
| GroupingSolvers.SortedUnique | js/problems.js:444 | a sorted string is determined by its multiset of characters |
| GroupingSolvers.AnagramKeyIff | js/problems.js:444 | two strings share a key exactly when they are anagrams |
| GroupingSolvers.WithKeyCount | js/problems.js:445-446 | a group holds every string with its key as often as it occurs, and nothing else |
| GroupingSolvers.GroupAnagrams | js/problems.js:441-449 | returns `Grouped(strs)`: one group per key, in the key's first-occurrence order |
| GroupingSolvers.GroupsAreAnagramClasses | js/problems.js:441-449 | two grouped strings are anagrams exactly when they are in the same group |
| GroupingSolvers.EveryStringGrouped | js/problems.js:441-449 | every input string lands in some group, with all its repetitions |
| GroupingSolvers.GroupsNonEmpty | js/problems.js:445-446 | no group is empty |
| GroupingSolvers.GroupsInOrder | js/problems.js:448 | groups come in the order their keys first occur |
| GroupingSolvers.SortPermutes | js/problems.js:454 | the sort by count is a permutation |
| GroupingSolvers.SortDescending | js/problems.js:454 | after the sort, counts do not increase |
| GroupingSolvers.SortStable | js/problems.js:454 | entries with equal counts keep their order, as ES2019 `sort` guarantees |
| GroupingSolvers.SliceEnd | js/problems.js:454 | `slice(0, k)` ends at `min(k, len)` for `k >= 0` and at `max(len + k, 0)` for negative `k` |
| GroupingSolvers.TopKFrequent | js/problems.js:451-455 | returns `TopK(nums, k)` |
| GroupingSolvers.SortedEntries | js/problems.js:453-454 | each sorted entry pairs a distinct value of `nums` with its count |
| GroupingSolvers.TopKValues | js/problems.js:451-455 | `slice(0, k)` of the distinct values: each from `nums`, none twice |
| GroupingSolvers.TopKDescending | js/problems.js:454 | listed values come in order of non-increasing frequency |
| GroupingSolvers.TopKDominates | js/problems.js:451-455 | no value left out occurs more often than a listed value |
| GroupingSolvers.TopKExample | js/problems.js:624 | `[1,1,1,2,2,3]` with `k = 2` gives `[1, 2]` |
| DeepEqual.KeyCountIsSize | code_competition/archive/v0.03/js/utils.js:5-6 | `Object.keys(v).length` counts the keys that `for ... in` visits |
| DeepEqual.IndexKeysCount | code_competition/archive/v0.03/js/utils.js:5 | an array of length `n` has `n` keys |
| DeepEqual.DeepEqualObjects | code_competition/archive/v0.03/js/utils.js:4-11 | for two objects, the corrected comparison is: equal key counts, and every key of `x` is a key of `y` with a deep-equal value |
| DeepEqual.DeepEqualIffCanon | code_competition/archive/v0.03/js/utils.js:2-14 | the corrected comparison holds exactly when both values have the same canonical tree (arrays become index-keyed objects) |
| DeepEqual.DeepEqualReflexive | code_competition/archive/v0.03/js/utils.js:3 | every value equals itself, so treating two objects as never identical changes nothing |
| DeepEqual.DeepEqualSymmetric | code_competition/archive/v0.03/js/utils.js:2-14 | the corrected comparison does not depend on argument order |
| DeepEqual.DeepEqualTransitive | code_competition/archive/v0.03/js/utils.js:2-14 | the corrected comparison is transitive |
| DeepEqual.DeepEqualArrays | code_competition/archive/v0.03/js/utils.js:4-11 | two arrays are equal exactly when they have the same length and equal elements |
| DeepEqual.DeepEqualAsWritten | code_competition/archive/v0.03/js/utils.js:2-14 | `===` first, then for two objects equal key counts and, for each key of x, an own property of y that is deep-equal; its meaning is stated by CorrectedImpliesAsWritten, AsWrittenArrays, AsWrittenReflexive and AsWrittenAsymmetric |
| DeepEqual.AsWrittenReflexive | code_competition/archive/v0.03/js/utils.js:2-14 | the comparison as written accepts every value against itself, even without the `===` shortcut on objects |
| DeepEqual.CorrectedImpliesAsWritten | code_competition/archive/v0.03/js/utils.js:7 | the comparison as written accepts every pair the corrected one accepts |
| DeepEqual.AsWrittenArrays | code_competition/archive/v0.03/js/utils.js:4-11 | the comparison as written still compares two arrays element by element |
| DeepEqual.AsWrittenAsymmetric | code_competition/archive/v0.03/js/utils.js:7 | as written, `{length: 1}` equals `[5]` but `[5]` does not equal `{length: 1}`; the corrected comparison rejects both |

## Left out

- The parser (acorn) is not modelled. Its outcome is an input: a syntax tree,
  or the thrown error (`name`, `message` and `String(err)`). The
  `new Function(code)` fallback used when no parser is loaded is likewise an
  input (`NoParser`).
- The debounce timer, the DOM and `updateSyntaxUI`, line numbers in the
  editor, and saving the code per problem are I/O or timing. They are not
  modelled; `EditorState.Analyze` is the body of the timer callback.
- Node kinds that the analyzer only reaches through its generic key loop are
  one `Other` kind, holding their child nodes in `Object.keys` order. Node
  properties that are not nodes play no part.
- A shorthand property `{x}` whose value is the same object as its key (older
  acorn) is reached twice through `key`. A copied value node (acorn 7 and
  later) is a separate child.
- `findAdditionalLintIssues` carries its own copy of `collectPatternNames`
  (js/app.js:290-304). Its text is identical, so both analyses use the one
  `Patterns.PatternNames`.
- `Lint.FindAdditionalLintIssues`: the unused `source` parameter is dropped.
- The randomness is not modelled:
  - `mulberry32` and `Math.random` are not part of this model.
  - `shuffle` takes its draws as a sequence of indices, each in `[0, i]`.
  - The power-of-two generator takes its draws as parameters.
  - The generators of the other problems are not part of this model.
- Numbers are modelled as unbounded integers. Floating point is not
  modelled: `NaN`, `-0`, `Infinity` inputs and fractions, precision loss
  above 2^53, and `Math.floor((l + r) / 2)` on non-integers. The one place
  where 32-bit behaviour matters, the `&` of the power-of-two check, is
  modelled explicitly.
- `ArraySolvers.MaxArea` takes non-negative heights. `Math.min` of negative
  heights, which the problem excludes, is not modelled.
- Strings are sequences of Dafny characters. JavaScript compares and splits
  UTF-16 code units. The two orders agree except on characters outside the
  Basic Multilingual Plane, whose surrogate halves are split apart by
  `split('')`. Those characters are not modelled.
- `deepEqual` leaves out several JavaScript details:
  - Functions, symbols and class instances as values.
  - Inherited enumerable properties, which `for ... in` would visit.
  - Array properties other than indices and `length`.
  - Identity for `===`: two objects are taken to be distinct objects. That
    this changes no answer is stated by `AsWrittenReflexive`.
  - Array index keys are the canonical numerals `"0"`, `"1"`, and so on.

## Findings

| source | as written | input that shows it | evidently intended | confidence | as-written member | corrected member |
|---|---|---|---|---|---|---|
| js/problems.js:437-439 | `n & (n - 1)` truncates both operands to 32 bits | `4294967297` (2^32 + 1) is accepted as a power of two | `n > 0 && (n & (n - 1)) === 0` on the whole number | low, not executed; generated inputs are at most 2^30 + 100, where the two agree | PowerOfTwo.AsWrittenWrongAbove32Bits | PowerOfTwo.PowerOfTwoCorrect |
| js/problems.js:607 | the input adds one `randInt(rnd,1,100)` draw and the expected answer uses a second, separate draw | `pow = 1` with draws 1 then 2: the input is 2, a power of two, but the expected answer is `false` (the answer for 3) | one draw used for both the input and its answer | high, not executed | PowerOfTwo.OffsetCaseMismatch | PowerOfTwo.OffsetCaseCorrect |
| code_competition/archive/v0.03/js/utils.js:7 | `hasOwnProperty` also accepts an array's own `length` property, which `Object.keys` does not list | `deepEqual({length: 1}, [5])` is true while `deepEqual([5], {length: 1})` is false | an equality that is symmetric and tells arrays and objects with different keys apart | medium, not executed | DeepEqual.AsWrittenAsymmetric | DeepEqual.DeepEqualSymmetric |
