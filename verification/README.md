# gea, verified in parts

`gea` is a command line client for Gitea servers. This project models the parts of it whose
correctness is not visible from any one function, and proves what they promise. Each module follows
one piece of the program; loops and objects that change in place are methods and classes, each
proved against a function that says what it computes, and the theorems are about those functions.

**Aliases** (`Splitter`, `Substitution`, `Expansion`, `ExpansionLaws`, `AliasGraph`, `AliasStore`).
A user's alias expands to words, placeholders `$1` to `$9` take arguments, the first word may be an
alias again. `Splitter` reads expansions with shell-like quoting; a grammar of tokens says
independently what a line means, and the reader accepts exactly the lines the grammar can write.
`Expansion` is the run-time loop; its meaning is the unbounded sequence of hops (`After`), and
success, loops and giving up are each characterised exactly. `AliasGraph` is the graph of head
words. `AliasStore` is the configuration table with the built-ins underneath, and what any history
of edits leaves of it; `AliasEdits` writes out what one edit does; `AliasHistories` draws
conclusions for whole histories; `CommandWords` compares the list of commands a new name is checked
against with the words `gea` answers to.

Three facts stand out. The list of commands a new name is checked against is said in the code to be
every word `gea` answers to; it lacks `web`. Every other command is safe from being hidden, but `gea
alias set web pr` is accepted and takes `gea web` over (`CommandWords.WebIsHidden`,
`CommandWords.NothingHiddenExactly`). The bounds differ: the check made when an alias is set admits
a chain of ten aliases and the expander follows at most nine;
`AliasHistories.TenAcceptedAliasesNeverRun` is a history of accepted edits whose last alias never
runs. And a table without cycles can still loop at run time, but only through an alias whose head
word holds a placeholder (`AliasStore.PlaceholderHeadLoops` builds such a table by accepted edits;
`ExpansionLaws.LoopNeedsPlaceholderHead` proves there is no other way). Since an accepted head word
is always a name, it takes an alias with a placeholder in its name to get there: while there is
none, nothing loops (`AliasHistories.PlainNamesNeverLoop`), and once there is one, another edit
makes a loop (`AliasHistories.AnyPlaceholderNameLoops`).

**Request bodies** (`Text`, `JsonTree`, `BodyFile`, `Fields`). Two builders write into a JSON object
and create what is missing on the way: one by JSON pointer (RFC 6901), one by keys such as `a[b][]`.
`JsonTree` has the writing of one location and its laws; `BodyFile` and `Fields` have the two
notations, each with its writer, and the theorems about whole lists of writes.

**Names, lookups, search and paths** (`FlagNames`, `GlobalFlags`, `Lookup`, `LazyTree`, `Search`,
`Encoding`, `PathTemplate`, `DotSegments`). Commands are generated from tables. No flag name may be
given twice, or the argument parser panics; the command tree is built only as far as a first look at
the command line demands, and must behave as the full tree would; searches rank operations; paths
are filled in and encoded.

The first look knows only some of the options that take a value in a token of its own: `--limit`,
`--color`, `--max-retries` and `--json` are not in its list. Placed before the group or the leaf
they make it look for the wrong one, and the command fails (`LazyTree.LimitHidesTheCommand`);
`LazyTree.LazinessGuardIsExact` says on which command lines.

Encoding keeps every value within its own segment of the path as it is written, but it keeps dots
too, and `.` and `..` are removed from a URL before it is sent: `gea raw repo get .. user` asks for
`/user` (`DotSegments.DotOwnerAsksForAnotherRoute`). `DotSegments.DotsDecide` says exactly which
values leave the route alone.

**Sessions** (`WebSession`, `CookieAge`, `OauthSession`). Renewing a session mints new secrets on
the server and writes them down here, and either can fail at any point. A process is an object with
a store and a log of what became visible; the world's answers are inputs; theorems are about the log
of any number of commands.

**Specifications** (`Ordering`, `KeyOrder`, `Canonical`, `Placeholders`, `SpecDiff`, `SpecReport`,
`SpecMeaning`). The API description is vendored in a canonical form: object keys sorted at every
depth, template placeholders filled in. The guard in front of the replacement is sufficient exactly
for versions that are not empty, hold no `{{` and neither begin nor end with an opening brace
(`Placeholders.GuardSufficesExactly`). The drift report compares two such documents; no change is
missed, but two changed operations that happen to be shown under one name keep the lines of the
later one only (`SpecReport.SharedNameLosesLines`, `SpecReport.OwnLines`). `SpecMeaning` says what
is reported in terms of the two documents alone.

Strings are sequences of characters; a JSON number is an integer; a JSON object is a map except in
`Canonical`, where the order of members is the point.

## Model

| member | source | states |
|---|---|---|
| Splitter.Split | crates/gea/src/cmd/alias.rs:629-680 | The character loop over `quote`, `word` and `have_word` computes the function the theorems below are about, errors included. |
| Splitter.SplitIsTheGrammar | crates/gea/src/cmd/alias.rs:629-680 | An input splits into exactly these words if and only if some list of well-formed tokens is written as that input and denotes those words. |
| Splitter.LoneBackslashExactly | crates/gea/src/cmd/alias.rs:629-680 | A lone backslash is reported of exactly those inputs that are tokens with a backslash behind them; every other refusal is an open quote. |
| Splitter.TokensReadBack | crates/gea/src/cmd/alias.rs:629-680 | The text of any well-formed token list is accepted and gives the words it denotes. |
| Splitter.WrittenWordsReadBack | crates/gea/src/cmd/alias.rs:629-680 | Words written in any mixture of bare, escaped, single- and double-quoted pieces, joined by a whitespace character, come back unchanged. |
| Splitter.SplitJoins | crates/gea/src/cmd/alias.rs:629-680 | Two accepted inputs joined by whitespace split into the words of the first followed by those of the second. |
| Text.WhiteSpaceIs | crates/gea/src/cmd/alias.rs:629-680 | The white space that separates words, by code point. |
| Substitution.SubstituteWord | crates/gea/src/cmd/alias.rs:586-609 | One pass over a word replaces its placeholders and marks exactly those arguments as used in the array, or names the first missing one. |
| Substitution.Substitute | crates/gea/src/cmd/alias.rs:576-617 | The whole substitution: rendered words with the arguments no placeholder named, in order; or the number of the first missing argument. |
| Substitution.PlaceholderMeans | crates/gea/src/cmd/alias.rs:586-617 | Wherever `$1` to `$9` stands in a word: what is before it renders as alone, then the first to ninth argument, then what is after it; that argument joins those named; a missing one is reported by its own number. |
| Substitution.PlainTextMeans | crates/gea/src/cmd/alias.rs:586-617 | Text in which no `$` stands before one of the nine digits is left as it is and names no argument. |
| Substitution.OnePlaceholderMeans | crates/gea/src/cmd/alias.rs:586-617 | One placeholder in plain text: the argument takes its place and the others are left over, in order. |
| Substitution.WordsMean | crates/gea/src/cmd/alias.rs:576-617 | Several words succeed if and only if each does, render each on its own, and leave over what none of them names. |
| Substitution.DemandExact | crates/gea/src/cmd/alias.rs:594-604 | Substitution fails exactly when fewer arguments are given than the highest placeholder asks for. |
| Substitution.SomeWordContains | crates/gea/src/cmd/alias.rs:586-609 | An argument some placeholder names is a contiguous part of a rendered word. |
| Substitution.UnnamedKeeps | crates/gea/src/cmd/alias.rs:610-617 | An argument whose position no placeholder names is among the leftovers. |
| Expansion.ExpandWords | crates/gea/src/cmd/alias.rs:531-574 | The loop over `seen`, `head` and `args` ends for every table and refines the recursive meaning of expansion. |
| Expansion.ExpandMeaning | crates/gea/src/cmd/alias.rs:531-574 | Expansion gives `ws` if and only if following hops without any bound leaves the table after at most nine aliases, all different, with those words. |
| Expansion.ExpandEndsOutsideTable | crates/gea/src/cmd/alias.rs:531-574 | A successful expansion starts with a word that is not an alias, whatever the table. |
| Expansion.LoopIsReportedExactly | crates/gea/src/cmd/alias.rs:531-574 | A loop is reported if and only if a head word comes up again among the first ten. |
| Expansion.LoopGivesUp | crates/gea/src/cmd/alias.rs:531-574 | "Too deep" is reported if and only if every hop of the bound can be made and no head word repeats. |
| ExpansionLaws.OneAliasMeans | crates/gea/src/cmd/alias.rs:531-574 | An alias for a command gives its words with the arguments in place, then the arguments not asked for, or the number of the missing one. |
| ExpansionLaws.CheckoutMeans | crates/gea/src/cmd/alias.rs:531-574 | `co` for `pr checkout $1`: the first argument is checked out, the rest follow, and without one it is the first that is missing. |
| ExpansionLaws.FirstAliasFails | crates/gea/src/cmd/alias.rs:531-574 | What can go wrong at the first alias: unreadable text, a missing argument, nothing left. |
| AliasGraph.AcyclicIffGrounded | crates/gea/src/cmd/alias.rs:231-244 | In a finite head-word graph having no cycle and every walk ending are the same thing. |
| AliasGraph.GroundedAfterChange | crates/gea/src/cmd/alias.rs:193-244 | Changing one word's edge so that walks from that word end leaves every walk ending. |
| ExpansionLaws.LoopNeedsPlaceholderHead | crates/gea/src/cmd/alias.rs:531-574 | On a table whose graph has no cycle, a reported loop always comes from an alias on the way whose head word holds a placeholder. |
| ExpansionLaws.PlainTablesNeverLoop | crates/gea/src/cmd/alias.rs:531-574 | Without such heads an acyclic table never loops, whatever the arguments. |
| ExpansionLaws.ComesBackExactly | crates/gea/src/cmd/alias.rs:531-574 | An alias reports itself as a loop at its first hop if and only if the arguments render its head word as its own name. |
| ExpansionLaws.BarePlaceholderLoops | crates/gea/src/cmd/alias.rs:531-574 | An alias whose head word is just a placeholder loops for some arguments, in every table. |
| ExpansionLaws.ExpandSucceedsExactly | crates/gea/src/cmd/alias.rs:531-574 | With readable expansions and plain heads, expansion succeeds if and only if the chain leaves the table after at most nine aliases and enough arguments are given. |
| ExpansionLaws.TenAliasesAreTooDeep | crates/gea/src/cmd/alias.rs:531-574 | A chain of ten or more aliases is refused with any arguments: as too deep if the first ten hops get theirs, for a missing argument if not. |
| ExpansionLaws.ArgumentsAreConserved | crates/gea/src/cmd/alias.rs:531-617 | Through a whole chain no argument is lost: the unnamed ones end the result in their order, every other one is a contiguous part of a word before them. |
| ExpansionLaws.PlainExpansion | crates/gea/src/cmd/alias.rs:531-617 | Without placeholders the result is the command, the expansion tails from deepest to outermost, then the arguments. |
| AliasStore.AddBuiltins | crates/gea/src/cmd/alias.rs:499-508 | The built-ins lie underneath the user's aliases: a name the user defined stays theirs. |
| AliasStore.FindCycle | crates/gea/src/cmd/alias.rs:231-244 | The bounded walk over the table, returning the chain it went when that comes back to itself or exceeds the bound. |
| AliasStore.CycleFoundExactly | crates/gea/src/cmd/alias.rs:231-244 | No cycle is found if and only if the walk leaves the table after at most ten aliases. |
| AliasStore.CheckedExpansion | crates/gea/src/cmd/alias.rs:193-227 | The checks on an expansion in the source's order, each with its own refusal, against the table with built-ins and the new entry. |
| AliasStore.Config.SetAlias | crates/gea/src/cmd/alias.rs:148-168 | The table changes exactly when name and expansion pass and the write goes through; it is otherwise as before. |
| AliasStore.Config.DeleteAlias | crates/gea/src/cmd/alias.rs:287-301 | The user's entry is removed exactly when it exists and the write goes through. |
| AliasStore.Config.ImportAliases | crates/gea/src/cmd/alias.rs:303-347 | Entries are checked one after another against the table so far; those taken and those skipped add up. |
| AliasStore.HistoriesAreSafe | crates/gea/src/cmd/alias.rs:148-347 | After any history of set, import and delete, with failing writes: no alias is named like a listed command, every expansion has a head, and the graph with built-ins has no cycle. |
| AliasStore.HistoriesLoopOnlyThroughPlaceholders | crates/gea/src/cmd/alias.rs:467-574 | On a table any history leaves, a loop is reported only if the chain passes an alias whose head holds a placeholder. |
| AliasEdits.TrimMeans | crates/gea/src/cmd/alias.rs:148-168 | Trimming takes whitespace off both ends, all of it and nothing else. |
| AliasEdits.NameMeans | crates/gea/src/cmd/alias.rs:175-189 | A name is usable if and only if it is one word, does not begin with a dash and is no listed command. |
| AliasEdits.BuiltinsMean | crates/gea/src/cmd/alias.rs:499-508 | What each name stands for with the five built-ins underneath. |
| AliasEdits.AcceptedExactly | crates/gea/src/cmd/alias.rs:148-244 | An entry is accepted if and only if its name is usable, its text is readable with a known first word that is no option, and its chain leaves the table after at most ten aliases. |
| AliasEdits.SetMeans | crates/gea/src/cmd/alias.rs:148-168 | A set changes the one entry, if it is accepted, and no other; both texts are trimmed first. |
| AliasEdits.DeleteMeans | crates/gea/src/cmd/alias.rs:287-301 | A delete takes away the one entry and keeps every other. |
| AliasEdits.DeleteUndoesSet | crates/gea/src/cmd/alias.rs:148-301 | Deleting what was just set leaves the table as it was, without that name. |
| AliasEdits.ImportGrows | crates/gea/src/cmd/alias.rs:303-347 | One more entry is judged against the table the earlier ones made, and taken, or skipped by name. |
| AliasEdits.ImportKeepsEntries | crates/gea/src/cmd/alias.rs:303-347 | Without `--clobber` an import leaves every existing entry's text alone. |
| AliasEdits.ImportAddsOnlyEntries | crates/gea/src/cmd/alias.rs:303-347 | Whatever an import changes is one of its entries, with its text. |
| AliasStore.LoopRefusedExactly | crates/gea/src/cmd/alias.rs:193-244 | On a safe table the loop check refuses if and only if the alias would reach itself or its chain would be longer than ten. |
| AliasStore.TenAliasesPassTheCheckOnly | crates/gea/src/cmd/alias.rs:231-244 | On a readable table with plain heads, a chain of exactly ten aliases passes the cycle check and fails to run, with any arguments. |
| AliasStore.TrapIsAccepted | crates/gea/src/cmd/alias.rs:148-244 | `$1` for `pr`, then `y` for `$1`, are both accepted. |
| AliasStore.PlaceholderHeadLoops | crates/gea/src/cmd/alias.rs:531-574 | On that safe table `y y` is reported as a loop: acyclicity alone is not enough. |
| AliasHistories.AcceptedHeadIsPlain | crates/gea/src/cmd/alias.rs:193-227 | An accepted head word is a command, an alias, a built-in or the new name, so it holds no placeholder unless one of those does. |
| AliasHistories.PlainNamesNeverLoop | crates/gea/src/cmd/alias.rs:148-347 | Over every history in which no command and no accepted alias has a placeholder in its name, no expansion ever loops. |
| AliasHistories.OneMoreEditLoops | crates/gea/src/cmd/alias.rs:148-244 | The guard is needed: once an alias is named by a bare placeholder and its chain has room, setting any new name to it is accepted and then loops. |
| AliasHistories.AnyPlaceholderNameLoops | crates/gea/src/cmd/alias.rs:148-244 | So for every name: once any alias whose chain has room holds a placeholder in its name, some new name can be set to it, is accepted, and loops with some arguments. |
| AliasHistories.LinksAreAccepted | crates/gea/src/cmd/alias.rs:148-244 | Ten `set` edits, each pointing at the one before, are all accepted and leave exactly those ten aliases. |
| AliasHistories.TenAcceptedAliasesNeverRun | crates/gea/src/cmd/alias.rs:531-574 | On the safe table those edits leave, the last alias is refused as too deep whatever its arguments. |
| CommandWords.ListFits | crates/gea/src/cmd/completion.rs:98-147 | The list of the checks is one the theorems about histories apply to, and holds neither `web` nor the names their examples use. |
| CommandWords.ListIsPlain | crates/gea/src/cmd/completion.rs:98-147 | No listed command holds a placeholder, as `AliasHistories.PlainNamesNeverLoop` asks. |
| CommandWords.NothingHiddenExactly | crates/gea/src/cmd/alias.rs:175-189 | For any two lists: no history of edits hides a word `gea` answers to if and only if each of those words is refused as a name. |
| CommandWords.OnlyWebCanBeHidden | crates/gea/src/main.rs:70-127 | With the lists as they are, the only such word any history can hide is `web`. |
| CommandWords.WebIsHidden | crates/gea/src/main.rs:70-127 | `alias set web pr` is accepted, and `web` with any arguments then expands to `pr` with them. |
| CommandWords.WebIsUnknown | crates/gea/src/cmd/alias.rs:193-227 | An alias for `web` is refused as pointing at no command. |
| JsonTree.ObstacleExactly | crates/gea-raw/src/bodyfile.rs:98-113 | A write is obstructed at a depth exactly when a value is there that is not an object. |
| JsonTree.PutFrame | crates/gea-raw/src/bodyfile.rs:77-96 | A write leaves every unrelated location as it was. |
| JsonTree.PutsCommute | crates/gea-raw/src/bodyfile.rs:53-75 | Writes at unrelated locations can be made in either order. |
| BodyFile.UnescapeIsDecoded | crates/gea-raw/src/bodyfile.rs:115-117 | Two global replacements are, for every token, the one pass section 4 of RFC 6901 describes. |
| BodyFile.PointerRoundTrip | crates/gea-raw/src/bodyfile.rs:77-82 | Every non-empty list of keys, escaped and joined as a pointer, is read back as itself. |
| BodyFile.PointerTextRoundTrip | crates/gea-raw/src/bodyfile.rs:77-82 | Every pointer that section 3 of RFC 6901 allows is the text of the path it is read as. |
| BodyFile.Body.SetPointer | crates/gea-raw/src/bodyfile.rs:77-113 | The cursor loop writes one location, creating objects on the way; an error leaves the body exactly as it was. |
| BodyFile.SetFailsExactly | crates/gea-raw/src/bodyfile.rs:77-113 | An error occurs if and only if the leading slash is missing or a value strictly above the location is not an object, and says which. |
| BodyFile.SetIsALens | crates/gea-raw/src/bodyfile.rs:77-96 | After a write the value reads back at and below the location, unrelated locations are unchanged, and writing again changes nothing. |
| BodyFile.SetTwice | crates/gea-raw/src/bodyfile.rs:77-96 | Of two writes to one location the last counts. |
| BodyFile.Merge | crates/gea-raw/src/bodyfile.rs:53-75 | The overrides applied one after another, up to the first error; a base that is no object is refused only if there are any. |
| BodyFile.MergeGrows | crates/gea-raw/src/bodyfile.rs:53-75 | Without overrides the merge is the base; a base that is no object takes none; on an object each override is written into what those before it made of the base. |
| BodyFile.MergeSucceedsExactly | crates/gea-raw/src/bodyfile.rs:53-75 | Independent overrides go into an object together if and only if on the way to none of them the base holds something that is no object. |
| BodyFile.MergeKeepsTheBase | crates/gea-raw/src/bodyfile.rs:53-75 | What was merged reads back, and every unrelated path of the body is as in the base. |
| BodyFile.TitleIsAdded | crates/gea-raw/src/bodyfile.rs:53-75 | `{"body": "x"}` with an override for `/title` gives an object with both. |
| BodyFile.WrittenWhenEachFits | crates/gea-raw/src/bodyfile.rs:53-75 | Overrides none of whose pointers leads to another succeed together if and only if each would alone. |
| BodyFile.MergeIgnoresOrder | crates/gea-raw/src/bodyfile.rs:53-75 | Such overrides give the same body, or fail, in every order. |
| BodyFile.MergeReadsBack | crates/gea-raw/src/bodyfile.rs:53-75 | Every override reads back from the merged body and everything unrelated to all of them is unchanged. |
| Fields.SplitKey | crates/gea/src/api/fields.rs:162-185 | The loop over bracket pairs computes name and segments, or the source's error. |
| Fields.KeysRoundTrip | crates/gea/src/api/fields.rs:162-185 | A key parses to a name and segments if and only if those are writable and are written as that key. |
| Fields.KeyErrors | crates/gea/src/api/fields.rs:162-185 | No name, a bracket left open and something else between brackets each have their error. |
| Fields.Building.Insert | crates/gea/src/api/fields.rs:187-228 | The recursive descent with created objects amounts to one write, append or error at the whole path. |
| Fields.InsertFailsExactly | crates/gea/src/api/fields.rs:187-232 | An insertion fails if and only if another shape is in the way, a segment indexes into an array, or the list to append to is not one. |
| Fields.InsertFrame | crates/gea/src/api/fields.rs:187-228 | An insertion leaves every unrelated path as it was. |
| Fields.ToBody | crates/gea/src/api/fields.rs:115-122 | The body is the insertion of all fields in order into an empty object, or the first error. |
| Fields.PlainKeyMeans | crates/gea/src/api/fields.rs:187-228 | `name[k1]..[kn]` writes at `name`, `k1` and so on down to `kn`, unless something on that way is no object; everything unrelated stays. |
| Fields.AppendKeyMeans | crates/gea/src/api/fields.rs:187-228 | With `[]` behind it the value, or its elements if it is a list, goes to the end of the list there, or begins one. |
| Fields.IndexKeyIsRefused | crates/gea/src/api/fields.rs:187-228 | A `[]` that is not the last is refused. |
| Fields.HeadRepo | crates/gea/src/api/fields.rs:187-228 | `head[repo]=x` makes an object `head` with a member `repo`. |
| Fields.FoldedGrows | crates/gea/src/api/fields.rs:115-122 | One more field is inserted into what the fields before it made. |
| Fields.BodyHoldsWhatWasWritten | crates/gea/src/api/fields.rs:115-122 | Every path of a body holds what the sequence of writes leaves there: replaced by plain writes at or above it, extended by appends at it, inserted into by writes below it. |
| Fields.AppendedPathsAreLeaves | crates/gea/src/api/fields.rs:187-228 | A list takes no writes below it and an object no appends: in a body that succeeds, a path appended to since its last replacement has no writes below it. |
| Fields.LastWriteCounts | crates/gea/src/api/fields.rs:115-122 | In closed form, whatever came before: the list the last plain write at or above left, followed by the values appended since, in order; or what that write left, if nothing was appended or written below since. |
| Fields.OnlyAppendsCount | crates/gea/src/api/fields.rs:115-122 | A path no plain write covers, and that was appended to or not written below, holds just the values appended there. |
| FlagNames.Claims.UniqueLong | crates/gea-raw/src/build.rs:327-346 | The search ends, gives the first free candidate or the least free number, and claims exactly that name. |
| FlagNames.TakenNumbersAreFew | crates/gea-raw/src/build.rs:338-345 | There are no more taken numbers than used names, so a free one is found: the pigeonhole behind termination. |
| FlagNames.AllocationIsDetermined | crates/gea-raw/src/build.rs:327-346 | What is claimed determines which name is given. |
| FlagNames.PreferredUnlessClaimed | crates/gea-raw/src/build.rs:327-346 | A preferred name changes if and only if it was already claimed. |
| FlagNames.AllocationMeans | crates/gea-raw/src/build.rs:327-346 | The name for a flag, case by case: its own, `per-page` for a claimed `limit`, the kind in front, a number behind. |
| FlagNames.EachFlagHasItsLong | crates/gea-raw/src/build.rs:271-319 | There are as many longs as flags: the path's first, then the query's, the form's and the body's, each for its flag. |
| FlagNames.LimitIsPerPage | crates/gea-raw/src/build.rs:327-346 | The query's `limit` becomes `--per-page` exactly where the engine has `--limit`, if nobody before it took the name. |
| FlagNames.LeafLongs | crates/gea-raw/src/build.rs:271-319 | The longs of a leaf are given in turn over path, query, form and body flags, with the engine's own names claimed first. |
| FlagNames.LongsAreDistinct | crates/gea-raw/src/build.rs:271-319 | No long of a leaf is given twice, whatever the operation asks for. |
| FlagNames.PreferredNamesAreKept | crates/gea-raw/src/build.rs:271-346 | A flag keeps the name it prefers if and only if neither the engine nor an earlier flag has it. |
| GlobalFlags.Taken.Walk | crates/gea/src/global.rs:170-191 | The recursive walk collects exactly the names claimed anywhere in the tree. |
| GlobalFlags.WalkReaches | crates/gea/src/global.rs:170-191 | The names of every command at any depth are among those collected. |
| GlobalFlags.NamesMean | crates/gea/src/global.rs:176-191 | An argument answers to its long, its aliases and its short with a dash, and to nothing else. |
| GlobalFlags.NamesExactly | crates/gea/src/global.rs:170-191 | What the walk collects are the names of the commands of the tree and no others. |
| GlobalFlags.OneGlobalMeans | crates/gea/src/global.rs:394-413 | A global is added with each of its names that is free, its hidden alias included, and left out if neither its long nor its short is. |
| GlobalFlags.ArgsOf | crates/gea/src/global.rs:203-388 | The run of pushes gives, in order, the globals that have a free name, under the names that are free. |
| GlobalFlags.GlobalNames | crates/gea/src/global.rs:203-413 | What globals are added uses only declared names, each at most once in declaration order, and none that is taken. |
| GlobalFlags.NoNameTwice | crates/gea/src/raw.rs:43-58 | With the globals on it, no command of the tree answers to one long, alias or short twice if it did not before. |
| GlobalFlags.LeafNeverClashes | crates/gea/src/raw.rs:43-58 | So a leaf built for any operation at all, in any tree, never gives the parser a duplicate. |
| GlobalFlags.GlobalsKeepFreeNames | crates/gea/src/global.rs:394-413 | A global keeps its long, and its short, if and only if the tree has not claimed that name. |
| GlobalFlags.GlobalsAreFlags | crates/gea/src/global.rs:390-413 | No added global is without long and short, so none becomes a positional. |
| Lookup.FindOp | crates/gitea-client/src/meta_types.rs:262-265 | Binary search in a sorted table finds a matching operation if and only if there is one, and with unique keys the one a linear scan finds. |
| Lookup.FindGroup | crates/gitea-client/src/meta_types.rs:273-275 | Binary search by name finds a group if and only if there is one. |
| Lookup.SliceIsTheGroup | crates/gitea-client/src/meta_types.rs:277-281 | With groups tiling a sorted table, a group's slice is exactly its operations in table order. |
| LazyTree.Tokens.NextWord | crates/gea-raw/src/build.rs:107-126 | The iterator gives the next word and leaves the rest, with `--` and separate option values honoured. |
| LazyTree.Peek | crates/gea-raw/src/build.rs:133-144 | The peek is the first three words, if the first is `raw` or `x`. |
| LazyTree.ListedOptionsAreSkipped | crates/gea-raw/src/build.rs:83-126 | Each of the fourteen options is skipped with its value, whatever that is. |
| LazyTree.OtherOptionsAreSkippedAlone | crates/gea-raw/src/build.rs:107-126 | Any other option, and any with `=` in it, is skipped alone. |
| LazyTree.WordsMean | crates/gea-raw/src/build.rs:107-126 | Every other token is a word, as `-`, the empty token and all behind `--` are. |
| LazyTree.HostIsSkipped | crates/gea-raw/src/build.rs:133-144 | `gea --host h raw repo get` is about group `repo` and operation `get`, and so is `gea x --repo=o/r repo get`; `gea pr list` is not layer 2. |
| LazyTree.OptionsAreSkippedExactly | crates/gea-raw/src/build.rs:107-126 | The words seen are the words of the command line, `--` and what follows it included, if and only if no option outside the list has its value in a token of its own before any `--`. |
| LazyTree.UnlistedOptionsHide | crates/gea-raw/src/build.rs:83-144 | With only options before it, such an option makes its value look like the command, and layer 2 is not recognised, whatever follows. |
| LazyTree.RawCommand | crates/gea-raw/src/build.rs:163-208 | The tree built with binary searches and slices is the one described by linear lookups. |
| LazyTree.LazyTreeMeans | crates/gea/src/main.rs:265-300 | Parsing two words with the lazy tree and looking the pair up runs the operation with a full leaf, or fails as it should; never "not in the table". |
| LazyTree.SameExactly | crates/gea-raw/src/build.rs:163-208 | For any peek and any two words: the lazy tree does what the full tree would if and only if the words are no command, or are what was peeked, or ask for a search and no other group was peeked. |
| LazyTree.LazinessKeepsMeaning | crates/gea-raw/src/build.rs:133-208 | For every command line asking for an operation or a search on which no option outside the list has a separate value before the third word, the tree built from the peek does what the full tree would, and that is what the tables say. |
| LazyTree.LazinessExactly | crates/gea-raw/src/build.rs:133-208 | On every such command line, laziness keeps the meaning for all tables if and only if, for an operation, the words seen begin with the three that are there; for a search, they do not begin with `raw` or `x` and then another group. |
| LazyTree.LazinessGuardIsExact | crates/gea-raw/src/build.rs:133-208 | For an operation, where the values are none of the words: that is if and only if no option outside the list has a separate value before the third word. |
| LazyTree.SearchGuardIsExact | crates/gea-raw/src/build.rs:133-208 | For a search: if and only if none stands before the second word, or one stands before the first. |
| LazyTree.LimitHidesTheCommand | crates/gea/src/main.rs:265-300 | `gea raw --limit 5 repo get` looks for a group `5` and fails on every table that has the operation. |
| LazyTree.ListingIsComplete | crates/gea-raw/src/build.rs:199-203 | Without a leaf, the listed commands of a group are exactly those of the table. |
| Search.IsSubsequence | crates/gea-raw/src/search.rs:120-123 | The pass that consumes the haystack computes the greedy scan. |
| Search.GreedyIsComplete | crates/gea-raw/src/search.rs:120-123 | The greedy scan succeeds if and only if the needle can be read at some increasing positions. |
| Search.ScoresExactly | crates/gea-raw/src/search.rs:106-116 | A score is positive if and only if the needle is a subsequence; substrings never fall through. |
| Search.BetterTiersScoreMore | crates/gea-raw/src/search.rs:101-116 | In one field a match at the start beats one at a word, that one in the middle, that a scattered one; a substring scores at least four times a scattered match. |
| Search.TierScores | crates/gea-raw/src/search.rs:106-116 | The tiers score six, five, four and one times the weight. |
| Search.BestMeans | crates/gea-raw/src/search.rs:43-85 | The best of four fields counts: the command at weight 6, group and summary at 3, the path at 2. |
| Search.TotalMeans | crates/gea-raw/src/search.rs:66-85 | A hit's score is the sum of the best scores of its needles. |
| Search.NormalizeMeans | crates/gea-raw/src/search.rs:56-63 | Six separators become spaces, capitals small letters, the rest stays, character by character. |
| Search.NeedlesMean | crates/gea-raw/src/search.rs:66-72 | A term counts unless it is blank, as what it is normalised to, in the order of the terms. |
| Ordering.BelowMeans | crates/gea-raw/src/search.rs:91-97 | The order of texts: a proper prefix first, else the lesser character where they first differ. |
| Search.Search | crates/gea-raw/src/search.rs:66-99 | The loop with its early exit, the sort and the cut show the ranked matches. |
| Search.SearchShowsTheBest | crates/gea-raw/src/search.rs:66-99 | What is shown are matches of every needle with their scores, in order (strictly, if keys are unique), as many as the limit admits, and no match left out belongs before one shown. |
| Search.OrderOfTableDoesNotCount | crates/gea-raw/src/search.rs:87-97 | With unique keys the result does not depend on the order of the table. |
| Encoding.Encode | crates/gitea-core/src/http/encode.rs:35-54 | The byte loop, and the shortcut that returns the text itself, give one encoding. |
| Encoding.EncodedMeans | crates/gitea-core/src/http/encode.rs:22-69 | Each byte is kept if it is unreserved, or a slash of a path, and else written as a percent sign and two capital digits. |
| Encoding.EncodedIsInert | crates/gitea-core/src/http/encode.rs:22-69 | An encoded value holds only unreserved characters and percent signs, and slashes only where the value is a path. |
| Encoding.DecodeQuery | crates/gitea-core/src/http/encode.rs:96-127 | The decoding loop, with stray percent signs kept, plus read as space, the shortcut, and nothing for bytes that are not UTF-8 (section 4 of RFC 3629). |
| Encoding.CharacterMeans | crates/gitea-core/src/http/encode.rs:96-127 | A plus stands for a space, any other byte for itself, a percent sign without two digits behind it included. |
| Encoding.EscapeMeans | crates/gitea-core/src/http/encode.rs:96-127 | A percent sign and two digits, capital or not, stand for the byte of that number. |
| Encoding.TextExactly | crates/gitea-core/src/http/encode.rs:119-127 | The bytes taken for a text are those some list of characters, surrogates apart, is written as (section 3 of RFC 3629). |
| Encoding.DecodeUndoesEncode | crates/gitea-core/src/http/encode.rs:81-96 | Decoding gives back every value that was encoded. |
| Encoding.QueryRoundTrip | crates/gitea-core/src/http/encode.rs:96-127 | What was encoded is a text that may be decoded as a query, and gives the value back if and only if that is one. |
| Encoding.EncodedPathSplits | crates/gitea-core/src/http/encode.rs:62-69 | Encoding a path is encoding what lies between its slashes, each as a segment of its own. |
| PathTemplate.RenderPath | crates/gea-raw/src/bind.rs:155-184 | The loop renders the template or reports the first error, and its closing assertion holds: no brace is left. |
| PathTemplate.PlaceholderMeans | crates/gea-raw/src/bind.rs:186-230 | What stands for a placeholder: flag or positional, which must agree, else the owner or name of the repository at hand, encoded; or why nothing does. |
| PathTemplate.UnknownPlaceholderMeans | crates/gea-raw/src/bind.rs:155-184 | A name no parameter has is an error, and so is an unclosed brace. |
| PathTemplate.RenderedIsTheMeaning | crates/gea-raw/src/bind.rs:155-184 | A template printed from text and placeholders renders to the text as it stands and the placeholders filled, or their first error. |
| PathTemplate.RouteIsKept | crates/gea-raw/src/bind.rs:155-184 | Whatever the values hold, the path as it is written splits into the segments of the template, each the rendering of its own; only a path-like value adds segments, and only its own. |
| PathTemplate.ValueStandsInPlace | crates/gea-raw/src/bind.rs:174-177 | A value that fills a segment stands in its place in the path as it is written, as one segment or as those of the path it is, and decoding gives it back. |
| DotSegments.RemovedExactly | crates/gitea-core/src/http/mod.rs:572-574 | Dot-segment removal (section 5.2.4 of RFC 3986) leaves a path alone if and only if no segment is `.` or `..`, and leaves none. |
| DotSegments.RouteIsRequestedExactly | crates/gea-raw/src/bind.rs:155-184 | The path requested is the path rendered if and only if no segment the values come to is `.` or `..`. |
| DotSegments.EncodedDot | crates/gitea-core/src/http/encode.rs:22-69 | An encoded value is `.` or `..` if and only if the value is. |
| DotSegments.DotsDecide | crates/gea-raw/src/bind.rs:155-184 | Where placeholders fill whole segments: if and only if no value is `.` or `..`, nor anything between the slashes of a value that is a path. |
| DotSegments.DotOwnerAsksForAnotherRoute | crates/gea-raw/src/bind.rs:155-184 | With `..` for the owner, `/repos/{owner}/{repo}` renders as it says and requests `/` and the repository's name. |
| Canonical.Collect | crates/xtask/src/update_spec.rs:363-378 | Inserting the members one by one into a sorted map keeps them all, in ascending key order. |
| Canonical.Sort | crates/xtask/src/update_spec.rs:363-378 | The recursive rebuild of every object through a sorted map is the function `SortKeys`. |
| Canonical.SortKeepsMeaning | crates/xtask/src/update_spec.rs:363-378 | Every lookup and the order of every array are preserved. |
| Canonical.SortAscends | crates/xtask/src/update_spec.rs:363-378 | Keys are strictly ascending at every depth. |
| Canonical.SortIsIdempotent | crates/xtask/src/update_spec.rs:363-378 | Sorting twice is sorting once. |
| Canonical.SortIsCanonical | crates/xtask/src/update_spec.rs:363-378 | Two documents sort to the same text if and only if they differ in key order at most. |
| Canonical.Canonicalize | crates/xtask/src/update_spec.rs:336-357 | From the parsed document on: the two values set in place, then sorted; or the error for a missing `info`. |
| Canonical.CanonicalErrors | crates/xtask/src/update_spec.rs:336-346 | Canonicalizing fails of a root that is no object and of one without an object `info`, each with its error, and of nothing else. |
| Canonical.CanonicalizePinsTwoValues | crates/xtask/src/update_spec.rs:336-357 | The canonical document means the original with `info.version` and `basePath` written, and nothing else changed. |
| Canonical.CanonicalFormsAgree | crates/xtask/src/update_spec.rs:325-378 | Pinned documents have one canonical form if and only if they mean the same. |
| Placeholders.FindPlaceholders | crates/xtask/src/update_spec.rs:215-233 | The loop over `rest` collects every placeholder in order, an unterminated one included. |
| Placeholders.CheckPlaceholders | crates/xtask/src/update_spec.rs:236-272 | The guard over the counts, with the source's errors. |
| Placeholders.AcceptedExactly | crates/xtask/src/update_spec.rs:236-272 | A template is accepted if and only if it is text with exactly two known placeholders in it; not one of each. |
| Placeholders.TemplateMeans | crates/xtask/src/update_spec.rs:325-335 | The version takes the place of `SwaggerAppVer`, and nothing that of `SwaggerAppSubUrl`. |
| Placeholders.CheckUpstream | crates/xtask/src/update_spec.rs:279-313 | Placeholders mean one layout and sentinels the other; each has its guard, and a document with neither is refused. |
| Placeholders.UpstreamExactly | crates/xtask/src/update_spec.rs:236-313 | A document is accepted if and only if it has the two placeholders, or one of each sentinel and no open pair of braces. |
| Placeholders.SentinelsMean | crates/xtask/src/update_spec.rs:325-335 | In the other layout the version takes its sentinel's place and a slash that of the sub-URL. |
| Placeholders.NothingLeftOver | crates/xtask/src/update_spec.rs:325-335 | With a safe version no accepted template keeps a `{{` after the successive replacements. |
| Placeholders.SomethingLeftOver | crates/xtask/src/update_spec.rs:325-335 | With any other version one accepted template keeps one. |
| Placeholders.GuardSufficesExactly | crates/xtask/src/update_spec.rs:215-335 | The guard suffices for a version if and only if that is not empty, holds no `{{`, and has no opening brace at either end. |
| WebSession.Process.Store | crates/gea/src/runtime.rs:351-366 | Storing a credential changes the store unless the write is lost. |
| WebSession.Process.Renew | crates/gea/src/web.rs:239-243 | Mint, write down, hand out: in that order, with failures at each, among them a mint whose answer never arrives, and a rotated token whose lifetime cannot be read. |
| WebSession.Process.Request | crates/gea/src/web.rs:191-220 | One request against any answers of server and store: its result, its log and the store it leaves. |
| WebSession.RequestIsBounded | crates/gea/src/web.rs:191-236 | At most two sends and two mints; a second send only after an answer worth renewing for. |
| WebSession.FirstAnswerDecides | crates/gea/src/web.rs:191-243 | A first answer leads to a renewal if and only if it redirects to the login page or is a 401 or a 404, and is else the result; a renewal that is delivered and written is followed by one more send, with the new session, whose answer is the result; and what is left when it is not. |
| WebSession.NoFirstAnswer | crates/gea/src/web.rs:191-243 | Without a first answer: which error, and what had happened by then. |
| WebSession.MintMeans | crates/gitea-core/src/web/session.rs:89-107 | A mint brings its session, and its remember token if there is one whose lifetime can be read. |
| WebSession.LapsedIsReturnedExactly | crates/gea/src/web.rs:191-236 | An answer that redirects to the login page, or a 401, is handed back if and only if a session freshly minted and written was not honoured. |
| WebSession.SessionsArePersistedFirst | crates/gea/src/web.rs:191-256 | In every history of requests and failures, each session sent had been written down before. |
| WebSession.RememberStaysInStep | crates/gea/src/web.rs:191-243 | A request leaves the store's remember token the one the server expects exactly unless the last renewal it was granted rotated the token and the new one was not delivered, not written or not read; granted none, exactly if it was before. |
| WebSession.HistoryStaysInStep | crates/gea/src/web.rs:191-256 | Over every history of requests: the store holds the token expected next if and only if the last renewal granted was not lost in one of those ways. |
| WebSession.UnreadRotationIsLost | crates/gitea-core/src/web/session.rs:89-107 | A rotated token with a bare attribute before its `Max-Age` is delivered, the renewal written and handed out, and the store is out of step. |
| CookieAge.MaxAgeFrom | crates/gitea-core/src/web/stored.rs:139-151 | The loop over the attributes finds the end of a cookie's life, or nothing. |
| CookieAge.ReadExactly | crates/gitea-core/src/web/stored.rs:139-151 | A lifetime is read if and only if the first `Max-Age` gives a positive number that fits and every attribute before it has a value. |
| CookieAge.MaxAgeMeans | crates/gitea-core/src/web/stored.rs:139-151 | `Max-Age`, in any case, is a number of seconds from now; nothing that is not positive, too large for 64 bits or past the last instant counts. |
| CookieAge.BareAttributeHides | crates/gitea-core/src/web/stored.rs:139-151 | An attribute without a value hides every lifetime behind it and none before it. |
| WebSession.AnsweredSessionIsStored | crates/gea/src/web.rs:191-256 | When a request is answered, the session it last sent is the one in the store. |
| OauthSession.Process.Refresh | crates/gea/src/oauth_refresh.rs:40-88 | Refresh at the server, write the new pair, then hand it out. |
| OauthSession.Process.Start | crates/gea/src/runtime.rs:143-182 | The credential part of starting a command: which token it will send, and the store it leaves. |
| OauthSession.CommandMeans | crates/gea/src/runtime.rs:143-182 | A session with more than five minutes left is used as it is; one with less is refreshed, and the new token is sent if it was delivered, written and saved; on any failure the old one is. |
| OauthSession.TokensAreRecordedFirst | crates/gea/src/oauth_refresh.rs:40-88 | In every history, each access token used had been recorded with its refresh token before it was used. |
| OauthSession.LatestIsKeptExactly | crates/gea/src/oauth_refresh.rs:40-88 | One command keeps the store at the server's latest pair exactly unless a minted pair was not delivered or not written. |
| OauthSession.StoreHoldsTheLatest | crates/gea/src/oauth_refresh.rs:40-88 | While nothing is lost the store holds the latest refresh token after every command of a history. |
| KeyOrder.AscendingIsSorted | crates/xtask/src/spec_diff.rs:257-259 | The order in which a sorted map gives its keys is the only ascending one. |
| SpecDiff.DiffMembers | crates/xtask/src/spec_diff.rs:448-467 | The loop over the keys of both sides says one thing of each parameter, response or property that differs. |
| SpecDiff.EachDifferenceIsMentioned | crates/xtask/src/spec_diff.rs:448-570 | A parameter, response or property is mentioned if and only if it differs. |
| SpecDiff.GoneExactly | crates/xtask/src/spec_diff.rs:448-570 | "Removed" is said of exactly what only the old side has, of a response with what it was. |
| SpecDiff.CameExactly | crates/xtask/src/spec_diff.rs:448-570 | "Added" is said of exactly what only the new side has, with what it is. |
| SpecDiff.ChangedExactly | crates/xtask/src/spec_diff.rs:448-570 | "Changed" is said of exactly what both have and not alike, from the old description to the new, and with what required became. |
| SpecDiff.LinesInOrder | crates/xtask/src/spec_diff.rs:448-570 | Each key has one line at most, and the keys are in order. |
| SpecDiff.SchemaMeans | crates/xtask/src/spec_diff.rs:266-281 | A schema is described by its reference, its items, or its type and format, as the document has them. |
| SpecDiff.ResponseAndParameterMean | crates/xtask/src/spec_diff.rs:284-297 | A response is what it refers to or its schema, a parameter its schema or itself. |
| SpecDiff.RequiredListMeans | crates/xtask/src/spec_diff.rs:572-577 | The required list is the strings of the array there. |
| SpecDiff.MembersSilentExactly | crates/xtask/src/spec_diff.rs:448-570 | Nothing is said if and only if the two maps are equal. |
| SpecReport.DiffOperation | crates/xtask/src/spec_diff.rs:424-436 | The lines on two operations: identifier, parameters, responses, and a line for metadata if there would be none. |
| SpecReport.OperationMentionsExactly | crates/xtask/src/spec_diff.rs:424-523 | An operation's lines mention exactly the parameters and the responses that differ. |
| SpecReport.MetadataOnlyExactly | crates/xtask/src/spec_diff.rs:424-436 | "Metadata only" is said of an operation if and only if identifier, parameters and responses are equal. |
| SpecReport.DiffDefinition | crates/xtask/src/spec_diff.rs:534-570 | The lines on two definitions: properties, the required list, and a line for the schema or metadata if there would be none. |
| SpecReport.DefinitionMentionsExactly | crates/xtask/src/spec_diff.rs:534-570 | A definition's lines mention exactly the properties that differ. |
| SpecReport.DiffMaps | crates/xtask/src/spec_diff.rs:375-422 | The walk over two name maps: what only one side has, in key order, and the lines of what differs. |
| SpecReport.EmptyExactly | crates/xtask/src/spec_diff.rs:375-422 | A section is empty if and only if the two maps are equal. |
| SpecReport.ChangesAreExactlyShown | crates/xtask/src/spec_diff.rs:375-422 | A name is in the list of changes if and only if something of that name differs, and then with lines that were said of it. |
| SpecReport.LastOneCounts | crates/xtask/src/spec_diff.rs:402-422 | Under a shown name stand the lines of the last key, in key order, that differs and is shown so. |
| SpecReport.OwnLines | crates/xtask/src/spec_diff.rs:402-422 | An entry that differs is reported with its own lines if and only if the last one shown under its name has the same lines. |
| SpecReport.ListOperations | crates/xtask/src/spec_diff.rs:302-314 | The nested loops over paths and methods collect the operations by method and path. |
| SpecReport.OperationsExactly | crates/xtask/src/spec_diff.rs:302-314 | Each method under each path has a key of its own, and is an operation if and only if the document has it. |
| SpecReport.DisplaysDiffer | crates/xtask/src/spec_diff.rs:308-310 | Where paths hold no parenthesis, different operations are shown under different names. |
| SpecReport.Diff | crates/xtask/src/spec_diff.rs:317-353 | The report of operations, shared responses with who uses them, and definitions. |
| SpecMeaning.OperationsAreThose | crates/xtask/src/spec_diff.rs:302-314 | The operations found are those the document has under a path and one of seven methods, and no others. |
| SpecMeaning.AddedAndRemovedOperations | crates/xtask/src/spec_diff.rs:402-422 | An operation is listed as added if and only if only the new document has it, as removed if and only if only the old one has, by its method in capitals, path and identifier. |
| SpecMeaning.ChangedOperations | crates/xtask/src/spec_diff.rs:402-422 | And as changed if and only if both have it and not alike, by its new name. |
| SpecMeaning.ResponsesAndDefinitions | crates/xtask/src/spec_diff.rs:317-353 | Shared responses and definitions are added, removed and changed by name likewise. |
| SpecMeaning.ListsAscend | crates/xtask/src/spec_diff.rs:375-400 | These names are listed in order, each once. |
| SpecMeaning.ParametersMean | crates/xtask/src/spec_diff.rs:439-446 | The parameters compared are those of the array, one for each name and place, the last of them. |
| SpecMeaning.OperationSays | crates/xtask/src/spec_diff.rs:424-436 | Which lines an operation has and why each is there: the identifiers old and new, the parameters, the responses, or metadata. |
| SpecMeaning.DefinitionSays | crates/xtask/src/spec_diff.rs:534-570 | Likewise of a definition: its properties, the required lists old and new, the schema or metadata. |
| SpecMeaning.ResponsesSay | crates/xtask/src/spec_diff.rs:497-523 | A response is said to be removed if only the old operation has it, and added if only the new one has, by what it is there. |
| SpecMeaning.ChangedResponseSays | crates/xtask/src/spec_diff.rs:317-369 | A changed shared response is reported with its schema old and new, then with the operations of either document that refer to it. |
| SpecReport.DriftIsNeverMissed | crates/xtask/src/spec_diff.rs:317-353 | The report is empty, warnings apart, if and only if operations, responses and definitions are equal. |
| SpecReport.OperationIsReported | crates/xtask/src/spec_diff.rs:402-422 | Every operation that differs is reported, with its own lines if and only if the last one of its name has the same; and without parentheses in the two keys it is that last one. |
| SpecReport.SharedNameLosesLines | crates/xtask/src/spec_diff.rs:302-314 | `GET /x` with identifier `a (b` and `GET /x (a` with identifier `b` share a name: both changed, and one of them is reported with the other's lines. |
| SpecReport.UsersExactly | crates/xtask/src/spec_diff.rs:357-369 | A changed shared response is said to be used by exactly the operations, of either document, that refer to it. |
| SpecReport.ExchangeExchanges | crates/xtask/src/spec_diff.rs:317-353 | Exchanging the documents exchanges added with removed and keeps which responses and definitions changed. |
| SpecReport.ChangedOperationsExchange | crates/xtask/src/spec_diff.rs:402-422 | An operation that changed one way has changed the other way, and is shown both ways by what it then was called. |

## Left out

- ExpansionLaws.LoopNeedsPlaceholderHead: which longer cycles through placeholder heads close depends on the arguments at every hop; that is said exactly by Expansion.LoopIsReportedExactly, and for one hop by ExpansionLaws.ComesBackExactly.
- SpecReport.Diff: without the warnings, which come from loading the new document into the generator's own model.
- Search.SearchShowsTheBest: scores are unbounded, where the source adds 32-bit numbers; a needle adds at most 36, so no search a command line can hold reaches the limit.
- GlobalFlags.NoNameTwice: the names the argument parser adds by itself (`--help`, `--version`) are not in the tree.
- BodyFile.Body.SetPointer: objects are maps, so the position a new key takes among its siblings is not modelled; likewise for Fields.Building.Insert.
- DotSegments.RouteIsRequestedExactly: percent-encoded dots in the text of a template, which some URL parsers remove too, are not; an encoded value never holds any.
- WebSession.SessionsArePersistedFirst: a crash between a mint and its write, and two processes renewing one session, are not among the failures; the code has no lock to reason about. Likewise for OauthSession.TokensAreRecordedFirst.
- OauthSession.Process.Start: credentials taken from the environment, which never refresh, are not modelled.
- AliasStore.HistoriesAreSafe: an unreadable configuration file, and one edited by hand between commands, are outside its histories; the theorems about expansion itself hold for such tables too.
- Reading and printing JSON, TOML import files and HTTP, the key ring, terminals, pagination, completion scripts, help texts and the wording of messages are not modelled.
- The argument parser is foreign code: a command is its names and its children, and a command line is the words it would give.
- `typed_value` and reading field values from files: a field arrives with its key and its value.
- `build_body` beyond the merge itself, query strings, uploads and response rendering would add only easy members.
