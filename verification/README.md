# A Dafny model of the puzzle-hunt backend's core

The backend serves puzzle hunts: teams unlock puzzles, hints and content through conditions written in
a small expression language, earn and spend currencies, talk to the staff in ticket threads, and follow a
leaderboard. This project models the parts where several functions, statements or requests have to fit
together, and proves what they promise as statements over all inputs, all runs and all interleavings.

| module | component | kind |
|---|---|---|
| `Lexer`, `Parser` | tokenizer and S-expression parser | loops and recursion against `Lex` and `ParseAt` |
| `Gate`, `GateCompiler`, `GateRange` | gate expressions, their evaluation and simplifying compiler | functions; the filling of lists as methods |
| `GateMeaning`, `GateSyntax` | what the evaluator computes, and which forms the compiler accepts | lemmas in terms of the state and of the text |
| `HintDisplay`, `HintRange` | the hint language that extends the gates | the same |
| `CompileCache` | the bounded compile cache behind its lock | class, and runs of many threads |
| `TicketOrder`, `TicketPages`, `TicketContents`, `TicketWalks` | ticket threads, their pages, what a page shows, and a client's walks over them | methods against `PageOf`, and walks between growing threads |
| `CurrencyGrowth`, `CurrencyLedger`, `CurrencyMeaning` | lazy growth, balance and log of one team's currency, and what each operation leaves | class against `Apply` |
| `CurrencyConservation`, `CurrencyAccrual` | the ledger over runs, and where its growth comes from | runs |
| `Standings`, `StandingsMeaning` | the ranking, live and frozen, and who stands above whom | functions |
| `Features`, `FeaturesMeaning` | feature states, release phases, leaderboard lock | class against `Apply`, and runs |
| `Frontend`, `FrontendMeaning` | packages, drafts, publishing, and what resolving returns | class against relations between tables |
| `FrontendAdmin`, `FrontendLive` | what the staff do with them, and what players see meanwhile | runs |
| `Leaderboard` | dirty rows, refresh and publication | interleavings of single statements, and a class |
| `KvStore` | versioned key-value entries with expiry | class against `Apply`, and runs |
| `ContentBlocks`, `ContentMeaning` | conditioned content blocks, the dirty flag, and what conditions see of a team's rows | class, and interleavings of transactions |
| `EligibleTeams` | selecting the teams that get a puzzle unlocked | method over sorted rows |

`dafny verify dfyconfig.toml` checks everything.

## How to read it

- A database transaction is one atomic step on maps, sequences and sets. Where the code uses several
  separate statements (leaderboard refresh, opening puzzles, the two queries of a ticket page), each is a
  step of its own and other steps may come in between.
- Times are integer ticks (microseconds; times to live in milliseconds). The i64 range, saturation,
  checked and wrapping arithmetic are written out in `CurrencyLedger`; the u32 and usize ranges of numbers
  in expressions in `GateCompiler` (64-bit `usize`).
- `PuzzleStates` is any state at all, so nothing about the compilers depends on how a state is loaded.
- A class method that changes state equates the whole new state with a function of the old one; the
  lemmas are about that function. The modules named `...Meaning`, `GateSyntax` and `TicketContents` say what
  those functions compute without using their definitions.

## Where the code is weaker than one might expect

- Setting an amount by an administrator logs an unchecked i64 difference (`src/db/team.rs:1098-1112`).
  Conservation of the ledger is exact if and only if that difference fits, and otherwise off by a
  multiple of 2^64 in a build without overflow checks: `StepConserves`, with a witness in `AdminUpdateCanWrap`.
- Opening new puzzles and marking the team dirty are two statements outside a transaction
  (`src/db/puzzle.rs:2162-2192`), and so are the passing of a release time and the scheduler's mark
  (`src/module/release.rs:52-74`). The invariant therefore exempts puzzles between the two. A block that
  became due is missing until some event, that mark or a later one, has marked the team and a refresh after
  it finds the block due: `OpenedBlockShownIff`, `ReleasedBlockShownIff`. If the mark is lost, refreshing
  alone never shows it.
- An auto-close operation carries the start of the submission's transaction and can appear in a ticket after
  newer messages. A walk over the pages still returns all that its first statement could see; a late item is
  returned exactly if it was shown when the one page whose cursors span its key was read:
  `BackWalkReturnsIff`, `PuzzleWalkReturnsIff`.
- A phase closes the currency feature at its own time, which can be earlier than a row's last write. What was
  credited in between stays: `LateTime` in `GrowthOverAllRuns`, `LateTicks` in `BalanceIsExplained`.
- `set_kv` with a preserved expiry on an expired row keeps the old expiry, so the value cannot be read
  back: `ReadAfterSet` has the exact condition. Deleting a key restarts its versions, so after a delete a
  compare-and-set can apply on a row it never read, exactly when the new row has climbed to the version
  read: `CasIsFooledIff`.
- Penalties and purchases read the balance without the lower clamp and without looking at the feature
  (`src/db/puzzle.rs:1562-1586`). `ReadingsAgreeIff` says when that makes no difference, `ClosedChargeCredits`
  what closed time then earns, `PenaltyGoesNegativeIff` when a penalty leaves a negative balance.
- A request for a full rebuild of the leaderboard can be lost (`src/db/board.rs:284-299`, `301-340`,
  `379-387`): taking a version, in a refresh or in a cold rebuild, clears it before anything is published, and
  the end of a refresh clears it even if it came after the data was read. `RequestLostIff` is exact for every
  run of every participant, `RequestLostToOneHolder` for one refresh or rebuild, by the stage it had reached.
- A draft copied from the published revision previews differently where the published revision still shows
  a delete-pending package; `DraftCopyFaithfulIff` and `DraftCopyFeaturesFaithfulIff` are exact.
- Publishing would fail on a unique constraint if two activations of one feature on delete-pending packages
  of one name had to move to the same active package. The tables allow that (`ConflictIsNotExcluded`). No
  interleaving of the staff's requests leads there, as long as no insertion of a saved activation is held up
  until its package has been replaced (`PublishingNeverConflicts`); undisturbed saves never are
  (`UndisturbedSaveIsTimely`), two that are held up can (`StalledSavesConflict`).

## Model

| member | source | states |
|---|---|---|
| Lexer.Tokenize | src/expr/parser.rs:21-48 | the buffered loop computes the maximal-munch split of the text |
| Lexer.LexExact | src/expr/parser.rs:21-48 | the tokenizer returns a token list exactly on its layouts: the tokens with white space around them, and some between adjacent atoms |
| Lexer.LexRender | src/expr/parser.rs:21-48 | every layout of a list of valid tokens is split back into that list |
| Lexer.KindMeaning | src/expr/parser.rs:21-48 | parentheses are tokens, and white space is exactly the Unicode White_Space characters, listed by code point |
| Parser.ParseFrom | src/expr/parser.rs:51-78 | the recursive loop with its moving index computes the grammar's parse, error for error |
| Parser.ParseExact | src/expr/parser.rs:50-81 | a parse succeeds with an expression exactly where its printed tokens stand, and uses exactly those |
| Parser.ParseSucceedsIff | src/expr/parser.rs:50-81 | parsing succeeds exactly when the running depth returns to zero, `used` is the first such point, and which error is returned otherwise |
| Parser.ParseSource | src/expr/mod.rs:65-72 | the whole text must be one expression: parse error, trailing tokens, or the expression |
| Parser.ParseTextExact | src/expr/mod.rs:65-72 | a text parses to an expression exactly when it is a layout of the printed expression |
| Parser.TextRoundTrip | src/expr/mod.rs:65-72 | printing any printable expression in any layout and parsing gives it back |
| Parser.PrintInjective | src/expr/parser.rs:1-19 | different expressions never print alike |
| GateCompiler.CompileGateAnd | src/expr/compiler.rs:62-86 | children are compiled in order up to the first error, then dropped, spliced or pushed as the join of their compiled forms demands |
| GateCompiler.CompileGateOr | src/expr/compiler.rs:88-109 | the same for disjunctions |
| GateCompiler.CollectPuzzleRefs | src/expr/compiler.rs:128-134 | references are collected in order, or the first error is returned |
| GateCompiler.JoinMeaning | src/expr/compiler.rs:62-109 | dropping constants, splicing nested connectives and unwrapping single children keep the truth value |
| GateCompiler.CompilePreservesMeaning | src/expr/compiler.rs:179-270 | for every expression and state the simplifying compiler gives the same error as the plain one, or a gate with the same truth value |
| GateCompiler.CompileNormalForm | src/expr/compiler.rs:62-118 | compiled gates have no constant below the root, no connective directly in its own kind, two children or more per connective, and no double negation |
| GateSyntax.NumeralsOnly | src/expr/compiler.rs:24-48 | a text is read as a number exactly if it is decimal digits, with one plus in front or none |
| GateSyntax.NumeralValue | src/expr/compiler.rs:24-48 | a digit is its value, appending a digit d to the digits of n makes 10 n + d, and a plus changes nothing |
| GateSyntax.WordMeaning | src/expr/compiler.rs:34-48 | a word for a puzzle or round is its number if it is a numeral that fits 32 bits, and else its slug |
| GateSyntax.PuzzlesForm | src/expr/compiler.rs:127-134 | `puzzles` takes any number of words and nothing else |
| GateSyntax.WordParsed | src/expr/compiler.rs:128-134 | one reference for each word, in order |
| GateSyntax.RangeForm | src/expr/compiler.rs:135-143 | `puzzle-range` takes exactly two numerals that fit 32 bits, in this order |
| GateSyntax.RoundForm | src/expr/compiler.rs:144-150 | `round` takes exactly one word |
| GateSyntax.ValueForms | src/expr/compiler.rs:157-177 | a value is a numeral that fits 64 bits, or `solved-count` of exactly one set |
| GateSyntax.NoOtherSets | src/expr/compiler.rs:120-177 | any other head, a bare word, an empty list or a list in front is an error as a set, and so as a value but for numerals |
| GateSyntax.ConstantForms | src/expr/compiler.rs:189-232 | `true`, `false` and `game-started` take no argument |
| GateSyntax.SolvedForm | src/expr/compiler.rs:209-214 | `solved` takes exactly one word |
| GateSyntax.AllSolvedForm | src/expr/compiler.rs:215-220 | `all-solved` takes exactly one set |
| GateSyntax.AnySolvedForm | src/expr/compiler.rs:221-226 | `any-solved` takes exactly one set |
| GateSyntax.TriggeredForm | src/expr/compiler.rs:233-254 | `triggered` takes exactly a word and a key: a letter, then letters, digits, `_` and `-`, at most 64 in all |
| GateSyntax.ComparisonForm | src/expr/compiler.rs:255-262 | each comparison takes exactly two values, left and right as written |
| GateSyntax.ConnectiveForms | src/expr/compiler.rs:62-109 | `and` and `or` compile exactly if all their arguments do, `not` exactly on one that does |
| GateSyntax.OtherForms | src/expr/compiler.rs:179-270 | anything else is an error: a bare word, an empty list, a list in front, an unknown head |
| GateMeaning.SolvedMeaning | src/expr/ast.rs:74-79 | `Solved` holds exactly if the puzzle of the number, or the one that has the slug, is solved; an unknown slug makes it false |
| GateMeaning.TriggeredMeaning | src/expr/ast.rs:138-141 | the same of `Triggered` with its key; `GameStarted` is the start of the game |
| GateMeaning.ConnectiveMeaning | src/expr/ast.rs:119-125 | connectives hold exactly as those of their parts do |
| GateMeaning.RangeMeaning | src/expr/ast.rs:96-103 | a range is all solved exactly if every number between its ends is, both ends included and in either order, and any solved exactly if one is |
| GateMeaning.PuzzlesMeaning | src/expr/ast.rs:90-95 | the same of a list of puzzles; one unknown slug makes both false |
| GateMeaning.RoundMeaning | src/expr/ast.rs:81-88 | the same of the list of a round, by number or slug; an unknown round makes both false |
| GateMeaning.RangeCount | src/expr/ast.rs:108-117 | the count of a range is the number of solved numbers in it |
| GateMeaning.PuzzlesCount | src/expr/ast.rs:108-117 | that of a list the number of its entries that are solved, or 0 if one is unknown |
| GateMeaning.RoundCount | src/expr/ast.rs:108-117 | that of a round the same of its list |
| GateMeaning.CmpMeaning | src/expr/ast.rs:63-72 | each of the six comparisons holds exactly if its relation does between what the two sides stand for |
| GateRange.GateTextCompiles | src/expr/compiler.rs:179-270 | a normal, well-formed gate written out as text compiles to itself |
| GateRange.CompilerRange | src/expr/compiler.rs:120-270 | some text compiles to a gate if and only if the gate is in normal form and its numbers, slugs and keys are in range |
| GateRange.RecompileIsIdentity | src/expr/compiler.rs:179-270 | writing out a compiled gate and compiling it again changes nothing |
| GateRange.DecParses | src/expr/compiler.rs:24-32 | decimal numerals up to the limit are read back as their value |
| HintDisplay.CompileHintAnd | src/expr/compiler.rs:272-296 | the loop over hint children returns the join of the compiled children or the first error |
| HintDisplay.CompileHintOr | src/expr/compiler.rs:298-322 | the same for disjunctions |
| HintDisplay.HintPreservesMeaning | src/expr/compiler.rs:333-365 | the simplifying hint compiler agrees with the plain one in error or in verdict, for every state and both flags |
| HintDisplay.CompileHintNormalForm | src/expr/compiler.rs:272-331 | compiled hint expressions are in normal form, and their gate leaves hold no connective |
| HintRange.HintTextCompiles | src/expr/mod.rs:79-82 | a normal, well-formed hint expression written out as text compiles to itself |
| HintRange.HintCompilerRange | src/expr/compiler.rs:333-365 | some text compiles to a hint expression if and only if it is in normal form and its leaves are well formed |
| HintDisplay.HintExtendsGate | src/expr/compiler.rs:333-365 | on input without hint flags the hint compiler is the gate compiler, tree for tree and error for error |
| HintDisplay.ConservativeExtension | src/expr/compiler.rs:333-365 | the gate language is exactly the hint-free part of the hint language, with the same trees and the same verdict for every enabled and cooled-down flag |
| HintDisplay.CooldownIrrelevant | src/expr/ast.rs:149-180 | an expression said not to use the cooldown has the same verdict for both values of it |
| HintDisplay.UsesCooldownIff | src/expr/ast.rs:171-180 | an expression is said to use the cooldown exactly if that flag is one of its leaves |
| HintDisplay.LeafMeaning | src/expr/ast.rs:149-169 | gates are evaluated on the state, the two flags are the hint's, and `not` negates |
| HintDisplay.ConnectiveMeaning | src/expr/ast.rs:157-162 | connectives hold exactly as those of their parts do |
| HintDisplay.FlagForms | src/expr/compiler.rs:343-354 | the two flags take no argument |
| CompileCache.FoundAfterInsert | src/expr/mod.rs:35-59 | a lookup after an insertion finds, under its key, the value of whoever came first, and under any other key what was there before, unless that was the oldest of a full cache |
| CompileCache.CompileCache.Insert | src/expr/mod.rs:39-59 | first writer wins, only the oldest entry leaves a full cache, consistency is kept, and the loop never finds the queue empty |
| CompileCache.StepKeepsInvariant | src/expr/mod.rs:84-97 | one locked section of any thread keeps the cache bounded, its queue a duplicate-free listing of its keys in first-in-first-out order, and every stored value the compilation of its key |
| CompileCache.StepServes | src/expr/mod.rs:84-97 | a lookup returns a cached result or sends its thread to compile, and a thread that has compiled leaves its key in the cache and returns the result; no other thread is touched |
| CompileCache.EveryRunKeepsInvariant | src/expr/mod.rs:84-97 | the same after every interleaving of any number of threads |
| CompileCache.CachedGateIsUncached | src/expr/mod.rs:84-101 | whatever a thread gets back is the uncached result for its text |
| HintRange.CachedHintIsUncached | src/expr/mod.rs:103-109 | and the same for the hint cache |
| TicketOrder.SortReverse | src/db/ticket.rs:229-237 | descending order is ascending order reversed |
| TicketOrder.MergeTake | src/db/ticket.rs:642-760 | cutting each of two sorted sources to n rows or more loses nothing of the first n merged rows |
| TicketOrder.TwoSources | src/db/ticket.rs:642-785 | two sources cut to m > n rows and sorted together start with the same n rows as the uncut ones, and have more than n rows exactly when those do |
| TicketPages.GetMessagesPage | src/db/ticket.rs:626-810 | two cut queries, each on the thread as its statement sees it, sorted and truncated from either end, give the first or last `limit` items between the cursors; `has_more` says whether more than `limit` qualify |
| TicketPages.PageFromTwoSources | src/db/ticket.rs:642-785 | the page built from the cut sources is the page of the full merged order |
| TicketContents.WholePage | src/db/ticket.rs:640-658 | a page that holds its whole window shows exactly the messages that no operation of the first read names, and every operation of the second |
| TicketContents.NothingTwice | src/db/ticket.rs:654-658 | when both reads see the same thread, no message is shown both on its own and in an operation |
| TicketContents.PageShows | src/db/ticket.rs:626-785 | any page holds at most `limit` shown items of its window, and one that is left out lies beyond a full page, on the side it was read to |
| TicketContents.PageOrder | src/db/ticket.rs:229-237 | items come by time; at one time openings, then messages, then closings; among these by id |
| TicketContents.EndOfThread | src/db/ticket.rs:822-847 | without cursors it is the newest end of the thread, or the oldest if that is asked for |
| TicketContents.PageHistory | src/db/ticket.rs:770-810 | `has_more` tells exactly whether something was left out, and the cursors are those of the first and last items |
| TicketContents.WindowMeaning | src/db/ticket.rs:659-667 | cursors are exclusive: after the one, or before the other, and before the stop, in that order |
| TicketContents.OrderIsTotal | src/db/ticket.rs:229-237 | of two different rows of a thread exactly one comes first |
| TicketPages.WindowStable | src/db/ticket.rs:626-810 | a window that ends at or below an item already there is not changed by items that arrive later, not even between the two statements of a page |
| TicketPages.WindowIsWindow | src/db/ticket.rs:214-245 | a window holds exactly the items between the cursors, once each, in strictly increasing (time, rank, id) order |
| TicketWalks.BackWalkIsWhole | src/db/ticket.rs:626-810 | following `before` from the default page returns every item that the first statement could see, once and in key order, whatever appears between any two statements and with whatever key, and nothing that the last could not see; in boundedly many requests |
| TicketWalks.BackWalkReturnsIff | src/db/ticket.rs:626-810 | any item, late ones included, is returned exactly if it was shown when the one page whose cursors span its key was read |
| TicketWalks.BackWalkIsThread | src/db/ticket.rs:626-810 | when items only arrive above, the walk begins with the thread as the first statement saw it and is that thread if nothing arrived by the second |
| TicketWalks.WholeIsThread | src/db/ticket.rs:626-894 | a whole collection of a thread that grew above begins with exactly the thread, in order, followed by what arrived |
| TicketWalks.FirstIsOldest | src/db/ticket.rs:836-849 | the item fetched as the oldest precedes all that its own query and the first statement could see, and all of the newest page |
| TicketPages.GetTicketPage | src/db/ticket.rs:812-894 | with a cursor, the plain page; on a puzzle ticket longer than a page, the oldest item in front of the newest 50 with cursors spanning exactly the gap, each of the six statements seeing all that the previous ones could and anything new |
| TicketPages.GlueFirst | src/db/ticket.rs:846-894 | the first item is put in front once, and the gap cursors are absent exactly when nothing lies between |
| TicketWalks.FirstGapLatestIsWhole | src/db/ticket.rs:812-894 | first item, `after`/`stop` gap pages and newest page hold every item that the very first statement could see, once and in key order, whatever appears meanwhile; in boundedly many requests |
| TicketWalks.PuzzleWalkReturnsIff | src/db/ticket.rs:812-894 | which items they hold, late ones included: none below the oldest, from the newest page on what its query showed, and in the gap what was shown when the one page whose cursors span the key was read |
| TicketWalks.FirstGapLatestIsThread | src/db/ticket.rs:812-894 | when items only arrive above, they begin with the thread as the first statement saw it and are that thread if nothing arrived by the second |
| CurrencyGrowth.CutLoss | src/db/feature.rs:296-327 | cutting open time in two loses at most one minute's growth, and nothing on a whole minute |
| CurrencyGrowth.BalanceBounds | src/db/feature.rs:296-345 | for event times in any order the balance is at most the ideal for the credited ticks, and at least one minute's growth below it for each cut off the minute |
| CurrencyGrowth.CreditedIsOpenOrLate | src/db/feature.rs:302-319 | whatever the order of the times, the credited ticks are exactly the effectively open ones and those from an effective closing to the last write before it was processed |
| CurrencyGrowth.GrowthOverAllRuns | src/db/feature.rs:296-345 | over every run, effective times in any order, open and late time earn their whole minutes up to the cap, less at most one minute's growth per cut |
| CurrencyGrowth.GrowthOverRuns | src/db/feature.rs:296-345 | over every run in time order the balance lies between the ideal for open time and the ideal less one minute's growth per cut, and equals it when all cuts fall on whole minutes; closed time earns nothing |
| CurrencyGrowth.NeverBelowFloor | src/db/team.rs:777-782 | for growth of either sign no run takes a balance below min(amount, 0), and the result fits the column |
| CurrencyGrowth.SettleIsReading | src/db/feature.rs:401-411 | settling and reading at one instant agree, in either order |
| CurrencyLedger.TeamCurrency.CurrentAmount | src/db/team.rs:947-976 | the amount read under the row lock is the lazily grown one |
| CurrencyLedger.TeamCurrency.AddCurrency | src/db/team.rs:1513-1564 | stores the clamped sum, settles the time and logs the real difference |
| CurrencyLedger.TeamCurrency.CostCurrency | src/db/team.rs:1402-1455 | takes a permitted cost and logs it, or changes nothing |
| CurrencyLedger.TeamCurrency.StaffAdjustCurrency | src/db/team.rs:1143-1218 | adjusts without clamping, or refuses for a hidden currency, a closed feature, overflow or the cap |
| CurrencyLedger.TeamCurrency.ApplyCurrencyUpdate | src/db/team.rs:1011-1044 | absent fields keep their value; an absent amount is settled to the current one only if the growth changes |
| CurrencyLedger.TeamCurrency.AdminUpdateCurrency | src/db/team.rs:1220-1249 | the update, logging a wrapped difference when an amount is given and differs from the current one |
| CurrencyLedger.TeamCurrency.BackendUpdateCurrency | src/db/team.rs:1279-1302 | the update, logging a checked difference and rolled back if it overflows |
| CurrencyLedger.TeamCurrency.SettleGrowth | src/db/feature.rs:296-327 | credits whole minutes, never moves the time back |
| CurrencyLedger.TeamCurrency.UpdateGameGrowth | src/db/game.rs:331-339 | a growth change settles at the old growth first, if the feature is open |
| CurrencyLedger.TeamCurrency.SetCurrencyFeature | src/db/feature.rs:401-411 | closing settles, opening moves the time forward, setting the same state does nothing |
| CurrencyLedger.AddLands | src/db/team.rs:1513-1564 | adding lands in [min(current, 0), max], exactly where unbounded addition clamped there would, and its difference fits i64 |
| CurrencyLedger.CostTakenIff | src/db/team.rs:1393-1400 | a cost is taken exactly when covered and a refund exactly when it fits; no positive cost leaves a negative balance |
| CurrencyLedger.ApplyKeepsValid | src/db/team.rs:1011-1044 | every operation keeps amounts within the column and at or below the cap |
| CurrencyMeaning.ReadingMeaning | src/db/team.rs:777-782 | an open balance is the stored amount and the growth of the whole minutes, up to the cap and down to zero or a negative stored amount; a closed one is as stored; a price is read without the last two |
| CurrencyMeaning.AddMeaning | src/db/team.rs:1513-1564 | adding stores the sum, cut at the cap and at zero or a negative amount, and logs what was really added |
| CurrencyMeaning.SpendMeaning | src/db/team.rs:1393-1455 | a cost is taken exactly if it is covered, a refund exactly if it fits, with its entry; otherwise nothing changes |
| CurrencyMeaning.StaffAdjustTakenIff | src/db/team.rs:1143-1218 | an adjustment is taken exactly if the currency is shown and open and the sum fits i64 and the cap, and then the amount is that sum |
| CurrencyMeaning.StaffAdjustAnswer | src/db/team.rs:1143-1152 | which of the two bounds a refused adjustment broke |
| CurrencyMeaning.AdminUpdateMeaning | src/db/team.rs:1011-1112 | fields that are not given stay, a given amount is cut at the cap, and the log entry, modulo 2^64, is there exactly if the amount was given and differs |
| CurrencyMeaning.BackendUpdateMeaning | src/db/team.rs:1011-1086 | the same with an entry whenever the amount is given, and no change at all if the difference overflows |
| CurrencyMeaning.PenaltyMeaning | src/db/puzzle.rs:1562-1643 | a penalty is subtracted without a floor and logged, or fails on overflow |
| CurrencyMeaning.PurchaseMeaning | src/db/puzzle.rs:2950-2995 | a price is paid and logged exactly if it is covered or zero |
| CurrencyMeaning.SwitchMeaning | src/db/feature.rs:296-345 | a change of growth, an opening and a closing leave the reading of that moment as it is; a closing, or a new growth while open, stores it, and closed time earns nothing |
| CurrencyConservation.StepConserves | src/db/team.rs:1087-1127 | one operation moves the stored amount by credited growth plus what it logs, exactly if and only if an administrator's difference fits i64, else up to a multiple of 2^64 |
| CurrencyConservation.LedgerConservation | src/db/team.rs:1011-1127 | the same summed over every run of operations, charges, feature changes and growth changes |
| CurrencyAccrual.CutCredits | src/db/team.rs:947-976 | a write of the row while the feature is open credits the whole minutes since the last one times the growth, up to the cap |
| CurrencyAccrual.EarnedIsCreditedTime | src/db/feature.rs:296-345 | over every run what is credited, or still to be credited, is between nothing and the growth for the credited ticks in whole minutes, and below the cap at most one minute's growth less for each cut off the minute |
| CurrencyAccrual.CreditedIsOpenOrLate | src/module/release.rs:52-74 | the credited ticks are exactly the open ones by the effective times of the feature, and the late ones |
| CurrencyAccrual.InOrderIsNotLate | src/db/feature.rs:296-345 | with times in order nothing is late, so closed time earns nothing |
| CurrencyAccrual.BalanceIsExplained | src/db/team.rs:777-782 | the balance shown is the initial amount plus the logged deltas plus growth within those bounds |
| CurrencyAccrual.ClosedChargeCredits | src/db/puzzle.rs:1562-1586 | a charge while the feature is closed credits closed time, exactly unless it earns nothing or the balance is at the cap |
| CurrencyConservation.AdminUpdateCanWrap | src/db/team.rs:1098-1112 | for every positive balance an update whose logged difference is wrapped |
| CurrencyLedger.TeamCurrency.ChargePenalty | src/db/puzzle.rs:1562-1643 | the currency penalty of a wrong submission: the unclamped reading less the penalty, logged, unless a value leaves the column |
| CurrencyLedger.TeamCurrency.PayPrice | src/db/puzzle.rs:2950-2995 | the price of a hint (or, with the same statement, of a ticket message): taken and logged exactly when covered |
| CurrencyLedger.ReadingsAgreeIff | src/db/puzzle.rs:1566-1571 | when the reading of penalties and purchases is the shared one, open and closed |
| CurrencyLedger.NonNegativeIff | src/db/team.rs:1393-1455 | adding, spending, growth, feature changes and charges keep a non-negative balance, exactly except a penalty above the reading and a free purchase at a negative one; all stay at or below the cap |
| CurrencyLedger.PenaltyGoesNegativeIff | src/db/puzzle.rs:1562-1586 | while currency grows, a penalty leaves a negative balance exactly when it exceeds the current amount |
| Features.CodesMatchStates | src/db/feature.rs:52-108 | stored codes and states determine each other on exactly the states a feature has |
| FeaturesMeaning.StoredNumbers | src/db/feature.rs:40-108 | which number stands for which feature and state |
| FeaturesMeaning.NewGame | src/db/feature.rs:50-58 | a new game has every feature open and the leaderboard live |
| Standings.RankedIsRanking | src/db/feature.rs:272-290 | the ranking holds the rows of the started teams that are not banned, once each, sorted (by `RankedOrder`) |
| StandingsMeaning.RankedOrder | src/db/feature.rs:281-284 | a team stands above another exactly if it finished and the other did not or later, or with equal finish has more solves, or with equal counts its every solve is before some solve of the other, or then the smaller id |
| StandingsMeaning.RankedTeams | src/db/feature.rs:276-288 | a row for exactly the started teams that are not banned, with their finish, number of solves and last solve |
| StandingsMeaning.LiveBoardOrder | src/db/board.rs:86-150 | the live board is in the same order |
| StandingsMeaning.LiveBoardTeams | src/db/board.rs:86-150 | and lists exactly those of these teams that are on the board |
| StandingsMeaning.LockedBoardMeaning | src/db/board.rs:86-150 | a locked board lists exactly the teams that were ranked at the lock and are now not banned and on the board |
| Standings.LockedBoardIsLive | src/db/board.rs:86-150 | locking changes nothing on the board at that moment; later only teams that are banned or hidden go missing, in unchanged order |
| Features.FeatureTable.LockLeaderboard | src/db/feature.rs:251-294 | a lock freezes the ranking of the teams once; an existing lock stays |
| Features.FeatureTable.SetState | src/db/feature.rs:347-440 | the whole new state of one change: refused, skipped as replayed by its phase, or applied with its lock, its growth effect and its history entry |
| Features.FeatureTable.ApplyPhaseChanges | src/db/feature.rs:442-479 | all rows of a phase or none, and whether the leaderboard was among those applied |
| FeaturesMeaning.ChangeMeaning | src/db/feature.rs:347-440 | a change recorded before for its phase and feature changes nothing; any other sets that feature alone, records old and new state, phase, actor and time, takes, keeps or drops the lock, and settles or resumes growth exactly when currency closes or opens |
| FeaturesMeaning.PhaseMeaning | src/db/feature.rs:442-479 | a phase fired for the first time sets each of its rows, leaves the other features and records every row in order |
| FeaturesMeaning.PhaseAgain | src/db/feature.rs:355-372 | firing it again, at any time, changes nothing |
| FeaturesMeaning.BadPhase | src/db/feature.rs:456-463 | nor does a phase with one row that does not decode |
| Features.ReplaysHaveNoEffect | src/db/feature.rs:355-372 | any run equals the run without all but the first application of each (phase, feature) pair |
| FeaturesMeaning.FirstOnlyMeaning | src/db/feature.rs:355-372 | the first applications hold no pair twice, nothing but operations of the run, and for every one of them itself or its pair |
| FeaturesMeaning.HappeningMeaning | src/db/feature.rs:442-515 | phases, manual changes (a state the feature does not have changes nothing) and play take effect one after another |
| FeaturesMeaning.GoodRowsValid | src/db/feature.rs:70-108 | a phase row is good exactly if it holds the number of a feature and of one of its states |
| Features.ApplyKeepsReachable | src/db/feature.rs:347-440 | every change keeps: a lock exists exactly while the leaderboard is Locked, each history chains old to previous new state, growth effects alternate; a lock in force keeps its frozen standings |
| Features.RunKeepsReachable | src/db/feature.rs:347-479 | the same over every run from a new game |
| Features.FrozenIsARanking | src/db/feature.rs:251-294 | in every run a lock in force shows the ranking of the teams at one earlier moment |
| Features.EveryGameIsConsistent | src/db/feature.rs:442-515 | the invariants and the effect of replays for every interleaving of phases with arbitrary rows, manual changes and play |
| Frontend.FrontendTables.NextRevision | src/db/frontend.rs:354-364 | the least number above all revisions of the game |
| FrontendMeaning.NextNumberMeaning | src/db/frontend.rs:354-364 | that number is new, and no smaller positive one is above all of them |
| Frontend.FrontendTables.EnsureDraft | src/db/frontend.rs:366-407 | the existing draft untouched, or one new draft with the published rows |
| Frontend.FrontendTables.CleanDraft | src/db/frontend.rs:521-566 | the moving and deleting statements on bindings and activations have the specified result, or a conflict |
| Frontend.FrontendTables.Publish | src/db/frontend.rs:507-598 | refused without a draft, a unique violation exactly on conflicting activations, and otherwise a publication |
| Frontend.CollideIffConflicting | src/db/frontend.rs:531-550 | moving activations makes two rows one exactly when two pending packages of one name carry a feature that the active one does not |
| Frontend.PublishPreservesMeaning | src/db/frontend.rs:507-639 | for every surface, round and puzzle the published revision resolves to what previewing the draft gave, and so does the new draft apart from its number; the same for features |
| FrontendMeaning.ResolveMeaning | src/db/frontend.rs:600-637 | resolving answers from the previewed revision of the game, or else its published one: the puzzle's binding whenever it is usable, else the round's, else the game's, and nothing only if none of the three is; a binding is usable if it names no package or its package is shown |
| FrontendMeaning.ResolvePriority | src/db/frontend.rs:625-630 | that priority within one revision, whatever the other scopes hold |
| FrontendMeaning.RowMeaning | src/db/frontend.rs:608-624 | the row carries the revision's number, the binding's renderer and the shown package with its asset group; a draft shows the active package of the name in place of a delete-pending one |
| FrontendMeaning.FeaturesMeaning | src/db/frontend.rs:716-742 | the feature rows are exactly the activations of that revision on packages of the game that are shown |
| Frontend.PublicationHasNoPending | src/db/frontend.rs:507-598 | neither revision names a delete-pending package |
| Frontend.PublishLeavesOtherGames | src/db/frontend.rs:600-639 | other games resolve as before, with and without preview |
| Frontend.DraftCopyFaithfulIff | src/db/frontend.rs:366-407 | a copied draft previews like the published revision exactly where that shows no delete-pending package |
| Frontend.DraftCopyFeaturesFaithfulIff | src/db/frontend.rs:716-742 | and previews the same features exactly if none of its game's is activated on a delete-pending package |
| FrontendAdmin.OnePackageNeverConflicts | src/db/frontend.rs:531-550 | a revision whose activations are on one package per name can always be published |
| FrontendAdmin.UploadNeverCollides | src/api/admin/frontend.rs:1354-1390 | nor does an upload fail when it moves a draft's activations to the new package |
| FrontendAdmin.StepKeepsInvariant | src/api/admin/frontend.rs:854-1161 | uploading, deleting, purging, restoring, saving, opening a draft and publishing keep the tables' constraints and one package per name, given that an insertion is timely |
| FrontendAdmin.InsertKeepsIff | src/api/admin/frontend.rs:1103-1143 | the statement that inserts a saved activation keeps that exactly if the revision has none on another package of the name |
| FrontendAdmin.UndisturbedSaveIsTimely | src/api/admin/frontend.rs:1103-1143 | so it does after the check and the clearing statement with nothing in between |
| FrontendAdmin.StalledSavesConflict | src/api/admin/frontend.rs:1103-1143 | two saves inserting after their packages were replaced leave a draft that cannot be published |
| FrontendAdmin.PublishingNeverConflicts | src/api/admin/frontend.rs:854-1390 | from empty tables no run of these with timely insertions leads to a draft whose publication violates the unique constraint, or to an upload that fails on its draft |
| FrontendLive.StaffWorkIsUnseen | src/api/admin/frontend.rs:854-1390 | in every such run, between two publications, nothing the staff upload, delete, purge, restore or change in drafts changes what players of any game are shown |
| FrontendLive.StepLeavesPublished | src/api/admin/frontend.rs:854-1390 | one such request keeps the published rows and the packages and files they name |
| FrontendLive.StepKeepsWithin | src/api/admin/frontend.rs:1016-1143 | no revision comes to refer to another game's packages |
| FrontendLive.UploadIdMeaning | src/api/admin/frontend.rs:1202-1289 | an upload replaces the active package of its name in place, if the published revision does not name it, and is a new package otherwise |
| FrontendLive.UploadMeaning | src/api/admin/frontend.rs:1240-1289 | it is the active package of its name with its own files, the one it succeeds is to be deleted, and all others are as they were |
| FrontendLive.UploadActivations | src/api/admin/frontend.rs:1354-1390 | draft activations on the name move to the upload if it has the feature and go otherwise; others stay |
| FrontendLive.UploadCollidesIff | src/api/admin/frontend.rs:1354-1390 | moving them fails exactly if two packages of the name carry one of its features |
| FrontendLive.UploadInDraft | src/api/admin/frontend.rs:1300-1390 | a draft binding on a package of the uploaded name shows the upload if that has its renderer, and is gone otherwise; others stay |
| FrontendLive.SaveInDraft | src/api/admin/frontend.rs:1016-1078 | a saved binding is shown by the draft at once, exactly if it names no package or an active one of the game; every other place stays |
| FrontendLive.DeleteMeaning | src/api/admin/frontend.rs:854-947 | deleting marks a package the published revision names, and otherwise removes every reference so that the purge removes it |
| FrontendLive.RestoreMeaning | src/api/admin/frontend.rs:949-977 | a package comes back exactly if it is marked and no other of its name is active |
| FrontendAdmin.ConflictIsNotExcluded | src/db/frontend.rs:531-550 | the constraints of the tables alone allow such a draft |
| Leaderboard.MainBoard.MarkTeamDirty | src/db/board.rs:413-440 | a mark draws a fresh revision and commits the team's row with it |
| Leaderboard.MainBoard.ReadMaxRevision | src/db/board.rs:357-364 | the maximum of the visible revisions, or none |
| Leaderboard.MainBoard.TakeNextVersion | src/db/board.rs:284-299 | the next version of the board, clearing a requested full rebuild |
| Leaderboard.MainBoard.PublishSnapshot | src/db/board.rs:208-230 | the built snapshot becomes the latest |
| Leaderboard.MainBoard.DeleteCovered | src/db/board.rs:368-378 | exactly the rows up to the maximum read earlier are removed |
| Leaderboard.MainBoard.RefreshGame | src/db/board.rs:345-397 | a refresh that fails at any point is a run of the protocol that releases the lock; a completed undisturbed one leaves nothing dirty or requested and the present data published |
| Leaderboard.DeleteLosesNoMark | src/db/board.rs:355-378 | removing the covered rows loses no mark, however marks and their commits interleave |
| Leaderboard.StepKeepsInvariant | src/db/board.rs:208-440 | every statement of every participant keeps the protocol invariant |
| Leaderboard.EveryRunIsSafe | src/db/board.rs:208-440 | in every interleaving a team leaves the dirty table only once a snapshot read after its latest mark is published, published versions strictly increase, and a clean team is shown as it is |
| Leaderboard.ColdRebuildPublishes | src/db/board.rs:301-340 | an undisturbed cold rebuild publishes the present data as the next version, clears a request and leaves every mark for the next refresh |
| Leaderboard.RequestLostIff | src/db/board.rs:284-397 | in every run of every participant the latest request for a full rebuild is lost exactly if a later statement cleared the flag and no snapshot published later was read after the request |
| Leaderboard.RequestLostToOneHolder | src/db/board.rs:301-397 | for one refresh or cold rebuild, amid anything else: before its version is taken, or its lock, exactly if it takes the version and does not publish; between version and data never; after the data exactly if it clears the flag at its end |
| KvStore.KvTable.GetEntry | src/db/puzzle_backend.rs:562-588 | expired rows are invisible |
| KvStore.KvTable.SetEntry | src/db/puzzle_backend.rs:602-649 | inserts at version 1 or overwrites with the next version and the chosen expiry; no other key changes |
| KvStore.KvTable.IncrementEntry | src/db/puzzle_backend.rs:663-730 | the same, starting over on an expired row and changing nothing if the sum is refused |
| KvStore.KvTable.SetIfAbsent | src/db/puzzle_backend.rs:768-808 | claims an absent or expired key, else reports what a read finds |
| KvStore.KvTable.CompareAndSetEntry | src/db/puzzle_backend.rs:832-880 | overwrites a live row at the expected version only |
| KvStore.KvTable.DeleteEntry | src/db/puzzle_backend.rs:892-916 | removes the row and says whether there was one |
| KvStore.VersionCountsWrites | src/db/puzzle_backend.rs:602-880 | without deletes the version grows by exactly the number of applied mutations, through expiry and reclaim |
| KvStore.VersionIsSinceDelete | src/db/puzzle_backend.rs:602-916 | over all runs, deletes included, the version is the number of writes since the last delete |
| KvStore.CasAppliesIff | src/db/puzzle_backend.rs:832-880 | over all runs a compare-and-set at the version read earlier applies exactly when that count is the version read and the row is live; without deletes, exactly when nothing was applied since and the row still lives, overwriting the row that was read |
| KvStore.CasIsFooledIff | src/db/puzzle_backend.rs:832-916 | it applies although something was applied since, exactly when a delete lies between and the new row has climbed to the version read |
| KvStore.DeleteBreaksCas | src/db/puzzle_backend.rs:892-916 | every row of every version can be replaced by one that a compare-and-set takes for it |
| KvStore.ClaimAppliesIffUnread | src/db/puzzle_backend.rs:768-808 | a claim applies exactly when a read at that moment finds nothing |
| KvStore.ReadAfterSet | src/db/puzzle_backend.rs:619-633 | a value just set can be read back, exactly when it is permanent, has a positive time to live, or preserves the expiry of no row or a live one |
| KvStore.ReadUntil | src/db/puzzle_backend.rs:602-916 | for every writing statement the value that is read afterwards, and until when: for ever, until the time to live is up, or as long as the kept expiry of the old row allows |
| KvStore.WritesIff | src/db/puzzle_backend.rs:602-916 | for every statement when exactly it writes; otherwise the row stays |
| KvStore.ClaimsAreSeparated | src/db/puzzle_backend.rs:768-808 | two applied claims with only refused claims and expiry-preserving writes between them are the first one's time to live apart |
| KvStore.LoopsAreSequential | src/db/puzzle_backend.rs:602-880 | any interleaving of read-modify-compare-and-set loops with other writes and additions equals applying the successful writes one after another, each update on the value before it, with the version counting them |
| KvStore.LoopStepMeaning | src/db/puzzle_backend.rs:602-880 | which statements of such a run write and what: a client's update exactly if the row is still the one it read and is live, and then its update of the value that is there |
| ContentBlocks.TeamRows.InsertTriggers | src/db/puzzle.rs:1333-1351 | the team is marked exactly when a trigger row was new |
| ContentBlocks.TeamRows.Submit | src/db/puzzle.rs:1333-1488 | triggers, first solve and first start of one transaction, each marking the team |
| ContentMeaning.SubmissionMeaning | src/db/puzzle.rs:1333-1488 | which triggers, solves and start a submission adds, that it unlocks nothing, and that it marks the team exactly if a row changed |
| ContentBlocks.TeamRows.PendingBlocks | src/db/content.rs:490-537 | exactly the conditioned blocks on opened, released pages that are not unlocked yet |
| ContentBlocks.TeamRows.RefreshUnlocksIfDirty | src/db/content.rs:467-565 | adds exactly the due blocks and clears the flag, or does nothing if it is clear |
| ContentMeaning.RefreshMeaning | src/db/content.rs:467-565 | a refresh of a marked team adds exactly the blocks of opened, released pages whose condition holds, takes none back, and clears the flag; of any other it changes nothing |
| ContentMeaning.PageMeaning | src/db/content.rs:498-515 | the page of a block is open exactly if its puzzle, or some puzzle of its round, is opened by the team and released |
| ContentMeaning.RefreshUnlocksIffSolved | src/db/content.rs:467-565 | so a block with the condition that p is solved is unlocked exactly if the team has a row for p with state 1 or more |
| ContentMeaning.ConditionMeaning | src/db/content.rs:374-395 | conditions on a solved puzzle, a trigger and the start of the game hold exactly as the team's rows say |
| ContentMeaning.SlugConditionMeaning | src/db/content.rs:440-448 | a slug stands for the puzzle of the last row that carries it, and a slug of no row for nothing |
| ContentMeaning.SlugsMeaning | src/db/content.rs:440-457 | and so for rounds |
| ContentMeaning.RoundConditionMeaning | src/db/content.rs:449-451 | a round is all solved exactly if it has a puzzle and the team solved each, and any solved exactly if it solved one |
| ContentMeaning.RangeConditionMeaning | src/db/content.rs:374-377 | a range is all solved exactly if the team solved every puzzle from end to end |
| ContentMeaning.RoundListPlace | src/db/content.rs:449-451 | each puzzle row of a round stands in its list, at its place among them |
| ContentMeaning.RoundListHas | src/db/content.rs:449-451 | and the list holds nothing else |
| ContentMeaning.RoundListLength | src/db/content.rs:449-451 | with as many entries as rows, and a list only if there are any |
| ContentMeaning.ConnectiveConditionMeaning | src/expr/ast.rs:119-125 | a connective holds for a team exactly as its parts do |
| ContentBlocks.TeamRows.ClearUnlock | src/db/content.rs:322-350 | removing an unlock marks the team |
| ContentBlocks.TeamRows.InsertOpened | src/db/puzzle.rs:2162-2181 | rows are inserted only where there was none, and those are returned |
| ContentBlocks.RefreshCompletes | src/db/content.rs:467-565 | after a refresh of a marked team every due block is unlocked, pages still awaiting their mark included |
| ContentBlocks.StepKeepsComplete | src/db/content.rs:352-363 | every transaction keeps: while the flag is clear no due block of a settled page is missing |
| ContentBlocks.EveryRunIsComplete | src/db/content.rs:352-565 | the same after every interleaving of submissions, hint purchases, openings, releases, marks, refreshes and clearings |
| ContentBlocks.UnlockedIffEarned | src/db/content.rs:467-565 | without clearings a block is unlocked exactly when some refresh found it due, and no refresh takes it back |
| ContentBlocks.PageShowsWhatIsDue | src/db/content.rs:567-593 | after a refresh with no mark outstanding the page shows every due block, and a conditioned block only if it was found due at some refresh |
| ContentBlocks.OpeningMakesDue | src/db/puzzle.rs:2162-2181 | opening a released puzzle makes due exactly the blocks of its page and its round whose condition held before |
| ContentBlocks.OpenedBlockShownIff | src/db/puzzle.rs:2162-2192 | such a block appears exactly when some later event has marked the team and a refresh after it finds the block due; refreshing alone never shows it |
| ContentBlocks.ReleasingMakesDue | src/db/content.rs:500-515 | a release makes due exactly the blocks of an open puzzle's page and round whose condition holds |
| ContentBlocks.ReleasedBlockShownIff | src/db/release.rs:359-380 | the same between the passing of a release time and the scheduler's mark |
| ContentBlocks.FlagAfterStep | src/db/content.rs:352-363 | the flag is set exactly by the events that mark the team and cleared only by a refresh |
| EligibleTeams.FlushTeam | src/db/puzzle.rs:2309-2330 | appends the team just read exactly if it is eligible |
| EligibleTeams.CollectEligible | src/db/puzzle.rs:2304-2345 | over rows sorted by team, the eligible teams once each and in order |
| EligibleTeams.ScanKeepsInvariant | src/db/puzzle.rs:2332-2344 | at every row the solved set is that of the team being read and all earlier teams are decided |
| EligibleTeams.RowsDescribeTeam | src/db/puzzle.rs:2288-2302 | the rows of a candidate carry exactly its solved set and start |
| EligibleTeams.SelectsEligibleTeams | src/db/puzzle.rs:2288-2345 | the result is exactly the teams without the puzzle whose own solved set, start and triggers satisfy the condition |
| EligibleTeams.EligibleMeaning | src/db/puzzle.rs:2217-2330 | a team is eligible on a solved puzzle, a trigger or the start exactly if it lacks the puzzle and its own rows say so |
| EligibleTeams.RangeEligibleMeaning | src/db/puzzle.rs:2217-2330 | and on a range exactly if it lacks the puzzle and has solved all from end to end, or one |
| EligibleTeams.EligibleForPuzzle | src/db/puzzle.rs:2217-2345 | the same from the condition's text, whose compile error is returned |

## Left out

- HTTP handlers, sessions, storage, e-mail, JavaScript backends and judges: plumbing around foreign code.
- Formatted error messages: errors are structured values; which error comes first is kept.
- Parser.ParseFrom: does not model stack depth, because recursion in the model is unbounded.
- Cursor encoding (base64, JSON, dates): a cursor is the triple it carries.
- TicketWalks.BackWalkIsThread: assumes that items only arrive above those seen; `BackWalkIsWhole` and `BackWalkReturnsIff` do not.
- TicketWalks.FirstGapLatestIsThread: makes the same assumption; `FirstGapLatestIsWhole` and `PuzzleWalkReturnsIff` do not.
- CurrencyGrowth.GrowthOverAllRuns: does not model BIGINT overflow of the summed growth or of its product, which the queries compute in NUMERIC.
- CurrencyConservation.LedgerConservation: covers one team and one currency whose cap stays fixed.
- CurrencyLedger.TeamCurrency.UpdateGameGrowth: leaves out that the same statement rewrites the cap, because a lowered cap does not re-clamp balances in the code and every bound by the cap would need its history.
- CurrencyAccrual.EarnedIsCreditedTime: takes growth that is not negative and charges while the feature is open; `ClosedChargeCredits` has the other case.
- Frontend.PublishPreservesMeaning: package version, manifest and hash are one `content` value, and feature rows are compared as a set.
- Leaderboard.EveryRunIsSafe: says nothing of `full_rebuild` (see `RequestLostIff`), the per-process cache or key expiry, and reads teams and members of a snapshot as one step.
- FrontendAdmin.StepKeepsInvariant: takes each request but the saving of an activation as one step; checks that only refuse requests are left out, so more requests succeed than in the code.
- KvStore.KvTable.IncrementEntry: takes the floating-point sum, and whether it is in range, as a parameter.
- KvStore.VersionCountsWrites: does not model BIGINT overflow of versions.
- KvStore.LoopsAreSequential: leaves out deletes, which restart the versions (`CasIsFooledIff`).
- Scope-in-game checks of the key-value store: a query that only refuses foreign ids.
- ContentBlocks.EveryRunIsComplete: the staff's blocks, rounds and slugs stay fixed, immediate single-puzzle releases and clearing a puzzle's team states are not steps, and the set opened by an unlock is arbitrary rather than computed from conditions.
- EligibleTeams.EligibleForPuzzle: takes slugs and rounds from a given state, because the two ways of loading round puzzles differ (`src/db/puzzle.rs:1832-1836`, `src/db/content.rs:449-451`).
- Hint purchase availability, anonymisation, validators and listing queries: easy members only.
