# Javelina: the conformance instrument and two engine gates

This project models the part of the Javelina repository that decides what is covered and what is
accepted, and proves what it promises:

- **The stitching enumerator** (`Saturating`, `WaterFilling`, `Odometer`, `Rules`, `Snippets`, `Enumeration`,
  `Coverage`, `MemoKeys`, `Demand`, `StitcherLog`, `StitcherSteps`, `Stitchers`, `Corpus`, `Registries`,
  `TreeNames`). All well-typed trees of bounded height are specified by a plain recursion; the capped
  enumeration by another; and the class with its memo table, drop log and wrapping counters is proved to
  compute the second, whatever was asked of it before. `Powers`, `LeafLibraries`, `SilentLoss` and
  `CapLimits` settle at which caps its promises hold; `LogEntries` says what each log entry means.
- **The composed oracle** (`Ieee`, `DoubleFields`, `Vals`, `Composition`, `JavaSemantics`, `OracleArithmetic`,
  `OracleSoundness`, `Stitchings`). The bottom-up fold of expected values equals a reference evaluator
  for the Java expressions the trees render; doubles are bit patterns with their IEEE 754 values.
- **The coverage ledger** (`Decimals`, `Sections`, `Sorting`, `Tsv`, `Ledgers`, `Rereading`, `Markers`,
  `Gates`, `UpdateThenCheck`, `Transcription`, `Manifests`, `CountedCoverage`). Printer against parser,
  update path against check path, local row checks against global shape, and the generator's manifest
  against the gate that counts it. `Numerals`, `TableText`, `OrderLaws`, `SectionNumbers` and `GateReports`
  say what is read, compared and reported in terms of the text and the rows alone.
- **The module structure gate** (`ModuleStruct`): a rank scan against the module grammar of the
  WebAssembly Core Specification 3.0, section 5.5.
- **Host import resolution** (`HostResolve`): a length-prefixed key and an index against a scan of the table.

Text files are sequences of characters, one for each byte. Java's int and long arithmetic is mathematical
with the wrap written out. Code that updates state is a class or a method over arrays, proved against a
specification function; the functions carry the properties.

## What the code does not do

- The comment at `conformance/gen/Stitcher.java:32` says saturation keeps a product of hole counts from
  overflowing. It does if and only if the cap is at most 18446 (`CountsAreExactUpTo`).
- The claim at `conformance/gen/Stitcher.java:203`, that an empty log means a complete enumeration, holds
  exactly at the caps for which no product of list lengths within the cap wraps round to a count within the
  cap (`LogIsTrueIff`): up to 18446, and not from 18485 on (`LogIsTrueUpTo`, `EmptyLogCanLie`).
- No snippet is starved only while a type has no more usable snippets than the cap (`EveryRootIsKept`), and
  only up to a cap of 32767 (`NobodyIsStarvedIff`). From 32768 on a product of exactly 2^64 is counted as
  nothing and a whole type can vanish without a log entry (`TypeCanVanish`).
- `Stitching.expect` caches a value before it checks the value's type, so a wrong value is refused once and
  then returned (`AskTwice`).
- `Registry.register` enters a rejection with holes under its id before refusing it (`Register`).
- `Emit.cmpSection` is not an order on arbitrary sections (`SectionsCanCycle`).
- A file named just `.java`, or with nothing but carriage returns before its first tab or newline, claims a
  section under a name that does not survive the ledger: the update writes a COVERED row that reads back
  without a reason, which the status rules refuse (`StatusFailsOnlyOnNA`, `ReasonIsLost`, `LostNames`).
- An artifact whose name holds a tab, a newline, a character past 255, or ends the list in a carriage
  return does not survive the ledger file, and each later update counts its row as changed again
  (`SecondUpdate`).

## Model

| member | source | states |
|---|---|---|
| `Saturating.SatProductIsLower` | conformance/gen/Stitcher.java:90-97 | whatever the list lengths, the saturating 64-bit product lies between 0 and the true product: wrap-around can only lose |
| `Saturating.SatProductExact` | conformance/gen/Stitcher.java:32-34 | for lists no longer than 18446 the saturating product is min(true product, 10^15); no 64-bit wrap is ever visible |
| `Saturating.CountsAreExactUpTo` | conformance/gen/Stitcher.java:32-34 | the bound is sharp: the counts are exact for all lists within a cap if and only if the cap is at most 18446 |
| `Saturating.SatProductWraps` | conformance/gen/Stitcher.java:95 | a concrete input past the bound: five holes over 18447 fillings each are counted below the saturation point |
| `Saturating.SmallWraps` | conformance/gen/Stitcher.java:32-34 | no product of lists within the cap wraps round to a count within the cap, for caps up to 18446; one does for every cap from 18485 on |
| `Saturating.SatProductPositive` | conformance/gen/Stitcher.java:90-97 | with lists no longer than 32767 a count is 0 only when some list is empty: no step of the count comes to exactly 2^64 |
| `Saturating.VanishingWraps` | conformance/gen/Stitcher.java:95 | with one list of 32768 it can: a product of exactly 2^64 is counted as 0 |
| `WaterFilling.FairShareIsFair` | conformance/gen/Stitcher.java:161-165 | quotas lie within the offers, sum to exactly min(total, budget), and of two unsatisfied snippets neither is ahead by more than the one unit that goes to the earlier registered |
| `WaterFilling.FairShareIsUnique` | conformance/gen/Stitcher.java:161-165 | those promises determine the division: there is no other |
| `WaterFilling.FairShareIsOptimal` | conformance/gen/Stitcher.java:161-165 | for every threshold t and every feasible allocation q, the sum of min(quota, t) is at least the sum of min(q, t) |
| `WaterFilling.RemainderIsSmall` | conformance/gen/Stitcher.java:182-187 | the level is the largest whose fill fits, and the remainder is smaller than the number of unsatisfied snippets, so one pass spends it |
| `WaterFilling.NobodyStarves` | conformance/gen/Stitcher.java:161-165 | every snippet with an offer keeps something if and only if there are no more such snippets than the budget has units |
| `WaterFilling.SaturatingFill` | conformance/gen/Stitcher.java:191-195 | the saturating sum is min(true fill, 10^15) for every level |
| `WaterFilling.FindLevel` | conformance/gen/Stitcher.java:177-182 | the binary search returns the largest level whose fill fits the budget, though it compares saturated sums |
| `WaterFilling.WaterFill` | conformance/gen/Stitcher.java:166-189 | the arrays-and-loops water-fill, with its saturating total, computes the one fair share |
| `Odometer.Filling` | conformance/gen/Stitcher.java:118-125 | reading k in mixed radix, last hole fastest, yields the k-th tuple of the nested loops, for every k |
| `Odometer.TuplesAreAllPicks` | conformance/gen/Stitcher.java:118-127 | the tuples are exactly the ways to pick one filling for each hole |
| `Odometer.TuplesAreDistinct` | conformance/gen/Stitcher.java:118-127 | and none occurs twice |
| `Odometer.TuplesCount` | conformance/gen/Stitcher.java:90-97 | their number is the product of the list lengths |
| `Snippets.AllIsExact` | conformance/gen/Stitcher.java:55-63 | the uncapped enumeration lists a tree if and only if it is well-typed, of the type, and has at most `depth` levels of holes |
| `Snippets.AllDistinct` | conformance/gen/Stitcher.java:55-63 | each exactly once |
| `Enumeration.CappedIsSound` | conformance/gen/Stitcher.java:63-145 | a capped list never holds a tree that is ill-typed, too deep or of another type, even when the counters wrap |
| `Enumeration.CappedDistinct` | conformance/gen/Stitcher.java:63-145 | and never holds a tree twice |
| `Enumeration.CappedSize` | conformance/gen/Stitcher.java:103-128 | a kept list has exactly min(total offer, cap) trees |
| `Enumeration.OfferIsExact` | conformance/gen/Stitcher.java:89-97 | up to a cap of 18446 what a snippet offers is the number of its fillings, saturated |
| `Enumeration.KeptIsPrefix` | conformance/gen/Stitcher.java:118-127 | what a snippet keeps is a prefix of its fillings in nested-loop order |
| `Enumeration.CutMeansOverBudget` | conformance/gen/Stitcher.java:110-111 | a cut is noted if and only if the offers exceed the cap |
| `Enumeration.CutLosesTrees` | conformance/gen/Stitcher.java:110-128 | a cut really loses a well-typed tree |
| `Enumeration.CutFreeIsComplete` | conformance/gen/Stitcher.java:203-209 | at every cap without small wraps (`NoSmallWrap`): without a cut at or below a type and depth, the kept list is the whole enumeration |
| `Coverage.EmptyTogether` | conformance/gen/Stitcher.java:77-128 | up to a cap of 32767, `stitch(t, d)` is empty if and only if there is no well-typed tree of that type and height |
| `Coverage.EveryRootIsKept` | conformance/gen/Stitcher.java:161-165 | up to a cap of 32767, every snippet that roots any tree roots a kept one if and only if the type has no more such snippets than the cap has places |
| `SilentLoss.EmptyLogCanLie` | conformance/gen/Stitcher.java:203-205 | for every cap from 18485 on, a registrable library over which enumerations run through and no consistent state of a stitcher ever has a log entry, and yet all but 14744 of more than 2^64 well-typed trees are missing |
| `SilentLoss.LogIsTrueIff` | conformance/gen/Stitcher.java:203-209 | for every cap: an empty log means complete enumerations, for every registry and every run, if and only if `NoSmallWrap(cap)` |
| `SilentLoss.LogIsTrueUpTo` | conformance/gen/Stitcher.java:203-209 | so it does up to a cap of 18446 and does not from 18485 on |
| `SilentLoss.LogStaysEmpty` | conformance/gen/Stitcher.java:130-139 | over a registry whose root counts within the cap, no run logs anything |
| `CapLimits.NothingVanishesIff` | conformance/gen/Stitcher.java:77-128 | a kept list is empty only when there is no tree to keep, for every registry, if and only if the cap is at most 32767 |
| `CapLimits.NobodyIsStarvedIff` | conformance/gen/Stitcher.java:161-165 | a snippet is starved only when its type has more usable snippets than the cap, for every registry, if and only if the cap is at most 32767 |
| `CapLimits.TypeCanVanish` | conformance/gen/Stitcher.java:95 | from a cap of 32768 on, a registrable library whose whole root type vanishes, 2^64 trees and their one root snippet, with nothing logged |
| `CapLimits.FiguresAreTrueIff` | conformance/gen/Stitcher.java:130-136 | the log's `enumerable` is the saturated number of trees over the lists kept one level down, for every registry, if and only if the cap is at most 18446 |
| `LeafLibraries.RootType` | conformance/gen/Stitcher.java:89-128 | what is enumerated from a registry of leaves and one snippet over them: the true product of the leaf counts, and what is kept of it as counted |
| `LeafLibraries.LibraryIsRegistrable` | conformance/gen/Registry.java:35-69 | such a registry can be built by successful registrations |
| `MemoKeys.KeyIsInjective` | conformance/gen/Stitcher.java:65 | `type@depth` determines both, whatever the type name holds |
| `Demand.MissingIsDemanded` | conformance/gen/Stitcher.java:69-72 | the type named in the failure is really demanded and really produced by nothing |
| `Demand.RunsIffSupplied` | conformance/gen/Stitcher.java:69-72 | an enumeration fails if and only if some demanded hole type is produced by nothing |
| `StitcherLog.MemoLookup` | conformance/gen/Stitcher.java:64-67 | a memo hit occurs exactly for finished enumerations and holds the memo-free answer |
| `StitcherLog.EmptyLogMeansComplete` | conformance/gen/Stitcher.java:203-209 | after any run of calls, at every cap without small wraps, the log is empty if and only if every enumeration made so far is complete |
| `StitcherLog.RecordedIsConsistent` | conformance/gen/Stitcher.java:130-144 | finishing an enumeration keeps memo, log and counters consistent: one entry for each cut pair, counters equal to the sums over the entries |
| `LogEntries.EntryMeans` | conformance/gen/Stitcher.java:130-139 | of every entry in any consistent log: lost and kept make up what was enumerable, what was kept is the length of the kept list and equals the cap, and it is marked saturated if and only if the figure is 10^15 |
| `LogEntries.DetailIs` | conformance/gen/Stitcher.java:112-139 | the details name exactly the candidates that kept fewer trees than they offered, with both figures |
| `LogEntries.EntryDetails` | conformance/gen/Stitcher.java:130-139 | and the details under an entry are those of its type's candidates, with their fair shares |
| `LogEntries.CountersMean` | conformance/gen/Stitcher.java:197-216 | `dropped` is the wrapped sum, over the distinct finished jobs that are cut, of enumerable minus trees kept; `cuts` the wrapped number of these jobs |
| `LogEntries.KeptInOrder` | conformance/gen/Stitcher.java:109-128 | kept trees stand snippet by snippet in registration order, and each snippet's in the order of its fillings |
| `LogEntries.CorpusInOrder` | conformance/gen/Stitcher.java:149-159 | the corpus goes type by type in the order given |
| `Stitchers.PlantFillings` | conformance/gen/Stitcher.java:118-127 | the loop materialises exactly the first quota tuples, in order |
| `Stitchers.Materialise` | conformance/gen/Stitcher.java:106-128 | pass 3 keeps of each candidate exactly its quota of first tuples, in registration order, and details exactly the candidates cut |
| `Stitchers.Stitcher.Finish` | conformance/gen/Stitcher.java:103-144 | passes 2 and 3 and the accounting take the state to the specified next one, whatever the offers |
| `Stitchers.NewStitcher` | conformance/gen/Stitcher.java:46-51 | a stitcher is made if and only if the cap is positive |
| `Stitchers.Stitcher.constructor` | conformance/gen/Stitcher.java:46-51 | starts with nothing enumerated, an empty log and zero counters |
| `Stitchers.Stitcher.Stitch` | conformance/gen/Stitcher.java:63-145 | whatever was asked before, the answer, or the failure, is that of the memo-free recursive function; only shallower or equal depths are added to the memo and the log; the invariant is kept |
| `Stitchers.Stitcher.Record` | conformance/gen/Stitcher.java:130-144 | the whole new state after one enumeration: memo entry, log entry, both counters with their wrap-around |
| `Stitchers.Stitcher.Survey` | conformance/gen/Stitcher.java:77-101 | pass 1 yields the offers, the fillings and the saturated total of the specification, or the missing type |
| `Stitchers.Stitcher.StitchAll` | conformance/gen/Stitcher.java:147-159 | the corpus is the concatenation of the types' lists in registration order, or the first failure |
| `Corpus.EmptyLogAnswer` | conformance/gen/Stitcher.java:203-209 | with an empty log, at every cap without small wraps, a finished answer lists every well-typed tree of the type and height exactly once and nothing else |
| `Corpus.CorpusDistinct` | conformance/gen/Stitcher.java:147-159 | no tree occurs twice in the whole corpus |
| `Corpus.EverySnippetIsARoot` | conformance/gen/Stitcher.java:147-165 | up to a cap of 32767, in the corpus every snippet that can root a tree does, when its type's usable snippets fit the cap |
| `Corpus.EnumerableIsCount` | conformance/gen/Stitcher.java:130-136 | up to a cap of 18446, the `enumerable` figure of the log is the number of trees rooted over the lists kept one level down, saturated |
| `Registries.Registry.Register` | conformance/gen/Registry.java:35-69 | a snippet is accepted if and only if it is well-formed, new, and without holes when it is a rejection; otherwise the first broken rule is reported; every table stays a view of the registration order; a rejection with holes is refused only after it has been entered |
| `Registries.Registry.Bucket` | conformance/gen/Registry.java:78-85 | a bucket is the subsequence of the registered snippets of the type, in registration order, and rejections are in none |
| `Registries.TypesAreProduced` | conformance/gen/Registry.java:87-96 | the listed types are exactly the produced ones, each once |
| `Registries.EarlierTypesFirst` | conformance/gen/Registry.java:66-96 | the types of any initial part of the library come first, in the same order: each type stands where it was first registered |
| `Registries.RefusalIs` | conformance/gen/Registry.java:35-61 | each of the six refusals has its exact condition, in which `void` and the empty type fill no hole and the checks before it have passed |
| `Registries.RejectsAre` | conformance/gen/Registry.java:58-76 | the rejections are exactly the registered snippets of type `reject` without holes |
| `TreeNames.NameIsUnique` | conformance/gen/Stitching.java:86-100 | with unique ids free of '(', ')' and ',', two well-typed stitchings have the same printed name if and only if they are the same tree |
| `TreeNames.CaseCommentsDiffer` | conformance/gen/Stitching.java:86-100 | so the names of one enumeration are pairwise different |
| `TreeNames.NamesCanCollide` | conformance/gen/Stitching.java:86-100 | without that condition, which registration does not check, two different trees can print alike |
| `Stitchings.NewStitching` | conformance/gen/Stitching.java:29-46 | a stitching is made if and only if its children fill the holes, one each and of the right type; otherwise the wrong number, or the first child of the wrong type, is reported |
| `Stitchings.Stitching.constructor` | conformance/gen/Stitching.java:29-46 | a stitching of children that fill the holes, one each and of the right type, stands for that tree, with nothing cached |
| `Stitchings.Stitching.Expectation` | conformance/gen/Stitching.java:64-84 | the cached answer is the fold of the tree whenever the fold is well-behaved, whatever has been asked before; a filled cache is what answers |
| `Stitchings.Stitching.Id` | conformance/gen/Stitching.java:88-100 | the cached name is the name of the tree |
| `Stitchings.AskTwice` | conformance/gen/Stitching.java:65-82 | the value is cached before its type is checked, so the check refuses a value once and the second call returns it, exactly when the type is wrong |
| `Ieee.BitsOfPattern` | conformance/gen/Lib4.java:439-448 | the NaN, infinity and sign tests on the pattern are those of the encoded IEEE 754 value, and clearing the sign leaves the magnitude |
| `Ieee.KeyIsOrderIsomorphism` | conformance/gen/Lib4.java:450-458 | for all non-NaN patterns the keys are ordered as the encoded values are, and equal exactly when the values are: the two zeros share one key |
| `Ieee.EqualPatterns` | conformance/gen/Lib4.java:745-760 | values are equal if and only if both are zeros or the patterns are the same |
| `Ieee.NegationOfLess` | conformance/gen/Lib4.java:782-810 | `>=` is the negation of `<` if and only if neither operand is NaN |
| `DoubleFields.DecodeClass` | conformance/gen/Lib4.java:394-448 | a pattern of sign, 11-bit exponent and 52-bit fraction is NaN exactly for the top exponent with a fraction, an infinity exactly for the top exponent without, and a number for the others |
| `DoubleFields.DecodeValue` | conformance/gen/Lib4.java:394-448 | the number is (2^52 + f) * 2^(e-1075) for exponent e from 1 to 2046 and f * 2^-1074 for exponent 0, with the sign |
| `DoubleFields.ComparisonsOfFields` | conformance/gen/Lib4.java:745-810 | the four composed comparisons, for any two patterns, said of these fields alone: unordered with NaN, equal as zeros or field by field, less by sign, exponent and fraction |
| `DoubleFields.NegationOfFields` | conformance/gen/Lib4.java:850-858 | unary minus inverts the sign bit of every pattern but a NaN's, which gives 0x7FF8000000000000 |
| `OracleSoundness.DoublePairs` | conformance/gen/Lib4.java:745-810 | what the four comparison snippets compose over patterns and keys is IEEE 754 comparison, NaN included |
| `OracleArithmetic.TruncatedIsQuotient` | conformance/gen/BootSnippets.java:287-300 | the host division the oracle uses is the quotient of largest magnitude not beyond the dividend |
| `OracleArithmetic.QuotientIsTheRule` | conformance/gen/BootSnippets.java:284-300 | the reference quotient is the one integer the rule of JLS 15.16.2 describes |
| `OracleArithmetic.QuotientFits` | conformance/gen/BootSnippets.java:297 | the quotient leaves the type's range exactly for MIN_VALUE / -1, at every width |
| `OracleArithmetic.RemainderByIdentity` | conformance/gen/Lib4.java:549-550 | a - (a/b)*b is the remainder with the dividend's sign, and forming it never wraps |
| `OracleArithmetic.ComplementIs` | conformance/gen/Lib4.java:592-623 | inverting every bit of the operand is -x-1, at 32 and 64 bits and for every operand |
| `OracleSoundness.FirstThrowIsSound` | conformance/gen/Val.java:157-165 | answering the first throwing hole is where left-to-right evaluation stops |
| `OracleSoundness.CondIsSound` | conformance/gen/Lib4.java:1036-1048 | ?: answers its condition's throw or the taken arm, whatever the arm not taken would do |
| `OracleSoundness.CastIsSound` | conformance/gen/BootSnippets.java:248-263 | the checked cast: null passes, a String passes, anything else is a ClassCastException |
| `OracleSoundness.IntsAreSound` | conformance/gen/Lib4.java:505-552 | + - * / % on ints, composed in 64 bits and truncated, are the language's 32-bit operators |
| `OracleSoundness.LongsAreSound` | conformance/gen/Lib4.java:559-590 | + / % on longs likewise, MIN_VALUE / -1 included |
| `OracleSoundness.IntIsSound` | conformance/gen/Lib4.java:595-671 | unary minus, plus, complement and the conversions of an int |
| `OracleSoundness.LongIsSound` | conformance/gen/Lib4.java:611-656 | unary minus and complement of a long, MIN_VALUE included |
| `OracleSoundness.DoubleIsSound` | conformance/gen/Lib4.java:815-858 | x != x exactly for NaN, and unary minus inverts the sign of everything but NaN |
| `Composition.ExpectIs` | conformance/gen/Stitching.java:63-84 | the fold has a value exactly when every child has one, their number is the rule's, the rule composes them, and a number or boolean has the very type the snippet declares, unless that is `void` |
| `OracleSoundness.ComposeIsSound` | conformance/gen/BootSnippets.java:195-313 | one step of the fold: on holes whose values match their expressions, the composed value matches the rendered expression, for every snippet of the fragment |
| `OracleSoundness.SourcesExist` | conformance/gen/Stitching.java:36-46 | every well-typed expression stitching of the fragment renders an expression |
| `OracleSoundness.ExpressionIsSound` | conformance/gen/Stitching.java:63-84 | for every such tree the bottom-up `expect` trips no accessor and no type check, and equals the reference left-to-right evaluation with exceptions |
| `OracleSoundness.StatementIsSound` | conformance/gen/Stitching.java:63-84 | a statement stitching prints, or throws, exactly what it composes |
| `OracleSoundness.SharingIsSound` | conformance/gen/Lib4.java:1054-1076 | assigning to a second variable does not reach the first |
| `Tsv.Read` | conformance/gates/Tsv.java:14-34 | the scanning loop yields the split of every line that is not empty, a comment or blank, in order |
| `Tsv.Split` | conformance/gates/Tsv.java:44-59 | the fields between the tabs, each without trailing carriage returns |
| `Decimals.ParsePrinted` | conformance/gates/Tsv.java:103-105 | parsing a printed int gives it back |
| `Decimals.DigitsOfCanonical` | conformance/gen/Emit.java:389-397 | a numeral without leading zeros is the numeral of its value |
| `Numerals.ParseIntIs` | conformance/gates/Tsv.java:103-105 | a text is read as v exactly when it spells v, between any blanks and control characters and behind any zeros, and v is an int; every other text gives the default |
| `TableText.LinesAre` | conformance/gates/Tsv.java:20-25 | the lines of a text are the pieces its newlines end, and what follows the last newline unless that is empty |
| `TableText.FieldsArePieces` | conformance/gates/Tsv.java:44-65 | the fields of a line are the pieces between its tabs, each trimmed of its carriage returns |
| `TableText.SkippedIs` | conformance/gates/Tsv.java:26-28 | a line is passed over exactly when it starts with `#` or nothing but spaces and carriage returns stands between its tabs |
| `Ledgers.Load` | conformance/gates/Ledger.java:27-45 | the rows of the table, missing columns empty and a missing or malformed page -1 |
| `TableText.SixColumns` | conformance/gates/Ledger.java:35-43 | which column is which, and that columns past the sixth do not matter |
| `TableText.MissingColumns` | conformance/gates/Ledger.java:35-43 | a row too short is the row filled up with empty columns, and a page that is not there is -1 |
| `Ledgers.LoadedRowsAreSafe` | conformance/gates/Ledger.java:27-45 | every row the loader returns is one that survives being written |
| `Ledgers.RowReadsBack` | conformance/gates/GatesMain.java:245-247 | such a row, printed with tabs, splits and parses back to itself |
| `Ledgers.WrittenReadsBack` | conformance/gates/GatesMain.java:222-249 | for every old text and all rows: the written text loads as those rows if and only if every row is one a loader could return |
| `Rereading.WrittenRereads` | conformance/gates/GatesMain.java:222-249 | for all rows whatsoever, the written text loads as the concatenation of what each row alone comes back as |
| `Rereading.RowRereads` | conformance/gates/GatesMain.java:245-247 | however a reason breaks its line, the first row read back has the section, title, page and status, and the reason up to its first tab or newline |
| `Rereading.ReasonIsLost` | conformance/gates/Tsv.java:44-65 | nothing of a reason survives if and only if only carriage returns stand before its first tab or newline |
| `Rereading.HeaderIsKept` | conformance/gates/GatesMain.java:219-235 | the leading comment lines survive any rewrite whose first row has a head that can be written |
| `Gates.Join` | conformance/gates/GatesMain.java:178-205 | the loops report the findings of the specification in order, and count them |
| `Gates.StatusDiscipline` | conformance/gates/GatesMain.java:127-155 | the complaints row by row, and their number |
| `Gates.Excuse` | conformance/gates/GatesMain.java:158-174 | an N/A reason is refused if and only if one of the six phrases occurs in it, letter case aside |
| `Gates.Rewrite` | conformance/gates/GatesMain.java:218-251 | the text written is the old header and the updated rows, low bytes only, and the count is of the rows that changed |
| `Gates.CopyHeader` | conformance/gates/GatesMain.java:222-235 | the loop copies exactly the leading empty and comment lines |
| `GateReports.FindingIs` | conformance/gates/GatesMain.java:178-205 | a finding is reported if and only if some row is N/A and claimed, claimed and neither COVERED nor N/A, or COVERED and unclaimed, or some marker names a section no row has |
| `GateReports.StrayCount` | conformance/gates/GatesMain.java:197-202 | a marker is reported exactly as often as it is there when the ledger lacks its section, and never otherwise |
| `GateReports.SilentMeansReconciled` | conformance/gates/GatesMain.java:178-205 | the join is silent if and only if the COVERED rows are exactly the claimed ones and every marker names a row |
| `GateReports.ComplaintIs` | conformance/gates/GatesMain.java:127-155 | which rows get which complaint: COVERED without ids, N/A without a reason, N/A with an excuse, and any status but the three |
| `GateReports.ExcuseIs` | conformance/gates/GatesMain.java:157-174 | a reason is an excuse exactly when one of the six phrases is spelt in it, in whatever case |
| `GateReports.UpdatedRowIs` | conformance/gates/GatesMain.java:236-244 | an N/A row stays; a claimed one becomes COVERED by its claimants; any other UNCOVERED with an empty reason |
| `GateReports.ChangesAreMoved` | conformance/gates/GatesMain.java:236-249 | the count of an update is the number of rows it leaves different from before |
| `UpdateThenCheck.CheckAgreesWithUpdate` | conformance/gates/GatesMain.java:178-196 | the check is silent about a row and its status is legal if and only if the update would leave its status and it is not a claimed N/A row |
| `UpdateThenCheck.UpdateKeepsTranscription` | conformance/gates/GatesMain.java:209-217 | section, title, page and behaviour never change, and N/A rows not at all |
| `UpdateThenCheck.NoChanges` | conformance/gates/GatesMain.java:236-249 | zero rows are counted as changed if and only if the update changes nothing |
| `UpdateThenCheck.UpdateReadsBack` | conformance/gates/GatesMain.java:218-251 | for every ledger file and marker set, the file written loads as exactly the updated rows if and only if every recorded claim is safe to write |
| `UpdateThenCheck.SafeClaimIs` | conformance/gates/Markers.java:126-143 | what that asks of the artifacts: field characters only, and no carriage return at the end of the greatest |
| `UpdateThenCheck.UpdateThenJoin` | conformance/gates/GatesMain.java:178-205 | for every ledger file and marker set: after an update and a reload the join reports the claimed N/A rows, the markers naming sections still unknown, and the findings about the rows that newlines in a claim create |
| `UpdateThenCheck.UnbrokenUpdateThenJoin` | conformance/gates/GatesMain.java:178-205 | where no claim writes a newline these are exactly the claimed N/A rows and the markers naming unknown sections |
| `UpdateThenCheck.UpdateKeepsHeader` | conformance/gates/GatesMain.java:219-235 | for every ledger file and marker set the leading comment lines survive the update |
| `UpdateThenCheck.SecondUpdate` | conformance/gates/GatesMain.java:218-251 | a second update changes zero rows if and only if the claims are safe, and then it writes the same text |
| `UpdateThenCheck.UpdateThenStatus` | conformance/gates/GatesMain.java:127-155 | for every ledger file and marker set: after an update and a reload the status rules complain of the N/A rows as before, of the claimed rows whose reason does not survive, and of the rows created by newlines |
| `UpdateThenCheck.StatusFailsOnlyOnNA` | conformance/gates/GatesMain.java:127-155 | where no claim writes a newline they fail only on N/A rows, if and only if every other claimed row keeps something of its reason when read back |
| `UpdateThenCheck.SafeClaimKeepsReason` | conformance/gates/Markers.java:126-143 | a claim that is safe to write is kept, unless a single artifact without a name makes it |
| `UpdateThenCheck.LostNames` | conformance/gates/Markers.java:63-64 | a file called just `.java`, or a carriage return and `.java`, makes a claim of which nothing survives |
| `Transcription.Check` | conformance/gates/GatesMain.java:75-124 | the loop with its running page, sibling look-ups and chapter table reports the faults of the specification, and counts them |
| `Transcription.SilentMeansWellTranscribed` | conformance/gates/GatesMain.java:75-124 | no fault is reported if and only if the whole ledger has its shape: titles, sorted pages, gapless siblings, and 22 non-empty chapter blocks in increasing order, each on its own pages |
| `Transcription.NoHolesIsGapless` | conformance/gates/GatesMain.java:94-105 | asking each row for its previous sibling is the same as every sibling list running from 1 without a gap |
| `Transcription.Blocks` | conformance/gates/Ledger.java:11-16 | sorted pages and disjoint chapter ranges force the rows into contiguous chapter blocks |
| `SectionNumbers.SiblingIs` | conformance/gates/Ledger.java:59-69 | parent and leaf of a section built from a parent and a leaf are those |
| `SectionNumbers.ChapterIs` | conformance/gates/Ledger.java:52-57 | the chapter of `c.rest`, for any int c and any rest, and of `c` itself, is c |
| `SectionNumbers.ChapterOfParent` | conformance/gates/Ledger.java:52-63 | a section lies in the chapter of its parent |
| `SectionNumbers.OneComponent` | conformance/gates/Ledger.java:52-69 | a section without a dot is its own chapter and leaf and has no parent |
| `SectionNumbers.LastComponent` | conformance/gates/Ledger.java:59-69 | the parent is what stands before the last dot and the leaf what stands after it |
| `Transcription.FaultIs` | conformance/gates/GatesMain.java:75-124 | each fault is reported if and only if some row has it, by its own condition on title, page, siblings or chapter, or no row at all belongs to the chapter it names |
| `Transcription.StartIs` | conformance/gates/Ledger.java:11-16 | a chapter starts one page after the lengths of the chapters before it, added up |
| `Markers.Collect` | conformance/gates/Markers.java:74-106 | the scanning loops collect the markers of the specification |
| `Markers.CollectedIsExact` | conformance/gates/Markers.java:71-106 | a file adds exactly the sections its lines claim, and no pair is ever listed twice |
| `Markers.ClaimLoop` | conformance/gates/Markers.java:83-103 | the position-by-position scan of one line finds the claim the grammar of markers describes |
| `Markers.ClaimIs` | conformance/gates/Markers.java:83-103 | a line claims a section if and only if it is blanks, two slashes, spaces, `JLS`, a space or more, digits and dots not ending in a dot, further dots, and then anything that does not go on with a digit or a dot |
| `Markers.EmittedMarkerIsClaimed` | conformance/gen/Emit.java:85-90 | the marker line written for a dotted section is read as a claim of exactly that section |
| `Markers.ByLoop` | conformance/gates/Markers.java:126-143 | the in-place sort and join compute the sorted, comma-joined claimants |
| `Markers.ByIgnoresOrder` | conformance/gates/Markers.java:120-125 | any arrangement of the same markers gives the same text |
| `Markers.ByIsEmpty` | conformance/gates/Markers.java:126-143 | the text is empty exactly when nobody claims the section or a single nameless artifact does |
| `GateReports.ByNames` | conformance/gates/Markers.java:126-143 | the text is a list of names in order that holds each artifact as often as it claims the section, and no other |
| `GateReports.CommasBetween` | conformance/gates/Markers.java:137-142 | with one comma between any two names |
| `Sections.SplitDots` | conformance/gen/Emit.java:375-386 | counting the dots and cutting at each yields the components, always at least one |
| `Sections.CompareSectionsLoop` | conformance/gen/Emit.java:363-373 | the component loop computes the comparison of the specification, 32-bit wrap of long numerals included |
| `Sections.SectionsCompareLikeNumbers` | conformance/gen/Emit.java:346-373 | on components without leading zeros and of at most nine digits, the comparison is the lexicographic order of the number sequences, 0 for equal sections only |
| `Sections.SectionsCanCycle` | conformance/gen/Emit.java:363-373 | off them it need not be an order: 9 before 10, 10 before 1a, 1a before 9 |
| `OrderLaws.FirstDifference` | conformance/gen/Emit.java:369 | texts are told apart by their first differing characters, and else by their lengths |
| `OrderLaws.ComponentIs` | conformance/gen/Emit.java:388-398 | a component's number is its value on 32 bits, for any number of digits, or -1 if it is no numeral |
| `OrderLaws.FirstComponent` | conformance/gen/Emit.java:363-373 | on any two sections the first components that are neither the same text nor the same number decide, as numbers if both are, as text otherwise; else the longer one comes after |
| `Sorting.InsertionSort` | conformance/gen/Strs.java:40-47 | the in-place insertion sort computes the sort function, under either comparison |
| `Sorting.SortKeeps` | conformance/gen/Strs.java:37-47 | sorting permutes |
| `Sorting.SortSorts` | conformance/gen/Strs.java:37-47 | under a total order the result is sorted |
| `Sorting.SortIgnoresOrder` | conformance/gen/Strs.java:37-47 | and does not depend on the order things arrive in |
| `Sorting.SortIsStable` | conformance/gen/Emit.java:346-361 | under any comparison, entries it does not tell apart keep the order they came in |
| `Sorting.SortedSections` | conformance/gen/Emit.java:351-361 | on canonical sections `sortSections` returns the one arrangement in increasing order of their numbers |
| `Manifests.WriteManifest` | conformance/gen/GenMain.java:112-141 | the two loops, the sort and the printing write the manifest of the specification |
| `Manifests.ManifestIsExact` | conformance/gen/GenMain.java:112-134 | the lines are those of the roots and rejections that cite a section, sorted, none twice, and no other |
| `Manifests.DistinctFor` | conformance/gates/GatesMain.java:388-399 | the loop counts the ids listed for a section |
| `Manifests.CountsAreCitations` | conformance/gen/GenMain.java:112-141 | under any heading of comment lines: written, read back and counted, every section has exactly the ids of the roots and rejections citing it, if and only if every citation can survive the file |
| `CountedCoverage.CountIsCoverage` | conformance/gen/GenMain.java:100-141 | from registry to gate, up to a cap of 32767: when types fit the cap, the count for a section is the number of registered snippets that cite it and can root a tree or be rejected |
| `ModuleStruct.ScanIsGrammar` | wasm/src/jav_module_struct.c:57-68 | for every sequence of section ids the strictly-increasing-rank scan accepts exactly what the module production of section 5.5.17 derives |
| `ModuleStruct.RankIsPosition` | wasm/src/jav_module_struct.c:23-36 | a rank is the place in the prescribed order, and only custom sections have none |
| `ModuleStruct.RanksFollowIds` | wasm/src/jav_module_struct.c:23-36 | ids from 1 to 11 rank as they are numbered, tags (13) between memories and globals, the data count (12) between elements and code |
| `ModuleStruct.LookupIsUnambiguous` | wasm/src/jav_view_nav.c:34-44 | in an accepted module first-match lookup of a non-custom id finds the only one |
| `ModuleStruct.SectionCount` | wasm/src/jav_module_struct.c:41-46 | the count of the section found is the total over all sections with the id, or the default |
| `ModuleStruct.LocalsOverflow` | wasm/src/jav_module_struct.c:82-90 | for any number of groups the 64-bit running sum refuses exactly the functions with 2^32 locals or more, and never wraps |
| `ModuleStruct.JavModuleStruct` | wasm/src/jav_module_struct.c:49-93 | the verdict is the first broken rule of section 5.5: grammar, function and code counts, data count, locals; none broken, none reported |
| `ModuleStruct.AcceptedIs` | wasm/src/jav_module_struct.c:49-93 | by literal ids: a module passes if and only if its ids are in order, the code count is the function count, a data count that is there is the data count, and no function declares 2^32 locals or more |
| `ModuleStruct.RefusedFor` | wasm/src/jav_module_struct.c:49-93 | and each refusal means that its rule is broken and those before it are not |
| `ModuleStruct.NoDataCountIsLegal` | wasm/src/jav_module_struct.c:72-80 | a module without a data count section may have any number of data segments |
| `HostResolve.KeyIsInjective` | compiler/driver/host_io.h:513-536 | no two name pairs share a key, whatever bytes they hold |
| `HostResolve.KeyBytes` | compiler/driver/host_io.h:528-536 | a pair has a key exactly when its names hold at most 94 bytes, and the key starts with the length of the first name, low byte first |
| `HostResolve.DotIsNotInjective` | compiler/driver/host_io.h:516-522 | joining the names with a dot would make two imports share one |
| `HostResolve.BuildIndex` | compiler/driver/host_io.h:538-549 | the index answers every fitting pair with its last row |
| `HostResolve.SigOk` | compiler/driver/host_io.h:558-574 | the single loop accepts exactly the types whose parameters and results the contract's letters admit, one for one; no contract admits any type |
| `HostResolve.SigIsPrinted` | compiler/driver/host_io.h:558-574 | a contract admits a type of number and reference kinds if and only if it is the printed form of the type: i, I, f, F for kinds 0 to 3, r from 128 on, a colon before the results |
| `HostResolve.VectorsAreRefused` | compiler/driver/host_io.h:568-572 | a type with a kind from 4 to 127 in it is admitted by no contract |
| `HostResolve.Resolver.Resolve` | compiler/driver/host_io.h:593-620 | an import is bound to a native exactly when the last row with that very pair admits its type and the key fits; otherwise to the hook, otherwise to the stub trapping under mod.fld; the index may be built before or now |
| `HostResolve.DistinctTableAnswers` | compiler/driver/host_io.h:528-549 | where no pair is listed twice, a fitting import is answered by a row if and only if that exact pair is a row and its signature admits the declared type |
| `HostResolve.DottedIs` | compiler/driver/host_io.h:616-620 | an import nobody answers traps under its two names with a dot between |
| `HostResolve.Resolver.Build` | compiler/driver/host_io.h:538-549 | the index is built once and then left alone |

## Left out

- Files, directories, the clock, the command line, standard output and exit codes: texts, marker lists and
  tables are parameters, and what a gate prints is a list of structured findings.
- The walk over directories that finds the marker files; `Markers.Collect` takes one file and its artifact name.
- Null references: the checks for a null snippet, id, type or list have no counterpart.
- Stitchers.Stitcher.Stitch: trees are values, so that a memoised array is shared and not copied is not said;
  a registry that changes after stitching has begun leaves the memo stale and is outside the invariant. A
  negative depth is the depth 0 it is clamped to. Log lines are records with the same figures.
- StitcherLog.EmptyLogMeansComplete: stated at every cap with `NoSmallWrap`, which is the exact condition
  (`SilentLoss.LogIsTrueIff`). Its value is derived up to 18446 and from 18485 on; for the caps between, it is a
  question about the factors of some forty numbers near 10^15 that is not evaluated.
- Registries.Registry.Register: an enumeration of `all()` and `byId` beyond the id table is not modelled.
- Stitchings.Stitching.constructor: children that do not fit are excluded by a precondition; `NewStitching` is
  the source's constructor with its refusals. The source's other caches, of the rendered text and the
  sections, hold the same kind of value and are not modelled.
- OracleSoundness.ExpressionIsSound: covers the literals, conversions, + - * / %, unary, boolean, ?: and
  double-comparison snippets. Left out are double and float arithmetic, int to double and float to double
  (rounding and decimal printing of floats are outside the model), snippets that declare classes, and those
  whose `expect` reads a hole without checking for a throw.
- Ieee.KeyIsOrderIsomorphism: `doubleToLongBits` is taken to give every NaN the one canonical pattern, as
  its documentation says; the 32-bit float helpers, the same shape, are not repeated.
- The fixed-text snippet libraries (`Lib5` to `Lib15`): programs with constant answers.
- Ledgers.Load: columns past the sixth are dropped, as the source drops them, so a rewrite loses them; the
  round trip speaks of the six.
- Manifests.WriteManifest: the three comment lines that head the file are a parameter.
- The ratchet on uncovered rows, the hand-written-case gate and the `cardinality.tsv` loop: thresholds on
  counts; the count itself is `Manifests.DistinctFor`.
- The rest of the emitter: case files, package directories, file names, folding of comments.
- ModuleStruct.JavModuleStruct: the decoder, the span index and its navigation are not modelled; a module is
  its section list with each section's id, count and groups of locals.
- HostResolve.Resolver.Resolve: the rows are a parameter; sizes are unbounded where the source adds sizes of
  objects in memory; allocation of the binding and the natives behind it are not modelled. A signature must
  hold a colon, as every row's does.
- HostResolve.BuildIndex: the dictionary is a map in which a later entry replaces an earlier one.
- Strings are sequences of Dafny characters; surrogate pairs play no part.
- The garbage collector, the JIT, the e-graph pass and the validator of section 7 are not part of this model.
