# Greased-Grep in Dafny

Greased-Grep (`gg`) searches files for several strings at once and prints
the name of every file that holds all of its accept strings and none of its
reject strings. Its core is a byte-indexed trie of 256-cell transition
planes and a scanner that walks the trie over a buffer.

This project models the following parts of it, in Dafny:

- **Cells.** A cell (`Atom`) is a 32-bit union: an 8-bit target plane
  `tgt` and a 24-bit signed terminal `str` (module `Atoms`).
- **Case folding.** `toupper`/`tolower` as used by insert, on ASCII
  (module `Bytes`).
- **The tables and `insert`.** They appear twice:
  - as values: planes, the first-byte list `s_firsts`, the terminal sets
    `s_set`, and one pattern's insert (module `StateMachine`);
  - as the class `Table`, whose methods change those fields in place
    (module `Tables`).
- **The search of one buffer (`Table::follow`).** The skip to the next
  byte that can start a pattern, the walk from the root plane, the
  accepted and rejected sets, the immediate rejection and the early exit
  (module `Scan`, with the loops in `Tables`).
- **Why the search answers the question.** After the patterns are
  inserted, `follow` reports a buffer exactly when every accept pattern
  has an occurrence and no reject pattern does (module `Correctness`).
- **The variant generators and the generator table** (module `Variants`).
- **`tokenize`** and its unit test (module `Tokenizer`).
- **The two orderings used to sort and deduplicate.** The first-byte list
  and the set of alternatives (module `Ordering`).
- **`GreasedGrep` itself** (module `Grep`):
  - `option`, `ingest`, both `compile`s, and the preparation in
    `operator()` before the search;
  - first as functions of a `World` value;
  - then as the class `Session`, whose fields are the program's globals
    and whose methods are proved against those functions.

Errors are modelled as outcomes. `syntax` and `synopsis` end the program
and are `Fatal`. Where the program wraps, throws or exhausts memory, or has
undefined behaviour, the modelled run stops with `Undefined`. These cases
are:

- a 257th plane: its number wraps to 0 in the `uint8_t` that holds it, and
  the trie is corrupted (see "Left out");
- `levenshtein1` on an empty phrase: `substr (1)` throws `out_of_range`;
- `ellipses` on an empty phrase: `size () - 1` wraps, and the loop appends
  empty strings until memory runs out;
- `a_source[N-1]` on an empty source, reached only when the opening
  delimiter is NUL: undefined behaviour;
- the debug read of `a_target[0]` on an empty vector: undefined behaviour.
  Only `Variants.Generate`, the generator run as written, stops there.
  Compile runs the corrected generators (`Variants.Produce`), so the
  modelled `gg -v "Hello World[a]" dir` goes on with the "HW" alternatives
  (see Findings and "Left out").

The terminal scheme is a parameter (`Direct` | `Indirect`). `SETINDIRECT`
is not defined, so the program as built uses `Direct`: a cell's `str` holds
the signed pattern identifier. A later pattern that ends on the same cell
overwrites the earlier identifier. `Correctness.Final` exposes this: the
identifier a folded pattern ends up with is the last one inserted for it.

The identifier of a pattern is `sign * (|list| - 1)`:

- positive for accept patterns, negative for reject patterns;
- its 1-based position in its list.

Both lists start with a placeholder entry, and `accepted` starts as `{0}`.
So with no accept patterns, every buffer with no reject pattern in it is
reported, even an empty one.

Where the code and its documentation differ, the model follows the code:

- Under variant syntax, compile inserts the whole argument, brackets
  included, before it cuts the phrase at `[`. The model does the same.
- Options are accepted until the first pattern is pushed, not only before
  the first non-option argument: an argument is held in `s_target`, and a
  pattern is pushed only when the next non-option argument arrives.
- An empty `s_target` is never pushed. An empty argument still pushes the
  held one and is then held itself; the next argument replaces it, and it
  is never pushed.
- `compile (sign, sv)` calls a two-argument `insert` that returns a
  `setindex`. That overload is not part of this model. The model calls the
  three-argument `Table::insert` with `setindex` 0, which the direct scheme
  does not read.
- `gg.cpp` calls `track` on each mapped file, and the header declares
  `search`, but the body in `gg_state.cpp` is `follow`. `Session.Track`
  runs that body.
- The comments of `acronym` promise the spaced and dotted-spaced forms as
  "M I T" and "M. I. T." (`gg_variant.h:50-52`). The code appends the
  suffix after the last letter too (`gg_variant.h:70-72`, `79-81`), which
  gives "M I T " and "M. I. T. ". `Variants.Spread` follows the code, and
  `Variants.AcronymOnFirstRun` expects "H W " and "H. W. ".

One place does not follow the code: the generators' debug line reads
`a_target[0]` on the empty vector compile hands them. The model records
this as a finding: `Variants.Generate` runs the code as written, with an
explicit `Undefined` outcome. Compile runs the corrected generators.

Each pushed pattern is recorded in the ghost log `Session.entries` under
its identifier (`Session.Logged`). `Session.Track` states the intended
verdict over that log.

## Model

| member | source | states |
|---|---|---|
| Atoms.NewAtom | gg_state.h:128-135 | a new cell has `tgt == 0` and `str == 0` |
| Atoms.Tgt | gg_state.h:130 | the target field is an unsigned byte, `0 <= tgt < 256` |
| Atoms.Str | gg_state.h:130 | the terminal field is a signed 24-bit value |
| Atoms.Truncate24 | gg_state.h:130 | storing into the 24-bit field keeps the value modulo 2^24 in the signed range, and leaves in-range values unchanged |
| Atoms.SetTgt | gg_state.cpp:61-67 | setting `tgt` gives that target and leaves `str` unchanged |
| Atoms.SetStr | gg_state.cpp:70-76 | setting `str` leaves `tgt` unchanged and stores the value truncated to 24 bits (exactly when it fits) |
| Atoms.Pack | gg_state.cpp:35-40 | the word's high byte is the target |
| Atoms.Unpack | gg_state.h:128-131 | the target of a word is its high byte |
| Atoms.NewAtomIsZero | gg_state.h:133-135 | the zero-initialised union word is the all-zero cell |
| Atoms.UnpackPack | gg_state.h:128-131 | the bit-field view and the word view carry the same information: unpack after pack is the identity |
| Atoms.PackUnpack | gg_state.h:128-131 | pack after unpack is the identity on 32-bit words |
| Bytes.FoldSeq | gg_state.cpp:286-301 | folding a pattern folds each byte and keeps its length |
| Bytes.CasePair | gg_state.cpp:290-299 | the two bytes insert links are exactly the bytes that fold like the pattern byte; they are the same byte when matching is case-sensitive |
| Bytes.FirstBytes | gg_state.cpp:274-283 | the bytes added to `s_firsts` are exactly those that fold like the pattern's first byte |
| StateMachine.ZeroPlane | gg_state.cpp:81-86 | a new plane has 256 cells, all with zero target and terminal |
| StateMachine.Grown | gg_state.cpp:131-137 | `operator++` appends exactly one zero plane and keeps the others |
| StateMachine.GrownKeepsTrie | gg_state.cpp:131-137 | a plane appended below the 256-plane limit keeps every target inside the table and pointing forward |
| StateMachine.Step | gg_state.cpp:242-249 | the step fails exactly when the byte's cell has no target and 256 planes already exist; otherwise it adds one plane exactly when the cell had no target |
| StateMachine.StepLinks | gg_state.cpp:242-257 | a step reuses a nonzero target and adds no plane, or allocates plane `|planes|` and grows the table by one; both cells of the case pair then lead to it, and no other cell and no terminal changes |
| StateMachine.StepKeepsTrie | gg_state.cpp:242-257 | after a step every target is inside the table and higher than its plane, and the walk moves forward |
| StateMachine.StepKeepsTerminals | gg_state.cpp:242-257 | a step changes no terminal, and the planes it appends hold none |
| StateMachine.LinkSets | gg_state.cpp:250-254 | linking a cell sets its target, keeps its terminal, and leaves every other cell as it was |
| StateMachine.MarkSets | gg_state.cpp:303-321 | stamping a cell sets its terminal to the value truncated to 24 bits, keeps its target, and leaves every other cell as it was |
| StateMachine.WalkKeepsTrie | gg_state.cpp:286-302 | the byte loop of insert keeps the trie shape and leaves `from` and `next` inside the table |
| StateMachine.WalkFits | gg_state.cpp:286-302 | a walk adds at most one plane per byte, and succeeds whenever the table has room for one per byte |
| StateMachine.WalkKeepsTerminals | gg_state.cpp:286-302 | walking a pattern changes no terminal of an existing cell |
| StateMachine.SetInsert | gg_state.cpp:306 | inserting into a `set<int32_t>` keeps it ascending and adds exactly that element |
| StateMachine.StampKeepsTrie | gg_state.cpp:303-324 | stamping the terminal keeps the trie, and each terminal is unchanged or the stamped one |
| StateMachine.Stamp | gg_state.cpp:303-324 | the stamp keeps the number of planes and changes no plane other than `next` |
| StateMachine.Insert | gg_state.cpp:265-325 | an insert that succeeds had a nonempty pattern and keeps every byte already in `s_firsts` |
| StateMachine.InsertGrowth | gg_state.cpp:265-325 | an insert adds at most one plane per byte of the pattern, and fails only on an empty pattern or when the planes it needs would not fit in 256 |
| StateMachine.InsertKeepsWellFormed | gg_state.cpp:265-325 | insert keeps the tables well formed: every target inside the table, at most 256 planes, terminal sets ascending, and, indirectly, every terminal naming a set |
| StateMachine.InsertByWalk | gg_state.cpp:265-325 | insert is the walk of the pattern from the root, then the stamp of the last byte's case pair in plane `next` (the identifier directly, or `setindex` with the identifier added to `s_set[setindex]`), with the first bytes appended to `s_firsts`; it fails exactly when the walk does |
| Tables.Table.constructor | gg_state.cpp:108-119 | a fresh table has plane 0 and root plane 1, all cells zero, no first bytes, and `s_set == {{0}}` |
| Tables.Table.Size | gg_state.cpp:140-146 | `size()` is the number of planes |
| Tables.Table.Grow | gg_state.cpp:131-137 | appends one zero plane and keeps the table valid; nothing else changes |
| Tables.Table.SetTarget | gg_state.cpp:250-254 | sets one cell's target forward and keeps the table valid |
| Tables.Table.SetTerminal | gg_state.cpp:303-324 | sets one cell's terminal and keeps the table valid |
| Tables.Table.Step | gg_state.cpp:213-259 | the byte-mode step in place, equal to `StateMachine.Step` on the old planes; when it fails the planes are unchanged |
| Tables.Table.WalkPattern | gg_state.cpp:286-302 | the byte loop of insert in place, equal to `StateMachine.Walk` from the root |
| Tables.Table.WalkByte | gg_state.cpp:287-301 | one round of that loop: the rest of the walk from the new `from` and `next` equals the walk before it |
| Tables.Table.AddFirsts | gg_state.cpp:274-283 | appends the bytes to `s_firsts`, and nothing else changes |
| Tables.Table.AddToSet | gg_state.cpp:306 | adds the identifier to `s_set[setindex]`, and nothing else changes |
| Tables.Table.StampLast | gg_state.cpp:303-324 | the terminal stamp on the last byte's cells, direct or indirect |
| Tables.Table.Insert | gg_state.cpp:265-325 | `insert` in place equals `StateMachine.Insert` on the old tables, and keeps them valid |
| Tables.Table.SortFirsts | gg.cpp:141-143 | `sort`, `unique` and `erase` leave `s_firsts` equal to `Ordering.SortedBytes` of the old list, and change nothing else |
| Tables.Table.Follow | gg_state.cpp:399-480 | `follow` returns the verdict of `Scan.Follow` on the tables, and writes `label + "\n"` exactly when that verdict is Reported |
| Tables.Search | gg_state.cpp:406-466 | the outer skip loop equals `Scan.Outer` from offset 0 |
| Tables.Anchor | gg_state.cpp:413-465 | the inner loop from one anchor equals `Scan.Inner` from the root |
| Tables.Round | gg_state.cpp:418-464 | one byte of the inner loop: return, stop, or go on with the next target and tally |
| Tables.TallyTerminal | gg_state.cpp:436-459 | a terminal is tallied as `Scan.Feed` of the identifiers it stands for |
| Scan.Feed | gg_state.cpp:436-459 | tallying a terminal returns at once only when it holds a negative identifier; otherwise the accepted and rejected sets only grow |
| Scan.Inner | gg_state.cpp:418-464 | the inner loop only adds to the accepted and rejected sets |
| Scan.OuterGrows | gg_state.cpp:406-466 | the outer loop only adds to the accepted and rejected sets |
| Scan.Follow | gg_state.cpp:399-480 | a buffer is reported only when the accept-list size is at least 1, the placeholder that `accepted` starts with |
| Scan.FirstOf | gg_state.cpp:407 | `find_first_of (s_firsts)` lands between the start and the end of the buffer |
| Scan.FirstOfFinds | gg_state.cpp:406-407 | the anchor found holds a first byte, and no byte skipped does |
| Scan.FollowWithoutEarlyExit | gg_state.cpp:468-477 | without the early exit: Rejected exactly when a negative identifier is met; otherwise Reported exactly when no zero is met and the accepted set, seeded with 0, is as large as the accept list |
| Scan.FeedWithoutEarlyExit | gg_state.cpp:436-459 | tallying a terminal returns exactly when it holds a negative identifier, and otherwise accepts the positive ones and records any zero |
| Scan.InnerWithoutEarlyExit | gg_state.cpp:418-464 | without the early exit, the inner loop returns exactly when its walk meets a negative identifier, and otherwise absorbs everything it meets |
| Scan.OuterWithoutEarlyExit | gg_state.cpp:406-466 | without the early exit, the outer loop returns exactly when some walk meets a negative identifier, and otherwise absorbs everything the walks meet |
| Scan.EarlyExitKeepsVerdict | gg_state.cpp:448-458 | when every terminal is an accept identifier below the accept-list size, stopping once `accepted` is full gives the same verdict |
| Scan.EmptyBufferVerdict | gg_state.cpp:403-470 | an empty buffer is reported exactly when there are no accept patterns |
| Scan.InnerIsFeed | gg_state.cpp:418-464 | the inner loop tallies the identifiers of the cells it walks, in order |
| Scan.OuterIsFeed | gg_state.cpp:406-466 | both loops together tally the identifiers met from each anchor in turn, resuming one byte past each anchor so that overlapping occurrences are tried |
| Scan.OuterAtAnchor | gg_state.cpp:406-466 | the outer loop at one anchor: return on rejection, stop when done, else resume one byte past the anchor |
| Scan.FeedWithEarlyExit | gg_state.cpp:448-458 | with only positive identifiers, the early-exit tally agrees with the full one on every verdict |
| Correctness.Build | gg.cpp:341-360 | the tables after a sequence of inserts from fresh tables are well formed |
| Correctness.BuildLabels | gg_state.cpp:265-325 | after the inserts, every plane the root reaches stands for one folded prefix; the last cell of each folded pattern holds the identifier of the last insert of that key; every pattern's first byte is in `s_firsts`; every terminal is zero or an inserted identifier |
| Correctness.Final | gg_state.cpp:303-324 | every inserted pattern's folded key has an identifier, and each identifier is one that was inserted |
| Correctness.InsertLabels | gg_state.cpp:265-325 | one insert keeps the labelling and gives the pattern's folded key its identifier, overwriting an earlier one |
| Correctness.InsertTerminals | gg_state.cpp:303-324 | one insert adds only its own identifier to the terminals |
| Correctness.WalkMetFinds | gg_state.cpp:418-464 | the inner walk from an anchor meets exactly the identifiers of the patterns that start there |
| Correctness.SkipNoStarts | gg_state.cpp:406-466 | skipping bytes outside `s_firsts` skips no occurrence |
| Correctness.NoStart | gg_state.cpp:407 | no pattern starts at a byte outside the first-byte list |
| Correctness.StreamMetFinds | gg_state.cpp:406-466 | the two loops meet exactly the identifiers of the patterns that occur from the given offset on |
| Correctness.StartingFromIsMet | gg_state.cpp:406-466 | from offset 0 that is every pattern occurring in the buffer |
| Correctness.ReportCondition | gg_state.cpp:469 | `|accepted| == |s_accept|` holds exactly when every accept identifier was met |
| Correctness.VerdictOnMet | gg_state.cpp:399-480 | the verdict, read on the identifiers met: rejected on a negative one, else reported exactly when every accept identifier is among them |
| Correctness.Expected | gg_state.cpp:468-477 | the intended verdict rejects exactly when some reject pattern occurs; with no accept pattern it reports exactly when it does not reject |
| Correctness.ExpectedOnMet | gg_state.cpp:468-477 | the intended verdict, read the same way on the patterns that occur |
| Correctness.FollowDecides | gg_state.cpp:399-480 | with every identifier inserted in one case mode and fitting 24 bits, and with the sorted first-byte list, follow reports exactly when every accept identifier has an occurring pattern and no reject pattern occurs, and rejects exactly when a reject pattern occurs |
| Tokenizer.Find | utility.h:97-103 | `find_first_of` gives the first position at or after `b` holding the separator, or the end |
| Tokenizer.Pieces | utility.h:97-105 | a text always splits into at least one piece |
| Tokenizer.Tokens | gg_utility.h:95-136 | the call stops only with a three-byte separator, and never with success; when it appends, it appends at least one token |
| Tokenizer.Tokenize | gg_utility.h:95-136 | `tokenize` only appends to `target`, appending the tokens of `Tokens`, and returns its value; it stops on a delimiter mismatch |
| Tokenizer.AppendPieces | utility.h:97-105 | the append loop pushes exactly the pieces of the text |
| Tokenizer.JoinPieces | utility.h:97-105 | joining the pieces with the separator gives back the text |
| Tokenizer.PiecesFree | utility.h:97-105 | no piece holds the separator |
| Tokenizer.PiecesCount | utility.h:97-105 | there is one piece more than there are separators; empty pieces are kept |
| Tokenizer.PiecesUnique | utility.h:97-105 | the pieces are the only separator-free strings that join back into the text |
| Tokenizer.OneByteSeparator | utility.h:77-80 | a one-byte separator yields `occurrences + 1` tokens, none holding it, that join back into the source, and returns npos |
| Tokenizer.DelimitedSeparator | gg_utility.h:110-120 | a three-byte `oSc` separator succeeds exactly when the source starts with `o` and ends with `c`; the tokens then join with `S` into the source without its ends; a mismatch is fatal; on an empty source it is fatal too, and undefined only when the opening delimiter is NUL, the one case that reaches `a_source[N-1]` |
| Tokenizer.OtherSeparator | gg_utility.h:121-124 | any other separator length appends the single string "FOO" and returns 0 |
| Tokenizer.FirstPiece | utility.h:97-103 | a separator-free start followed by the separator or the end is exactly what `find_first_of` skips |
| Tokenizer.BracketExample | gg_test.cpp:62 | `"[a,bb,ccc]"` with `"[,]"` yields `a`, `bb`, `ccc` and npos |
| Tokenizer.SpaceExample | gg_test.cpp:63 | `"a bb ccc"` with `" "` yields `a`, `bb`, `ccc` and npos |
| Tokenizer.BraceExample | gg_test.cpp:64 | `"{a:bb:ccc}"` with `"{:}"` yields `a`, `bb`, `ccc` and npos |
| Variants.CString | gg_variant.h:313-318 | `c_str()` keeps the bytes before the first NUL |
| Variants.VariantNames | gg_variant.h:301-318 | `is_variant` holds exactly for the eight names and their eight one-letter aliases |
| Variants.AliasesAgree | gg_variant.h:301-310 | each alias runs the same generator as the name it abbreviates |
| Variants.SingleVariant | gg_variant.h:301-318 | a one-byte name is a variant exactly when it is one of the alias letters |
| Variants.SkipSpaces | gg_variant.h:60 | the skip stops at the first non-space byte, or at the end |
| Variants.Words | gg_variant.h:56-74 | the words acronym takes off the phrase, and the rest, hold no space |
| Variants.AcronymOf | gg_variant.h:44-98 | `acronym` appends exactly `AcronymStrings` of the phrase to the target, and returns the number of letters |
| Variants.AcronymNeedsSpace | gg_variant.h:56-90 | a phrase without a space appends nothing, and the count is 0 |
| Variants.KeptAllExcluded | gg_variant.h:62-68 | words that are all "of" or "the" contribute no initial |
| Variants.AcronymAllExcluded | gg_variant.h:54-90 | a phrase whose every word before the last is "of" or "the" gives no letters and appends nothing (so, by `AcronymOf`, the count is 0) |
| Variants.KeptLength | gg_variant.h:58-72 | at most one initial per word, and a word that is not excluded gives its first byte |
| Variants.AcronymShape | gg_variant.h:54-90 | at most one letter per word plus one for the rest; no strings exactly when no letters, and otherwise exactly four, the plain letters first |
| Variants.SpreadConcat | gg_variant.h:70-81 | spreading the letters with a suffix distributes over concatenation |
| Variants.SpreadLength | gg_variant.h:70-81 | the spread string is `|suffix| + 1` bytes per letter |
| Variants.SpreadBlocks | gg_variant.h:70-81 | in the spaced and dotted forms each letter is followed by its suffix: the spread string is the spread of the letters before it, then the letter and the suffix, then the spread of the letters after it |
| Variants.ContractionStrings | gg_variant.h:101-122 | at most two strings for each of the first two syllables, so at most four |
| Variants.CutsFrom | gg_variant.h:103-121 | from syllable `syllables` on, at most two strings for each syllable left below the limit |
| Variants.ContractionOf | gg_variant.h:101-122 | `contraction` appends exactly `ContractionStrings` and returns 0 |
| Variants.NextVowel | gg_variant.h:103-110 | the search stops at the first vowel at or after `n`, or at the end |
| Variants.CutsPastLimit | gg_variant.h:112 | past the syllable limit nothing more is cut |
| Variants.ContractionShape | gg_variant.h:103-121 | the cuts are `(prefix, prefix + ".")` before each of the first two vowels at position 1 or later, so at most four strings |
| Variants.EllipsesOf | gg_variant.h:125-140 | `ellipses` appends the prefixes `Cuts`, returns 0, and is undefined on an empty phrase |
| Variants.Cuts | gg_variant.h:129-137 | every cut is a proper prefix of the phrase at least 8 bytes long |
| Variants.EllipsesShape | gg_variant.h:129-137 | the prefixes are of lengths 8 to |p| - 2 in order, so nothing for a phrase shorter than 10 bytes |
| Variants.Levenshtein1Of | gg_variant.h:225-263 | `levenshtein1` appends `LevenshteinStrings`, returns 0, and is undefined on an empty phrase |
| Variants.LevenshteinStrings | gg_variant.h:229-262 | every string is within two bytes shorter and one byte longer than the phrase |
| Variants.EditsLengths | gg_variant.h:238-253 | each edit at a position is one byte shorter, the same length, or one byte longer than the phrase |
| Variants.LevenshteinCount | gg_variant.h:229-262 | a phrase of 5 bytes or more gives 2 + 3·(|p| - 1) strings; a shorter one gives none |
| Variants.EditsMean | gg_variant.h:238-253 | each position gives a deletion (one byte shorter), a doubling (one byte longer) and a swap with the byte before (a permutation) |
| Variants.LevenshteinDropsTwo | gg_variant.h:235-236 | `substr (1)` drops the first byte, and `substr (0, N - 1)` drops the last two |
| Variants.SensitiveOf | gg_variant.h:266-275 | `sensitive` flips the case flag, appends nothing and returns 0 |
| Variants.Produce | gg_variant.h:44-295 | a generator run as intended: Undefined exactly for ellipses or levenshtein1 on an empty phrase; Fatal exactly for fatfinger, thesaurus and unicode; otherwise it only appends, and it changes the case flag exactly when it is `sensitive` |
| Variants.Generate | gg_variant.h:46-47 | as written: every generator but levenshtein1 is undefined on an empty vector, and otherwise runs as intended |
| Variants.AcronymOnFirstRun | gg.cpp:401-408 | for `Hello World[a]` the acronym generator is handed an empty vector and, as written, is undefined; as intended it appends "HW", "H W ", "H.W." and "H. W. " |
| Variants.RunGenerator | gg.cpp:403-407 | running the generator a name maps to is `Produce` |
| Variants.RegisterVariant | gg_variant.h:330-335 | `register_variant` appends the name and returns true |
| Variants.Singles | gg_variant.h:340-346 | one one-byte name per byte, in order |
| Variants.DescrambleVariants | gg_variant.h:338-348 | `descramble_variants` succeeds exactly when every byte is an alias letter, and then appends each byte as a name in order |
| Ordering.PlaceByte | gg.cpp:141-143 | placing a byte keeps the list strictly increasing as `char` and adds exactly that byte |
| Ordering.SortedBytes | gg.cpp:141-143 | `sort`, `unique`, `erase`: strictly increasing as signed `char`, with exactly the same bytes |
| Ordering.SignedInjective | gg.cpp:141 | different bytes compare different as `char`, so the order is total |
| Ordering.BeforeTotal | gg.cpp:412 | `std::string` comparison is a strict total order |
| Ordering.BeforeTransitive | gg.cpp:412 | `std::string` comparison is transitive |
| Ordering.Place | gg.cpp:413 | `set<string>::insert` keeps the set ascending and adds exactly that string |
| Ordering.Distinct | gg.cpp:412-415 | iterating the set built from the alternatives gives each alternative exactly once, in ascending order |
| Ordering.AscendingDistinct | gg.cpp:412-415 | an ascending list holds no string twice |
| Grep.Apply | gg.cpp:217-223 | an option letter keeps the core multiplier, raises the debug level by one exactly for `d`, and clears case-insensitive matching exactly for `c` (no letter sets it) |
| Grep.Bundle | gg.cpp:224-244 | a bundle that is accepted keeps the core multiplier and never lowers the debug level |
| Grep.OptionOf | gg.cpp:174-259 | an argument is not an option exactly when it does not start with `-`, or, before any pattern, it is longer than two bytes, names no option and is not a `--` bundle; an option is handled only before any pattern and when it has two bytes or more |
| Grep.Letter | gg.cpp:217-223 | the letter an option names is one of `cdnqstv` |
| Grep.OptionAfterPattern | gg.cpp:192-195 | an option after a pattern has been pushed is fatal |
| Grep.DigitOption | gg.cpp:205-211 | `-N` sets the multiplier to N, `-0` to 1, and changes nothing else |
| Grep.BundledLetter | gg.cpp:224-244 | each letter of a bundle acts as its own two-byte option |
| Grep.BundleRefused | gg.cpp:224-244 | a bundle is fatal exactly when it holds a letter outside `cdnstv` |
| Grep.UnknownOption | gg.cpp:245-248 | an unknown two-byte option is fatal |
| Grep.InsertAll | gg.cpp:418-421 | the inserts of the alternatives keep the tables well formed |
| Grep.TokensArePieces | gg.cpp:382-397 | the names compile reads between the brackets are the comma-separated pieces, the last one dropped when empty |
| Grep.RegisterAppends | gg.cpp:388-390 | one token registered only appends names, each a variant name, and whether it fails does not depend on the names before |
| Grep.RegisteredNames | gg.cpp:382-397 | registering only appends variant names; it is fatal exactly when some token is neither a name nor a string of alias letters |
| Grep.ParseNames | gg.cpp:382-397 | the comma loop, then the last piece, register exactly `Registered` of the tokens |
| Grep.RegisterToken | gg.cpp:388-390 | `is_variant ? register_variant : descramble_variants` registers one token as `Register` does |
| Grep.GenerateAll | gg.cpp:401-408 | starting from a clean run, the generators end fatal only when some name maps to fatfinger, thesaurus or unicode |
| Grep.Alternatives | gg.cpp:367-409 | an argument without `[` gives no alternatives and keeps the case flag; any alternative at all needs both `[` and `]` |
| Grep.GenerateAllAppends | gg.cpp:401-408 | running the named generators only appends alternatives |
| Grep.RunGenerators | gg.cpp:401-408 | the generator loop equals `GenerateAll`: names without a generator are passed over |
| Grep.AlternativesOf | gg.cpp:367-409 | the bracket parse and the generators equal `Alternatives` |
| Grep.UnclosedBracket | gg.cpp:372-376 | a `[` with no later `]` is fatal |
| Grep.PhraseBeforeBracket | gg.cpp:379 | the generators get the part before the first `[`, which holds no `[` |
| Grep.Unique | gg.cpp:412-415 | the alternatives reduced through a `set<string>` equal `Ordering.Distinct` |
| Grep.Compiled | gg.cpp:341-423 | compile keeps the tables well formed and, when it succeeds, changes only the tables |
| Grep.Varied | gg.cpp:365-422 | the variant part keeps the tables well formed and, when it succeeds, changes only the tables; the case flag is restored |
| Grep.Pushed | gg.cpp:279-298 | pushing the held argument keeps the tables well formed |
| Grep.Ingested | gg.cpp:267-301 | `ingest` keeps the tables well formed |
| Grep.Held | gg.cpp:279-300 | a plain argument keeps the tables well formed |
| Grep.IngestedAll | gg.cpp:76-80 | the arguments in turn keep the tables well formed |
| Grep.HeldThenPushed | gg.cpp:279-300 | the held argument is pushed when the next one arrives, stripped of one `+` or `-`, onto the reject list when it starts with `-` and onto the accept list otherwise; a stripped pattern shorter than two bytes is fatal; the new argument is held |
| Grep.LateOption | gg.cpp:192-195 | once a pattern is pushed, an option-like argument is fatal |
| Grep.Stripped | gg.cpp:283-287 | the pattern pushed is the argument, or the argument without a leading `+` or `-`, one byte shorter |
| Grep.Started | gg.cpp:88-168 | with `-t` the run ends at once and changes nothing; without a pattern it does not succeed; when it succeeds, the accept and reject lists are as ingested |
| Grep.TargetSplit | gg.cpp:114-125 | on success the path keeps no `{` and is a prefix of the held argument, and file name patterns are only appended; on failure nothing changes; only the path and the file name patterns ever change; a path without `{` is left as it is |
| Grep.Prepared | gg.cpp:127-166 | it succeeds exactly when some pattern exists, and otherwise is fatal; the lists and the path are kept; on success `s_firsts` is increasing and `s_noreject` is cleared exactly when a reject pattern exists |
| Grep.StartedPrepares | gg.cpp:127-143 | before the search `s_noreject` is cleared exactly when there is a reject pattern, `s_firsts` is increasing with the same bytes, the planes are unchanged, and at least one pattern exists |
| Grep.StartedRoutes | gg.cpp:114-166 | the `{...}` suffix is split off the path, and the search goes to the URL or walks the path |
| Grep.Session.constructor | gg_globals.cpp:7-34 | the globals as initialised: default flags, placeholder lists, no target, fresh tables |
| Grep.Session.IngestAll | gg.cpp:74-82 | the constructor's loop equals `IngestedAll` on the globals, and keeps the tables replaying the recorded inserts |
| Grep.Session.Ingest | gg.cpp:267-301 | `ingest` equals `Ingested` on the globals; identifiers stay within their lists |
| Grep.Session.Hold | gg.cpp:279-300 | a plain argument equals `Held` |
| Grep.Session.Push | gg.cpp:279-298 | the push and compile of the held argument equals `Pushed`, and keeps every pushed pattern recorded under its identifier |
| Grep.Session.Append | gg.cpp:285-297 | appending the pattern to its list and compiling it equals `Compiled` on the globals with that list extended, and records the pattern under its index in the list |
| Grep.Session.Option | gg.cpp:174-259 | `option` returns Fatal exactly when `OptionOf` refuses, reports whether it handled the argument, and leaves the flags `OptionOf` gives; the lists and tables are unchanged |
| Grep.Session.NamedOption | gg.cpp:217-223 | a named option applies its letter |
| Grep.Session.SetFlag | gg.cpp:217-223 | one option letter sets its flag as `Apply` does |
| Grep.Session.BundleOption | gg.cpp:224-244 | the bundle loop applies each letter in order, and is fatal at the first one outside `cdnstv` |
| Grep.Session.Compile | gg.cpp:341-423 | `compile (sign, sv)` equals `Compiled` on the globals; the record only grows, it gains the entry of `sv` under its identifier, and every new entry carries that identifier |
| Grep.Session.CompileVariants | gg.cpp:365-422 | the variant part equals `Varied`; the record of inserts only grows |
| Grep.Session.InsertAlternatives | gg.cpp:418-421 | the insert loop equals `InsertAll`; only the tables change, and the record of inserts only grows |
| Grep.Session.InsertNext | gg.cpp:420 | one insert of that loop: the rest of the loop equals `InsertAll` on the rest, and exactly that insert is recorded |
| Grep.Session.InsertRecorded | gg_state.cpp:265-325 | one insert in place equals `StateMachine.Insert`, and records the entry |
| Grep.Session.CompileSigned | gg.cpp:307-327 | `compile (0)` and `compile (-1)` clear `s_noreject` exactly when the reject list holds a pattern; nothing else changes |
| Grep.Session.Run | gg.cpp:88-168 | `operator()` up to the search equals `Started` on the globals |
| Grep.Session.SplitTarget | gg.cpp:114-125 | the brace split equals `TargetSplit` |
| Grep.Session.Prepare | gg.cpp:127-166 | the checks, `compile ()`, the sort of `s_firsts` and the routing equal `Prepared` |
| Grep.Session.Track | gg.cpp:489-491 | the search of one mapped file returns the verdict of `Scan.Follow` and writes the path when reported; when every insert used one case mode, identifiers fit 24 bits and `s_noreject` is set only without reject patterns, the verdict is the intended one over the recorded inserts (`Correctness.Expected` of `Correctness.Final`): rejected exactly when a key recorded under a reject identifier occurs, otherwise, reported exactly when every accept identifier has a key that occurs; and every pushed accept and reject pattern, folded, is a key of that dictionary |

## Left out

- StateMachine.Step: a 257th plane is modelled as a stop (`None`, then `Undefined`), not as the corrupted trie that the wrap of its number to 0 in a `uint8_t` (`gg_state.cpp:250`, `gg_globals.cpp:17`) produces.
- Variants.EllipsesOf: on an empty phrase, the loop that appends empty strings until memory runs out is modelled as the stop `Undefined`.
- Variants.Levenshtein1Of: on an empty phrase, the `out_of_range` thrown by `substr (1)` is modelled as the stop `Undefined`.
- Nibble mode (`-n`, `s_shape`, the two-step walk): the plane shape switch is not part of this model. The `nibbles` flag is recorded but does not change the tables or the search.
- `mapped_search`, `walk`, `netsearch`: file-system and network I/O. The buffer searched is a parameter of `Session.Track`, and `Run` only returns the route (tests, URL, or path).
- The filename regexes built from `s_filesx`: the regex library is outside the model. The patterns are split and appended to `filesx`.
- The `-t` timing tests: floating-point timing. `Run` ends at once with route `Tests`.
- `dump`, `load`, `show_tables`, `show_tokens` and every `debugf` line: debug output and file dumps.
- The work queue and threads: concurrency, not used by the search path.
- `toupper` and `tolower` on bytes outside ASCII: locale-dependent. Folding is ASCII-only.
- The indirect scheme is modelled for insert and the search, but the correctness theorem covers the direct scheme only, since `SETINDIRECT` is not defined.
- Grep.GenerateAll: compile runs the corrected generators (`Variants.RunGenerator`, which equals `Variants.Produce`), not the as-written ones, which read `a_target[0]` on an empty vector. The modelled `gg -v "Hello World[a]" dir` therefore succeeds with the "HW" alternatives where the program has undefined behaviour.
- `s_accept` and `s_reject` hold `string_view`s into the argument held in `s_target` (`gg_globals.h:51-52`, `gg.cpp:281`, `gg.cpp:294`). The next assignment to `s_target` (`gg.cpp:300`) leaves them dangling. Afterwards only their sizes are read, and their contents only by `show_tokens` when debugging. So the model keeps them as lists of values.
- Grep.Session.Track: a key later recorded under another identifier (a pattern pushed twice, or an alternative equal to another pattern) keeps only its last identifier, as the direct stamp does. So the verdict is stated over the recorded dictionary, not over the accept and reject lists themselves.
- Correctness.FollowDecides: the theorem assumes every pattern was inserted in one case mode. A `sensitive` variant inserts in the other mode, and `Session.Track` then states only the verdict of the search.
- The `GG_COMPILE` loop in `compile (int32_t)`: it is disabled in the source.
- `s_quicktree`: it is not declared in the files modelled. The flag starts false and does nothing here.
- Tables.Table.SortFirsts: the sort is stated by its result. The in-place `std::sort` algorithm is not modelled step by step.
- Ordering.Distinct: a `std::set<string>` is modelled by its ascending enumeration, not as a tree.

## Findings

| source | as written | input that shows it | evidently intended | confidence | as-written member | corrected member |
|---|---|---|---|---|---|---|
| gg.cpp:364, gg_variant.h:46-47 | compile hands the generators the vector `strs`, which is empty on the first call, and every generator except `levenshtein1` begins with a debug line that reads `a_target[0]` | `gg -v "Hello World[a]" dir` | the debug line should not read the target vector, so the acronym run appends "HW", "H W ", "H.W.", "H. W. " | not executed | Variants.Generate, Variants.AcronymOnFirstRun | Variants.Produce |
