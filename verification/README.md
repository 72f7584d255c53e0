# A verified model of rootsh's argument scanner, log filter and configuration lines

rootsh wraps a shell and logs what appears on the terminal. Four parts of it do real computation, and this
Dafny project models them and proves what they do:

* **The option scanner** (`src/getopt.c`) reports options one call at a time and permutes the argument vector
  while it scans. `CommandLine.Parse` says what a command line means without moving anything; the class
  `GetoptClass.Getopt` has the static variables of the C file and exchanges elements in place. Every call is
  proved to report the next answer of the reading, in the three orderings, and the last call to leave the vector
  as its options followed by its operands. The proof rests on one conserved quantity, `Scanning.Scan.Outlook`:
  the reading of what is unread, with the option elements and operands scanned so far put in front of it.
* **`main`'s option loop** (`src/rootsh.c`) is proved against what the whole command line means, including the
  re-entry of the scanner after `-c`, and `DocumentedOptions` says what every documented option, typed in any
  documented form and anywhere, sets.
* **The log path** (`src/write2syslog.c`): lines reassembled from arbitrarily cut reads, the nine-state escape
  filter, and the line numbers. The class `SyslogClass.Syslog` has the static variables of the C file.
* **Configuration lines** (`src/configParser.c`): trimming and splitting.

Strings are sequences of characters without the terminating NUL; bytes are integers below 256.

## What turned out not to hold

* *Replaying a permuted vector gives the same answers.* It does exactly when no option lacked its argument or
  there is no operand that could fill the gap (`Replays.Replay`); otherwise the first operand fills it
  (`Replays.ReplayFed`). `x -a` with `a:` is the smallest case (`Replays.ReplayDiffers`).
* *The mark `+` or `-` of the option characters is only a mark.* The call that initializes the scan drops it, later
  calls see it as an option letter, and see no `:` behind it as the first character. `-a -+` with `+a` answers `a`
  and `+` where the same order without a mark answers `a` and `?` (`Marks.MarkTaken`); `x -a` with `-:a:` answers `?`
  where permuting with `:a:` answers `:` (`Marks.SilenceLost`). A marked scan answers what the unmarked scan answers
  exactly when the mark matters to no answer after the first (`Marks.MarkIsOnlyAMark`): when no letter read there is
  used differently once the mark is declared, and no argument is missing there while a `:` stands behind the mark. If
  the mark is not declared again, only its own letter is used differently (`Marks.HarmlessUndeclared`).
  That is sure when no `:` stands behind the mark and no element that short options may be read from has the mark in
  its text (`Marks.UnusedIsHarmless`). The reading follows the code: it has the characters that the next call sees as
  a parameter of its own.
* *`-c X` passes `X` to the shell.* It does exactly when `X` is an element of its own (`CommandOutcome.CommandGiven`);
  for `-cX` the element `-cX` is passed: `rootsh -cls` runs `-cls` (`CommandOutcome.AttachedCommand`).
* *The log lines are the same however the terminal's output is cut into reads.* `a` CR `b` LF `c` CR has two different
  logs (`Chunking.ChunksMatter`). The lines are the same for every cutting exactly when, up to the last CR, every LF
  stands directly behind a CR or inside the first line, behind its first byte (`Cuttings.LinesSameForEveryCutting`);
  lines and carry are the same exactly when every LF stands so or among the LFs that open the unfinished piece
  (`Cuttings.SameForEveryCutting`). They are moreover free of LFs, and so exactly the pieces between the CRs, exactly
  when no LF stands inside the first line either (`Chunking.ChunkIndependent`). Up to LFs they always are the same
  (`LineAssembly.SessionModuloLf`).
* *Lines are free of escape sequences when they reach the system log.* `stripesc` computes the cleaned text but
  copies back as many bytes as a counter says that has reached 0 (`src/write2syslog.c:85`, `174`), so that the raw
  line is sent: ESC `[` `m` arrives as it is (`LogLines.RawLineShown`). The log shows cleaned lines exactly when every
  byte of every line is one that the filter passes in its normal state (`LogLines.LogIsCleanWhenPlain`). What the
  filter computes is proved of the cleaned text.
* *BEL ends an OSC string.* It ends a string without BEL, CAN, SUB, ESC, CSI, DCS, OSC, PM and APC inside exactly when
  the string holds a byte of 0x40-0x7E (`EscapeDocuments.BelEndsString`): OSC `0` `;` BEL is not ended
  (`EscapeDocuments.NumberNotEnded`). An OSC byte 0x9D inside, as in some UTF-8 titles, opens the string anew, so that
  the bytes in front of it do not count: OSC `A` 0x9D BEL is not ended (`EscapeDocuments.OpenedAnew`).
* *Control functions are erased.* All but their bytes 0x07-0x0D are, so a document is filtered to its text exactly when
  there are none inside of them (`EscapeDocuments.DocumentErased`); OSC `A` TAB BEL leaves the TAB
  (`EscapeDocuments.TabLeaks`). The eight-bit ST 0x9C ends nothing (`EscapeDocuments.EightBitStEndsNothing`): the text
  behind DCS `q` 0x9C is lost (`EscapeDocuments.TextBehindStLost`). SOS opens nothing: the `A` of SOS `A` ESC `\` is
  output (`EscapeDocuments.SosOpensNothing`).
* *Trimming removes only whitespace* (`src/configParser.h:55-64`). It does unless the string is empty, for which NULL
  is returned, or what is to be kept is a single character at the very end of the string, which is removed too
  (`ConfigLines.TrimmedExactly`; `a` and the empty string in `ConfigLines.TrimmedWrongly`).

## Model

| member | source | states |
|---|---|---|
| Permutation.BottomShort | src/getopt.c:336-352 | swapping the short bottom block with the far end of the top block leaves the same exchange on a smaller range |
| Permutation.TopShort | src/getopt.c:353-369 | the same for a short top block and the near end of the bottom block |
| Permutation.GcdIsGreatest | src/getopt.c:334-370 | the number that subtracting the shorter from the longer block length ends with is the greatest common divisor of the lengths |
| GetoptClass.Getopt.Exchange | src/getopt.c:302-375 | argv becomes its two blocks in the other order, both bounds move with the operands, and the element swaps are exactly the total length less the gcd of the block lengths |
| GetoptClass.Getopt.ShrinkExchange | src/getopt.c:334-370 | one round: the rest of the exchange is the same exchange on a strictly smaller range |
| GetoptClass.Getopt.SwapRuns | src/getopt.c:341-349 | two runs of equal length trade places, one swap for each element, and nothing else moves |
| LongOptions.ResolutionUnique | src/getopt.c:647-687 | a name has at most one meaning: first exact match; else the first abbreviated entry if all abbreviated ones are interchangeable; else ambiguous or unknown |
| LongOptions.Resolve | src/getopt.c:647-687 | every name has that meaning, for every table |
| LongOptions.NameMeans | src/getopt.c:652-687 | the same of every meaning of a name, and which entry it is |
| LongOptions.MatchLongOption | src/getopt.c:652-687 | the one-pass loop with `pfound`, `exact` and `ambig` computes that meaning: ambiguous if and only if no entry has the name and two entries that begin with it differ in `has_arg`, `flag` or `val`; unknown if and only if none begins with it; exact if and only if one has it |
| CommandLine.OrderingChosen | src/getopt.c:399-414 | a first `-` or `+` chooses the ordering and is dropped; otherwise POSIXLY_CORRECT decides between requiring order and permuting |
| Readings.OnlyWords | src/getopt.c:538-540 | elements that do not begin with `-`, and `-` alone, are operands: a vector of them is left as it is, and reported only when operands are returned |
| CommandLine.OptionText | src/getopt.c:617-618 | an option element has at least one character behind its punctuation, a proper suffix of it |
| CommandLine.DecodeShort | src/getopt.c:774-967 | reading one letter leaves a strictly shorter suffix, uses a following element only when its own is used up, and predicts optind |
| CommandLine.DecodeLong | src/getopt.c:647-767 | a long option uses up its element and at most one that follows, and predicts optind |
| Spelling.DeclaredBy | src/getopt.c:921-965 | a letter takes no argument, needs one if one `:` follows it among the option characters, and may have one if two do |
| Spelling.LetterRefused | src/getopt.c:782-796 | a letter that is not declared, and `:`, is answered `?`; a missing argument at the end of the vector is answered `?`, or `:` if the option characters begin with it; `optopt` is the letter |
| Spelling.NameRefused | src/getopt.c:677-767 | a long name that no entry begins with, or that fits entries that differ, is answered `?` with `optopt` 0 |
| Spelling.ValueRefused | src/getopt.c:689-735 | a value for a long option that takes none, and a missing required argument, are refused with the option's value in `optopt` |
| Spelling.ReadingRecoversMeaning | src/getopt.c:432-480 | round trip, in each of the three orderings: options grouped or single, with attached, separate or optional arguments, long options in full or abbreviated, with `=` or a separate argument, operands anywhere, and an optional `--`, read back as exactly the answers and operands meant |
| Spelling.ShortRead | src/getopt.c:774-967 | a group of letters, the last with or without argument, gives one answer for each letter in order and uses exactly its own elements |
| Spelling.LongRead | src/getopt.c:647-745 | a long option under any name that means it, with its argument in either place, gives its one answer and uses exactly its own elements |
| Marks.MarkCompared | src/getopt.c:774-967 | seeing the mark changes an answer if and only if the letter is used differently with the mark declared, or its argument is missing and a `:` stands behind the mark; otherwise the same text and elements are used up |
| Marks.MarkIsOnlyAMark | src/getopt.c:401-410 | a marked scan gives the answers, and the partition, of the scan in which no call sees that mark, if and only if the mark matters to no answer after the first; when the characters behind the mark begin with a mark again, as in `++a`, the scan compared with takes that for a letter and is no run of the code |
| Marks.RunsCompared | src/getopt.c:401-410 | two runs of the code: `+` in front of characters without a mark, and those characters alone with POSIXLY_CORRECT set, give the same answers if and only if the mark is harmless |
| Marks.HarmlessUndeclared | src/getopt.c:523-529 | if the mark is not declared again, it is harmless if and only if no answer after the first reads its letter (unless refused either way) or lacks an argument while a `:` stands behind the mark |
| Marks.UnusedIsHarmless | src/getopt.c:523-529 | sure before the first call: no `:` behind the mark and the mark in no element that short options may be read from |
| Marks.RequiringOrderMarked | src/getopt.c:606-608 | with `+`, the answers are a prefix of those of permuting with unmarked characters, and the same without operands, if and only if the mark is harmless |
| Marks.InOrderMarked | src/getopt.c:604-611 | with `-`, the options answer what they answer when permuting with unmarked characters if and only if the mark is harmless; the operands told and left over are then those of permuting |
| Marks.ReplayMarked | src/getopt.c:554-611 | rescanning the permuted vector with `+` gives the same answers if and only if no argument was missing or no operand is there, and the mark is harmless on that vector |
| Marks.MarkedReadingRecovers | src/getopt.c:432-480 | the round trip with marked option characters holds if and only if the mark is harmless on what was written |
| Marks.MarkTaken | src/getopt.c:523-529 | `-a -+` with `+a`: the second call answers `+` instead of `?` |
| Marks.SilenceLost | src/getopt.c:945-958 | `x -a` with `-:a:`: the second call answers `?` instead of `:` |
| Readings.StablePartition | src/getopt.c:461-464 | options and operands of a reading are an interleaving that makes up the arguments: nothing is lost and each keeps its order |
| Readings.NothingMoves | src/getopt.c:549-611 | without permutation, or without operands, options followed by operands are the arguments as they were |
| Readings.RequiringOrder | src/getopt.c:606-608 | whatever characters the first call sees, requiring order reports a prefix of what permuting reports, and the same when there are no operands |
| InOrder.SpotsExplain | src/getopt.c:543-967 | every answer of a reading comes from a place of its own, in the order of the vector: an operand told as it stands, or an option decoded from what is left of its element, in front of the elements that follow it |
| InOrder.ReturningInOrder | src/getopt.c:604-611 | whatever characters the first call and the later ones see, the operands told, in order, then those left over, and the elements of the options interleave to the arguments; only `--` leaves any over, exactly those behind it |
| InOrder.InOrderIsPermuting | src/getopt.c:604-611 | with the same characters for every call, the answers that do not tell operands are exactly those of permuting, and the operands told, then left over, are those that permuting collects |
| InOrder.OwnIsOptions | src/getopt.c:549-611 | the elements of the options in that statement are, in the other orderings, exactly the options of the reading |
| Readings.AnswersBounded | src/getopt.c:543-967 | there are at most as many answers as bytes in the arguments, so a caller's loop ends |
| Replays.ReadAppend | src/getopt.c:554-618 | in every ordering, cut where no argument is missing, no `--` seen and the scan not stopped, the reading of a vector is the readings of its parts |
| Replays.ReadOptions | src/getopt.c:554-611 | taking the operands from between the options changes no answer |
| Replays.Replay | src/getopt.c:554-611 | rescanning the permuted vector, permuting or requiring order, gives the same answers and moves nothing, if and only if no argument was missing or no operand is there |
| Replays.ReplayFed | src/getopt.c:936-965 | otherwise the rescan agrees up to the last answer, where the option that was refused for lack of its argument now has the first operand as its argument |
| Replays.ReplayDiffers | src/getopt.c:936-965 | `x -a` with `a:`: refused at first, answered with argument `x` on the rescan |
| Scanning.ExchangeKeepsOrder | src/getopt.c:288-297 | an exchange keeps the options scanned and the operands skipped, each in order, and what is unread |
| Scanning.Settling | src/getopt.c:556-563 | moving skipped operands behind the options read since keeps the state invariant and the outlook |
| Scanning.OperandsSkipped | src/getopt.c:567-569 | skipping a run of operands keeps the state invariant and the outlook |
| Scanning.ElementFinished | src/getopt.c:774-967 | the last option of an element takes the first answer off the outlook, keeps the rest of it and the invariant |
| Scanning.ClusterContinues | src/getopt.c:774-780 | so does an option from inside a group |
| Scanning.TerminatorReached | src/getopt.c:578-602 | at `--` nothing is left to report: the skipped operands stand behind it, everything after it is an operand, and optind is at the first operand |
| Scanning.NothingLeft | src/getopt.c:593-608 | at the end, or at an operand when order is required, the vector already has its final order |
| GetoptClass.Getopt.SkipOperands | src/getopt.c:554-570 | the vector changes only below optind, the next element is not an operand, invariant and outlook are kept |
| GetoptClass.Getopt.AtEnd | src/getopt.c:578-602 | at `--` or the end the scan has ended with the vector partitioned; otherwise nothing changes |
| GetoptClass.Getopt.NextElement | src/getopt.c:543-619 | either the scan has ended with the vector partitioned, or an operand is the first answer of the outlook, or an option element is entered with the outlook unchanged |
| GetoptClass.Getopt.LongOption | src/getopt.c:636-767 | reads the long option as the reading does, writing `optarg`, `longind`, `optopt` and the flag variable and nothing else |
| GetoptClass.Getopt.ShortOption | src/getopt.c:774-967 | reads one letter as the reading does |
| GetoptClass.Getopt.Initialize | src/getopt.c:384-448 | a fresh scan returns in order with a first `-`, requires order with a first `+` or POSIXLY_CORRECT, and permutes otherwise; operand range empty, the mark dropped |
| GetoptClass.Getopt.GetoptInternal | src/getopt.c:506-969 | every call returns the first answer of the outlook (result, optarg, optind and stored variables) and leaves the rest of it, or returns -1 with argv = options + operands and optind at the first operand; the invariant 1 <= first_nonopt <= last_nonopt and 1 <= optind <= argc is kept, both bounds at most optind once clamped as at src/getopt.c:549-552, argv is not modified unless permuting, and the initializing call chooses the ordering as documented |
| GetoptClass.Getopt.Run | src/getopt.c:992-1043 | for every argv, option characters and table, a loop until -1 gives exactly the answers of the reading that moves nothing, and argv[0], the options and then the operands, each in their order; it ends early only at an option whose own value is -1. From a fresh scanner the reading is the permuting one unless POSIXLY_CORRECT is set or the option characters begin with `+` or `-`, order-requiring for POSIXLY_CORRECT or `+`, in order for `-`. With `-`, every operand comes as result 1 with its text as `optarg`, in order, argv is not changed, and only `--` gives -1 with optind != argc |
| CommandOutcome.SettingsDecided | src/rootsh.c:367-384 | each setting is decided by its own option: the last argument given wins, a switch stays switched |
| CommandOutcome.AllReported | src/rootsh.c:300-342 | with rootsh's options no answer is -1, `-c` comes with its argument and a missing argument is reported as `?` |
| CommandOutcome.CommandGiven | src/rootsh.c:341-366 | with `-c X` in the middle, also grouped behind switches as in `-ic X`, the command is X (or the element that X is attached in), everything behind it verbatim, then the operands in front; nothing behind it is read as an option, and the switches apply; the command starts with the element X if and only if X is not attached |
| CommandOutcome.AttachedCommand | src/rootsh.c:359-366 | `rootsh -cls` runs `-cls`, `rootsh -c ls` runs `ls` |
| CommandOutcome.NoCommandGiven | src/rootsh.c:340-388 | settings and operands in any order and spelling, permuting or requiring order, with or without `--`: every setting read applies and the command is each operand followed by a space, none if there is none |
| DocumentedOptions.RequestsFulfilled | src/rootsh.c:300-385 | for `-i --login -u --user -f --logfile -d --logdir -x --no-logfile -y --no-syslog`, arguments attached, separate or behind `=`, in any number and order, mixed with words and ended by `--`: exactly the fields asked for are set, and the words are the command; with POSIXLY_CORRECT everything from the first word on is the command |
| DocumentedOptions.OneRequest | src/rootsh.c:300-385 | each of these options alone, in each of its forms, sets its own field and gives no command |
| DocumentedOptions.LettersDecide | src/rootsh.c:347-387 | behind any such options, `-h`, a letter that rootsh does not have and a letter lacking its argument end in usage, `-V` in version |
| DocumentedOptions.NamesDecide | src/rootsh.c:300-355 | so do `--help` and `--version`; a name that abbreviates no option or more than one, a value for an option that takes none and a missing argument end in usage |
| DocumentedOptions.OrderingExample | src/rootsh.c:340-366 | `rootsh ls -i` is a login shell that runs `ls`, with POSIXLY_CORRECT a shell that runs `ls -i` |
| DocumentedOptions.AmbiguousExample | src/rootsh.c:345-350 | `rootsh --no` ends in usage |
| RootshMain.Rootsh.ConsumeRemainingArgs | src/rootsh.c:702-726 | appends every element from optind on, each followed by a space, and moves optind to the end |
| RootshMain.OnlySkippedLeft | src/rootsh.c:359-366 | after `-c` has used up the vector the next call has only the operands skipped before `-c` to give |
| RootshMain.Rootsh.ParseCommandLine | src/rootsh.c:340-388 | the loop ends with the outcome of the command line, permuting unless POSIXLY_CORRECT is set: exit, or the settings and the command, whatever the scanner moves on the way |
| EscapeFilter.FilterAppend | src/write2syslog.c:66-172 | cutting the input anywhere and carrying `vtstate` over changes nothing |
| EscapeFilter.OutputSound | src/write2syslog.c:78-173 | the output fits its buffer, keeps bytes in order, has only bytes 0x07-0x0D, 0x20-0x7F and 0xA0-0xFF, and `DecSet` is never reached |
| EscapeFilter.Idempotent | src/write2syslog.c:85-172 | filtered text is not changed by filtering it again |
| EscapeFilter.CancelResets | src/write2syslog.c:87-102 | CAN (0x18) and SUB (0x1A) bring the filter to its normal state from every state, without output |
| EscapeFilter.Unchanged | src/write2syslog.c:85-172 | a string comes out unchanged if and only if each of its bytes passes in the state it starts in |
| EscapeFilter.ControlMask | src/write2syslog.c:116 | the mask 0x6F tests for exactly the C0 and C1 sets, as the filter does |
| EscapeDocuments.DocumentFiltered | src/write2syslog.c:85-172 | every document of text, C0 and C1 functions, control sequences, control strings and short escape sequences is filtered to its text and the bytes 0x07-0x0D inside of its control functions, in place, back to the normal state |
| EscapeDocuments.DocumentErased | src/write2syslog.c:116-128 | such a document is filtered to exactly its text if and only if no control function holds a byte 0x07-0x0D |
| EscapeDocuments.WidthsInterchangeable | src/write2syslog.c:95-98 | seven-bit and eight-bit introducers may be exchanged, piece by piece |
| EscapeDocuments.SequenceEnds | src/write2syslog.c:148-158 | exactly the bytes 0x40-0x7E end a control sequence |
| EscapeDocuments.EscapeAnywhere | src/write2syslog.c:91-147 | in every state but the one that drops a byte, ESC and one of 0x20, 0x23, 0x28-0x2B drop the next byte whatever it is, ESC and 0x40-0x5F are the C1 function, ESC and any other byte that is no control are a complete sequence |
| EscapeDocuments.ControlKeepsState | src/write2syslog.c:115-129 | in every such state, controls that interrupt nothing leave the state, and exactly 0x07-0x0D are kept |
| EscapeDocuments.BelEndsString | src/write2syslog.c:112-158 | in every state but the one that drops the next byte, BEL ends an opened OSC string without BEL, CAN, SUB, ESC, CSI, DCS, OSC, PM and APC inside if and only if the string has a byte in 0x40-0x7E; otherwise BEL is output and the string goes on; effectors inside are output either way |
| EscapeDocuments.NumberNotEnded | src/write2syslog.c:112-158 | OSC `0` `;` BEL is not ended |
| EscapeDocuments.OpenedAnew | src/write2syslog.c:112-114 | OSC `A` 0x9D BEL is not ended: 0x9D opens the string anew |
| EscapeDocuments.EightBitStEndsNothing | src/write2syslog.c:115-129 | behind any text, 0x9C is dropped without leaving a string |
| EscapeDocuments.TextBehindStLost | src/write2syslog.c:115-129 | the `x` of DCS `q` 0x9C `x` is lost |
| EscapeDocuments.TabLeaks | src/write2syslog.c:125-127 | OSC `A` TAB BEL is filtered to TAB |
| EscapeDocuments.SosOpensNothing | src/write2syslog.c:104-129 | SOS `A` ESC `\` is filtered to `A` |
| LineAssembly.SessionModuloLf | src/write2syslog.c:214-373 | for every stream and every cutting, up to LFs the lines are the CR-terminated pieces and the carry is the unfinished one |
| LineAssembly.CutErased | src/write2syslog.c:264-344 | cutting one buffer drops nothing but LFs and ends a line at every CR |
| LineAssembly.CutRest | src/write2syslog.c:264-344 | the carry has no CR and does not start with LF |
| Chunking.PiecesExact | src/write2syslog.c:251-331 | what the pieces are: one for each CR, none with a CR, and together the stream |
| Chunking.OneLinePerCr | src/write2syslog.c:264-338 | as many lines are emitted as CRs were received |
| Chunking.ChunkIndependent | src/write2syslog.c:220-344 | for every cutting the lines are exactly the pieces without LFs, if and only if every LF stands behind a CR or opens the unfinished piece |
| Chunking.DisciplinedIsTidy | src/write2syslog.c:217-224 | in particular when every LF directly follows a CR |
| Chunking.ChunksMatter | src/write2syslog.c:220-268 | one stream, two cuttings, different lines |
| Cuttings.SameForEveryCutting | src/write2syslog.c:214-373 | lines and carry are the same for every cutting if and only if every LF stands behind a CR, inside the first line, or opens the unfinished piece |
| Cuttings.LinesSameForEveryCutting | src/write2syslog.c:220-344 | the lines alone are the same for every cutting if and only if that holds of the stream up to its last CR |
| Cuttings.SteadyNotTidy | src/write2syslog.c:251-331 | `a` LF `b` CR, which is steady and not tidy, gives the one line `a` LF `b` and an empty carry for every cutting |
| LogLines.CleanedIsOneRun | src/write2syslog.c:66-172 | cleaning line by line is one run of the filter over the session's lines, each up to its first NUL |
| LogLines.CleanedSessionChunkIndependent | src/write2syslog.c:214-298 | for tidy streams the cleaned session does not depend on the cutting: it is one run of the filter over the pieces |
| LogLines.CleanedSessionSame | src/write2syslog.c:214-298 | whenever the lines are the same for every cutting, so is the cleaned session: one run of the filter over the lines of one read of the stream |
| LogLines.LogIsCleanWhenPlain | src/write2syslog.c:173-294 | the log shows the cleaned lines if and only if there was nothing to clean |
| LogLines.RawLineShown | src/write2syslog.c:173-177 | ESC `[` `m` is shown as it is, though its cleaned text is empty |
| LogLines.LossShows | src/write2syslog.c:205-291 | losing messages from within a log breaks the numbering if and only if 101 does not divide how many were lost |
| LogLines.EmitAppend | src/write2syslog.c:203-298 | emitting lines call by call is emitting them all: messages, numbers, filter state and cleaned text |
| SyslogClass.Syslog.StripEsc | src/write2syslog.c:78-177 | `cleanBuffer` holds the filter's output and `vtstate` its state; the caller's buffer is as before |
| SyslogClass.Syslog.StrNCpy | src/write2syslog.c:174 | copies up to the NUL, pads with NULs, and touches no more than the given count |
| SyslogClass.Syslog.Advance | src/write2syslog.c:86-171 | one round of the filter loop changes `vtstate` and writes or drops the byte as the transducer does |
| SyslogClass.Syslog.EmitLine | src/write2syslog.c:273-298 | one message with the raw line up to a NUL, numbered below 101, and the filter advanced over it |
| SyslogClass.Syslog.EmitLines | src/write2syslog.c:258-338 | the search loop emits every finished line of the buffer and stops in front of the unfinished piece |
| SyslogClass.Syslog.Write2Syslog | src/write2syslog.c:180-374 | emits exactly the finished lines of carry and chunk, and keeps the rest |
| SyslogClass.Syslog.LogSession | src/write2syslog.c:180-374 | a whole session emits exactly the lines of its chunks, in order and numbered on |
| ConfigLines.StrippedExactly | src/configParser.h:55-64 | the promised trimming: the one string that is left when only whitespace (space, codes 9 to 13, NUL) is taken from both ends |
| ConfigLines.TrimmedExactly | src/configParser.c:38-77 | trimming keeps the promise if and only if the string is not empty (NULL) and the text is not a single character at the end of it (lost) |
| ConfigLines.TrimmedWrongly | src/configParser.c:45-64 | `a` is trimmed to nothing, and the empty string to NULL |
| ConfigLines.PartTrimmed | src/configParser.c:38-77 | a text with any such whitespace around it is recovered by trimming if and only if it has two characters or whitespace behind it |
| ConfigLines.SplitRecovers | src/configParser.c:92-157 | a key and a value with any whitespace around them are recovered if and only if neither is a single character with no whitespace behind it |
| ConfigLines.RefusedExactly | src/configParser.c:79-122 | a line is refused if and only if it is empty, begins with `#`, has no `=` or a part as long as its buffer; otherwise an empty part is what is copied from NULL |
| ConfigLines.SplitExample | src/configParser.c:92-157 | `file = true` is split to `file` and `true`, `# file = true` is refused |
| ConfigParser.TrimWhitespace | src/configParser.c:38-77 | the two pointer loops compute that trimming |
| ConfigParser.StrCpy | src/configParser.c:136-151 | the buffer holds the string and its NUL |
| ConfigParser.SplitConfigLine | src/configParser.c:92-157 | fills both buffers with terminated strings when the line is accepted, and neither when it is refused |

## Left out

- GetoptClass.Getopt.GetoptInternal: the `-W foo` branch (src/getopt.c:797-920) is excluded by requiring option characters without `W;`; rootsh has none. `long_only`, `print_errors` and the messages are not modelled, and option letters are characters, so that a letter of 0x80 or more that C returns as a negative number is not covered.
- GetoptClass.Getopt.Run: calls after -1, and callers that move `optind` themselves, are covered only as far as the state invariant of `GetoptInternal` reaches; `main`'s use after `-c` is covered in full.
- LongOptions.MatchLongOption: name lengths are compared as unbounded numbers, not as `unsigned int`.
- Spelling.ReadingRecoversMeaning: is about option characters that are the same to every call; `Marks.MarkedReadingRecovers` is about marked ones.
- EscapeDocuments.DocumentFiltered: an escape sequence with intermediate bytes other than one of `# ( ) * +` and space is, to the filter and so to the model, ended by the first of them; strings opened by SOS are not among the documents (`SosOpensNothing`).
- Marks.MarkIsOnlyAMark: for characters such as `++a` it compares with a scan that no call can ask for; `Marks.RunsCompared` is about the runs that there are.
- RootshMain.Rootsh.ParseCommandLine: starts from a fresh scanner and at least argv[0]; copying of option arguments is value copying, and allocation does not fail.
- SyslogClass.Syslog.Write2Syslog: the realloc'ed carry buffer is a sequence (empty for NULL), allocation does not fail, and a message is appended to a log instead of being sent.
- ConfigParser.SplitConfigLine: excludes lines with nothing in front of or behind the `=`, for which the C code copies from NULL (src/configParser.c:45-47, 136, 151); `ConfigLines.SplitLine` names that case.
- ConfigParser.TrimWhitespace: the allocated result is a value, and allocation does not fail.
- src/getusershell.c: the tokenizer of the list of shells would only add easy members.
- src/basename.c, src/getopt1.c and `parseBool`: no property beyond their bodies, or none that holds.
- Everything in src/rootsh.c that is work of the operating system: terminals, processes, signals, files, users and environment.
- The builds, the contributed packaging and the scripts.
