# hoskell core, modelled in Dafny

hoskell is a small Unix shell written in C. This project models the logic at
its centre and proves what that logic promises:

- `tokenize` and `tokens_length` (utils.c). `tokenize` trims blanks and
  newlines from both ends of a command buffer in place. It then cuts the
  buffer at every delimiter by writing a NUL there, and returns a
  NULL-terminated array of token pointers.
- `setup_pipes`, `blockingwait` and `fork_and_run` (utils.c). One child is
  started per pipeline stage, and neighbouring stages are linked with pipes.
  The parent closes the pipe ends it no longer needs, and then waits for the
  children in stage order. It does not wait when the pipeline runs in the
  background.
- The command line in main.c: the blank-line and `exit` checks of the read
  loop, and the count of blank-separated words. Also `exec_command`, which
  cuts the line into an argument vector with `strtok`, takes a trailing `&`
  as the background flag, and chooses between a foreground and a background
  run.

Files:

- `wrappers.dfy`: `Option`.
- `cstrings.dfy`: the C string routines the shell calls (`strlen`, `strchr`,
  `strncmp`) over a buffer of characters. A C string is an index into that
  buffer, and the string ends at the first NUL.
- `tokenizer.dfy`: `tokenize` as a method on an `array<char>` with its loops,
  proved against the pure functions `Trim`, `Split` and `Join`.
- `pipes.dfy`: the parent's descriptor table as a class. `setup_pipes` is a
  loop over that table. The system calls are answered by an oracle value.
- `shell.dfy`: `strtok` as defined in section 7.24.5.8 of ISO/IEC 9899:2011.
  Also `exec_command` over the line buffer as an `array<char>`, and the
  dispatch of a line read by the main loop.

Pointers into a buffer are indices. A NULL pointer is `None`.
`fork_foreground` and `fork_background` are not executed. `exec_command`
returns a `Launch` value instead: the program, the argument vector and the
background flag. The main loop's choice is an `Action`: skip the line, quit,
or run it with a token count.

## Model

| member | source | states |
|---|---|---|
| CStrings.StrLen | utils.c:151 | strlen: the terminator sits at p + n and there is no NUL before it |
| CStrings.StrChr | main.c:287-290 | strchr: the first index at or after p that holds c, never past the terminator; None exactly when c is absent up to and including the terminator |
| CStrings.StrNEqMeaning | main.c:280 | of StrNEq, the model of strncmp: strncmp(..., n) == 0 exactly when both strings show the same first n characters, the terminator included |
| CStrings.CStrIs | utils.c:186-196 | a string written at p and followed by a NUL reads back from p as that string |
| Tokenizer.TrimEnd | utils.c:153-157 | everything from the returned length on is a blank or newline, and the character before it is neither |
| Tokenizer.TrimStart | utils.c:159-164 | everything before the returned start is a blank or newline, and the character at it is neither |
| Tokenizer.Trim | utils.c:151-164 | the trimmed string is the part between TrimStart and TrimEnd; it is non-empty and neither starts nor ends with a blank or newline |
| Tokenizer.TrimSurroundings | utils.c:151-164 | trimming keeps the interior untouched: the string is the removed prefix, the trimmed string and the removed suffix |
| Tokenizer.TrimIdempotent | utils.c:151-164 | trimming a trimmed string changes nothing |
| Tokenizer.TrimRight | utils.c:153-157 | the right-trim loop stops at the last non-blank character and NULs exactly the trailing blanks |
| Tokenizer.TrimLeft | utils.c:159-164 | the left-trim loop stops at the first non-blank character and NULs exactly the leading blanks |
| Tokenizer.CountDelims | utils.c:166-173 | the strchr counting loop returns the number of delimiters in the trimmed string plus one |
| Tokenizer.StrChrInTrimmed | utils.c:167-170 | one strchr call on the trimmed buffer finds the next delimiter of the trimmed string, or nothing |
| Tokenizer.NextDelim | utils.c:182-192 | the index of the next delimiter at or after from, or the end; no delimiter lies before it |
| Tokenizer.SplitFromJoin | utils.c:176-197 | joining the pieces with the delimiter gives the string back |
| Tokenizer.SplitFromCount | utils.c:166-197 | there is one more piece than there are delimiters |
| Tokenizer.SplitFromNoDelim | utils.c:184-193 | no piece contains the delimiter |
| Tokenizer.SplitFromUnique | utils.c:176-197 | any delimiter-free pieces that join to the string are the split, so the split is the only such decomposition |
| Tokenizer.AdjacentDelimsGiveEmptyToken | utils.c:184-193 | two delimiters side by side give an empty token, the one whose index is the number of delimiters up to and including the first of the two |
| Tokenizer.StartsAgree | utils.c:181-196 | the token pointers are as many as the pieces, and each piece runs from its pointer to the next delimiter |
| Tokenizer.StrChrFindsNextDelim | utils.c:182-192 | strchr from a token start in the buffer finds the index of the next delimiter of the trimmed string |
| Tokenizer.CutTokens | utils.c:176-198 | the cutting part of tokenize NULs every delimiter of the trimmed string and returns a pointer to each token start, then NULL |
| Tokenizer.CutEach | utils.c:181-196 | the cutting loop visits every token start in order and leaves every delimiter cut |
| Tokenizer.NextCut | utils.c:182-192 | strchr in the partly cut buffer still finds the next delimiter of the trimmed string |
| Tokenizer.TokenReadBack | utils.c:176-198 | the C string at token pointer k of the tokenized buffer is piece k of the trimmed string |
| Tokenizer.TokenStrings | utils.c:176-198 | the C strings read at the token pointers are the pieces of the trimmed string |
| Tokenizer.TokenizeRoundTrip | utils.c:143-201 | joining the returned tokens with the delimiter gives the trimmed string back, in order; no token holds the delimiter; there are count plus one of them |
| Tokenizer.Tokenize | utils.c:143-201 | tokenize leaves the buffer trimmed and cut at every delimiter, and returns the token pointers followed by NULL |
| Tokenizer.TokensLength | utils.c:122-133 | tokens_length returns the index of the first NULL; every entry before it is a pointer |
| Tokenizer.TokensLengthOfTokenized | utils.c:122-133 | on tokenize's result, tokens_length returns the number of tokens |
| Pipes.FdTable.Pipe | utils.c:237-240 | pipe() either adds two new descriptors to the parent's table and returns them, or fails and changes nothing |
| Pipes.FdTable.Close | utils.c:254-267 | close() succeeds only on an open descriptor; when it succeeds the descriptor leaves the table, and otherwise nothing changes |
| Pipes.PipesMade | utils.c:235-241 | counting stage by stage, one pipe for every stage but the last, the first i < len stages make i pipes and all len stages make len - 1 |
| Pipes.SetupPipes | utils.c:210-307 | each started stage is recorded in order with its pid, the descriptors it inherited and its fate, computed from the loop's own prev_p and new_p and proved to be StageAt; a failed pipe, fork or close ends with status 1 at the first failing stage; with every stage started, the parent holds exactly the descriptors it began with, and len - 1 pipes (2 (len - 1) descriptor numbers) were made for len > 0 stages |
| Pipes.WriteEndOnlyInItsStage | utils.c:249-268 | the write end of pipe p is inherited by stage p and by no other stage |
| Pipes.ReadEndInTwoStages | utils.c:249-268 | the read end of pipe p is inherited only by stage p and stage p + 1 |
| Pipes.ParentHoldsNoWriteEnd | utils.c:249-268 | after any iteration the parent holds no pipe's write end, and after the last it holds no read end either |
| Pipes.ChildWiring | utils.c:272-303 | of ChildFate, the model of the child branch: stage i reads from the previous pipe exactly when i != 0 and writes to its own pipe exactly when it is not last; a failed dup2 or execvp makes the child exit with status 1 |
| Pipes.NeighboursShareAPipe | utils.c:274-295 | stage i writes into the pipe that stage i + 1 reads from |
| Pipes.FirstEnd | utils.c:20-29 | the index of the first waitpid reply that ends the wait; no earlier reply does |
| Pipes.WaitResult | utils.c:16-30 | the wait ends exactly when some reply ends it; it then comes from the first such reply, and is Suspended with that reply's pid exactly when the child was stopped |
| Pipes.FirstEndAt | utils.c:20-29 | a reply that ends the wait with none before it is the first one |
| Pipes.BlockingWait | utils.c:16-30 | blockingwait returns on the first reply for an exited, signalled or stopped child, and keeps retrying on anything else |
| Pipes.ForkAndRun | utils.c:314-349 | fork_and_run exits with status 1 exactly when setup failed; otherwise the parent holds exactly the descriptors it began with, and the run is in background exactly when bg == TRUE, in which case it returns the children without waiting; in foreground it waits for each child in stage order |
| Shell.SkipSepsSkips | main.c:180-190 | strtok's first scan passes only separators |
| Shell.TokenEndScans | main.c:180-190 | strtok's second scan passes only characters that are neither separators nor NUL |
| Shell.Strtok | main.c:180-190 | one strtok step: a new NUL lands inside the buffer, and the saved position and the returned token are both C strings |
| Shell.StrtokMeaning | main.c:180-190 | strtok returns NULL exactly when only separators remain; otherwise it returns the first non-separator, and it NULs the next separator if one comes before the terminator |
| Shell.StrtokReadBack | main.c:180-190 | the returned token reads back as the non-empty run of non-separators at which it starts |
| Shell.StrtokCall | main.c:180-190 | the strtok call on the line buffer returns the token and writes the cut that the strtok step describes |
| Shell.ArgRun | main.c:177-192 | after k calls there are k results, and the saved position and the last token are C strings |
| Shell.StrtokNext | main.c:185-190 | one more call of exec_command's sequence appends its result and moves the buffer and save to the next state |
| Shell.StoreArg | main.c:186-190 | one round of the argument loop stores the next strtok result in args[i] |
| Shell.CollectArgs | main.c:177-192 | the strtok calls fill prog and args[1..tokens-1] with the results of the whole sequence, blank-separated and then newline-separated for the last |
| Shell.PassArgs | main.c:195-218 | args is NULL at index tokens and holds the program at 0; the run is in background exactly when the last argument starts with '&', and then that argument becomes NULL |
| Shell.ExecCommand | main.c:172-219 | exec_command's argument vector, program and background flag, as the strtok sequence over the line gives them |
| Shell.AmpMeaning | main.c:211 | strncmp(arg, "&", 1) == 0 exactly when the argument starts with '&' |
| Shell.Dispatch | main.c:276-295 | a line starting with a newline is skipped; a line starting with "exit" (also "exitx") quits; any other line runs with one more token than it has blanks |
| Shell.ExitMeaning | main.c:280-283 | strncmp(line, "exit", strlen("exit")) == 0 exactly when the line starts with "exit" |
| Shell.RunOverWords | main.c:185-190 | over a line of single-blank-separated words, each strtok call returns the next word's start and cuts after it |
| Shell.WordLineArgs | main.c:177-192 | on such a line, argument i points at word i and reads back as that word, so the last argument is never NULL |
| Shell.WordLineCount | main.c:286-293 | on such a line the token count main computes equals the number of words |
| Shell.TrailingBlankGivesNullLastArg | main.c:186-190 | on "ls \n" the count is 2, but the last strtok call finds only the newline and returns NULL for args[1] |

## Left out

- Signal handlers, `sighold`/`sigrelse`, `poll_childs`, the supervisor path,
  timing and the execution-time output are left out. They are asynchronous
  OS plumbing, wall-clock time and floating point.
- `fgets`, the prompt and every `printf` are I/O. The line reaches the model
  as a terminated buffer.
- pipe, fork, close, dup2, execvp and waitpid are answers of an oracle
  (`Pipes.Os` and the waitpid replies). Their effect on real processes is not
  modelled.
- Pipes.FdTable.Pipe: a new pipe's ends are numbered from a counter, so they
  are fresh. POSIX's lowest-free numbering is not modelled. The properties
  proved rely only on the ends being new.
- Pipes.SetupPipes: the per-stage call to `tokenize` and the `args` it hands
  to `execvp` are not part of the stage model. That call is modelled on its
  own in `tokenizer.dfy`.
- Pipes.SetupPipes: the children are a sequence of stages, not the
  `children` array from malloc. When a close fails after a fork, the child
  already started is not recorded.
- Pipes.ChildWiring: the child does not close its own copies of the pipe
  descriptors after dup2. The code does not do that either; only the error
  paths close them.
- Pipes.ForkAndRun: `TRUE` is taken as 1, the value main.c:13 defines. The
  header utils.c takes it from is not part of this model.
- Pipes.BlockingWait: the replies are a finite sequence. When they run out,
  the result is "still blocked" rather than an endless wait.
- Tokenizer.Tokenize: requires a character other than a blank or a newline.
  Without one, the right-trim loop of utils.c reads before the buffer.
- Tokenizer.Tokenize: requires a delimiter other than NUL. With NUL, each
  strchr in the counting loop finds the terminator, and the next search
  starts past the end of the string. The callers pass only blank and `|`.
- Tokenizer.Tokenize: the allocation size at utils.c:174 is one pointer
  short of the `tokens + 1` entries written. The model returns all
  `tokens + 1` entries and does not model the allocation.
- Shell.ExecCommand: requires `tokens <= 40`, because `args` has 41 slots.
  `main` does not check this. `fgets` reads at most 79 characters, so a line of 79 blanks gives a count of 80.
- Shell.ExecCommand: requires the last argument to be non-NULL, because it
  is passed to strncmp. A trailing or doubled blank breaks this (see
  Shell.TrailingBlankGivesNullLastArg).
- Shell.ExecCommand: the argument vector is stated up to index `tokens`. In
  C, the slots after it are never written.
- Shell.Strtok: only the separator sets of `exec_command` are used (`" "`
  and `"\n"`), but the model allows any set without NUL. The hidden state of
  strtok is the explicit saved position.
