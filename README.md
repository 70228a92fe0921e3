# CronManager in Dafny

A model of the three classes of the CronManager crontab toolkit, with proofs about them:

- `CrontabCommand` is one crontab line. It holds a five-field timing expression, an environment prefix, a command text and a comment flag.
- `Crontab` is an ordered list of such commands. It is read from crontab text, edited by pattern and written back as text.
- `CronManager` is a per-user registry of managers. Each manager keeps a pending batch of commands. Its `update()` merges the batch into the live crontab under an optional external lock.

The project has five modules, one per file:

| file | module | models |
|---|---|---|
| `php.dfy` | `Php` | the parts of PHP the toolkit relies on: `trim()`, `explode("\n", …)`, `empty()` on strings, `substr()` past the end, literal substring search and the exceptions it throws |
| `sequences.dfy` | `Sequences` | order-preserving filtering (`array_filter` on a list) and the concatenating map used to describe `parse()` |
| `commands.dfy` | `Commands` | `CrontabCommand.php`: the timing grammar as a deterministic scanner, a command as a value (`Entry`), `serialize`/`unserialize` as functions, and a `CrontabCommand` class whose setters update its fields in place |
| `crontabs.dfy` | `Crontabs` | `Crontab.php`: patterns, parsing and rendering of crontab text, and a `Crontab` class whose methods update its command list in place |
| `managers.dfy` | `Managers` | `CronManager.php`: the merge `update()` performs, the external locker, the manager class and the static instance registry |

## How the source is modelled

**The timing grammar.** The `EXPRESSION` regular expression has five character-class fields separated by single `\s` characters. No field's class contains whitespace. So the anchored match is deterministic:

- each of the first four fields is the longest run of its class, followed by one whitespace character;
- the last field is the longest run of its class.

`Commands.Scan` is that scanner. The month and weekday "names" sit inside square brackets, so they are character classes: each letter, and each of `(`, `|` and `)`, is accepted on its own. `IsMonthNameChar` and `IsDayNameChar` list those characters. `\s` is space, tab, line feed, vertical tab, form feed and carriage return. `trim()` strips space, tab, line feed, carriage return, NUL and vertical tab.

**Commands.** A command is the value `Entry(expression, environment, command, isComment)`. The `CrontabCommand` class has the same four fields. Its methods are proved against the functions `Serialized` and `Unserialized`.

**Crontabs.** A `Crontab` holds a `seq<Entry>`. Where a crontab is read from, and what is written, are modelled as data:

- The text a crontab is loaded from (the output of `crontab -l`, or a file's contents) is a parameter.
- `save()` returns a `SchedulerCall`: install this text for this user, a failed `popen()`, or remove this user's crontab.
- `saveTo()` returns a `FileEffect` and an `Outcome`. Whether `fopen()` and `flock()` succeed are parameters.

Patterns are `Quoted(x)` or `Regex(m)`:

- `Quoted(x)` is the pattern `"!" + preg_quote(x) + "!"` that `update()` builds. It matches exactly the strings that contain `x`.
- Any other pattern a caller passes is an arbitrary predicate on strings.

**The manager.** `update()` is gated on the locker's `lock()`. The locker is a small class with the answer its next `lock()` gives and a ghost `held` flag. The manager keeps a ghost journal of the lock, save and unlock calls, in order. The static `$Instances` map is the `Registry` class.

**Behaviour worth noting:**

- `update()` builds its working list with `new Crontab()`. That constructor loads the invoking user's current crontab (source/Crontab.php:38-41, 150-156), so the merge runs against the live crontab. It also saves to the invoking user's crontab, whatever the manager's user name is. `Managers.CronManager.Update` takes the live crontab text as the parameter `live`.
- `CronManager::add()` reads its batch with `new Crontab('', $fileName)`, so comment lines and lines that do not match the grammar (such as `MAILTO=…`) become pending commands with empty command text. Every string contains "", so `update()` deletes every entry before such a command, and the command is written back as a line of two spaces (`Managers.MergedUnparsedLine`, `Managers.MergedEmptyCommand`).
- The same holds for the live crontab that `update()` loads. `parse()` reads every comment line, every `VAR=value` line (such as `MAILTO=root`) and every `@reboot` line as a command with three empty strings. Unless a pending command's text is "" or " ", that entry survives the merge and `save()` writes it back as a line of two spaces, so the original text of such lines is lost (`Managers.LiveUnparsedLine`, `Managers.DecodedUnparsed`).
- `saveTo()` opens the file in `"w"` mode before `flock()`. When the lock is refused, the file has already been emptied, and then `LogicException("file … already locked")` is thrown.
- `unlock()` is called only on the success path of `update()`.
- A non-comment line that does not match the grammar leaves the expression and command as they were; a freshly made command has them empty.
- The environment never survives a save and reload. `serialize()` writes it between the expression and the command, and `unserialize()` reads it back as the start of the command text (`Commands.UnserializeSerializedEnvironment`). Save-and-reload gives back the same commands only when the environment is empty (`Crontabs.ParseRendered`).

## Model

| member | source | states |
|---|---|---|
| Php.Trim | source/CrontabCommand.php:124 | trim() never lengthens a string, and its result neither starts nor ends with a character trim() strips |
| Php.TrimIdempotent | source/Crontab.php:170-173 | trimming a trimmed line changes nothing, so unserialize() trimming again the line parse() already trimmed is harmless |
| Php.TrimEmpty | source/Crontab.php:170-171 | trim() yields "" exactly when every character is one trim() strips (both directions) |
| Php.Substr | source/CrontabCommand.php:131 | substr(s, n) is the text after the first n characters, and the empty string when n reaches or passes the end of s |
| Php.ContainsIffOccurs | source/CronManager.php:116 | the substring search a quoted pattern performs succeeds exactly when the text occurs at some position (both directions) |
| Php.Explode | source/Crontab.php:169 | explode("\n") yields at least one piece, no piece holds a newline, and joining the pieces with "\n" gives the text back |
| Php.ExplodeJoin | source/Crontab.php:169 | explode("\n") is the only way to cut a text into newline-free pieces: exploding the joined pieces gives them back |
| Sequences.Filter | source/Crontab.php:58-63 | the filtered list holds only accepted elements of the input, and every accepted element of the input |
| Sequences.FilterAll | source/Crontab.php:58-63 | a filter that accepts everything keeps the list unchanged |
| Sequences.FilterKeepsOrder | source/Crontab.php:58-63 | filtering reads the input at exactly the accepted positions, in increasing order, so what is kept keeps its relative order |
| Commands.Scan | source/CrontabCommand.php:23 | a successful anchored match captures a non-empty prefix of the string; ScanSound, ScanComplete and ScanFinds below state which prefix |
| Commands.RunEnd | source/CrontabCommand.php:23 | a field's match is the longest run of its character class: every character of the run is in the class and the next one is not |
| Commands.ScanIsLongestMatch | source/CrontabCommand.php:23 | the anchored match succeeds exactly when some prefix is five fields of their classes separated by single whitespace characters, and what it captures is the longest such prefix |
| Commands.ScanSound | source/CrontabCommand.php:23 | what the scanner captures is a timing expression, and the next character cannot extend its last field |
| Commands.ScanComplete | source/CrontabCommand.php:23 | whenever some prefix is a timing expression, the scanner succeeds and captures at least that much |
| Commands.ScanFinds | source/CrontabCommand.php:23 | a timing-expression prefix that the next character cannot extend is exactly what the scanner captures |
| Commands.PrefixIsExpression | source/CrontabCommand.php:23 | a prefix that matches is a timing expression on its own |
| Commands.ScanExpressionThen | source/CrontabCommand.php:23 | a timing expression followed by nothing or by a character outside the weekday class is captured exactly |
| Commands.ExpressionEnds | source/CrontabCommand.php:23 | a timing expression is not empty, neither starts nor ends with a character trim() strips, and does not start with '#' |
| Commands.ExpressionLength | source/CrontabCommand.php:23 | a timing expression is at least nine characters long, so it is never empty() |
| Commands.ScanTrim | source/CrontabCommand.php:50-53 | trimming a string whose front matches keeps the same match, so the value setExpression() stores still starts with a timing expression |
| Commands.CapturedIsTrimmedExpression | source/CrontabCommand.php:128-131 | the prefix unserialize() captures passes setExpression()'s check and is stored unchanged by its trim(), so unserialize() never throws |
| Commands.Decomposed | source/CrontabCommand.php:125-133 | one unserialize() step on a trimmed line keeps the environment, sets the comment flag exactly when the line starts with '#', and keeps a valid expression valid |
| Commands.Unserialized | source/CrontabCommand.php:123-134 | unserialize() keeps the environment, sets the comment flag exactly when the trimmed line starts with '#', and keeps the expression empty or starting with a timing expression |
| Commands.UnserializeComment | source/CrontabCommand.php:124-126 | the comment flag is set exactly when the trimmed line starts with '#'; a comment leaves expression, environment and command as they were |
| Commands.UnserializeNoMatch | source/CrontabCommand.php:126-133 | a non-comment line with no matching prefix changes nothing but the comment flag |
| Commands.DecomposeMatch | source/CrontabCommand.php:127-132 | on a matching non-comment line the expression becomes the longest timing expression at the front of the trimmed line, the command becomes trim(substr(line, length + 1)), the trimmed rest after one more character, the environment is left as it was and the comment flag is cleared |
| Commands.Serialized | source/CrontabCommand.php:115-117 | the line is 2 characters longer than its three parts: it starts with the expression and a space and ends with a space and the command |
| Commands.UnserializeSerialized | source/CrontabCommand.php:115-134 | round trip: a command with no environment, a whole timing expression and a trimmed command text comes back from its serialized line unchanged (with the comment flag cleared) |
| Commands.UnserializeSerializedEnvironment | source/CrontabCommand.php:115-134 | with an environment, the round trip does not hold: the environment is read back as the start of the command text and the environment comes back empty |
| Commands.UnserializeSpaced | source/CrontabCommand.php:123-134 | parsing "E C" for a whole timing expression E and a trimmed command C gives expression E, command C and no environment |
| Commands.SerializeUnserialized | source/CrontabCommand.php:115-134 | parsing "E C" and serializing the result gives "E  C", with a double space for the empty environment |
| Commands.ExampleExpression | examples/command.php:19 | "23 */2 * * *" is a timing expression |
| Commands.ExampleCommand | examples/command.php:19 | the example's command text `echo "Running at 0:23, 2:23, 4:23 etc."` is already trimmed |
| Commands.UnserializeExample | examples/command.php:19 | the example line `23 */2 * * * echo "Running at 0:23, 2:23, 4:23 etc."` is read as expression "23 */2 * * *", that command text and no environment |
| Commands.CrontabCommand.constructor | source/CrontabCommand.php:28-43 | a new command has all three strings empty and is not a comment |
| Commands.CrontabCommand.SetExpression | source/CrontabCommand.php:50-57 | succeeds exactly when the argument's front matches the grammar and then stores its trim(); otherwise throws InvalidArgumentException and keeps the old expression; no other field changes; the stored expression stays valid |
| Commands.CrontabCommand.SetEnvironment | source/CrontabCommand.php:72-75 | stores the trimmed argument as the environment and changes no other field |
| Commands.CrontabCommand.SetCommand | source/CrontabCommand.php:90-93 | stores the trimmed argument as the command and changes no other field |
| Commands.CrontabCommand.Serialize | source/CrontabCommand.php:115-117 | the line is expression, environment and command joined by single spaces; UnserializeSerialized and UnserializeSerializedEnvironment state what reading it back gives |
| Commands.CrontabCommand.Unserialize | source/CrontabCommand.php:123-134 | the new fields are those Unserialized gives for the old fields and the line, so every Unserialize… lemma above applies; the stored expression stays valid |
| Commands.CrontabCommand.SetFields | source/CrontabCommand.php:130-131 | the two setter calls on a matching line store the captured prefix and the trimmed rest, and change nothing else |
| Crontabs.Subject | source/Crontab.php:60-72 | the string a pattern is matched against is the environment, one space, then the command text |
| Crontabs.GetDeletePartition | source/Crontab.php:58-74 | get(p) and delete(p) split the list between them: together they hold every command exactly as often as the list does |
| Crontabs.DeleteIdempotent | source/Crontab.php:58-63 | deleting by the same pattern twice is deleting once |
| Crontabs.ParseLine | source/Crontab.php:170-175 | a line gives one command when it is not empty() once trimmed and none otherwise, and that command has no environment |
| Crontabs.ZeroLineSkipped | source/Crontab.php:170-171 | a line that trims to one character is skipped exactly when that character is "0", since empty("0") is true |
| Crontabs.Parsed | source/Crontab.php:168-178 | parse() yields as many commands as there are lines not empty() once trimmed, none with an environment |
| Crontabs.ParsedOneLine | source/Crontab.php:168-178 | a text of one line that is not empty() once trimmed is read as one command, the one unserialized from the trimmed line |
| Crontabs.ParsedLines | source/Crontab.php:168-178 | parse() yields one command per line that is not empty() once trimmed (a line "0" is dropped too), in line order, each unserialized from its trimmed line |
| Crontabs.Rendered | source/Crontab.php:96-98 | the text written is empty exactly when the list is, and otherwise ends with a newline |
| Crontabs.RenderedOne | source/Crontab.php:96-98 | a single command is written as its serialized line and one newline |
| Crontabs.RenderedLines | source/Crontab.php:96-98 | splitting the written text on newlines gives each command's serialized line, in order, then one empty piece |
| Crontabs.ParseSerialized | source/Crontab.php:170-174 | parse() reads a command with no environment, a whole timing expression and a trimmed one-line command back from its own line |
| Crontabs.SerializedOneLine | source/CrontabCommand.php:115-117 | a command whose three strings hold no newline serializes to a single line |
| Crontabs.ParseRendered | source/Crontab.php:168-178 | round trip: parsing the text written for such commands gives the same commands back, in order |
| Crontabs.Crontab.constructor | source/Crontab.php:38-41 | the user name is trimmed, the source is a file when its name is not empty() and the user's crontab otherwise, and the list is what parse() reads from the loaded text |
| Crontabs.Crontab.Load | source/Crontab.php:150-162 | keeps the loaded text, records where it came from, and appends the commands parsed from it |
| Crontabs.Crontab.Parse | source/Crontab.php:168-178 | appends, to the existing list, the commands parsed from the kept text; the loop's invariant is the map over the lines read so far |
| Crontabs.Crontab.Add | source/Crontab.php:48-51 | appends exactly one command at the end; the earlier commands and the other fields are unchanged |
| Crontabs.Crontab.Delete | source/Crontab.php:58-63 | the list becomes exactly the commands the pattern does not match, in their order |
| Crontabs.Crontab.Get | source/Crontab.php:70-74 | returns exactly the commands the pattern matches, reads the list without changing it, and is as long as the list minus what delete() would keep |
| Crontabs.Crontab.Clear | source/Crontab.php:140-143 | the list becomes empty; the other fields are unchanged |
| Crontabs.Crontab.WriteAll | source/Crontab.php:96-98 | the loop writes each command's serialized line followed by "\n", in list order |
| Crontabs.SaveCall | source/Crontab.php:88-109 | save() targets the crontab's user; it removes the crontab exactly when the list is empty, and installs the rendered list exactly when the list is not empty and popen() succeeds |
| Crontabs.Crontab.Save | source/Crontab.php:88-109 | a non-empty list is installed as its rendered text for the user (nothing when popen() fails); an empty list removes the user's crontab, and only an empty list does |
| Crontabs.Crontab.SaveTo | source/Crontab.php:117-134 | a refused lock on a non-empty list throws LogicException("file … already locked") and leaves the file empty; otherwise the rendered list is written, an empty list writes an empty file, and a failed fopen() touches nothing |
| Managers.MergeStep | source/CronManager.php:116-117 | one delete-then-add step grows the list by at most one and ends it with the pending command |
| Managers.Merged | source/CronManager.php:114-118 | the merged list is no longer than the baseline plus the batch, and after a non-empty batch it ends with the last pending command |
| Managers.MergedOrigin | source/CronManager.php:114-118 | every entry of the merged list comes from the baseline or from the batch |
| Managers.SurvivesIff | source/CronManager.php:114-118 | an entry outlives the merge of a batch exactly when no pending command's text occurs in its environment-and-command string |
| Managers.MergeStepEmptyCommand | source/CronManager.php:116-117 | a pending command with empty command text deletes every entry before it, since every string contains "" |
| Managers.MergedSplit | source/CronManager.php:114-118 | the merged list is the baseline entries no pending command supersedes, in their original order, followed by what the batch alone merges to |
| Managers.MergedConcat | source/CronManager.php:114-118 | merging a batch in two parts is merging the first part, then the second |
| Managers.MergedSnoc | source/CronManager.php:114-118 | merging one more pending command is one more delete-then-add step on the merge so far |
| Managers.MergedEmptyCommand | source/CronManager.php:114-118 | after a pending command with empty command text, only it and the later pending commands' merge remain |
| Managers.MergedUnparsedLine | source/CronManager.php:95-118 | a comment line or a line that does not match the grammar, read into the batch, has empty command text, deletes every entry before it and is written back as "  " |
| Managers.DecodedUnparsed | source/Crontab.php:170-174 | a comment line or a line the grammar does not match is parsed into a command whose expression, environment and command are all empty, which is written back as "  \n" |
| Managers.BlankSurvives | source/CronManager.php:114-118 | a command with empty environment and command text survives every pending command whose text is neither "" nor " ", and the merge keeps it first |
| Managers.LiveUnparsedLine | source/CronManager.php:113-119 | a live-crontab line that is a comment or does not match the grammar is read as one such empty command, survives the merge of a batch whose command texts are neither "" nor " ", and stays at the front of the merged list |
| Managers.MergeInto | source/CronManager.php:114-118 | the loop turns the working list into the merge of the batch into it, one delete-then-append per pending command |
| Managers.Rewrite | source/CronManager.php:113-119 | the working crontab is the invoking user's live crontab with the batch merged in, and it is saved for the invoking user |
| Managers.Locker.Lock | source/CronManager.php:108-110 | lock() answers whether the lock was acquired, and the lock is held after a granted lock() |
| Managers.Locker.Unlock | source/CronManager.php:121-123 | after unlock() the lock is not held |
| Managers.CronManager.constructor | source/CronManager.php:58-60 | a new manager has its user name, no current crontab, no locker and an empty batch |
| Managers.CronManager.SetLocker | source/CronManager.php:67-70 | sets the locker and changes nothing else |
| Managers.CronManager.AddCommands | source/CronManager.php:85-88 | the batch becomes exactly the given commands, whatever it was before |
| Managers.CronManager.Add | source/CronManager.php:95-99 | the batch becomes exactly the commands parsed from the loaded text, and the ghost result names where new Crontab('', fileName) loads it from: the file when the file name is not empty(), and otherwise ("" or "0") the invoking user's live crontab through `crontab -l` |
| Managers.CronManager.Update | source/CronManager.php:106-127 | a refused lock throws RuntimeException("could not acquire update lock"), builds no working crontab and saves nothing; otherwise the working crontab is the live crontab with the batch merged in, it is saved, and lock, save and unlock happen once each, in that order, leaving the lock released; the batch is kept |
| Managers.Registry.constructor | source/CronManager.php:22 | the registry starts with no managers |
| Managers.Registry.GetInstance | source/CronManager.php:28-33 | the first call for a user name creates a fresh manager for it and records it; every later call returns that same manager and leaves the registry unchanged; the manager returned always has the requested user name, and every registered manager stays under its own name |
| Managers.Registry.Distinct | source/CronManager.php:22-33 | different user names are served by different managers |

## Left out

- The crontab binary (`crontab -l`, `crontab -`, `crontab -r` through backticks and `popen()`): the text read is a parameter, and what is written is returned as a `SchedulerCall`. The crontab binary's own output, its exit status and its suppressed error output are not modelled.
- File I/O (`file_get_contents`, `fopen`, `flock`, `fwrite`, `fclose`, `file_put_contents`): the text read is a parameter; whether `fopen()` and `flock()` succeed are parameters; what is written is returned as a `FileEffect`. A failed `file_get_contents` (which yields false, read as "") is covered by passing "" as the text.
- General `preg_match` patterns passed to `get()` and `delete()` are arbitrary predicates on strings. A pattern that makes `preg_match` report an error is not modelled separately. Only the quoted pattern built by `update()` is concrete, as literal substring containment.
- The `byArguments` branch of `update()`: it calls `getArguments()`, which `CrontabCommand` does not define. Only `update(false)` is modelled.
- `LockerInterface` is not part of this model. The locker is a class whose next answer to `lock()` is a field set from outside.
- Commands are held as values, not object handles. A `CrontabCommand` shared between a crontab and a caller, and changed through one of them afterwards, is not modelled.
- `array_filter` keeps the original keys of the kept elements. The model re-indexes the list, which is how `foreach` and `fwrite` then read it.
- Getters (`getExpression`, `getEnvironment`, `getCommand`, `isComment`, `getAll`, `getLocker`) are field reads and carry no contract of their own.
- `__toString()` is `serialize()`; it has no separate member.
- Races between processes writing the same crontab or file are not modelled.
- Strings are sequences of characters; PHP's strings are bytes. No encoding is modelled.
- source/Autoloader.php is not part of this model.
- Commands.CrontabCommand.Serialize: its contract is the function `Serialized` it computes; what the line means is stated by the round-trip lemmas beside it.
