# Monkey Explorer, modelled in Dafny

Monkey Explorer is a small interactive console program. It holds a fixed catalog of three monkey records
(Capuchin, Mandrill, Howler). It reads one command per line: `list`, `details <name>`, `random` or
`exit`. It answers each command by writing lines to the console, and it stops only on `exit`.

The model has four modules:

- `Wrappers`: `Option`. `None` stands for the null that `Console.ReadLine` returns at the end of input and
  for the null returned by a failed lookup.
- `Strings`: the .NET string operations the program relies on.
  - `Trim`, over the exact `Char.IsWhiteSpace` set.
  - `Split(' ', 2, StringSplitOptions.RemoveEmptyEntries)` as `SplitVerb`.
  - `ToLowerInvariant` as `ToLower`.
  - `Equals(…, StringComparison.OrdinalIgnoreCase)` as `EqualsIgnoreCase`.
- `MonkeyHelper`:
  - the `Monkey` record;
  - the seeded catalog `GetMonkeys`;
  - the case-insensitive first-match lookup `GetMonkeyByName`;
  - `GetRandomMonkey`, which is given the index the random source would produce.
- `Program`:
  - the text each command prints (`ListMonkeys`, `ShowMonkeyDetails`, `ShowRandomMonkey`);
  - the parsing of one line (`Parse`) and its dispatch (`Execute`, `Step`);
  - the `while (true)` loop of `Main`. This is a specification, `Session`, and a method, `CommandLoop`, proved
    equal to it.

Output is modelled as the sequence of strings passed to `Console.WriteLine`, one element per call. A `"\n"`
inside an element is a line break that the program writes itself. The loop is a two-state machine, `Awaiting`
or `Exited`. It is run over a given sequence of input lines. A parallel sequence `picks` supplies, for each
line, the index that `new Random().Next(Count)` would return if that line is `random`. The catalog is a
value passed to every operation, so no command can change it.

## Model

| member | source | states |
|---|---|---|
| Strings.IsWhiteSpace | MyMonkeyApp/Program.cs:17 | the Char.IsWhiteSpace set that Trim removes, written out code point by code point; Strings.Trim and Strings.TrimOfPadded state what trimming with it does |
| Strings.Trim | MyMonkeyApp/Program.cs:17 | the trimmed line is empty exactly when the line is all white space; otherwise it neither starts nor ends with white space |
| Strings.TrimOfPadded | MyMonkeyApp/Program.cs:17 | trimming removes exactly the white space around a text that has none at its ends |
| Strings.TrimIdempotent | MyMonkeyApp/Program.cs:17 | trimming twice is trimming once |
| Strings.SplitVerb | MyMonkeyApp/Program.cs:20 | at most two non-empty parts, neither starting with a space, the first with no space at all; no parts exactly when the text is all spaces |
| Strings.SplitOfWord | MyMonkeyApp/Program.cs:20 | a single word splits into itself |
| Strings.SplitOfWordAndArgument | MyMonkeyApp/Program.cs:20 | a word, any run of spaces and a rest split into the word and the whole rest, which is not split further |
| Strings.SplitReassembles | MyMonkeyApp/Program.cs:20 | two parts always come from leading spaces, the first part, a run of spaces and the second part, in that order |
| Strings.SplitWordReassembles | MyMonkeyApp/Program.cs:20 | the same reassembly, once leading spaces are gone |
| Strings.ToLower | MyMonkeyApp/Program.cs:21 | same length; each character is folded to lower case |
| Strings.ToLowerIdempotent | MyMonkeyApp/Program.cs:21 | lower-casing twice is lower-casing once |
| Strings.ToLowerCharSame | MyMonkeyApp/Program.cs:21 | two characters fold to the same one exactly when they are equal or the two cases of one letter |
| Strings.ToLowerCharKeepsWhiteSpace | MyMonkeyApp/Program.cs:21 | characters that fold to the same one agree on being a space and on being white space |
| Strings.EqualsIgnoreCase | MyMonkeyApp/Program.cs:179 | OrdinalIgnoreCase, position by position under the fold; Strings.EqualsIgnoreCaseIff, Strings.EqualsIgnoreCaseEquivalence and Strings.DiffersIgnoringCaseAt state its meaning |
| Strings.EqualsIgnoreCaseIff | MyMonkeyApp/Program.cs:179 | comparing ignoring case, character by character, is the same as comparing the lower-cased strings |
| Strings.EqualsIgnoreCaseEquivalence | MyMonkeyApp/Program.cs:179 | equality ignoring case is reflexive, symmetric and transitive |
| Strings.DiffersIgnoringCaseAt | MyMonkeyApp/Program.cs:179 | strings that differ after folding at some position are not equal ignoring case |
| MonkeyHelper.Monkey | MyMonkeyApp/Program.cs:102-123 | a record of the four string fields Name, Species, Description and AsciiArt |
| MonkeyHelper.GetMonkeys | MyMonkeyApp/Program.cs:130-173 | the catalog holds three records |
| MonkeyHelper.SeededCatalog | MyMonkeyApp/Program.cs:130-168 | the seeded names are Capuchin, Mandrill and Howler in that order, and no two are equal ignoring case |
| MonkeyHelper.NameMatches | MyMonkeyApp/Program.cs:179 | the FirstOrDefault predicate: the record's name equals the query ignoring case; MonkeyHelper.GetMonkeyByNameIgnoresCase states that only the query's case-folded form matters |
| MonkeyHelper.GetMonkeyByName | MyMonkeyApp/Program.cs:178-179 | none exactly when no name matches ignoring case; otherwise the record at some index that matches, with no earlier record matching |
| MonkeyHelper.GetMonkeyByNameFindsMember | MyMonkeyApp/Program.cs:178-179 | with distinct names, any spelling of a record's name finds that record |
| MonkeyHelper.GetMonkeyByNameIgnoresCase | MyMonkeyApp/Program.cs:178-179 | names equal ignoring case give the same lookup result |
| MonkeyHelper.SeededLookupIgnoresCase | MyMonkeyApp/Program.cs:178-179 | "capuchin" and "CAPUCHIN" both find the Capuchin record |
| MonkeyHelper.SeededLookupMisses | MyMonkeyApp/Program.cs:178-179 | "Unknown" finds nothing in the seeded catalog |
| MonkeyHelper.GetRandomMonkey | MyMonkeyApp/Program.cs:184-188 | an index below Count yields a record of the catalog |
| MonkeyHelper.GetRandomMonkeyReachesAll | MyMonkeyApp/Program.cs:184-188 | every record of the catalog is yielded by some index |
| Program.ListEntry | MyMonkeyApp/Program.cs:67 | the "- {Name} ({Species})" line; Program.CapuchinEntry, Program.MandrillEntry and Program.HowlerEntry give the seeded ones |
| Program.ListEntries | MyMonkeyApp/Program.cs:65-68 | one "- {Name} ({Species})" line per record, in catalog order |
| Program.ListMonkeys | MyMonkeyApp/Program.cs:61-69 | the header "Available Monkeys:", then one entry per record in order, and nothing else |
| Program.NotFoundMessage | MyMonkeyApp/Program.cs:79 | the "Monkey '{name}' not found." line; Program.DetailsOfAbsent and Program.SeededDetailsNotFound state when it is printed |
| Program.Portrait | MyMonkeyApp/Program.cs:82-83 | the two WriteLine calls showing a record, a title line then the ASCII art; Program.DetailsOfMember and Program.RandomLikeDetails state what it prints |
| Program.ShowMonkeyDetails | MyMonkeyApp/Program.cs:74-84 | the lookup, then the not-found line or the record; Program.DetailsOfMember and Program.DetailsOfAbsent state both outcomes |
| Program.ShowRandomMonkey | MyMonkeyApp/Program.cs:89-94 | the record at the supplied index, shown with "Random Monkey: "; Program.RandomLikeDetails and Program.RandomStep state what it prints |
| Program.DetailsOfMember | MyMonkeyApp/Program.cs:76-83 | with distinct names, details of a record's name prints the title line with name, species and description, then exactly its ASCII art |
| Program.DetailsOfAbsent | MyMonkeyApp/Program.cs:76-80 | a name no record matches prints exactly "Monkey '{name}' not found." |
| Program.RandomLikeDetails | MyMonkeyApp/Program.cs:82-93 | a random pick prints what details of its name prints, with "Random Monkey: " after the leading line break |
| Program.Dispatch | MyMonkeyApp/Program.cs:22-44 | the switch on the lower-cased verb; Program.CommandLineSteps states the outcome of each case |
| Program.Parse | MyMonkeyApp/Program.cs:17-21 | a line is blank, and does nothing, exactly when it is null or all white space; a details argument is non-empty and does not start with a space |
| Program.ParseOfCommandLine | MyMonkeyApp/Program.cs:17-21 | a padded "verb [spaces argument]" line dispatches on the lower-cased verb with the whole argument, however many spaces separate them; a verb followed by an argument may end in other white space, which stays part of the verb |
| Program.ParseArgumentTrimmed | MyMonkeyApp/Program.cs:17-20 | the details argument does not end with white space |
| Program.IsVerbIgnoresCase | MyMonkeyApp/Program.cs:21 | a verb spelt in other letter cases is still a single word not starting with white space, and ends in white space exactly when the original does |
| Program.Execute | MyMonkeyApp/Program.cs:22-44 | the body of each case of the switch, with what it prints and whether the loop returns; Program.CommandLineSteps and Program.ExitIsTheOnlyWayOut state them |
| Program.Step | MyMonkeyApp/Program.cs:17-44 | one turn of the loop, a parsed and executed line; Program.BlankLineIgnored, Program.ExitIsTheOnlyWayOut and Program.CommandLineSteps state its outcomes |
| Program.BlankLineIgnored | MyMonkeyApp/Program.cs:17-18 | a null or white-space line prints nothing and the loop keeps waiting |
| Program.ExitIsTheOnlyWayOut | MyMonkeyApp/Program.cs:22-44 | a step exits exactly when the line is exit, and then prints only "Goodbye!" |
| Program.VerbIgnoresCase | MyMonkeyApp/Program.cs:21-22 | lines whose verbs differ only in letter case do the same thing |
| Program.CommandLineSteps | MyMonkeyApp/Program.cs:22-44 | what each of list, details with and without a name, random, exit and an unknown verb prints, and the state afterwards |
| Program.DetailsWithoutName | MyMonkeyApp/Program.cs:27-33 | details without a name prints exactly "Usage: details [name]" whatever the catalog, so no lookup happens |
| Program.DetailsNotFound | MyMonkeyApp/Program.cs:76-80 | details of a name no record has prints exactly the not-found message and keeps waiting |
| Program.ListStep | MyMonkeyApp/Program.cs:24-26 | list prints the header and one entry per record in order |
| Program.RandomStep | MyMonkeyApp/Program.cs:35-37 | random prints a record of the catalog |
| Program.Session | MyMonkeyApp/Program.cs:13-45 | the loop over a sequence of lines, stopping at the first exit; Program.SessionExitsIffExitLine, Program.SessionStopsAtExit and Program.CommandLoop state its behaviour |
| Program.FoldExitsIff | MyMonkeyApp/Program.cs:13-45 | joined replies exit exactly when one of them exits |
| Program.SessionExitsIffExitLine | MyMonkeyApp/Program.cs:38-40 | a session exits exactly when some input line is exit |
| Program.SessionStopsAtExit | MyMonkeyApp/Program.cs:38-40 | the session ends at the first exit line: the lines after it change nothing |
| Program.SessionIgnoresAfterExit | MyMonkeyApp/Program.cs:38-40 | once exited, further lines change nothing |
| Program.SessionAppend | MyMonkeyApp/Program.cs:13-45 | a waiting session continues with later lines as a fresh one would, its output appended |
| Program.SessionSkipsBlank | MyMonkeyApp/Program.cs:17-18 | inserting a blank line anywhere leaves the session unchanged |
| Program.SessionUnfold | MyMonkeyApp/Program.cs:13-45 | the session from one line on is that line's step followed, unless it exited, by the rest |
| Program.LoopStep | MyMonkeyApp/Program.cs:13-45 | one turn of the loop keeps the output so far a prefix of the session's, or completes it on exit |
| Program.CommandLoop | MyMonkeyApp/Program.cs:13-45 | the loop's output and state are the session's; it stops right after the first exit line and reads every line when none is exit |
| Program.CapuchinEntry | MyMonkeyApp/Program.cs:67 | the Capuchin entry reads "- Capuchin (Cebus capucinus)" |
| Program.MandrillEntry | MyMonkeyApp/Program.cs:67 | the Mandrill entry reads "- Mandrill (Mandrillus sphinx)" |
| Program.HowlerEntry | MyMonkeyApp/Program.cs:67 | the Howler entry reads "- Howler (Alouatta)" |
| Program.SeededListLines | MyMonkeyApp/Program.cs:61-69 | the seeded list output, line by line |
| Program.SeededList | MyMonkeyApp/Program.cs:24-26 | the input "list" prints the header and the three seeded entries, and the loop keeps waiting |
| Program.SeededDetailsNotFound | MyMonkeyApp/Program.cs:76-80 | the input "details Nope" prints exactly "Monkey 'Nope' not found." |
| Program.ParseDetailsMandrill | MyMonkeyApp/Program.cs:17-21 | "details Mandrill" parses as details with the argument "Mandrill" |
| Program.MandrillDetails | MyMonkeyApp/Program.cs:76-83 | details of "Mandrill" prints the Mandrill record |
| Program.SeededDetailsMandrill | MyMonkeyApp/Program.cs:82-83 | the input "details Mandrill" prints Mandrill's title, species and description, then its ASCII art |
| Program.SeededExit | MyMonkeyApp/Program.cs:38-40 | the input "EXIT" prints "Goodbye!" and ends the loop |

## Left out

- Console set-up and prompts are not modelled: the output encoding (line 11), the welcome banner `ShowWelcome`
  (lines 51-56) and the two prompt lines (lines 15-16). Each is only a fixed piece of console output.
- Console I/O itself is replaced by values. Input is a given sequence of lines, and output is the sequence of
  `WriteLine` arguments. The line terminator `WriteLine` adds is implied by the sequence element boundary.
- `System.Random` (line 186) is replaced by a caller-supplied index below `Count`. The model makes no claim
  that the choice is uniform.
- Strings.ToLower: folds only the ASCII letters 'A'–'Z'. The full Unicode case mapping of `ToLowerInvariant`
  is out of scope.
- Strings.EqualsIgnoreCase: uses the same ASCII fold. The Unicode case folding that `OrdinalIgnoreCase`
  applies to non-ASCII characters is out of scope.
- Strings.SplitVerb: the model follows the algorithm of `String.Split` with a count of 2 and
  `RemoveEmptyEntries`:
  - skip leading separators;
  - the first part runs to the next space;
  - skip the spaces that follow;
  - the remainder, if any, is the second part.
  This library behaviour is taken as given, not derived.
- End of input is modelled only as a blank line. There, `ReadLine` returns null and the real loop then spins
  forever. `CommandLoop` instead returns `Awaiting` when it runs out of lines.
- `Monkey` is a class with settable properties in the source. Nothing in the program ever sets them after
  construction, so the model uses an immutable datatype. For the same reason, `GetMonkeys` returning the
  same list instance on every call is modelled as a function returning the same value.
