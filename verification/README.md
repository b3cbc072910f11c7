# helga-facts, modelled in Dafny

This project models helga-facts, the plugin that lets a helga IRC bot remember facts. It covers the plugin's
fact-memory logic:

- A declaration such as `foo is bar` (or `foo is <reply> bar`) stores a definition under the term `foo`.
- A query such as `foo?` answers with the stored definition. The answer carries the author and time unless the
  definition was stored with `<reply>`.
- The commands `forget foo` and `replace foo <with> new definition` remove a definition or overwrite it.
- Lookups are case-insensitive and match the whole term.
- The first definition of a term wins.
- Subjects on a configurable word blacklist are not stored.
- With `FACTS_REQUIRE_NICKNAME`, a declaration is stored only when it is addressed to the bot.

The model is functional. The document collection is an immutable sequence of records. Every handler takes the
store and returns the new store together with the bot's reply.

Modules:

- `Wrappers`: `Option` (Python's `None`) and `Result`. `Err` carries the name of the Python exception a call raises.
- `Text`: the Python 2 string operations the plugin relies on:
  - an ASCII case fold, standing in for the store's case-insensitive regular-expression match;
  - `str.replace('  ', ' ')` (`Collapse`);
  - `' '.join`, `str.split(sep, 1)` and `unicode.strip()`;
  - the `\s` and `\W` character classes.
- `FactStore`: records; lookup through `term_regex` and `find_one`; `add_fact`, `forget_fact` and `replace_fact`.
- `Formatter`: `show_fact` and its three reply shapes.
- `Handlers`: `facts_match` (query, nickname gate, declaration), `facts_command` (`forget`, `replace`) and the `facts` dispatch.
- `Scenarios`: end-to-end properties over every store, and the examples from the plugin's documentation.

Injected values:

- The clock (`time.time()`) is the parameter `now`.
- The time zone plus `strftime` rendering is the parameter `fmt: int -> string`.
- `random.choice(ACKS)` is a non-empty `acks` list plus a draw `pick`.
- The settings `FACTS_WORD_BLACKLIST` and `FACTS_REQUIRE_NICKNAME` and the bot's nickname form a `Config` value.

The store invariant proved throughout is `Unique`: at most one record per case-folded term. Every operation
preserves it.

## Model

| member | source | states |
|---|---|---|
| Text.Fold | helga_facts.py:23-27 | the lookup key keeps the term's length and lower-cases exactly the ASCII capitals; this approximates the case-insensitive match the store applies to the `term_regex` pattern |
| Text.Collapse | helga_facts.py:42-44 | collapsing double spaces never lengthens a text and never changes its first character |
| Text.CollapseFixesExactly | helga_facts.py:44 | a text is left unchanged by the collapse if and only if it holds no double space; otherwise it becomes strictly shorter |
| Text.CollapseThreeSpaces | helga_facts.py:44 | the replacement is one non-overlapping pass: three spaces become two, not one |
| Text.CollapseSingleSpaces | helga_facts.py:132 | when the input has no run of three spaces, the collapsed text has no double space left |
| Text.CollapseAfterSingleSpaced | helga_facts.py:132 | a prefix without double spaces that does not end in a space passes through the collapse unchanged |
| Text.CollapseDeclarationSentence | helga_facts.py:129-132 | joining single-spaced subject, copula and space-led remainder with spaces and collapsing once yields the three parts separated by single spaces, and the result is single-spaced |
| Text.Join | helga_facts.py:99-103 | the definition of `sep.join(parts)`: the empty list joins to the empty text, a single part joins to itself, and a join begins with its first part |
| Text.JoinEnds | helga_facts.py:99-103 | a join of a non-empty list ends with its last part |
| Text.JoinConcat | helga_facts.py:99 | joining a concatenation of two non-empty part lists is joining each list and gluing the two with the separator |
| Text.JoinAround | helga_facts.py:103 | the joined arguments split around any inner argument into the joined left part, the separator, that argument, the separator and the joined right part |
| Text.SplitOnce | helga_facts.py:104 | the split gives two pieces exactly when the separator occurs, and then it splits at the first occurrence: the separator sits right after the first piece and at no earlier index; joining the pieces with the separator gives back the text |
| Text.Strip | helga_facts.py:125 | the stripped text is an infix of the input with only whitespace before and after it, and it neither starts nor ends with whitespace |
| Text.StripPadded | helga_facts.py:125 | whitespace around a core that starts and ends with a non-space is removed exactly, leaving the core |
| FactStore.Find | helga_facts.py:37 | lookup fails if and only if no record matches; otherwise it returns the first record in store order whose case fold equals the term's |
| FactStore.FindCaseInsensitive | helga_facts.py:23-27 | two terms with the same case fold find the same record |
| FactStore.FindUnique | helga_facts.py:37 | in a store with one record per folded term, any matching record is the one found |
| FactStore.FindAppended | helga_facts.py:70-76 | appending a record changes lookup only for a term that no earlier record matched, and then finds the new record exactly when it matches |
| FactStore.AddFact | helga_facts.py:64-76 | afterwards the term is known; the store is unchanged if and only if the term was already known; otherwise exactly one record is appended, holding the term as typed, the fact, the author and the current time |
| FactStore.AddPreservesUnique | helga_facts.py:70-76 | adding keeps at most one record per folded term |
| FactStore.AddFirstWriteWins | helga_facts.py:70 | adding under any casing of a term already added leaves the store as the first add left it |
| FactStore.AddLookup | helga_facts.py:64-76 | after an add, a new term finds exactly the new record, a known term finds what it found before, and every other folded term finds what it found before |
| FactStore.Remove | helga_facts.py:84 | the remaining records are exactly the records of the store that do not match the term, and none of them matches it |
| FactStore.RemoveAbsent | helga_facts.py:84 | removing a term that no record matches leaves the store unchanged |
| FactStore.RemoveKeepsOrder | helga_facts.py:84 | removal from a concatenation is removal from each part, so the surviving records keep their order |
| FactStore.RemoveOthers | helga_facts.py:84 | removal does not change the lookup of any other folded term |
| FactStore.RemovePreservesUnique | helga_facts.py:84 | removal keeps at most one record per folded term |
| FactStore.ForgetIdempotent | helga_facts.py:79-85 | forgetting a term twice leaves the store as forgetting it once |
| FactStore.Choose | helga_facts.py:85 | the acknowledgement is one of `ACKS` |
| FactStore.ForgetFact | helga_facts.py:79-85 | afterwards no record matches the term; the remaining records are exactly the non-matching records of the store; every other folded term finds what it found before; forgetting an absent term leaves the store unchanged; the answer is one of `ACKS` |
| FactStore.RemoveLeavesOthers | helga_facts.py:84 | removal leaves the lookup of every other folded term unchanged, for all such terms at once |
| FactStore.ReplaceFact | helga_facts.py:88-94 | afterwards the term finds a record with exactly the new fact, the given author and the time of the replace; every other folded term finds what it found before; the answer is one of `ACKS` |
| FactStore.ReplaceLeavesOthers | helga_facts.py:92-93 | forgetting a term and adding it again leaves the lookup of every other folded term unchanged |
| FactStore.ReplaceLookup | helga_facts.py:88-94 | after a replace, every casing of the term finds the new record and every other folded term finds what it found before |
| FactStore.ReplacePreservesUnique | helga_facts.py:88-94 | replacing keeps at most one record per folded term |
| Formatter.Render | helga_facts.py:42-61 | the reply starts with the collapsed fact; it is the collapsed fact alone if and only if there is no author; an authored legacy record without a date adds ` (author)`; a dated record adds ` (author on <time>)` |
| Formatter.ShowFact | helga_facts.py:30-61 | there is no reply if and only if no record matches the term; otherwise the reply renders a record matching the term |
| Formatter.ShowCaseInsensitive | helga_facts.py:37 | every casing of a term gets the same reply |
| Formatter.ShowAfterForget | helga_facts.py:79-85 | after a term is forgotten, no casing of it gets a reply |
| Formatter.ShowAfterReplace | helga_facts.py:88-94 | after a replace, every casing of the term is answered with the new fact, followed by the author and the replace time when the author is not empty |
| Handlers.LineEnd | helga_facts.py:118 | `(.*)$` accepts a text if and only if no newline occurs before its last character; the capture is the text without a final newline and holds no newline |
| Handlers.LineEndLater | helga_facts.py:118 | starting `(.*)$` later in an accepted text is accepted too and captures no more |
| Handlers.NickRest | helga_facts.py:116-123 | a rest the nickname gate returns satisfies the reference reading of `^nick\W*\s(.*)$`: nickname, non-word characters, one whitespace, then the captured line |
| Handlers.NickRestComplete | helga_facts.py:118 | whenever the reference reading matches with some rest, the gate matches too, and it returns the shortest rest, because the greedy `\W*` puts the whitespace as late as possible |
| Handlers.Declare | helga_facts.py:125-139 | with `<reply>`, the remainder is stored with no author if and only if the subject is new, whether or not it is blacklisted; otherwise the collapsed sentence is stored with the speaker as author if and only if the subject is new and not blacklisted; a stored record is appended, is filed under the subject and carries the current time |
| Handlers.DeclarePreservesUnique | helga_facts.py:125-139 | a declaration keeps at most one record per folded term |
| Handlers.FactsMatch | helga_facts.py:108-139 | a query leaves the store alone and is answered with `show_fact` of the term, which is silence if and only if the term is unknown; a declaration is answered with silence; without the nickname gate it does what `Declare` does with the subject; behind the gate, a rejected subject stores nothing and an accepted one does what `Declare` does with the captured rest; at most one record is appended; the store invariant is kept |
| Handlers.GatedDeclarationActsOnRest | helga_facts.py:116-123 | for every store and declaration, a subject that passes the nickname gate behaves exactly as the captured rest does with the gate off |
| Handlers.ForgetCommand | helga_facts.py:98-99 | the arguments joined by single spaces are forgotten: afterwards they match no record, every other folded term finds what it found before, an absent term leaves the store unchanged, and the answer is one of `ACKS` |
| Handlers.ReplaceCommand | helga_facts.py:103-105 | the call raises if and only if the joined arguments hold no " <with> "; otherwise, with `i` the index of the first " <with> ", the text before `i` finds a record with the text after the separator as its fact, the speaker as author and the current time, every other folded term finds what it found before, and the answer is one of `ACKS` |
| Handlers.FactsCommand | helga_facts.py:97-105 | `forget` and `replace` (when `<with>` is one of the arguments) do what the two commands above promise; `replace` without `<with>` as an argument answers "No definition supplied." and changes nothing; other commands answer nothing; the store invariant is kept |
| Handlers.ReplaceInnerWithSucceeds | helga_facts.py:100-105 | a `replace` whose `<with>` has an argument on each side never raises |
| Handlers.Facts | helga_facts.py:179-183 | a command call is handled by `facts_command`; a match call with captures is handled by `facts_match` on its first capture only, and raises if and only if its capture list is empty; `forget` always succeeds and leaves the term unknown; a query never raises and never changes the store; the store invariant is kept |
| Scenarios.ReplyDeclarationThenQuery | helga_facts.py:125-127 | after a `<reply>` declaration of a new term, every casing of the term is answered with the collapsed remainder alone |
| Scenarios.AuthoredDeclarationThenQuery | helga_facts.py:128-139 | after a plain declaration of a new term that is not blacklisted, every casing of the term is answered with the collapsed sentence, the speaker and the time |
| Scenarios.BlacklistedDeclarationIgnored | helga_facts.py:134-137 | a plain declaration of a blacklisted subject leaves the store unchanged and says nothing |
| Scenarios.DeclarationKeepsFirstDefinition | helga_facts.py:125-139 | a declaration of a subject already known in any casing leaves the store unchanged and says nothing, whatever the marker, because `add_fact` (line 70) inserts only for a new term |
| Scenarios.AuthoredSentenceThenQuery | helga_facts.py:129-132 | for single-spaced subject, copula and definition, the answer is the sentence exactly as a person writes it, then the author and the time |
| Scenarios.ExampleReplyMarker | helga_facts.py:162-166 | `foo is <reply> bar` then `foo?` answers exactly `bar`, without the author the docstring shows |
| Scenarios.ExampleAuthored | helga_facts.py:156-160 | `foo is bar` by sduncan, then `FOO?`, answers `foo is bar (sduncan on <time>)` |
| Scenarios.ExampleBlacklisted | helga_facts.py:134-137 | `who is on first` is ignored under the default blacklist of lines 19-20 |
| Scenarios.ExampleNicknameGate | helga_facts.py:116-123 | with the gate on, `foo is bar` stores nothing, while `helga: foo is bar` acts as `foo is bar` does without the gate |
| Scenarios.ExampleReplaceCommand | helga_facts.py:100-105 | `replace foo` answers "No definition supplied."; `replace foo <with>` and `replace <with> bar` raise |
| Scenarios.ExampleForgetAbsent | helga_facts.py:79-85 | `forget foo` on a store without `foo` leaves the store unchanged and still acknowledges with one of `ACKS` |

## Left out

- The MongoDB client is replaced by an in-memory sequence of records. The race between counting and inserting in `add_fact` is a storage concern with no counterpart in a sequential model.
- `time.time()`, `datetime.fromtimestamp`, pytz and `strftime` are left out. The time is the integer `now` and the rendering is the function parameter `fmt`. Fractional seconds are not kept, and a `datetime` stored as `set_date` by older versions is treated like a timestamp.
- `random.choice(ACKS)` is replaced by the draw `pick` over a non-empty `acks`. `ACKS` is a fixed non-empty list in helga, so callers must pass a non-empty one.
- Logging and helga's settings lookup are left out. The blacklist, the nickname flag and the bot's nickname are the `Config` parameter.
- helga's `@command`/`@match` dispatch and the regular expressions at helga_facts.py:142-144 are left out. The handlers take the framework's capture groups as input. Line 142 registers only the `forget` command, so whether `replace` ever reaches `facts_command` depends on helga, which is not part of this model.
- Handlers.NickRest: the nickname is matched literally. A nickname holding regular-expression metacharacters behaves differently in the source.
- Text.Fold: the `term_regex` pattern is never run by Python; it is the query value of `find_one`, `find` and `remove` (helga_facts.py:37, 70, 84), so the store's regular-expression engine decides the case-insensitive match, and it may fold non-ASCII letters too. The model folds ASCII letters only.
- FactStore.Find: the term pattern's `$` also matches before a final newline of the stored term. The model compares whole terms and ignores that corner.
- Formatter.Render: a record whose `fact` is missing or `None` is not modelled. Collapsing an empty fact changes nothing, so the truthiness test on the fact needs no branch of its own.
- Handlers.FactsMatch: a capture tuple whose length is not four cannot be expressed, because the `Capture` datatype fixes the declaration's four groups.

## Where the documentation and the code differ

The model follows the code in each case.

- The plugin's docstring (helga_facts.py:162-166) says a `<reply>` definition is shown with its author and date. The code stores it with an empty author, so it is shown alone (`Scenarios.ExampleReplyMarker`).
- The blacklist is checked only on the plain branch. A `<reply>` declaration of a blacklisted word is stored (`Handlers.Declare`).
- The double-space fix is a single non-overlapping pass, not a normalisation. Three spaces become two (`Text.CollapseThreeSpaces`). A plain declaration is stored free of double spaces when its sentence has no run of three spaces (`Text.CollapseSingleSpaces`). A `<reply>` definition is stored as typed (helga_facts.py:127) and is collapsed only when shown (`Handlers.Declare`, `Formatter.Render`).
- `replace` raises `ValueError` at the tuple unpacking, instead of answering, when `<with>` is an argument but no `<with>` sits between two arguments, for example when it is the only `<with>` and comes first or last (`Handlers.ReplaceCommand`, `Scenarios.ExampleReplaceCommand`).
