# Bonkers tournament planning and a chat command interpreter, in Dafny

This project models two pieces of a course repository written in Python.

- **Tournament planning** (`A2/project.py`, and the earlier draft `project.py`):
  - `gamesOK` decides whether a set of games has the required structure. Every player has the same number of opponents, and any two players who never meet share at least two opponents.
  - `referees` reads a table of referees and their conflicts of interest, and uses a maximum bipartite matching to give each game a referee with no conflict.
  - `gameGroups` colours the "clash" graph of refereed games. Two games clash when they share a person: a player or the referee of one is a player or the referee of the other. It returns the colour classes as groups of games that can be played at the same time.
  - `gameSchedule` orders those groups with a topological ordering of the dependencies between them.
- **The chat client's command interpreter** (`A3/specialtopics.py`): `reChatParseCommand` takes a message and the current state, and returns an action and the next state. `regex_select` collects the user names a message mentions.

All of this code is pure: comprehensions, `all(...)` and dispatch tables, with no loops and no in-place updates. It is therefore modelled as datatypes, functions and lemmas.

The files:

| file | module | contents |
|---|---|---|
| `options.dfy` | `Options` | Python's `None` |
| `game.dfy` | `Tournament` | the game type shared by all the tournament code |
| `strings.dfy` | `PyStrings` | `str.strip`, the substring test, `startswith`, `split(" ")` and `join` |
| `dicts.dfy` | `PyDicts` | insertion-ordered dicts with Python's assignment semantics |
| `graphs.dfy` | `GraphSpecs` | what `maxMatching`, `minColouring`, `colourClassesFromColouring` and `topOrdering` promise |
| `games_ok.dfy` | `GamesOk` | `gamesOK` and its characterisation |
| `games_ok_examples.dfy` | `GamesOkExamples` | the test tournaments (K3,3, K5, "triangles", the 5-cycle) |
| `referees.dfy` | `Referees` | the conflict table, the candidate edges and the matching |
| `game_groups.dfy` | `GameGroups` | the clash graph and the colour classes |
| `game_schedule.dfy` | `GameSchedule` | `gameSchedule` as written, and the intended schedule |
| `game_schedule_examples.dfy` | `GameScheduleExamples` | the scheduling test, under both definitions |
| `chat.dfy` | `ReChat` | the two patterns, `regex_select` and `reChatParseCommand` |
| `chat_properties.dfy` | `ChatProperties` | what each mode does with each kind of message |

How the Python is represented:

- **Graph library calls.** The graph modules `graphs` and `digraphs` are not part of this model. Each function that calls into them takes the primitive as a function value. Its contract (for example `GraphSpecs.MaxMatchingContract`) is a precondition, so the proofs hold for any implementation that keeps the contract.
- **Dicts whose order matters.** `assignedReferees`, `referee_games` and `D` are sequences of key/value pairs. Assigning to a present key replaces its value where it stands, so the last value written for a key survives (`PyDicts.Put`, `PyDicts.FromEntries`).
- **Games** are ordered pairs, as Python tuples are, defined once in `game.dfy` (module `Tournament`).
- **The chat state** is modelled as the dict's first entry, `ChatState(mode, value)`, because only the first entry is ever read. `None` for the whole state is `Option.None`.
- **Pattern searches.**
  - The anchored channel pattern is stated directly (`ReChat.IsChannelName`).
  - The user pattern is stated as "some substring matches it" (`ReChat.HasUserName`).
  - The list that `re.findall` returns is a function value, whose contract (`ReChat.FindAllContract`) says that it finds a match exactly when one exists and that every match occurs in the text.

## Behaviour of the code worth noting

- **An empty set of games.** The comments at A2/project.py:19-24 state both rules as conditions on every player, and an empty tournament has no players. The code still rejects it: the degree set is empty, so its size is not 1 (A2/project.py:34-38). The model follows the code (`GamesOk.EmptyRejected`, and the postcondition of `GamesOk.GamesOK`).
- **Self-refereeing.** The comment at A2/project.py:75-77 asks that a referee is "not also in their assigned" game. The test at A2/project.py:82, however, ranges over the referee's conflicts. A referee with at least one conflict is therefore never a candidate for their own game (`Referees.PlayerIsNoCandidate`). A referee whose row lists no conflicts is a candidate for every game, including their own (`Referees.NoConflictsAlwaysCandidate`). The final test at A2/project.py:98 refuses only when every referee appears in every game. The model keeps this.
- **Channel names with a newline.** The comment at A3/specialtopics.py:53 asks for `#` followed by alphanumeric characters. The pattern `^#[a-zA-Z0-9]+$` (A3/specialtopics.py:35) also accepts such a name followed by one final newline, because Python's `$` matches before a trailing newline. The model keeps this (`ReChat.IsChannelName`, `ChatProperties.ChannelNames`).
- **`gameSchedule`.** It cannot produce the order its own test expects (A2/cust_tests.py:217-232; see Findings).

## Model

| member | source | states |
|---|---|---|
| GamesOk.GamesOK | A2/project.py:12-46 | a tournament without games is rejected; what the function decides is stated by `GamesOk.GamesOKIff` |
| GamesOk.NeighbourMap | A2/project.py:27-31 | `N` has an entry for exactly the players of the games |
| GamesOk.NeighboursAreOpponents | A2/project.py:28-31 | `N[x]` holds exactly the players `x` has a game with, in either orientation |
| GamesOk.OpponentsMembership | A2/project.py:28 | `y` is an opponent of `x` exactly when `(x, y)` or `(y, x)` is a game |
| GamesOk.DegreeSet | A2/project.py:34-38 | the degree set has size 1 exactly when there is a player and all players have the same number of opponents |
| GamesOk.GamesOKIff | A2/project.py:12-46 | `gamesOK` is true exactly when there is a player, all players have equally many opponents, and any two players who never meet share at least two opponents; the earlier draft at project.py:24-49 decides the same rule by the same algorithm |
| GamesOk.Accepted | A2/project.py:37-46 | the tournament rule is enough for acceptance |
| GamesOk.UnequalDegreesRejected | A2/project.py:34-38 | two players with different numbers of opponents make the result False |
| GamesOk.TooFewCommonOpponentsRejected | A2/project.py:44 | two players who never meet and share fewer than two opponents make the result False |
| GamesOk.EmptyRejected | A2/project.py:34-38 | the empty set of games is rejected |
| GamesOk.SingleGameAccepted | A2/project.py:27-46 | one game between two different players is accepted |
| GamesOk.ReversedGameIrrelevant | A2/project.py:28 | adding the reverse of a game already present does not change the answer |
| GamesOkExamples.K33Accepted | cust_tests.py:28-30 | the complete bipartite tournament on 3 + 3 players is accepted |
| GamesOkExamples.TrianglesAccepted | cust_tests.py:32-34 | the nine-game "triangles" tournament on six players is accepted |
| GamesOkExamples.BadTrianglesRejected | cust_tests.py:36-49 | adding game (0, 5) to "triangles" makes it rejected |
| GamesOkExamples.FiveCycleRejected | cust_tests.py:51-53 | the 5-cycle is rejected: players 0 and 2 never meet and share only one opponent |
| GamesOkExamples.K5Accepted | cust_tests.py:55-57 | the complete tournament on five players is accepted |
| PyStrings.StripSpec | A2/project.py:59-62 | the result is the input with leading and trailing whitespace cut, and it neither starts nor ends with whitespace |
| PyStrings.StripIdempotent | A2/project.py:59-62 | stripping twice is stripping once |
| PyStrings.StripEmptyIff | A2/project.py:62-64 | a cell strips to the empty string exactly when it is all whitespace |
| PyStrings.ContainsIff | A3/specialtopics.py:30 | the substring test holds exactly when the needle occurs at some offset |
| PyStrings.Split | A3/specialtopics.py:40 | `split(" ")` gives at least one word, no word contains the separator, and joining the words gives the message back |
| PyStrings.SplitJoin | A3/specialtopics.py:40 | splitting a join of separator-free words gives the words back |
| PyStrings.SplitFirst | A3/specialtopics.py:40 | the first word is everything before the first separator, and there is a second word exactly when there is a separator |
| PyDicts.Get | A2/project.py:187 | a lookup finds a value exactly for the keys present, and the value stored with that key |
| PyDicts.Put | A2/project.py:166-171 | assignment keeps keys unique, adds the key, stores the value, and leaves every other key's value alone |
| PyDicts.FromEntries | A2/project.py:182 | a dict comprehension has unique keys, exactly the keys of its entries, and only entries it was given |
| PyDicts.FromEntriesLast | A2/project.py:182 | the value a comprehension keeps for a key is the one from the key's last entry |
| Referees.RowConflicts | A2/project.py:59-65 | the conflicts are exactly the stripped texts of the cells after the name that are not literally empty: each such cell contributes its stripped text and nothing else is a conflict; no conflict starts or ends with whitespace; the empty conflict is present exactly when some non-empty cell after the first is all whitespace; a row with only a name has no conflicts |
| Referees.ConflictTable | A2/project.py:57-69 | the table has an entry for exactly the referees named in non-header rows, and none for "Referee" |
| Referees.ConflictTableLastRow | A2/project.py:57-69 | a referee's entry holds the conflicts of the last row that names them |
| Referees.IsCandidate | A2/project.py:82 | the filter of the candidate comprehension; what it means is stated by `Referees.CandidateIff` and `Referees.NoConflictsAlwaysCandidate` |
| Referees.CandidateEdges | A2/project.py:78-83 | edges join only given games to named referees; for a referee with conflicts, an edge exists exactly when neither the referee's name nor any conflict occurs inside either player's name; a referee without conflicts is joined to every game |
| Referees.CandidateIff | A2/project.py:82 | a referee is a candidate exactly when neither their name nor any conflict occurs inside either player's name |
| Referees.PlayerIsNoCandidate | A2/project.py:82 | a referee with at least one conflict is never a candidate for a game they play in |
| Referees.NoConflictsAlwaysCandidate | A2/project.py:82 | a referee with no conflicts is a candidate for every game, even one they play in |
| Referees.ListedConflictBarsReferee | A2/project.py:59-65 | a referee is never allowed for a game when the stripped text of a non-empty cell in the last row naming them occurs in either player's name (A2/project.py:82) |
| Referees.BlankCellBarsReferee | A2/project.py:62-64 | a whitespace-only cell strips to the empty conflict, which occurs in every name, so that referee is a candidate for no game |
| Referees.MatchingMap | A2/project.py:89-94 | the map from a matching has the matched games as keys and gives each the referee it is matched to |
| Referees.AssignReferees | A2/project.py:49-103 | a returned map gives every game a distinct candidate referee |
| Referees.MaximumMatchingCovers | A2/project.py:91-98 | a maximum matching covers every game exactly when some valid assignment exists |
| Referees.AssignRefereesIff | A2/project.py:85-103 | the result is present exactly when a valid assignment exists and some referee is not a player in some game |
| Referees.NoGamesNoAssignment | A2/project.py:98 | with no games the result is None |
| Referees.NoRefereesNoAssignment | A2/project.py:68-98 | a table with only header rows gives None |
| GameGroups.ConflictEdges | A2/project.py:119-137 | the clash graph joins only distinct assigned games, and every edge has its reverse |
| GameGroups.ClashIff | A2/project.py:131-135 | the five tests of the comprehension say that the two games' players and referees overlap |
| GameGroups.ConflictEdgeIff | A2/project.py:119-137 | two assigned games are joined exactly when they differ and their people overlap |
| GameGroups.GameList | A2/project.py:145 | the vertex list holds exactly the assigned games |
| GameGroups.GroupGames | A2/project.py:106-150 | the groups partition the assigned games, and no two games in a group share a person |
| GameGroups.ClassesPartition | A2/project.py:149 | colour classes are disjoint and cover the coloured games |
| GameGroups.ClassesClashFree | A2/project.py:145-149 | the classes of a proper colouring of the clash graph hold no clashing pair |
| GameGroups.GroupSizesAddUp | A2/project.py:106-150 | the group sizes add up to the number of assigned games |
| GameSchedule.ColourOf | A2/project.py:155 | a game's colour is the index of the last group holding it, or nothing if no group holds it |
| GameSchedule.PlayedGamesPairs | A2/project.py:166-171 | every pair produced for a referee pairs the game they referee with a game they play in |
| GameSchedule.PlayedGamesEmptyIff | A2/project.py:166-171 | a referee produces no pair exactly when they play in no assigned game |
| GameSchedule.RefereeGames | A2/project.py:166-171 | `referee_games`; its keys are stated by `GameSchedule.RefereeGamesKeys` and its values by `GameSchedule.RefereeGamesPairs` |
| GameSchedule.RefereeGamesPairs | A2/project.py:166-171 | `referee_games` has unique keys, and each value pairs a game the key referees with a game the key plays in |
| GameSchedule.RefereeGamesKeys | A2/project.py:166-171 | the keys are exactly the referees who play in some assigned game |
| GameSchedule.Dependencies | A2/project.py:173-179 | `dependencies`; stated by `GameSchedule.DependenciesSymmetric` |
| GameSchedule.DependencyDict | A2/project.py:182 | `D`; its entries are stated by `GameSchedule.DependencyEntriesFrom` and `GameSchedule.DependencyEntriesShape` |
| GameSchedule.DependencyEdges | A2/project.py:187 | `E`; stated by `GameSchedule.CrossMakesTwoCycle` and `GameSchedule.ScheduleAsWritten` |
| GameSchedule.DependencyVertices | A2/project.py:188 | `V`; stated by `GameSchedule.VerticesAreGroups` and `GameSchedule.ScheduleAsWritten` |
| GameSchedule.DependenciesSymmetric | A2/project.py:173-179 | every dependency is a pair of group indices, and it appears together with its reverse |
| GameSchedule.DependencyEntriesConcat | A2/project.py:182 | the comprehension over dependencies distributes over concatenation |
| GameSchedule.DependencyEntriesFrom | A2/project.py:182 | each entry `(a, {b})` of `D` comes from a dependency `(b, a)` between two different groups |
| GameSchedule.DependencyEntriesShape | A2/project.py:173-182 | the entries of `D` end with both orientations of the last dependency that crosses groups, and there are none when no dependency crosses |
| GameSchedule.VerticesAreGroups | A2/project.py:188 | every vertex of the dependency digraph indexes a group |
| GameSchedule.ReorderPermutes | A2/project.py:194 | reordering by a list naming each group index exactly once is a permutation of the groups: none is lost and none is repeated |
| GameSchedule.Schedule | A2/project.py:153-196 | every element of a returned schedule is one of the groups |
| GameSchedule.CrossMakesTwoCycle | A2/project.py:173-188 | when the pair of games kept for some referee in `referee_games` lies in two different groups, `E` has edges both ways between those groups |
| GameSchedule.ScheduleAsWritten | A2/project.py:173-196 | the result is None when some kept dependency crosses groups, and the empty list otherwise |
| GameSchedule.IntendedSchedule | A2/project.py:153-196 | a returned schedule is a permutation of the groups (the same multiset), so it lists every group |
| GameSchedule.IntendedNoneIff | A2/project.py:190-196 | the intended schedule is None exactly when the dependencies admit no topological order |
| GameSchedule.PlayedBeforeRefereed | A2/project.py:166-196 | in the intended schedule, a game a referee plays in comes before the game they referee in another group |
| GameSchedule.OrderingIsPermutation | A2/project.py:190-194 | a topological order of the group indices is a permutation of them, and the groups reordered by it are a permutation of the groups |
| GameScheduleExamples.ScenarioAsWritten | A2/cust_tests.py:217-232 | the test scenario, where Charlie referees one game and plays in the other, gives None as written |
| GameScheduleExamples.ScenarioIntended | A2/cust_tests.py:217-232 | the intended schedule gives the order the test expects, Charlie v Bob first |
| GameScheduleExamples.ScenarioOnlyOrder | A2/cust_tests.py:229-232 | with the one dependency of the scenario, only one order of the two groups is topological |
| GraphSpecs.TwoCycleHasNoOrdering | A2/project.py:190 | a digraph with edges both ways between two vertices has no topological order |
| GraphSpecs.EmptyOrdering | A2/project.py:190 | the empty digraph is ordered only by the empty list |
| ReChat.RegexSelect | A3/specialtopics.py:7-10 | the set of mentions is empty exactly when no user name occurs, and each mention is a user name that occurs in the message |
| ReChat.IsChannelName | A3/specialtopics.py:35 | the anchored channel pattern; what it accepts is stated by `ChatProperties.ChannelNames`, `ChatProperties.NotChannelNames` and `ChatProperties.ChannelNameHasNoSpace` |
| ReChat.IsUserName | A3/specialtopics.py:36 | the user pattern, matched by a whole string; stated by `ChatProperties.UserNameSample` and `ChatProperties.NoAtNoUserName` |
| ReChat.ParseCommand | A3/specialtopics.py:13-228 | it greets, with the new state `{"command": None}`, exactly on an empty message, no state or a `None` mode; otherwise it quits, with the new state `{None: None}`, exactly when `\quit` occurs; an invalid message keeps the state |
| ChatProperties.QuitThenGreeting | A3/specialtopics.py:21-32 | a quit leaves the state `{None: None}`, and the next message is greeted |
| ChatProperties.JoinCommand | A3/specialtopics.py:60-64 | `\join X` in command mode enters channel X exactly when X is a channel name, and is invalid otherwise |
| ChatProperties.ListCommand | A3/specialtopics.py:74-78 | `\list X` is accepted exactly for "channels" and "users", and stays in command mode |
| ChatProperties.DmCommand | A3/specialtopics.py:88-92 | `\dm U` enters dm mode with U exactly when U contains a user name |
| ChatProperties.ExtraWordsIgnored | A3/specialtopics.py:40-92 | in command mode, messages that agree on their first two words get the same answer |
| ChatProperties.UnknownCommandInvalid | A3/specialtopics.py:205-222 | a backslash command missing from the mode's table is invalid and keeps the state |
| ChatProperties.PlainMessageOutsideMessagingInvalid | A3/specialtopics.py:212-218 | a plain message in command mode is invalid and keeps the state |
| ChatProperties.PostKeepsState | A3/specialtopics.py:180-201 | in channel or dm mode a plain message is posted whole to the current channel or user, with its mentions, and the state is kept |
| ChatProperties.ChannelLeaveRead | A3/specialtopics.py:107-130 | in a valid channel, `\leave` returns to command mode and `\read` keeps the state |
| ChatProperties.DmLeaveRead | A3/specialtopics.py:145-165 | in a valid dm, `\leave` returns to command mode and `\read` keeps the state |
| ChatProperties.WellFormedPreserved | A3/specialtopics.py:13-228 | from no state or a reachable one, every step ends in a reachable state: disconnected, command mode, or a mode holding a valid name |
| ChatProperties.ChannelNames | A3/specialtopics.py:35 | `#` followed by letters or digits is a channel name, with or without one final newline |
| ChatProperties.NotChannelNames | A3/specialtopics.py:35 | a bare `#`, a name without `#`, and a name with a dash are not channel names |
| ChatProperties.ChannelNameHasNoSpace | A3/specialtopics.py:35 | a channel name never contains a space, so it is always a single word of the message |
| ChatProperties.UserNameSample | A3/specialtopics.py:36 | `@ann@mail.com` matches the user pattern, and a message containing it mentions a user |
| ChatProperties.NoAtNoUserName | A3/specialtopics.py:36 | text without an `@` mentions no user |

## Left out

- Reading the referee CSV file (A2/project.py:53-56) is I/O. The table is given as rows that are already split into cells. Every row must have at least one cell, because `row[0]` fails on an empty row.
- The `graphs` and `digraphs` modules are not part of this model. Their four primitives are parameters that must meet their contracts.
- The entries of the regular-expression engine's `findall` list are a parameter. The model does not fix the leftmost, greedy, non-overlapping choice of matches. It states only that matches are found exactly when one exists, and that each match is a user name occurring in the text.
- `Referees.AssignReferees`: when the matching yields a referee for every game, the result's values are not pinned to one particular matching. Any maximum matching meeting the contract gives a valid assignment. The expected maps in the referee tests depend on CSV files and on the tie-breaking inside `maxMatching`, and neither is part of this model.
- `Referees.AssignReferees`: the `isinstance` filter at A2/project.py:93 always holds for typed games, so it is not modelled.
- `GameGroups.GroupGames`: does not state that the number of groups is the least possible. That minimality is `minColouring`'s promise (`GraphSpecs.MinColouringContract`), and the function only passes it on.
- `GameSchedule.Schedule`: only states that the result is made of groups. Its exact value is given by `GameSchedule.ScheduleAsWritten`.
- `GameSchedule.Schedule`: requires `Coloured`, that both games of every kept pair lie in some group. The KeyError that `game_color[ga]` raises otherwise (A2/project.py:174) is not modelled; `IntendedSchedule` likewise requires `AllGrouped`.
- Chat states are modelled by their first entry, with string or `None` values. A state dict with no entries (an IndexError at A3/specialtopics.py:24) and values that are not strings (a TypeError in the pattern search) are outside the model.
- The uncaught IndexError for `\join`, `\list` or `\dm` without an argument (A3/specialtopics.py:40, 60-92) is a precondition, `ReChat.ArgumentPresent`.
- The `scores` stub (A2/project.py:200-201), the root file's stubs of `referees`, `gameGroups` and `gameSchedule`, `tutorial07code.py`, and the reflection-based no-loops test helper have no behaviour to model.

## Findings

| source | as written | input that shows it | evidently intended | confidence | as-written member | corrected member |
|---|---|---|---|---|---|---|
| A2/project.py:173-190 | Each dependency is listed in both directions, so the digraph gets edges both ways between two groups as soon as the pair of games kept for some referee in `referee_games` lies in two different groups. `topOrdering` then returns None. Without such a pair the digraph is empty, and the result is the empty list. So the groups are never returned. | assignment {(Alice, Bob): Charlie, (Charlie, Bob): Rene}, groups [{(Alice, Bob)}, {(Charlie, Bob)}] (A2/cust_tests.py:217-232): the result is None | order the groups so that a game a referee plays in comes before the game they referee; the test expects [{(Charlie, Bob)}, {(Alice, Bob)}] | high; not executed | GameSchedule.ScheduleAsWritten, GameScheduleExamples.ScenarioAsWritten | GameSchedule.IntendedSchedule, GameSchedule.PlayedBeforeRefereed, GameScheduleExamples.ScenarioIntended |
