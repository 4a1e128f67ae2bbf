# Mafia game session — a Dafny model

This project models the core of a small Python engine for the party game
Mafia. A `MafiaGame` session keeps a roster of players keyed by id, the
current phase (day or night), a mafia coefficient and a table of which roles
are still available. It handles control messages that register players and
remove them. It generates a multiset of roles for the roster, packing each
team up to its quota with the highest-priority available role first and
retiring unique roles once they are dealt. It then walks the roster in
registration order and hands each player one of the generated roles while
any remain; a player reached after the roles run out keeps the role it had. Players have a mode (asleep or awakened), a killing candidate and an
optional role; the offline player votes by recording a candidate and acts at
night through its role. Messages carry a priority, and control messages
have priority 0.

Modules: `Common` has no Python counterpart, `mafia_game/game.py` is split
into a value-level half (`RoleAssignment`) and the session class (`Game`),
and each of the other modules follows one Python file:

- `Common` (common.dfy): `Option`, `Result`, `Outcome` and the two error
  kinds the engine raises (`NotImplementedError`, and calling a missing role).
- `Roles` (roles.dfy): role ids, the name of each role class, and the
  abstract `BaseRole`. It also holds the role catalog — team, priority and
  uniqueness of each role — which is a parameter because its definition is
  not in `mafia_game/roles.py`.
- `Messaging` (messaging.dfy): message payloads, priorities and the
  priority order.
- `Players` (player.dfy): the `Player` class with the state `BasePlayer`
  and `OfflinePlayer` update in place.
- `RoleAssignment` (assignment.dfy): the pure specification of role
  generation (team filter, priority sort, packing, generation), its
  properties, a worked example on a sample catalog, and the shuffle.
- `Game` (game.dfy): the `MafiaGame` class with its imperative methods.
  The role-generation methods are proved equal to the functions of
  `RoleAssignment`; the phase and roster methods are specified by the
  predicates `Switched`, `RegisteredOnce`, `RemovedOnce` and
  `OnlyRosterChanged`.

The model follows the Python code at these points, some of which depart
from what its own log messages and declarations suggest:

- A fresh session's mafia count stays 0. No code path sets it to
  `len(players) // k`; `__calculate_max_mafia_count` computes that value but
  has no caller. As a result, a fresh session generates no Mafia-team roles
  (`RoleAssignment.NoMafiaWithoutSeats`).
- Role generation is not side-effect free. `__get_packed_roles` writes
  `False` into the session's availability table for every unique role it
  deals, and `__assign_roles` sets the role of each player it reaches in place. Both
  changes persist in the session and are modelled.
- Roles are sorted by ascending priority and taken from the end of the
  list, which deals the highest priority first. An unavailable role at the
  end is discarded without using up quota. A non-unique role stays at the
  end once dealt, so it takes the rest of the quota. The sort is stable and the
  candidates are listed in enumeration order, so among roles of equal
  priority the one later in the enumeration is dealt first.
- A registered player has no alive/dead status; `PlayerStatus` is declared
  but never used.

## Model

| member | source | states |
|---|---|---|
| Roles.RoleClass.GetName | mafia_game/roles.py:3-28 | the abstract base role fails with NotImplemented; every concrete role returns a non-empty name |
| Roles.RoleClass.Action | mafia_game/roles.py:7-8 | a role's action always succeeds and has no effect |
| Roles.RoleNames | mafia_game/roles.py:11-28 | the four concrete roles are named "villager", "mafia", "healer" and "detective" |
| Roles.NamesIdentifyRoles | mafia_game/roles.py:11-28 | two role classes have the same name if and only if they are the same role |
| Roles.GenerateRole | mafia_game/player.py:30-31 | the role factory gives a concrete role of exactly the requested kind |
| Messaging.NewBaseMessage | mafia_game/messaging.py:8-9 | a plain message has the class default priority 0 |
| Messaging.NewCtrlMessage | mafia_game/messaging.py:15-17 | a control message has priority `MessagePrioritiesEnum.CTRL`, i.e. 0 |
| Messaging.PrecedesIsStrictOrder | mafia_game/messaging.py:11-12 | a message precedes another if and only if its priority is smaller; the comparison is irreflexive, asymmetric and transitive, and two messages are either ordered one way or the other or have equal priority |
| Messaging.CtrlMessagesTie | mafia_game/messaging.py:11-17 | no control message precedes another |
| Players.Player.constructor | mafia_game/player.py:20-28 | a new player is awakened, has no killing candidate, and holds the requested role or none |
| Players.Player.SetRole | mafia_game/player.py:30-31 | the player's role becomes the requested one; id, mode and candidate are unchanged |
| Players.Player.SetKillingCandidate | mafia_game/player.py:33-34 | the candidate becomes the given player; everything else is unchanged |
| Players.Player.Sleep | mafia_game/player.py:36-37 | the mode becomes asleep; everything else is unchanged |
| Players.Player.Wakeup | mafia_game/player.py:39-40 | the mode becomes awakened; everything else is unchanged |
| Players.Player.DayVote | mafia_game/player.py:42-54 | a base player fails with NotImplemented and keeps its candidate; an offline player succeeds and its candidate becomes the target |
| Players.Player.NightAction | mafia_game/player.py:45-57 | a base player fails with NotImplemented; an offline player fails exactly when it has no role, and succeeds exactly when it has one |
| RoleAssignment.RolesByTeam | mafia_game/game.py:69-71 | a role is in the result if and only if it is in the input and belongs to the team; the result is no longer than the input |
| RoleAssignment.RolesByTeamAppend | mafia_game/game.py:69-71 | filtering a concatenation is concatenating the filtered parts |
| RoleAssignment.RolesByTeamKeepsTeam | mafia_game/game.py:69-71 | filtering by the team each role already belongs to keeps the list unchanged |
| RoleAssignment.RolesByTeamPartition | mafia_game/game.py:92-97 | the Mafia-team and Civilian-team filters together hold exactly the roles of the input, as a multiset |
| RoleAssignment.SortByPriority | mafia_game/game.py:75 | the result is sorted by ascending priority and is a permutation of the input |
| RoleAssignment.InsertOfPriority | mafia_game/game.py:75 | an inserted role goes in front of every role of its own priority, and the other roles of each priority keep their order |
| RoleAssignment.SortByPriorityStable | mafia_game/game.py:75 | the sort is stable: for every priority, the roles of that priority appear in the result in the order they had in the input |
| RoleAssignment.InsertKeepsSorted | mafia_game/game.py:75 | inserting a role into a priority-sorted list keeps it sorted, and the new head is the inserted role or the old head |
| RoleAssignment.Pack | mafia_game/game.py:73-85 | the packer deals no more roles than the quota, and none for a quota of zero or less |
| RoleAssignment.PackFrame | mafia_game/game.py:77-82 | the availability table keeps its keys; a role is available afterwards exactly when it was before and is not a unique role that was dealt |
| RoleAssignment.PackPicksAvailable | mafia_game/game.py:76-83 | every dealt role is a candidate that was available beforehand |
| RoleAssignment.PackUniqueOnce | mafia_game/game.py:79-83 | a unique role is dealt at most once and is unavailable afterwards |
| RoleAssignment.PackFillsQuota | mafia_game/game.py:76-84 | the packer fills its quota unless every candidate is unavailable at the end |
| RoleAssignment.NonUniqueFillsQuota | mafia_game/game.py:76-84 | with an available non-unique candidate, exactly the quota is dealt |
| RoleAssignment.PackRepeatsNonUnique | mafia_game/game.py:76-84 | an available non-unique role at the top is dealt for the whole quota, and the table is unchanged |
| RoleAssignment.PackNonIncreasing | mafia_game/game.py:75-84 | roles packed from a priority-sorted list come out in non-increasing priority |
| RoleAssignment.PackTakesHighest | mafia_game/game.py:75-84 | the greedy choice: packing from a priority-sorted list, a candidate that was available and has a higher priority than some dealt role was dealt too, and is unique |
| RoleAssignment.PackStopsAtNonUnique | mafia_game/game.py:75-84 | packing from a priority-sorted list with an available non-unique candidate fills the quota exactly and deals no role of lower priority than that candidate |
| RoleAssignment.AvailableInOrder | mafia_game/game.py:88-90 | a role id is listed if and only if it is available in the table, and the list is in strictly increasing enumeration position, so each id appears once, in the key order the table is built with (the enumeration order) |
| RoleAssignment.KeepKeepsOrder | mafia_game/game.py:88-90 | keeping the available entries of a list in enumeration order leaves them in enumeration order |
| RoleAssignment.CivilianQuota | mafia_game/game.py:98 | the civilian quota is the number of players minus the mafia count, or 0 when that is negative |
| RoleAssignment.GenerateRespectsQuotas | mafia_game/game.py:87-103 | every generated role was available; Mafia-team roles fill at most the mafia count and Civilian-team roles at most the civilian quota |
| RoleAssignment.GenerateFitsPlayers | mafia_game/game.py:92-103 | when the mafia count is between 0 and the number of players, at most one role is generated per player |
| RoleAssignment.NoMafiaWithoutSeats | mafia_game/game.py:92-93 | with a mafia count of 0, no Mafia-team role is generated |
| RoleAssignment.PackTwiceUniqueOnce | mafia_game/game.py:90-97 | packing the mafia team and then the civilian team from the table the first packing leaves deals each unique role at most once between them, and leaves it unavailable |
| RoleAssignment.GenerateUniqueOnce | mafia_game/game.py:87-103 | a unique role occurs at most once among all generated roles and is unavailable afterwards |
| RoleAssignment.GenerateFrame | mafia_game/game.py:87-103 | after generation the table differs from the one before only in the unique roles dealt, which are now unavailable |
| RoleAssignment.ExampleEightPlayers | mafia_game/game.py:87-103 | with the sample catalog, 8 players, 2 mafia seats and every role enabled: two Mafia, then Healer, Detective and four Villagers |
| RoleAssignment.ExampleDetectiveBanned | mafia_game/game.py:87-103 | the same with Detective banned: two Mafia, then Healer and five Villagers |
| RoleAssignment.Shuffle | mafia_game/game.py:104 | the shuffled list is a permutation of its input |
| Game.Switched | mafia_game/game.py:115-120 | the phase after a switch differs from the phase before |
| Game.SwitchedTwiceRestores | mafia_game/game.py:115-120 | switching the phase twice restores it |
| Game.MafiaGame.constructor | mafia_game/game.py:35-49 | a new session has an empty roster, the day phase, a mafia count of 0 and a coefficient of at least 1; a role is available if and only if it is not banned |
| Game.MafiaGame.CalculateMaxMafiaCount | mafia_game/game.py:66-67 | the result is the number of players divided by the coefficient, rounded down (`c*k <= N < (c+1)*k`) |
| Game.MafiaGame.PackRoles | mafia_game/game.py:73-85 | the loop deals exactly what `Pack` specifies on the priority-sorted roles and leaves the table `Pack` specifies |
| Game.MafiaGame.PackTeams | mafia_game/game.py:87-99 | the Mafia-team roles, the Civilian-team roles and the table left behind are exactly those `Generate` specifies for the table, mafia count and roster size before the call |
| Game.MafiaGame.GenerateRoles | mafia_game/game.py:87-107 | the result is a permutation of the roles `Generate` specifies, and the table becomes the one it leaves; the roster and its order are unchanged, and only the table is written |
| Game.MafiaGame.AssignRoles | mafia_game/game.py:109-113 | the roles handed out are those generated; players in registration order receive the generated roles from the last one backwards, players beyond the supply keep their role, and modes and candidates are unchanged |
| Game.MafiaGame.DealRoles | mafia_game/game.py:111-113 | the i-th player in registration order receives the i-th role from the end while any remain, and is otherwise untouched |
| Game.MafiaGame.SwitchPhase | mafia_game/game.py:115-121 | the phase flips between day and night |
| Game.MafiaGame.RegisterPlayer | mafia_game/game.py:123-130 | an unknown id is appended to the roster as a fresh offline player without a role; a known id leaves the roster unchanged; nothing else changes |
| Game.MafiaGame.RemovePlayer | mafia_game/game.py:132-139 | a known id is removed from the roster and the order; an unknown id changes nothing; nothing else changes |
| Game.MafiaGame.ProcessCtrlMessage | mafia_game/game.py:141-151 | a player-register message registers, a player-leave message removes, and every other control message leaves the session unchanged |
| Game.MafiaGame.ProcessGamePlayMessage | mafia_game/game.py:153-154 | handling a gameplay message leaves the session and every player unchanged |
| Game.MafiaGame.ProcessMessage | mafia_game/game.py:156-163 | control messages are handled as by ProcessCtrlMessage, and gameplay and other messages leave the session unchanged |

## Left out

- The session token, the logger and every log line are left out. They do not affect the game state.
- `run`, `is_running`, the inbox `PriorityQueue` and the polling loop of `__game_loop` are left out. They are concurrency and timing. `ProcessMessage` models the body of one loop iteration.
- `mafia_game/utils.py` is left out: it only creates tokens and loggers.
- Randomness is a parameter: `shuffle` takes a caller-supplied `draw` function, so any order a Fisher–Yates shuffle can produce is covered.
- RoleAssignment.Shuffle: the contract states only that the result is a permutation, not that the shuffle is uniform.
- `DayPhaseStage`, `NightPhaseStage` and `PlayerStatus` are left out. They are declared but never used.
- The argument of `night_action` is left out because nothing reads it.
- The role catalog (team, priority and uniqueness of each role) and the `RoleFactory` are not part of this model. The catalog is a parameter of the session. The factory is modelled as mapping a role id to the role of that id. The sample catalog used by the two example lemmas is an assumption.
- The enumeration order of `RoleEnum` is assumed to be Villager, Mafia, Healer, Detective.
- In the Python code, `get_name()` returns a string that is used as a key of the availability table, which is keyed by `RoleEnum`. The model identifies a role by its id throughout, as the evident intent is.
- `OfflinePlayer(player_id)` at game.py:125 passes too few arguments to the constructor, and Python would raise there. The model registers an offline player without a role.
- `issubclass(message, CtrlMessage)` at game.py:160 is applied to an instance, and Python would raise there. The model dispatches on the message's kind, as `isinstance` would.
- `super().role.action()` at player.py:57 reads an instance attribute through `super()`, and Python would raise there. The model reads the player's role and fails with `NoRoleAssigned` when there is none.
- `__cmp__` is not used by Python 3's `PriorityQueue`. The model only states the priority order it defines.
- The priority of a gameplay message is not defined in messaging.py, so gameplay messages get the base priority 0.
- `banned_roles=None` is modelled as the empty list, and the default argument values (`mafia_coefficient=4`) are left out.
- A roster entry is tested by membership. `players.get(id, False)` is falsy only for a missing id, because a player object is always truthy.
- Player ids are strings, and no length or character set is imposed on them.
