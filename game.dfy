/** The game session (game.py): the roster, the day/night phase, the role
    availability table, and the imperative role-assignment steps, each proved
    equal to the value-level definitions of `RoleAssignment`. */
module Game {
  import opened Common
  import opened Roles
  import opened Messaging
  import opened Players
  import opened RoleAssignment

  datatype GamePhase = Day | Night

  /** The phase after a switch: always the other one. */
  function Switched(p: GamePhase): (q: GamePhase)
    ensures q != p
  {
    if p == Day then Night else Day
  }

  lemma SwitchedTwiceRestores(p: GamePhase)
    ensures Switched(Switched(p)) == p
  {
  }

  /** The roster order without `x`. */
  function Without(s: seq<PlayerId>, x: PlayerId): (r: seq<PlayerId>)
    ensures forall y :: y in r <==> y in s && y != x
    ensures |r| <= |s|
  {
    if s == [] then []
    else (if s[0] == x then [] else [s[0]]) + Without(s[1..], x)
  }

  predicate Distinct(s: seq<PlayerId>)
  {
    forall i, j :: 0 <= i < j < |s| ==> s[i] != s[j]
  }

  lemma {:induction false} WithoutKeepsDistinct(s: seq<PlayerId>, x: PlayerId)
    requires Distinct(s)
    ensures Distinct(Without(s, x))
  {
    if s != [] {
      assert Distinct(s[1..]);
      WithoutKeepsDistinct(s[1..], x);
      var r := Without(s, x);
      var t := Without(s[1..], x);
      if s[0] != x {
        assert r == [s[0]] + t;
        assert s[0] !in s[1..] by {
          forall k | 1 <= k < |s| ensures s[k] != s[0] { }
        }
        forall i, j | 0 <= i < j < |r| ensures r[i] != r[j] {
          assert r[j] == t[j - 1] && t[j - 1] in t;
          if i > 0 {
            assert r[i] == t[i - 1];
          }
        }
      }
    }
  }

  class MafiaGame {
    /** The role catalog: team, priority and uniqueness of each role. */
    const catalog: Catalog
    /** The registered players, keyed by id. */
    var players: map<PlayerId, Player>
    /** The ids of `players` in registration order (the insertion order of the players dict in game.py). */
    var order: seq<PlayerId>
    var phase: GamePhase
    var mafiaCoefficient: int
    /** Mafia seats; starts at 0 and no operation of the session changes it. */
    var mafiaCount: int
    var availableRoles: Availability

    ghost predicate Valid()
      reads this`players, this`order, this`mafiaCoefficient
    {
      && mafiaCoefficient >= 1
      && Distinct(order)
      && (forall id :: id in players <==> id in order)
      && (forall id :: id in players ==> players[id].id == id)
    }

    /** The player objects the session owns. */
    ghost function Roster(): set<Player>
      reads this`players
    {
      players.Values
    }

    /** A new session: DAY, nobody registered, no mafia seats, the coefficient
        raised to at least 1, and every role available except the banned ones. */
    constructor (catalog: Catalog, mafiaCoefficient: int, bannedRoles: seq<RoleId>)
      ensures Valid()
      ensures this.catalog == catalog
      ensures players == map[] && order == [] && phase == Day && mafiaCount == 0
      ensures this.mafiaCoefficient == if mafiaCoefficient > 1 then mafiaCoefficient else 1
      ensures forall r: RoleId :: r in availableRoles && (availableRoles[r] <==> r !in bannedRoles)
    {
      this.catalog := catalog;
      players := map[];
      order := [];
      mafiaCount := 0;
      phase := Day;
      this.mafiaCoefficient := if mafiaCoefficient > 1 then mafiaCoefficient else 1;
      AllRoleIdsEnumerate();
      var table: Availability := map r | r in AllRoleIds :: true;
      var i := 0;
      while i < |bannedRoles|
        invariant 0 <= i <= |bannedRoles|
        invariant forall r: RoleId :: r in table && (table[r] <==> r !in bannedRoles[..i])
      {
        table := table[bannedRoles[i] := false];
        assert bannedRoles[..i + 1] == bannedRoles[..i] + [bannedRoles[i]];
        i := i + 1;
      }
      assert bannedRoles[..i] == bannedRoles;
      availableRoles := table;
    }

    /** `__calculate_max_mafia_count`: the largest number of mafia seats that
        leaves at least `mafiaCoefficient` players per seat. */
    function CalculateMaxMafiaCount(): (c: nat)
      reads this
      requires Valid()
      ensures c * mafiaCoefficient <= |players| < (c + 1) * mafiaCoefficient
    {
      |players| / mafiaCoefficient
    }

    /** `__get_packed_roles`: the greedy packing loop, equal to `Pack` applied
        to the candidates sorted by ascending priority. */
    method PackRoles(roles: seq<RoleId>, countToPack: int) returns (result: seq<RoleId>)
      modifies this`availableRoles
      ensures var p := Pack(catalog, SortByPriority(catalog, roles), countToPack, old(availableRoles));
        result == p.packed && availableRoles == p.available
    {
      result := [];
      var toPack := SortByPriority(catalog, roles);
      var count := countToPack;
      ghost var spec := Pack(catalog, toPack, count, availableRoles);
      ghost var rest := spec;
      while count > 0 && |toPack| > 0
        invariant rest == Pack(catalog, toPack, count, availableRoles)
        invariant spec == Packing(result + rest.packed, rest.available)
        decreases if count > 0 then count else 0, |toPack|
      {
        var top := toPack[|toPack| - 1];
        if !Available(availableRoles, top) {
          assert rest == Pack(catalog, toPack[..|toPack| - 1], count, availableRoles) by {
            PackStep(catalog, toPack, count, availableRoles);
          }
          toPack := toPack[..|toPack| - 1];
        } else {
          var role := GenerateRole(top);
          ghost var table := if catalog.unique(top) then availableRoles[top := false] else availableRoles;
          ghost var after := Pack(catalog, toPack, count - 1, table);
          assert spec == Packing((result + [top]) + after.packed, after.available) by {
            PackStep(catalog, toPack, count, availableRoles);
            AppendPacked(result, top, after.packed);
          }
          if catalog.unique(role.id) {
            availableRoles := availableRoles[role.id := false];
          }
          result := result + [role.id];
          count := count - 1;
          rest := after;
        }
      }
    }

    /** The packing half of `__generate_roles`: list the available roles,
        split them by team, and pack the Mafia team to the mafia count and
        the Civilian team to the remaining players, in that order. */
    method PackTeams() returns (mafias: seq<RoleId>, civilians: seq<RoleId>)
      modifies this`availableRoles
      ensures var g := Generate(catalog, old(availableRoles), old(mafiaCount), old(|players|));
        mafias == g.mafias && civilians == g.civilians && availableRoles == g.available
    {
      var roles := AvailableInOrder(availableRoles);
      var mafiaTeamRoles := RolesByTeam(catalog, roles, MafiaTeam);
      var civilianTeamRoles := RolesByTeam(catalog, roles, CivilianTeam);
      var civiliansCount := CivilianQuota(|players|, mafiaCount);
      ghost var m := Pack(catalog, SortByPriority(catalog, mafiaTeamRoles), mafiaCount, availableRoles);
      ghost var v := Pack(catalog, SortByPriority(catalog, civilianTeamRoles), civiliansCount, m.available);
      assert Generate(catalog, availableRoles, mafiaCount, |players|) == Generation(m.packed, v.packed, v.available);
      mafias := PackRoles(mafiaTeamRoles, mafiaCount);
      assert mafias == m.packed && availableRoles == m.available;
      civilians := PackRoles(civilianTeamRoles, civiliansCount);
      assert civilians == v.packed && availableRoles == v.available;
    }

    /** `__generate_roles`: pack both teams and shuffle; the result is a
        permutation of what `Generate` deals, and the table is updated as it says. */
    method GenerateRoles(draw: nat -> nat) returns (result: seq<RoleId>)
      modifies this`availableRoles
      ensures players == old(players) && order == old(order)
      ensures GeneratedFrom(catalog, old(availableRoles), old(mafiaCount), old(|players|), result, availableRoles)
    {
      var mafias, civilians := PackTeams();
      result := Shuffle(mafias + civilians, draw);
    }

    /** `__assign_roles`: generate the roles, then deal them along the roster. */
    method AssignRoles(draw: nat -> nat) returns (ghost dealt: seq<RoleId>)
      requires Valid()
      modifies this`availableRoles, Roster()
      ensures Valid()
      ensures GeneratedFrom(catalog, old(availableRoles), old(mafiaCount), old(|players|), dealt, availableRoles)
      ensures forall i :: 0 <= i < |order| ==>
        players[order[i]].role == if i < |dealt| then Some(dealt[|dealt| - 1 - i]) else old(players[order[i]].role)
      ensures forall i :: 0 <= i < |order| ==>
        players[order[i]].mode == old(players[order[i]].mode) &&
        players[order[i]].killingCandidate == old(players[order[i]].killingCandidate)
    {
      var roles := GenerateRoles(draw);
      DealRoles(roles);
      dealt := roles;
    }

    /** The loop of `__assign_roles`: walking the roster in registration
        order, each player in turn takes the last remaining role, until the
        roles run out; the remaining players keep the role they had. */
    method DealRoles(roles: seq<RoleId>)
      requires Valid()
      modifies Roster()
      ensures Valid() && unchanged(this)
      ensures forall i :: 0 <= i < |order| ==>
        players[order[i]].role == if i < |roles| then Some(roles[|roles| - 1 - i]) else old(players[order[i]].role)
      ensures forall i :: 0 <= i < |order| ==>
        players[order[i]].mode == old(players[order[i]].mode) &&
        players[order[i]].killingCandidate == old(players[order[i]].killingCandidate)
    {
      var remaining := roles;
      var i := 0;
      while i < |order|
        invariant 0 <= i <= |order|
        invariant |remaining| == (if i < |roles| then |roles| - i else 0) && remaining == roles[..|remaining|]
        invariant forall k :: 0 <= k < |order| ==>
          && players[order[k]].role == (if k < i && k < |roles| then Some(roles[|roles| - 1 - k]) else old(players[order[k]].role))
          && players[order[k]].mode == old(players[order[k]].mode)
          && players[order[k]].killingCandidate == old(players[order[k]].killingCandidate)
      {
        var player := players[order[i]];
        assert player in Roster();
        forall k | 0 <= k < |order| && k != i
          ensures players[order[k]] != player
        {
          assert players[order[k]].id == order[k];
        }
        if |remaining| > 0 {
          player.SetRole(remaining[|remaining| - 1]);
          remaining := remaining[..|remaining| - 1];
        }
        i := i + 1;
      }
    }

    /** `__switch_phase`: DAY becomes NIGHT and NIGHT becomes DAY. */
    method SwitchPhase()
      modifies this`phase
      ensures phase == Switched(old(phase))
    {
      if phase == Day {
        phase := Night;
      } else {
        phase := Day;
      }
    }

    /** The roster after registering `id`: unchanged if already present,
        otherwise extended by exactly that key, holding a fresh awake player
        with no role and no vote, appended to the registration order. */
    twostate predicate RegisteredOnce(id: PlayerId)
      reads this, Roster()
    {
      if id in old(players) then
        players == old(players) && order == old(order)
      else
        && id in players && players == old(players)[id := players[id]]
        && order == old(order) + [id]
        && fresh(players[id])
        && players[id].kind == OfflinePlayerKind
        && players[id].role.None? && players[id].mode == Awakened && players[id].killingCandidate == null
    }

    /** The roster after removing `id`: unchanged if absent, otherwise without exactly that key. */
    twostate predicate RemovedOnce(id: PlayerId)
      reads this
    {
      if id !in old(players) then
        players == old(players) && order == old(order)
      else
        players == old(players) - {id} && order == Without(old(order), id)
    }

    /** Everything but the roster is untouched. */
    twostate predicate OnlyRosterChanged()
      reads this
    {
      phase == old(phase) && mafiaCount == old(mafiaCount) &&
      mafiaCoefficient == old(mafiaCoefficient) && availableRoles == old(availableRoles)
    }

    /** `__register_player`: registering a present id changes nothing. */
    method RegisterPlayer(id: PlayerId)
      requires Valid()
      modifies this
      ensures Valid() && RegisteredOnce(id) && OnlyRosterChanged()
    {
      if id !in players {
        var player := new Player(OfflinePlayerKind, id, None);
        players := players[id := player];
        order := order + [id];
      }
    }

    /** `__remove_player`: removing an absent id changes nothing. */
    method RemovePlayer(id: PlayerId)
      requires Valid()
      modifies this
      ensures Valid() && RemovedOnce(id) && OnlyRosterChanged()
    {
      if id in players {
        WithoutKeepsDistinct(order, id);
        players := players - {id};
        order := Without(order, id);
      }
    }

    /** `__process_ctrl_message`: REGISTER and LEAVE go to the roster; every
        other control message, and any other message, changes nothing. */
    method ProcessCtrlMessage(m: Message)
      requires Valid()
      modifies this
      ensures Valid() && OnlyRosterChanged()
      ensures m.payload.PlayerCtrl? && m.payload.kind == Register ==> RegisteredOnce(m.payload.playerId)
      ensures m.payload.PlayerCtrl? && m.payload.kind == Leave ==> RemovedOnce(m.payload.playerId)
      ensures !(m.payload.PlayerCtrl? && m.payload.kind in {Register, Leave}) ==>
        players == old(players) && order == old(order)
    {
      match m.payload
      case PlayerCtrl(Register, id) => RegisterPlayer(id);
      case PlayerCtrl(Leave, id) => RemovePlayer(id);
      case _ =>
    }

    /** `__process_game_play_message` has an empty body: the session and
        its players stay as they were. */
    method ProcessGamePlayMessage(m: Message)
      ensures unchanged(this) && unchanged(Roster())
    {
    }

    /** One step of the game loop: control messages go to the control
        handler, gameplay messages to the (empty) gameplay handler. */
    method ProcessMessage(m: Message)
      requires Valid()
      modifies this
      ensures Valid() && OnlyRosterChanged()
      ensures m.payload.PlayerCtrl? && m.payload.kind == Register ==> RegisteredOnce(m.payload.playerId)
      ensures m.payload.PlayerCtrl? && m.payload.kind == Leave ==> RemovedOnce(m.payload.playerId)
      ensures !(m.payload.PlayerCtrl? && m.payload.kind in {Register, Leave}) ==>
        players == old(players) && order == old(order)
    {
      if m.payload.IsCtrl() {
        ProcessCtrlMessage(m);
      } else if m.payload.GamePlay? {
        ProcessGamePlayMessage(m);
      }
    }
  }
}
