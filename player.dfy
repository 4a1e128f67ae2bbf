/** Players of a session (player.py).

    `BasePlayer` and its subclass `OfflinePlayer` are one class here; `kind`
    records which of the two an object is, which decides whether the abstract
    `day_vote` and `night_action` fail or do their work. */
module Players {
  import opened Common
  import opened Roles

  type PlayerId = string

  datatype PlayerMode = Asleep | Awakened

  datatype PlayerKind = BasePlayerKind | OfflinePlayerKind

  class Player {
    const id: PlayerId
    const kind: PlayerKind
    var mode: PlayerMode
    /** The player this one voted to kill; `None` until a vote. */
    var killingCandidate: Player?
    /** The role object, or `None` until one is dealt. */
    var role: Option<RoleId>

    /** A new player is awake, has voted for nobody, and holds the role it was
        given, if any (the constructor applies `SetRole` to it). */
    constructor (kind: PlayerKind, playerId: PlayerId, role: Option<RoleId>)
      ensures this.id == playerId && this.kind == kind
      ensures mode == Awakened && killingCandidate == null
      ensures this.role == role
    {
      this.id := playerId;
      this.kind := kind;
      mode := Awakened;
      killingCandidate := null;
      this.role := None;
      new;
      if role.Some? {
        SetRole(role.value);
      }
    }

    /** Replaces the role by a fresh one of the given kind; nothing else changes. */
    method SetRole(r: RoleId)
      modifies this
      ensures role == Some(GenerateRole(r).id)
      ensures mode == old(mode) && killingCandidate == old(killingCandidate)
    {
      role := Some(GenerateRole(r).id);
    }

    method SetKillingCandidate(player: Player?)
      modifies this
      ensures killingCandidate == player
      ensures mode == old(mode) && role == old(role)
    {
      killingCandidate := player;
    }

    method Sleep()
      modifies this
      ensures mode == Asleep
      ensures role == old(role) && killingCandidate == old(killingCandidate)
    {
      mode := Asleep;
    }

    method Wakeup()
      modifies this
      ensures mode == Awakened
      ensures role == old(role) && killingCandidate == old(killingCandidate)
    {
      mode := Awakened;
    }

    /** Abstract on BasePlayer; an offline player records the target as its
        killing candidate, replacing any earlier vote. */
    method DayVote(target: Player?) returns (res: Outcome<Error>)
      modifies this
      ensures kind == BasePlayerKind ==> res == Fail(NotImplemented) && killingCandidate == old(killingCandidate)
      ensures kind == OfflinePlayerKind ==> res == Pass && killingCandidate == target
      ensures mode == old(mode) && role == old(role)
    {
      if kind == BasePlayerKind {
        res := Fail(NotImplemented);
      } else {
        SetKillingCandidate(target);
        res := Pass;
      }
    }

    /** Abstract on BasePlayer; an offline player runs its role's action,
        which fails only when no role has been dealt. No player state changes
        (the method has no modifies clause). */
    method NightAction() returns (res: Outcome<Error>)
      ensures kind == BasePlayerKind ==> res == Fail(NotImplemented)
      ensures kind == OfflinePlayerKind ==> (res == Fail(NoRoleAssigned) <==> role.None?)
      ensures kind == OfflinePlayerKind ==> (res == Pass <==> role.Some?)
    {
      if kind == BasePlayerKind {
        res := Fail(NotImplemented);
      } else if role.None? {
        res := Fail(NoRoleAssigned);
      } else {
        res := GenerateRole(role.value).Action();
      }
    }
  }
}
