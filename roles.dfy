/** Role kinds (roles.py) and the role catalog the game engine consults.

    The enumeration of role ids and the per-role catalog data (team, packing
    priority, uniqueness) are imported by game.py from `.roles` but defined in
    none of the Python files. Here the ids are the four role classes of
    roles.py, and the catalog is a value of `Catalog` whose three fields are
    left arbitrary. */
module Roles {
  import opened Common

  /** One id per concrete role class; used both as the enum key of the
      availability table and as the role's name. */
  datatype RoleId = Villager | Mafia | Healer | Detective

  /** Iteration order of the role enumeration (the order the classes are declared in). */
  const AllRoleIds: seq<RoleId> := [Villager, Mafia, Healer, Detective]

  /** The position of a role in the enumeration. */
  function RoleIndex(r: RoleId): (k: nat)
    ensures k < |AllRoleIds| && AllRoleIds[k] == r
  {
    match r
    case Villager => 0
    case Mafia => 1
    case Healer => 2
    case Detective => 3
  }

  /** Roles listed in strictly increasing enumeration position, hence each at most once. */
  predicate InEnumOrder(s: seq<RoleId>)
  {
    forall i, j :: 0 <= i < j < |s| ==> RoleIndex(s[i]) < RoleIndex(s[j])
  }

  datatype Team = MafiaTeam | CivilianTeam

  /** The catalog facts the packer reads from a role: its team, its priority
      and whether it may be dealt at most once per game. */
  datatype Catalog = Catalog(team: RoleId -> Team, priority: RoleId -> int, unique: RoleId -> bool)

  /** A role object: an instance of the abstract `BaseRole`, or of one of its
      four concrete subclasses. Roles carry no state, so a concrete instance
      is identified by its id. */
  datatype RoleClass = BaseRole | Concrete(id: RoleId)
  {
    /** `get_name`: abstract on BaseRole, a constant string on each subclass. */
    function GetName(): (r: Result<string, Error>)
      ensures r.Failure? <==> this.BaseRole?
      ensures r.Failure? ==> r.error == NotImplemented
      ensures this.Concrete? ==> r.Success? && |r.value| > 0
    {
      match this
      case BaseRole => Failure(NotImplemented)
      case Concrete(id) => Success(Name(id))
    }

    /** `action`: no subclass overrides the empty base body, so every role's
        action succeeds and, being a function of the role alone, changes nothing. */
    function Action(): (r: Outcome<Error>)
      ensures r.Pass?
    {
      Pass
    }
  }

  /** The name a concrete role class reports. */
  function Name(id: RoleId): string
  {
    match id
    case Villager => "villager"
    case Mafia => "mafia"
    case Healer => "healer"
    case Detective => "detective"
  }

  /** The role factory: a fresh role object of the requested kind. */
  function GenerateRole(id: RoleId): (r: RoleClass)
    ensures r.Concrete? && r.id == id
  {
    Concrete(id)
  }

  lemma RoleNames()
    ensures Concrete(Villager).GetName() == Success("villager")
    ensures Concrete(Mafia).GetName() == Success("mafia")
    ensures Concrete(Healer).GetName() == Success("healer")
    ensures Concrete(Detective).GetName() == Success("detective")
  {
  }

  /** The four names are pairwise distinct, so a name identifies its role class
      and keying the availability table by id or by name is the same. */
  lemma NamesIdentifyRoles(a: RoleId, b: RoleId)
    ensures Name(a) == Name(b) <==> a == b
  {
  }

  lemma InEnumOrderTail(s: seq<RoleId>)
    requires InEnumOrder(s) && s != []
    ensures InEnumOrder(s[1..])
  {
    forall i, j | 0 <= i < j < |s[1..]|
      ensures RoleIndex(s[1..][i]) < RoleIndex(s[1..][j])
    {
      assert s[1..][i] == s[i + 1] && s[1..][j] == s[j + 1];
    }
  }

  /** The head of a list in enumeration order comes before everything after it. */
  lemma InEnumOrderHead(s: seq<RoleId>)
    requires InEnumOrder(s) && s != []
    ensures forall x :: x in s[1..] ==> RoleIndex(s[0]) < RoleIndex(x)
  {
    forall x | x in s[1..]
      ensures RoleIndex(s[0]) < RoleIndex(x)
    {
      var m :| 0 <= m < |s[1..]| && s[1..][m] == x;
      assert s[m + 1] == x;
    }
  }

  lemma InEnumOrderCons(h: RoleId, t: seq<RoleId>)
    requires InEnumOrder(t) && forall x :: x in t ==> RoleIndex(h) < RoleIndex(x)
    ensures InEnumOrder([h] + t)
  {
    var r := [h] + t;
    forall i, j | 0 <= i < j < |r|
      ensures RoleIndex(r[i]) < RoleIndex(r[j])
    {
      assert r[j] == t[j - 1] && t[j - 1] in t;
      if i > 0 {
        assert r[i] == t[i - 1];
      }
    }
  }

  /** The enumeration lists every role exactly once. */
  lemma AllRoleIdsEnumerate()
    ensures forall r: RoleId :: r in AllRoleIds
    ensures forall i, j :: 0 <= i < j < |AllRoleIds| ==> AllRoleIds[i] != AllRoleIds[j]
  {
    forall r: RoleId
      ensures r in AllRoleIds
    {
      assert AllRoleIds[RoleIndex(r)] == r;
    }
  }

  /** The enumeration is listed in its own order. */
  lemma AllRoleIdsInOrder()
    ensures InEnumOrder(AllRoleIds)
  {
    forall i | 0 <= i < |AllRoleIds|
      ensures RoleIndex(AllRoleIds[i]) == i
    {
    }
  }
}
