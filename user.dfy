/**
 * The `User` table: one record per account, keyed by its primary key `id`,
 * with the pairing fields `pairing_code` and `partner_id`.
 */
module Users {
  import opened Wrappers

  /** One row of the `user` table, as it stands after a commit (its `id` has been assigned). */
  datatype User = User(
    id: int,
    email: string,
    fullName: Option<string>,
    picture: Option<string>,
    pairingCode: Option<string>,
    partnerId: Option<int>)

  /** The table, indexed by primary key. */
  type Table = map<int, User>

  /** A newly created record: the pairing fields take their defaults (no code, no partner). */
  function NewUser(id: int, email: string, fullName: Option<string>, picture: Option<string>): (u: User)
    ensures u.id == id && u.email == email && u.fullName == fullName && u.picture == picture
    ensures u.pairingCode.None? && u.partnerId.None? && !Truthy(u.partnerId)
  {
    User(id, email, fullName, picture, None, None)
  }

  /**
   * Python's truth value of an `Optional[int]`: `None` and `0` are false. The
   * endpoints test `partner_id` this way.
   */
  predicate Truthy(p: Option<int>)
    ensures Truthy(p) ==> p.Some?
    ensures p.Some? && p.value > 0 ==> Truthy(p)
  {
    p.Some? && p.value != 0
  }

  // ---------------------------------------------------------------------------
  // What the schema guarantees: the table is well formed
  // ---------------------------------------------------------------------------

  /** Each record sits under its own primary key, so no two records share an id. */
  ghost predicate IdsMatchKeys(t: Table) {
    forall k :: k in t ==> t[k].id == k
  }

  /** Keys are assigned by the database and start at 1. */
  ghost predicate IdsPositive(t: Table) {
    forall k :: k in t ==> k > 0
  }

  /** `email` carries a unique constraint. */
  ghost predicate EmailsUnique(t: Table) {
    forall a, b :: a in t && b in t && t[a].email == t[b].email ==> a == b
  }

  ghost predicate WellFormed(t: Table) {
    IdsMatchKeys(t) && IdsPositive(t) && EmailsUnique(t)
  }

  /**
   * `partner_id` is declared a foreign key to `user.id`. The store does not
   * enforce it, so it is not part of `WellFormed`; `PairingSymmetric` implies it.
   */
  ghost predicate ForeignKeysHold(t: Table) {
    forall k :: k in t && t[k].partnerId.Some? ==> t[k].partnerId.value in t
  }

  // ---------------------------------------------------------------------------
  // What the pairing endpoints must keep: the pairing invariant
  // ---------------------------------------------------------------------------

  /** If A's partner is B, then B exists and B's partner is A. */
  ghost predicate PairingSymmetric(t: Table) {
    forall a :: a in t && t[a].partnerId.Some? ==>
      t[a].partnerId.value in t && t[t[a].partnerId.value].partnerId == Some(a)
  }

  /** Nobody holds a pairing code while paired. */
  ghost predicate NoCodeWhilePaired(t: Table) {
    forall a :: a in t && t[a].partnerId.Some? ==> t[a].pairingCode.None?
  }

  /** A pairing code, when present, belongs to one user only. */
  ghost predicate CodesUnique(t: Table) {
    forall a, b :: a in t && b in t && t[a].pairingCode.Some? && t[a].pairingCode == t[b].pairingCode ==> a == b
  }

  /** Nobody is paired with themselves. */
  ghost predicate NoSelfPair(t: Table) {
    forall a :: a in t ==> t[a].partnerId != Some(a)
  }

  ghost predicate PairingInvariant(t: Table) {
    PairingSymmetric(t) && NoCodeWhilePaired(t) && CodesUnique(t) && NoSelfPair(t)
  }

  // ---------------------------------------------------------------------------
  // Queries
  // ---------------------------------------------------------------------------

  /** `select(User).where(User.pairing_code == code).first()` finds a record. */
  predicate CodeInUse(t: Table, code: string) {
    exists k :: k in t && t[k].pairingCode == Some(code)
  }

  /** `select(User).where(User.email == email).first()` finds a record. */
  predicate EmailInUse(t: Table, email: string) {
    exists k :: k in t && t[k].email == email
  }

  // ---------------------------------------------------------------------------
  // Lemmas
  // ---------------------------------------------------------------------------

  /** A symmetric pairing has no dangling `partner_id`: the foreign key holds. */
  lemma SymmetricHasForeignKeys(t: Table)
    requires PairingSymmetric(t)
    ensures ForeignKeysHold(t)
  {
  }

  /**
   * In a well-formed table whose foreign keys hold, the truthiness test the
   * endpoints use agrees with "has a partner" (an id of 0 cannot occur).
   */
  lemma TruthyIsPresent(t: Table, k: int)
    requires WellFormed(t) && ForeignKeysHold(t) && k in t
    ensures Truthy(t[k].partnerId) <==> t[k].partnerId.Some?
  {
  }

  /**
   * Inserting a fresh record under a new positive id with an unused email keeps
   * the table well formed and keeps the pairing invariant.
   */
  lemma InsertNewUser(t: Table, id: int, email: string, fullName: Option<string>, picture: Option<string>)
    requires WellFormed(t) && id > 0 && id !in t && !EmailInUse(t, email)
    ensures WellFormed(t[id := NewUser(id, email, fullName, picture)])
    ensures PairingInvariant(t) ==> PairingInvariant(t[id := NewUser(id, email, fullName, picture)])
  {
  }

  /** The in-memory user table that a database session reads and commits to. */
  class UserTable {
    var users: Table

    ghost predicate Valid()
      reads this
    {
      WellFormed(users)
    }

    /** An empty table. */
    constructor ()
      ensures Valid() && users == map[]
    {
      users := map[];
    }
  }
}
