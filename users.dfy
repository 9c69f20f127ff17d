/**
 * The `users` table: its rows in insertion order, the `select ... where
 * eq(column, value)` query the handlers run on it, and the insert that
 * signup performs. The primary key `id` is unique; email uniqueness is
 * kept by the application (signup checks before it inserts).
 */
module Users {
  import opened Options
  import opened Bcrypt

  type UserId = nat

  /** A row: the stored password is the digest, never the plaintext. */
  datatype User = User(id: UserId, name: string, email: string, password: Digest)

  /** The condition of a `where(eq(column, value))`. */
  datatype Filter = EmailIs(email: string) | IdIs(id: UserId)

  predicate Matches(u: User, f: Filter)
  {
    match f
    case EmailIs(e) => u.email == e
    case IdIs(id) => u.id == id
  }

  /** `db.select().from(users).where(...)`: the matching rows, in table order. */
  function Select(rows: seq<User>, f: Filter): (r: seq<User>)
    ensures forall u :: u in r <==> u in rows && Matches(u, f)
    ensures multiset(r) <= multiset(rows)
    ensures |r| <= |rows|
  {
    if rows == [] then []
    else
      var rest := Select(rows[1..], f);
      assert forall u :: u in rows <==> u == rows[0] || u in rows[1..];
      assert rows == [rows[0]] + rows[1..];
      if Matches(rows[0], f) then [rows[0]] + rest else rest
  }

  ghost predicate EmailTaken(rows: seq<User>, email: string)
  {
    exists u :: u in rows && u.email == email
  }

  ghost predicate HasUserId(rows: seq<User>, id: UserId)
  {
    exists u :: u in rows && u.id == id
  }

  /** At most one row satisfies the filter. */
  ghost predicate UniqueFor(rows: seq<User>, f: Filter)
  {
    forall i, j :: 0 <= i < j < |rows| && Matches(rows[i], f) ==> !Matches(rows[j], f)
  }

  ghost predicate EmailsUnique(rows: seq<User>)
  {
    forall i, j :: 0 <= i < j < |rows| ==> rows[i].email != rows[j].email
  }

  ghost predicate IdsUnique(rows: seq<User>)
  {
    forall i, j :: 0 <= i < j < |rows| ==> rows[i].id != rows[j].id
  }

  lemma EmailsUniqueFor(rows: seq<User>, email: string)
    requires EmailsUnique(rows)
    ensures UniqueFor(rows, EmailIs(email))
  {
  }

  lemma IdsUniqueFor(rows: seq<User>, id: UserId)
    requires IdsUnique(rows)
    ensures UniqueFor(rows, IdIs(id))
  {
  }

  /** A query on a key that is unique returns at most one row. */
  lemma {:induction false} SelectAtMostOne(rows: seq<User>, f: Filter)
    requires UniqueFor(rows, f)
    ensures |Select(rows, f)| <= 1
  {
    if rows != [] {
      var tail := rows[1..];
      assert UniqueFor(tail, f) by {
        forall i, j | 0 <= i < j < |tail| && Matches(tail[i], f)
          ensures !Matches(tail[j], f)
        {
          assert tail[i] == rows[i + 1] && tail[j] == rows[j + 1];
        }
      }
      SelectAtMostOne(tail, f);
      if Matches(rows[0], f) {
        forall w | w in tail ensures !Matches(w, f) {
          var k :| 0 <= k < |tail| && tail[k] == w;
          assert rows[k + 1] == w;
        }
        SelectNone(tail, f);
      }
    }
  }

  /** A query that no row satisfies returns nothing. */
  lemma {:induction false} SelectNone(rows: seq<User>, f: Filter)
    requires forall u :: u in rows ==> !Matches(u, f)
    ensures Select(rows, f) == []
  {
    if rows != [] {
      assert rows[0] in rows;
      SelectNone(rows[1..], f);
    }
  }

  /** A query on a unique key that some row satisfies returns exactly that row. */
  lemma SelectMember(rows: seq<User>, u: User, f: Filter)
    requires UniqueFor(rows, f)
    requires u in rows && Matches(u, f)
    ensures Select(rows, f) == [u]
  {
    SelectAtMostOne(rows, f);
    var r := Select(rows, f);
    assert u in r;
  }

  /** Appending a row extends every query result by that row exactly when it matches. */
  lemma {:induction false} SelectAppend(rows: seq<User>, u: User, f: Filter)
    ensures Select(rows + [u], f) == Select(rows, f) + (if Matches(u, f) then [u] else [])
  {
    if rows == [] {
      assert rows + [u] == [u];
      assert [u][1..] == [];
    } else {
      assert (rows + [u])[0] == rows[0];
      assert (rows + [u])[1..] == rows[1..] + [u];
      SelectAppend(rows[1..], u, f);
    }
  }

  /** Appending a row with a fresh email keeps emails unique. */
  lemma AppendKeepsEmailsUnique(rows: seq<User>, u: User)
    requires EmailsUnique(rows) && !EmailTaken(rows, u.email)
    ensures EmailsUnique(rows + [u])
  {
    var rows' := rows + [u];
    forall i, j | 0 <= i < j < |rows'| ensures rows'[i].email != rows'[j].email {
      if j == |rows| {
        assert rows'[i] == rows[i] && rows[i] in rows;
      } else {
        assert rows'[i] == rows[i] && rows'[j] == rows[j];
      }
    }
  }

  /** Appending a row with a fresh id keeps ids unique. */
  lemma AppendKeepsIdsUnique(rows: seq<User>, u: User)
    requires IdsUnique(rows) && !HasUserId(rows, u.id)
    ensures IdsUnique(rows + [u])
  {
    var rows' := rows + [u];
    forall i, j | 0 <= i < j < |rows'| ensures rows'[i].id != rows'[j].id {
      if j == |rows| {
        assert rows'[i] == rows[i] && rows[i] in rows;
      } else {
        assert rows'[i] == rows[i] && rows'[j] == rows[j];
      }
    }
  }

  /** The table as the database holds it; the methods change it in place. */
  class UserTable {
    var rows: seq<User>

    /** The primary key holds. */
    ghost predicate Valid()
      reads this
    {
      IdsUnique(rows)
    }

    constructor ()
      ensures Valid() && rows == []
    {
      rows := [];
    }

    /**
     * `db.insert(users).values(u).returning()`. A row whose id is already
     * present violates the primary key: the insert fails and nothing changes.
     */
    method Insert(u: User) returns (inserted: Option<User>)
      requires Valid()
      modifies this
      ensures Valid()
      ensures HasUserId(old(rows), u.id) ==> inserted == None && rows == old(rows)
      ensures !HasUserId(old(rows), u.id) ==> inserted == Some(u) && rows == old(rows) + [u]
    {
      var clash := Select(rows, IdIs(u.id));
      if clash != [] {
        assert clash[0] in rows;
        inserted := None;
      } else {
        AppendKeepsIdsUnique(rows, u);
        rows := rows + [u];
        inserted := Some(u);
      }
    }
  }
}
