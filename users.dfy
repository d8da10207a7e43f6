/** The `users` table (app/models/user.py) as the registration service sees it:
    rows keyed by the UNIQUE `mobile_number` column, an auto-incrementing
    `user_id`, `is_verified` defaulting to true, and `created_at` set when the
    row is written. The database session is an object whose contents change
    in place on `add`/`commit`. */
module Users {
  import opened Wrappers

  datatype User = User(userId: int, mobileNumber: string, isVerified: bool, createdAt: int)

  /** The database refuses a second row with the same `mobile_number`. */
  datatype DbError = IntegrityError

  type Table = map<string, User>

  /** The row `User(mobile_number=...)` becomes once committed: the next
      identifier, the column default for `is_verified`, the commit time. */
  function NewUser(id: int, mobile: string, now: int): (u: User)
    ensures u.userId == id && u.mobileNumber == mobile && u.createdAt == now
    ensures u.isVerified
  {
    User(id, mobile, true, now)
  }

  /** Every row is filed under its own number and is verified, identifiers lie
      below the next one to be handed out and no two rows share one. */
  predicate Consistent(rows: Table, nextId: int) {
    && nextId >= 1
    && (forall m :: m in rows ==> rows[m].mobileNumber == m && rows[m].isVerified && 1 <= rows[m].userId < nextId)
    && (forall m, m' :: m in rows && m' in rows && m != m' ==> rows[m].userId != rows[m'].userId)
  }

  /** Adding a fresh number under the next identifier keeps the table consistent. */
  lemma InsertKeepsConsistent(rows: Table, nextId: int, mobile: string, now: int)
    requires Consistent(rows, nextId) && mobile !in rows
    ensures Consistent(rows[mobile := NewUser(nextId, mobile, now)], nextId + 1)
  {
  }

  class UserStore {
    var rows: Table
    var nextId: int

    ghost predicate Valid()
      reads this
    {
      Consistent(rows, nextId)
    }

    constructor ()
      ensures Valid() && rows == map[] && nextId == 1
    {
      rows := map[];
      nextId := 1;
    }

    /** `query(User).filter(User.mobile_number == mobile).first()` */
    method FindByMobile(mobile: string) returns (u: Option<User>)
      requires Valid()
      ensures u.Some? <==> mobile in rows
      ensures u.Some? ==> u.value == rows[mobile] && u.value.mobileNumber == mobile && u.value.isVerified
    {
      if mobile in rows {
        u := Some(rows[mobile]);
      } else {
        u := None;
      }
    }

    /** `add` and `commit` of a new row, then `refresh` to read back its
        generated columns. */
    method Insert(mobile: string, now: int) returns (r: Result<User, DbError>)
      requires Valid()
      modifies this
      ensures Valid()
      ensures mobile in old(rows) ==> r == Failure(IntegrityError) && rows == old(rows) && nextId == old(nextId)
      ensures mobile !in old(rows) ==>
                && r == Success(NewUser(old(nextId), mobile, now))
                && rows == old(rows)[mobile := r.value]
                && nextId == old(nextId) + 1
    {
      if mobile in rows {
        return Failure(IntegrityError);
      }
      var u := NewUser(nextId, mobile, now);
      InsertKeepsConsistent(rows, nextId, mobile, now);
      rows := rows[mobile := u];
      nextId := nextId + 1;
      r := Success(u);
    }
  }
}
