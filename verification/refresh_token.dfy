/** Stored refresh tokens: one row per issued refresh token, owned by a user,
    with its expiry time in whole seconds. Rows are never updated in place: the
    table only loses rows and gains new ones. */
module RefreshTokens {
  import opened Seqs

  datatype RefreshToken = RefreshToken(adminUserId: nat, token: string, expiresAt: int)
  {
    /** Expired once the clock is strictly after the expiry time. */
    predicate IsExpired(now: int) {
      now > expiresAt
    }
  }

  /** At the expiry instant itself a token is still valid. */
  lemma NotExpiredAtExpiryInstant(t: RefreshToken)
    ensures !t.IsExpired(t.expiresAt)
    ensures t.IsExpired(t.expiresAt + 1)
  {
  }

  /** Expiry is permanent: expired at `t1` means expired at every later time. */
  lemma ExpiryIsPermanent(t: RefreshToken, t1: int, t2: int)
    requires t1 <= t2 && t.IsExpired(t1)
    ensures t.IsExpired(t2)
  {
  }

  /** The `token` column is unique. */
  predicate UniqueTokens(rows: seq<RefreshToken>) {
    forall i, j :: 0 <= i < j < |rows| ==> rows[i].token != rows[j].token
  }

  /** Single active session: at most one row per user. */
  predicate AtMostOnePerUser(rows: seq<RefreshToken>) {
    forall i, j :: 0 <= i < j < |rows| ==> rows[i].adminUserId != rows[j].adminUserId
  }

  /** Number of rows owned by a user. */
  function CountFor(rows: seq<RefreshToken>, userId: nat): nat {
    if |rows| == 0 then 0
    else (if rows[0].adminUserId == userId then 1 else 0) + CountFor(rows[1..], userId)
  }

  predicate OwnedBy(userId: nat, t: RefreshToken) {
    t.adminUserId == userId
  }

  predicate NotOwnedBy(userId: nat, t: RefreshToken) {
    t.adminUserId != userId
  }

  /** `findByToken`: the position of the row holding `value`. */
  function FindByToken(rows: seq<RefreshToken>, value: string): (r: Option<nat>)
    ensures r.Some? ==> r.value < |rows| && rows[r.value].token == value
    ensures r.None? ==> forall t :: t in rows ==> t.token != value
  {
    IndexWhere(rows, (t: RefreshToken) => t.token == value)
  }

  /** `deleteByAdminUserId`: drop every row of the user, keep the others in
      order. */
  function DeleteByUser(rows: seq<RefreshToken>, userId: nat): (r: seq<RefreshToken>)
    ensures forall t :: t in r <==> t in rows && t.adminUserId != userId
    ensures CountFor(r, userId) == 0
    ensures IsSubsequence(r, rows)
  {
    var r := Filter(rows, (t: RefreshToken) => NotOwnedBy(userId, t));
    FilterIsSubsequence(rows, (t: RefreshToken) => NotOwnedBy(userId, t));
    CountZeroWhenAbsent(r, userId);
    r
  }

  lemma {:induction false} CountZeroWhenAbsent(rows: seq<RefreshToken>, userId: nat)
    requires forall t :: t in rows ==> t.adminUserId != userId
    ensures CountFor(rows, userId) == 0
  {
    if |rows| > 0 {
      assert rows[0] in rows;
      CountZeroWhenAbsent(rows[1..], userId);
    }
  }

  lemma {:induction false} CountAppend(a: seq<RefreshToken>, b: seq<RefreshToken>, userId: nat)
    ensures CountFor(a + b, userId) == CountFor(a, userId) + CountFor(b, userId)
  {
    if |a| == 0 {
      assert a + b == b;
    } else {
      assert (a + b)[1..] == a[1..] + b;
      CountAppend(a[1..], b, userId);
    }
  }

  /** Deleting one user's rows leaves every other user's rows as they were. */
  lemma {:induction false} DeleteByUserKeepsOthers(rows: seq<RefreshToken>, userId: nat, other: nat)
    requires other != userId
    ensures CountFor(DeleteByUser(rows, userId), other) == CountFor(rows, other)
  {
    if |rows| > 0 {
      DeleteByUserKeepsOthers(rows[1..], userId, other);
      var p := (t: RefreshToken) => NotOwnedBy(userId, t);
      assert rows == [rows[0]] + rows[1..];
      FilterAppend([rows[0]], rows[1..], p);
      CountAppend(Filter([rows[0]], p), Filter(rows[1..], p), other);
    }
  }

  /** A subsequence of a table keeps the table's uniqueness properties. */
  lemma {:induction false} SubsequenceKeepsUniqueness(a: seq<RefreshToken>, b: seq<RefreshToken>)
    requires IsSubsequence(a, b)
    ensures UniqueTokens(b) ==> UniqueTokens(a)
    ensures AtMostOnePerUser(b) ==> AtMostOnePerUser(a)
    ensures forall t :: t in a ==> t in b
    decreases |b|
  {
    if |a| > 0 && |b| > 0 {
      if a[0] == b[0] {
        SubsequenceKeepsUniqueness(a[1..], b[1..]);
        assert forall t :: t in a[1..] ==> t in b[1..];
        assert forall k :: 1 <= k < |a| ==> a[k] in b[1..];
      } else {
        SubsequenceKeepsUniqueness(a, b[1..]);
      }
    }
  }

  /** With at most one row per user, a user's count is 0 or 1. */
  lemma {:induction false} CountAtMostOne(rows: seq<RefreshToken>, userId: nat)
    requires AtMostOnePerUser(rows)
    ensures CountFor(rows, userId) <= 1
    ensures CountFor(rows, userId) == 1 <==> exists t :: t in rows && t.adminUserId == userId
  {
    if |rows| > 0 {
      CountAtMostOne(rows[1..], userId);
      if rows[0].adminUserId == userId {
        assert forall t :: t in rows[1..] ==> t.adminUserId != userId by {
          forall t | t in rows[1..]
            ensures t.adminUserId != userId
          {
            var k :| 0 <= k < |rows[1..]| && rows[1..][k] == t;
            assert rows[k + 1] == t;
          }
        }
        CountZeroWhenAbsent(rows[1..], userId);
      }
      assert rows == [rows[0]] + rows[1..];
    }
  }
}
