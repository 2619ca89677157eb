/**
 * The two tables of app/models.py as records keyed by integer id, with the
 * order in which the store lists a whole table (ascending id, as a scan of an
 * SQLite rowid table does) and `Member.query.filter_by(email=...).first()`.
 */
module Models {
  import opened Wrappers
  import opened Credentials

  /** A row of `books`: title and author are NOT NULL, published_year may be NULL. */
  datatype Book = Book(title: string, author: string, publishedYear: Option<int>)

  /** A row of the members table: the password column holds only a hash. */
  datatype Member = Member(email: string, password: PasswordHash)

  /** The email column is UNIQUE: no two ids hold the same email. */
  ghost predicate EmailsUnique(members: map<int, Member>)
  {
    forall i, j :: i in members && j in members && members[i].email == members[j].email ==> i == j
  }

  predicate StrictlyIncreasing(s: seq<int>)
  {
    forall i, j :: 0 <= i < j < |s| ==> s[i] < s[j]
  }

  /** Helper for `HasLeast`: a non-empty set has an element. */
  lemma Inhabited(ids: set<int>)
    ensures ids == {} || exists k :: k in ids
  {
    if !exists k :: k in ids {
      assert ids == {};
    }
  }

  lemma {:induction false} HasLeast(ids: set<int>)
    requires ids != {}
    ensures exists m :: m in ids && forall k :: k in ids ==> m <= k
    decreases |ids|
  {
    Inhabited(ids);
    var x :| x in ids;
    var rest := ids - {x};
    if rest == {} {
      forall k | k in ids ensures x <= k {
        assert k !in rest;
      }
    } else {
      HasLeast(rest);
      var m :| m in rest && forall k :: k in rest ==> m <= k;
      var least := if x < m then x else m;
      forall k | k in ids ensures least <= k {
        if k != x { assert k in rest; }
      }
      assert least in ids;
    }
  }

  function Least(ids: set<int>): (m: int)
    requires ids != {}
    ensures m in ids && forall k :: k in ids ==> m <= k
  {
    HasLeast(ids);
    var m :| m in ids && forall k :: k in ids ==> m <= k;
    m
  }

  /** The ids of a table in the order the store lists its rows. */
  function Ascending(ids: set<int>): (r: seq<int>)
    ensures |r| == |ids|
    ensures forall k :: k in ids <==> k in r
    ensures StrictlyIncreasing(r)
    decreases |ids|
  {
    if ids == {} then []
    else
      var m := Least(ids);
      [m] + Ascending(ids - {m})
  }

  /** The first id in `ids` whose member has `email`. */
  function FirstWithEmail(members: map<int, Member>, ids: seq<int>, email: string): (r: Option<int>)
    requires StrictlyIncreasing(ids)
    requires forall i :: 0 <= i < |ids| ==> ids[i] in members
    ensures r.Some? ==> r.value in ids && members[r.value].email == email
    ensures r.Some? ==> forall i :: 0 <= i < |ids| && ids[i] < r.value ==> members[ids[i]].email != email
    ensures r.None? ==> forall i :: 0 <= i < |ids| ==> members[ids[i]].email != email
  {
    if ids == [] then None
    else if members[ids[0]].email == email then Some(ids[0])
    else
      var r := FirstWithEmail(members, ids[1..], email);
      assert forall i :: 0 < i < |ids| ==> ids[i] == ids[1..][i - 1];
      r
  }

  /**
   * `Member.query.filter_by(email=email).first()`: the member with that email,
   * if any. The database answers this through the UNIQUE index on email, so
   * at most one row matches; choosing the lowest id only makes the function
   * total on tables that break the constraint. A missing email compares as
   * SQL NULL and the column is NOT NULL, so it finds nothing.
   */
  function FindByEmail(members: map<int, Member>, email: Option<string>): (r: Option<int>)
    ensures r.Some? ==> email.Some? && r.value in members && members[r.value].email == email.value
    ensures r.Some? ==> forall id :: id in members && members[id].email == email.value ==> r.value <= id
    ensures r.None? <==> email.None? || forall id :: id in members ==> members[id].email != email.value
  {
    if email.None? then None
    else
      var ids := Ascending(members.Keys);
      assert forall id :: id in members ==> exists i :: 0 <= i < |ids| && ids[i] == id;
      FirstWithEmail(members, ids, email.value)
  }

  /** Under the UNIQUE constraint the lookup finds the one member that has the email. */
  lemma FindUnique(members: map<int, Member>, id: int)
    requires EmailsUnique(members) && id in members
    ensures FindByEmail(members, Some(members[id].email)) == Some(id)
  {
  }

  /** Some member other than `id` already holds `email`. */
  predicate EmailTakenByOther(members: map<int, Member>, id: int, email: string)
  {
    exists other :: other in members && other != id && members[other].email == email
  }

  /** Inserting a member whose email the lookup does not find keeps emails unique. */
  lemma InsertKeepsEmailsUnique(members: map<int, Member>, id: int, m: Member)
    requires EmailsUnique(members) && id !in members
    requires FindByEmail(members, Some(m.email)).None?
    ensures EmailsUnique(members[id := m])
  {
  }

  /** Replacing a member with an email no other member holds keeps emails unique. */
  lemma ReplaceKeepsEmailsUnique(members: map<int, Member>, id: int, m: Member)
    requires EmailsUnique(members)
    requires !EmailTakenByOther(members, id, m.email)
    ensures EmailsUnique(members[id := m])
  {
  }
}
