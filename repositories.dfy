/**
 * The Spring Data repositories, by the meaning of their derived query names,
 * over tables held as sequences of entity objects.  Each lookup scans the
 * table and returns the first match; where the table's key makes the match
 * unique, the lemmas below show that the first match is the only one.
 */
module Repositories {
  import opened Wrappers
  import opened Entities

  // ---- UsersRepository ----

  /** The unique constraint on users.username. */
  ghost predicate UniqueUsernames(users: seq<User>)
    reads users`username
  {
    forall i, j :: (0 <= i < |users| && 0 <= j < |users| && users[i].username.Some?
      && users[i].username == users[j].username) ==> i == j
  }

  /** UsersRepository.findByUsername. */
  function FindByUsername(users: seq<User>, username: string): (r: Option<User>)
    reads users
    ensures r.Some? ==> r.value in users && r.value.username == Some(username)
    ensures r.None? <==> forall u :: u in users ==> u.username != Some(username)
  {
    if |users| == 0 then None
    else if users[0].username == Some(username) then Some(users[0])
    else FindByUsername(users[1..], username)
  }

  /** UsersRepository.findByUsernameAndPassword: both columns must match (plain text). */
  function FindByUsernameAndPassword(users: seq<User>, username: string, password: string): (r: Option<User>)
    reads users
    ensures r.Some? ==> r.value in users && r.value.username == Some(username) && r.value.password == Some(password)
    ensures r.None? <==> forall u :: u in users ==> !(u.username == Some(username) && u.password == Some(password))
  {
    if |users| == 0 then None
    else if users[0].username == Some(username) && users[0].password == Some(password) then Some(users[0])
    else FindByUsernameAndPassword(users[1..], username, password)
  }

  lemma UniqueUsernamesTail(users: seq<User>)
    requires |users| > 0 && UniqueUsernames(users)
    ensures UniqueUsernames(users[1..])
  {
    forall i, j | 0 <= i < |users| - 1 && 0 <= j < |users| - 1 && users[1..][i].username.Some?
      && users[1..][i].username == users[1..][j].username
      ensures i == j
    {
      assert users[i + 1].username == users[j + 1].username;
    }
  }

  /** With unique usernames, the user carrying a username is the one findByUsername returns. */
  lemma {:induction false} FindByUsernameIsUnique(users: seq<User>, username: string, u: User)
    requires UniqueUsernames(users)
    requires u in users && u.username == Some(username)
    ensures FindByUsername(users, username) == Some(u)
  {
    if users[0] != u {
      var k :| 0 <= k < |users| && users[k] == u;
      assert u in users[1..] by { assert users[1..][k - 1] == u; }
      UniqueUsernamesTail(users);
      FindByUsernameIsUnique(users[1..], username, u);
    }
  }

  /** With unique usernames, findByUsernameAndPassword has at most one possible result too. */
  lemma {:induction false} FindByUsernameAndPasswordIsUnique(users: seq<User>, username: string, password: string, u: User)
    requires UniqueUsernames(users)
    requires u in users && u.username == Some(username) && u.password == Some(password)
    ensures FindByUsernameAndPassword(users, username, password) == Some(u)
  {
    if users[0] != u {
      var k :| 0 <= k < |users| && users[k] == u;
      assert u in users[1..] by { assert users[1..][k - 1] == u; }
      UniqueUsernamesTail(users);
      FindByUsernameAndPasswordIsUnique(users[1..], username, password, u);
    }
  }

  /**
   * The credential lookup succeeds exactly when the username lookup finds a
   * user whose stored password is the supplied one, and then both return the
   * same user.
   */
  lemma CredentialLookupAgreesWithUsernameLookup(users: seq<User>, username: string, password: string)
    requires UniqueUsernames(users)
    ensures FindByUsernameAndPassword(users, username, password).Some?
      <==> FindByUsername(users, username).Some? && FindByUsername(users, username).value.password == Some(password)
    ensures FindByUsernameAndPassword(users, username, password).Some?
      ==> FindByUsername(users, username) == FindByUsernameAndPassword(users, username, password)
  {
    var byName := FindByUsername(users, username);
    var byBoth := FindByUsernameAndPassword(users, username, password);
    if byBoth.Some? {
      FindByUsernameIsUnique(users, username, byBoth.value);
    }
  }

  // ---- BookmarksRepository ----

  /** The users a bookmark table refers to through its user_id column. */
  function Owners(bookmarks: seq<Bookmark>): set<User>
    reads bookmarks
  {
    set b | b in bookmarks && b.user != null :: b.user
  }

  /** The join condition of the derived queries: b.user.username = username. */
  predicate OwnedBy(b: Bookmark, username: string)
    reads b, b.user
  {
    b.user != null && b.user.username == Some(username)
  }

  /** The primary key of the bookmarks table: present and unique. */
  ghost predicate KeyedById(bookmarks: seq<Bookmark>)
    reads bookmarks`id
  {
    && (forall i :: 0 <= i < |bookmarks| ==> bookmarks[i].id.Some?)
    && (forall i, j :: 0 <= i < |bookmarks| && 0 <= j < |bookmarks| && bookmarks[i].id == bookmarks[j].id ==> i == j)
  }

  /** No row carries this id: what the identity column guarantees of the next value it generates. */
  predicate IdUnused(bookmarks: seq<Bookmark>, id: Int32)
    reads bookmarks`id
  {
    forall b :: b in bookmarks ==> b.id != Some(id)
  }

  /** BookmarksRepository.findByUserUsername. */
  function FindByUserUsername(bookmarks: seq<Bookmark>, username: string): (r: set<Bookmark>)
    reads bookmarks, Owners(bookmarks)
    ensures forall b :: b in r ==> b in OwnedRows(bookmarks, username)
    ensures forall b :: b in OwnedRows(bookmarks, username) ==> b in r
  {
    set b | b in bookmarks && OwnedBy(b, username)
  }

  /** BookmarksRepository.findByIdAndUserUsername: the id and the owner's username must both match. */
  function FindByIdAndUserUsername(bookmarks: seq<Bookmark>, id: Int32, username: string): (r: Option<Bookmark>)
    reads bookmarks, Owners(bookmarks)
    ensures r.Some? ==> r.value in bookmarks && r.value.id == Some(id) && OwnedBy(r.value, username)
    ensures r.None? <==> forall b :: b in bookmarks ==> !(b.id == Some(id) && OwnedBy(b, username))
  {
    if |bookmarks| == 0 then None
    else if bookmarks[0].id == Some(id) && OwnedBy(bookmarks[0], username) then Some(bookmarks[0])
    else FindByIdAndUserUsername(bookmarks[1..], id, username)
  }

  /** The rows a given user owns, in table order. */
  function OwnedRows(bookmarks: seq<Bookmark>, username: string): (r: seq<Bookmark>)
    reads bookmarks, Owners(bookmarks)
    ensures forall b :: b in r ==> b in bookmarks && OwnedBy(b, username)
    ensures forall b :: b in bookmarks && OwnedBy(b, username) ==> b in r
  {
    if |bookmarks| == 0 then []
    else if OwnedBy(bookmarks[0], username) then [bookmarks[0]] + OwnedRows(bookmarks[1..], username)
    else OwnedRows(bookmarks[1..], username)
  }

  /** The table with every row carrying the given id removed: the DELETE of a row by key. */
  function WithoutId(bookmarks: seq<Bookmark>, id: Option<Int32>): (r: seq<Bookmark>)
    reads bookmarks
    ensures forall b :: b in r ==> b in bookmarks && b.id != id
    ensures forall b :: b in bookmarks && b.id != id ==> b in r
    ensures |r| <= |bookmarks|
  {
    if |bookmarks| == 0 then []
    else if bookmarks[0].id == id then WithoutId(bookmarks[1..], id)
    else [bookmarks[0]] + WithoutId(bookmarks[1..], id)
  }

  /**
   * Another user's rows have no influence on an owner-scoped lookup: scanning
   * the whole table gives what scanning only the caller's own rows gives.  So
   * a bookmark that belongs to someone else and one that does not exist are
   * answered alike.
   */
  lemma {:induction false} LookupSeesOnlyOwnRows(bookmarks: seq<Bookmark>, id: Int32, username: string)
    ensures FindByIdAndUserUsername(bookmarks, id, username)
         == FindByIdAndUserUsername(OwnedRows(bookmarks, username), id, username)
  {
    if |bookmarks| > 0 {
      LookupSeesOnlyOwnRows(bookmarks[1..], id, username);
      if OwnedBy(bookmarks[0], username) {
        var rest := OwnedRows(bookmarks[1..], username);
        assert OwnedRows(bookmarks, username) == [bookmarks[0]] + rest;
        assert ([bookmarks[0]] + rest)[1..] == rest;
      }
    }
  }

  /**
   * Listing and fetching agree: a bookmark is in the owner's list exactly when
   * the owner-scoped lookup by its id returns it.
   */
  lemma {:induction false} ListAndLookupAgree(bookmarks: seq<Bookmark>, username: string, b: Bookmark)
    requires KeyedById(bookmarks)
    requires b.id.Some?
    ensures b in FindByUserUsername(bookmarks, username)
        <==> FindByIdAndUserUsername(bookmarks, b.id.value, username) == Some(b)
  {
    if b in bookmarks && OwnedBy(b, username) {
      var found := FindByIdAndUserUsername(bookmarks, b.id.value, username);
      var k :| 0 <= k < |bookmarks| && bookmarks[k] == b;
      assert found.Some?;
      var j :| 0 <= j < |bookmarks| && bookmarks[j] == found.value;
      assert bookmarks[j].id == bookmarks[k].id;
    }
  }

  /** A primary-key table loses exactly the one row with a given key when that row is deleted. */
  lemma {:induction false} WithoutIdRemovesOne(bookmarks: seq<Bookmark>, k: nat)
    requires KeyedById(bookmarks) && k < |bookmarks|
    ensures |WithoutId(bookmarks, bookmarks[k].id)| == |bookmarks| - 1
    ensures forall b :: b in WithoutId(bookmarks, bookmarks[k].id) <==> b in bookmarks && b != bookmarks[k]
  {
    var id := bookmarks[k].id;
    var tail := bookmarks[1..];
    assert KeyedById(tail) by {
      forall i, j | 0 <= i < |tail| && 0 <= j < |tail| && tail[i].id == tail[j].id
        ensures i == j
      {
        assert bookmarks[i + 1].id == bookmarks[j + 1].id;
      }
    }
    if k == 0 {
      forall b | b in tail
        ensures b.id != id
      {
        var j :| 0 <= j < |tail| && tail[j] == b;
        assert bookmarks[j + 1].id != bookmarks[0].id;
      }
      WithoutIdOfAbsent(tail, id);
    } else {
      assert bookmarks[0].id != id;
      assert tail[k - 1] == bookmarks[k];
      WithoutIdRemovesOne(tail, k - 1);
      assert WithoutId(bookmarks, id) == [bookmarks[0]] + WithoutId(tail, id);
      assert bookmarks[0] != bookmarks[k] by {
        assert bookmarks[0].id != bookmarks[k].id;
      }
    }
  }

  /** Deleting a key no row carries leaves the table as it was. */
  lemma {:induction false} WithoutIdOfAbsent(bookmarks: seq<Bookmark>, id: Option<Int32>)
    requires forall b :: b in bookmarks ==> b.id != id
    ensures WithoutId(bookmarks, id) == bookmarks
  {
    if |bookmarks| > 0 {
      assert bookmarks[0] in bookmarks;
      WithoutIdOfAbsent(bookmarks[1..], id);
      assert [bookmarks[0]] + bookmarks[1..] == bookmarks;
    }
  }

  /** A row whose id no other row carries can be put in front of a keyed table. */
  lemma KeyedCons(b: Bookmark, rest: seq<Bookmark>)
    requires KeyedById(rest) && b.id.Some?
    requires forall x :: x in rest ==> x.id != b.id
    ensures KeyedById([b] + rest)
  {
    var t := [b] + rest;
    forall i, j | 0 <= i < |t| && 0 <= j < |t| && t[i].id == t[j].id
      ensures i == j
    {
      if i != 0 && j != 0 {
        assert rest[i - 1].id == rest[j - 1].id;
      }
    }
  }

  /** Removing every row with a key keeps the table keyed. */
  lemma {:induction false} WithoutIdKeepsKey(bookmarks: seq<Bookmark>, id: Option<Int32>)
    requires KeyedById(bookmarks)
    ensures KeyedById(WithoutId(bookmarks, id))
  {
    if |bookmarks| > 0 {
      var tail := bookmarks[1..];
      assert KeyedById(tail) by {
        forall a, c | 0 <= a < |tail| && 0 <= c < |tail| && tail[a].id == tail[c].id
          ensures a == c
        {
          assert bookmarks[a + 1].id == bookmarks[c + 1].id;
        }
      }
      WithoutIdKeepsKey(tail, id);
      if bookmarks[0].id != id {
        forall x | x in WithoutId(tail, id)
          ensures x.id != bookmarks[0].id
        {
          var m :| 0 <= m < |tail| && tail[m] == x;
          assert bookmarks[m + 1].id != bookmarks[0].id;
        }
        KeyedCons(bookmarks[0], WithoutId(tail, id));
      }
    }
  }
}
