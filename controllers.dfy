/**
 * The two REST controllers.  BookmarksController holds the owner-scoped
 * bookmark operations under /{username}/bookmarks, run over the users and
 * bookmarks tables; HelloController the greetings under /hello.
 *
 * The tables hold entity objects.  A lookup hands out the stored object
 * itself, so editBookmark's in-place update is seen by the table with no
 * write-back.  The controller compares no authenticated principal with the
 * path's username: the only check is that the username exists (for list, get
 * and add) or owns the bookmark (for get, edit and delete).
 */
module Controllers {
  import opened Wrappers
  import opened Entities
  import opened Repositories

  /** UserNotFoundException and BookmarkNotFoundException, with their messages. */
  datatype ControllerError = UserNotFound(username: string) | BookmarkNotFound(message: string)

  function DigitChar(d: nat): char
    requires d < 10
  {
    ('0' as int + d) as char
  }

  function DigitValue(c: char): nat {
    if '0' <= c <= '9' then (c as int - '0' as int) as nat else 0
  }

  /** The decimal reading of a string of digits, most significant first. */
  function DecimalValue(s: string): nat {
    if |s| == 0 then 0 else DecimalValue(s[..|s| - 1]) * 10 + DigitValue(s[|s| - 1])
  }

  /** The value of a numeral as IntegerToString writes it: an optional minus sign, then digits. */
  function IntegerValue(s: string): int {
    if |s| > 0 && s[0] == '-' then -(DecimalValue(s[1..]) as int) else DecimalValue(s)
  }

  /** The decimal digits of a natural number, with no leading zeros. */
  function NaturalToString(n: nat): (r: string)
    ensures |r| >= 1 && forall i :: 0 <= i < |r| ==> '0' <= r[i] <= '9'
    ensures DecimalValue(r) == n
    ensures r[0] == '0' ==> n == 0
    ensures |r| == 1 || r[0] != '0'
  {
    if n < 10 then [DigitChar(n)]
    else
      var prefix := NaturalToString(n / 10);
      assert (prefix + [DigitChar(n % 10)])[..|prefix|] == prefix;
      prefix + [DigitChar(n % 10)]
  }

  /** A canonical decimal numeral: at least one digit, only digits, and no leading zero. */
  predicate CanonicalDigits(s: string) {
    && |s| >= 1
    && (forall i :: 0 <= i < |s| ==> '0' <= s[i] <= '9')
    && (|s| == 1 || s[0] != '0')
  }

  /**
   * Integer.toString, as the not-found messages render the id: a minus sign
   * exactly for a negative number, then canonical digits, and reading it back
   * gives the number.
   */
  function IntegerToString(n: int): (r: string)
    ensures |r| >= 1 && (r[0] == '-' <==> n < 0)
    ensures CanonicalDigits(if n < 0 then r[1..] else r)
    ensures IntegerValue(r) == n
  {
    if n < 0 then
      var digits := NaturalToString(-n);
      assert ("-" + digits)[1..] == digits;
      "-" + digits
    else NaturalToString(n)
  }

  /** The message getBookmark gives: the id alone. */
  function GetNotFound(bookmarkId: Int32): ControllerError {
    BookmarkNotFound(IntegerToString(bookmarkId as int))
  }

  function EditNotFound(bookmarkId: Int32): ControllerError {
    BookmarkNotFound("Bookmark not found id = " + IntegerToString(bookmarkId as int))
  }

  function DeleteNotFound(bookmarkId: Int32): ControllerError {
    BookmarkNotFound("Bookmark not found. id = " + IntegerToString(bookmarkId as int))
  }

  /** Each not-found message names the id it was raised for: distinct ids give distinct messages. */
  lemma NotFoundMessagesIdentifyTheId(a: Int32, b: Int32)
    ensures GetNotFound(a) == GetNotFound(b) ==> a == b
    ensures EditNotFound(a) == EditNotFound(b) ==> a == b
    ensures DeleteNotFound(a) == DeleteNotFound(b) ==> a == b
  {
    var edit := "Bookmark not found id = ";
    var delete := "Bookmark not found. id = ";
    assert (edit + IntegerToString(a as int))[|edit|..] == IntegerToString(a as int);
    assert (edit + IntegerToString(b as int))[|edit|..] == IntegerToString(b as int);
    assert (delete + IntegerToString(a as int))[|delete|..] == IntegerToString(a as int);
    assert (delete + IntegerToString(b as int))[|delete|..] == IntegerToString(b as int);
  }

  // ---- BeanUtils.populate on a bookmark ----

  /** The keys of a change-set that BeanUtils turns into a setter call on a Bookmark here. */
  const SETTABLE_PROPERTIES: set<string> := {"id", "url", "description"}

  /**
   * The fields a bookmark has after BeanUtils.populate with a change-set:
   * each settable key sets its field, Integer conversion for "id" done by the
   * given converter, and every other key is ignored.  Note that "id" is let
   * through.
   */
  function Patched(fields: BookmarkFields, changes: map<string, string>, toInteger: string -> Int32): BookmarkFields
  {
    BookmarkFields(
      if "id" in changes then Some(toInteger(changes["id"])) else fields.id,
      if "url" in changes then Some(changes["url"]) else fields.url,
      if "description" in changes then Some(changes["description"]) else fields.description)
  }

  /** BeanUtils.populate(bookmark, changes): one setter call per settable key; the owner is never written. */
  method Populate(bookmark: Bookmark, changes: map<string, string>, toInteger: string -> Int32)
    modifies bookmark`id, bookmark`url, bookmark`description
    ensures bookmark.Fields() == Patched(old(bookmark.Fields()), changes, toInteger)
  {
    if "id" in changes {
      bookmark.SetId(Some(toInteger(changes["id"])));
    }
    if "url" in changes {
      bookmark.SetUrl(Some(changes["url"]));
    }
    if "description" in changes {
      bookmark.SetDescription(Some(changes["description"]));
    }
  }

  /** A field the change-set does not name keeps its value. */
  lemma PatchedLeavesUnnamedFields(fields: BookmarkFields, changes: map<string, string>, toInteger: string -> Int32)
    ensures "id" !in changes ==> Patched(fields, changes, toInteger).id == fields.id
    ensures "url" !in changes ==> Patched(fields, changes, toInteger).url == fields.url
    ensures "description" !in changes ==> Patched(fields, changes, toInteger).description == fields.description
  {
  }

  /** The change-set {"url": x} sets the url to x and keeps id and description. */
  lemma PatchUrlOnly(fields: BookmarkFields, x: string, toInteger: string -> Int32)
    ensures Patched(fields, map["url" := x], toInteger) == fields.(url := Some(x))
  {
  }

  /** Keys that name no settable property make no difference. */
  lemma PatchedIgnoresOtherKeys(fields: BookmarkFields, changes: map<string, string>, toInteger: string -> Int32)
    ensures Patched(fields, changes, toInteger)
         == Patched(fields, map k | k in changes && k in SETTABLE_PROPERTIES :: changes[k], toInteger)
  {
  }

  /** Populating twice with one change-set is populating once. */
  lemma PatchedIdempotent(fields: BookmarkFields, changes: map<string, string>, toInteger: string -> Int32)
    ensures Patched(Patched(fields, changes, toInteger), changes, toInteger) == Patched(fields, changes, toInteger)
  {
  }

  /** As written, an "id" key overwrites the bookmark's id with the converted value. */
  lemma PatchedLetsIdThrough(fields: BookmarkFields, changes: map<string, string>, toInteger: string -> Int32)
    requires "id" in changes
    ensures Patched(fields, changes, toInteger).id == Some(toInteger(changes["id"]))
  {
  }

  class BookmarksController {
    /** The users table, as UsersRepository sees it. */
    var users: seq<User>
    /** The bookmarks table, as BookmarksRepository sees it. */
    var bookmarks: seq<Bookmark>

    /** The constructor into which Spring injects both repositories. */
    constructor (users: seq<User>, bookmarks: seq<Bookmark>)
      ensures this.users == users && this.bookmarks == bookmarks
      ensures (&& UniqueUsernames(users)
               && KeyedById(bookmarks)
               && (forall b :: b in bookmarks ==> b.user != null && b.user in users))
              ==> Valid()
    {
      this.users, this.bookmarks := users, bookmarks;
    }

    /**
     * The database constraints: usernames unique, every bookmark keyed by a
     * unique id and owned by a stored user (the user_id foreign key).
     */
    ghost predicate Valid()
      reads this, users`username, bookmarks`id, bookmarks`user
    {
      && UniqueUsernames(users)
      && KeyedById(bookmarks)
      && (forall b :: b in bookmarks ==> b.user != null && b.user in users)
    }

    /** validateUser: fails with UserNotFound unless some user has this username. */
    function ValidateUser(username: string): (r: Outcome<ControllerError>)
      reads this, users
      ensures r.Pass? <==> exists u :: u in users && u.username == Some(username)
      ensures r.Fail? ==> r.error == UserNotFound(username)
    {
      if FindByUsername(users, username).Some? then Pass else Fail(UserNotFound(username))
    }

    /**
     * getAllBookmarks: for a known user, exactly the bookmarks whose owner has
     * that username; for an unknown one, UserNotFound.
     */
    function GetAllBookmarks(username: string): (r: Result<set<Bookmark>, ControllerError>)
      requires Valid()
      reads this, users, bookmarks
      ensures r.Failure? <==> forall u :: u in users ==> u.username != Some(username)
      ensures r.Failure? ==> r.error == UserNotFound(username)
      ensures r.Success? ==> forall b :: b in r.value ==> b in bookmarks && OwnedBy(b, username)
      ensures r.Success? ==> forall b :: b in bookmarks && OwnedBy(b, username) ==> b in r.value
    {
      match ValidateUser(username)
      case Fail(e) => Failure(e)
      case Pass => Success(FindByUserUsername(bookmarks, username))
    }

    /**
     * getBookmark: a bookmark is returned only when both its id and its
     * owner's username match.  A known user asking for an id they do not own
     * gets BookmarkNotFound with the id as message, whether that id exists
     * for someone else or not at all; an unknown user gets UserNotFound.
     */
    function GetBookmark(username: string, bookmarkId: Int32): (r: Result<Bookmark, ControllerError>)
      requires Valid()
      reads this, users, bookmarks
      ensures r.Success? ==> r.value in bookmarks && r.value.id == Some(bookmarkId) && OwnedBy(r.value, username)
      ensures r.Failure? <==> forall b :: b in bookmarks ==> !(b.id == Some(bookmarkId) && OwnedBy(b, username))
      ensures r.Failure? ==> r.error == if forall u :: u in users ==> u.username != Some(username)
                                        then UserNotFound(username) else GetNotFound(bookmarkId)
    {
      match ValidateUser(username)
      case Fail(e) => Failure(e)
      case Pass =>
        match FindByIdAndUserUsername(bookmarks, bookmarkId, username)
        case Some(b) => Success(b)
        case None => Failure(GetNotFound(bookmarkId))
    }

    /**
     * addBookmark: for a known user, the user's set gets the bookmark, the
     * bookmark's owner becomes that user, and save stores it; the same object
     * is returned.  For an unknown user it fails with UserNotFound and neither
     * the tables nor the bookmark change.  `newId` is the value the identity
     * column would generate.
     */
    method AddBookmark(username: string, bookmark: Bookmark, newId: Int32) returns (r: Result<Bookmark, ControllerError>)
      requires Valid()
      requires bookmark !in bookmarks
      requires bookmark.id.None? ==> IdUnused(bookmarks, newId)
      modifies this`bookmarks, bookmark`id, bookmark`user, users`bookmarks
      ensures Valid()
      ensures match old(FindByUsername(users, username))
        case None =>
          && r == Failure(UserNotFound(username))
          && bookmarks == old(bookmarks)
          && bookmark.Fields() == old(bookmark.Fields()) && bookmark.user == old(bookmark.user)
          && (forall u :: u in users ==> u.bookmarks == old(u.bookmarks))
        case Some(owner) =>
          && r == Success(bookmark)
          && bookmark.user == owner
          && owner.bookmarks == old(Inserted(owner.bookmarks, bookmark))
          && (forall u :: u in users && u != owner ==> u.bookmarks == old(u.bookmarks))
          && bookmark.url == old(bookmark.url) && bookmark.description == old(bookmark.description)
          && bookmark.id == (if old(bookmark.id).Some? then old(bookmark.id) else Some(newId))
          && bookmarks == [bookmark] + WithoutId(old(bookmarks), bookmark.id)
          && GetBookmark(username, bookmark.id.value) == Success(bookmark)
          && (old(RequiredText(bookmark.url, MAX_URL_LENGTH) && OptionalText(bookmark.description, MAX_DESCRIPTION_LENGTH))
              ==> bookmark.IsValid())
    {
      var found := FindByUsername(users, username);
      if found.Some? {
        AttachAndSave(found.value, bookmark, newId);
        r := Success(bookmark);
      } else {
        r := Failure(UserNotFound(username));
      }
    }

    /** The body of addBookmark for a known user: user.addBookmark, bookmark.setUser, then save. */
    method AttachAndSave(user: User, bookmark: Bookmark, newId: Int32)
      requires Valid()
      requires user in users
      requires bookmark !in bookmarks
      requires bookmark.id.None? ==> IdUnused(bookmarks, newId)
      modifies this`bookmarks, bookmark`id, bookmark`user, user`bookmarks
      ensures Valid()
      ensures bookmark.user == user
      ensures user.bookmarks == old(Inserted(user.bookmarks, bookmark))
      ensures bookmark.id == if old(bookmark.id).Some? then old(bookmark.id) else Some(newId)
      ensures bookmarks == [bookmark] + WithoutId(old(bookmarks), bookmark.id)
    {
      var _ := user.AddBookmark(bookmark);
      bookmark.SetUser(user);
      Save(bookmark, newId);
    }

    /**
     * CrudRepository.save, by its meaning: the row keyed by the entity's id
     * becomes this entity (an existing row with that id is replaced), and a
     * null id is first set to the identity column's next value.
     */
    method Save(bookmark: Bookmark, newId: Int32)
      requires Valid()
      requires bookmark !in bookmarks
      requires bookmark.user != null && bookmark.user in users
      requires bookmark.id.None? ==> IdUnused(bookmarks, newId)
      modifies this`bookmarks, bookmark`id
      ensures Valid()
      ensures bookmark.id == if old(bookmark.id).Some? then old(bookmark.id) else Some(newId)
      ensures bookmarks == [bookmark] + WithoutId(old(bookmarks), bookmark.id)
    {
      if bookmark.id.None? {
        bookmark.SetId(Some(newId));
      }
      var rest := WithoutId(bookmarks, bookmark.id);
      WithoutIdKeepsKey(bookmarks, bookmark.id);
      KeyedCons(bookmark, rest);
      bookmarks := [bookmark] + rest;
    }

    /**
     * editBookmark: only the bookmark found by (id, username) is touched, in
     * place, and nothing is saved.  When none is found it fails with
     * BookmarkNotFound and no bookmark changes.  `toInteger` is BeanUtils'
     * conversion of a string to Integer.  An "id" key that moves the bookmark
     * onto an id another row carries breaks the table's key, so the
     * constraints are promised only when that does not happen.
     */
    method EditBookmark(username: string, bookmarkId: Int32, changes: map<string, string>, toInteger: string -> Int32)
      returns (r: Result<Bookmark, ControllerError>)
      requires Valid()
      modifies bookmarks
      ensures forall b :: b in bookmarks ==> b.user == old(b.user)
      ensures match old(FindByIdAndUserUsername(bookmarks, bookmarkId, username))
        case None =>
          && r == Failure(EditNotFound(bookmarkId))
          && (forall b :: b in bookmarks ==> b.Fields() == old(b.Fields()))
          && Valid()
        case Some(found) =>
          && r == Success(found)
          && found.Fields() == Patched(old(found.Fields()), changes, toInteger)
          && (forall b :: b in bookmarks && b != found ==> b.Fields() == old(b.Fields()))
      ensures (|| "id" !in changes
               || toInteger(changes["id"]) == bookmarkId
               || old(IdUnused(bookmarks, toInteger(changes["id"]))))
              ==> Valid()
    {
      var found := FindByIdAndUserUsername(bookmarks, bookmarkId, username);
      if found.Some? {
        var bookmark := found.value;
        Populate(bookmark, changes, toInteger);
        r := Success(bookmark);
      } else {
        r := Failure(EditNotFound(bookmarkId));
      }
    }

    /**
     * deleteBookmark: on success exactly the found bookmark leaves the table
     * and is returned, and asking for it again fails.  When none is found it
     * fails with BookmarkNotFound and the table is as it was.
     */
    method DeleteBookmark(username: string, bookmarkId: Int32) returns (r: Result<Bookmark, ControllerError>)
      requires Valid()
      modifies this`bookmarks
      ensures Valid()
      ensures match old(FindByIdAndUserUsername(bookmarks, bookmarkId, username))
        case None =>
          && r == Failure(DeleteNotFound(bookmarkId))
          && bookmarks == old(bookmarks)
        case Some(found) =>
          && r == Success(found)
          && bookmarks == WithoutId(old(bookmarks), found.id)
          && |bookmarks| == |old(bookmarks)| - 1
          && (forall b :: b in bookmarks <==> b in old(bookmarks) && b != found)
          && GetBookmark(username, bookmarkId) == Failure(GetNotFound(bookmarkId))
    {
      var found := FindByIdAndUserUsername(bookmarks, bookmarkId, username);
      if found.Some? {
        var k :| 0 <= k < |bookmarks| && bookmarks[k] == found.value;
        WithoutIdRemovesOne(bookmarks, k);
        Delete(found.value);
        r := Success(found.value);
      } else {
        r := Failure(DeleteNotFound(bookmarkId));
      }
    }

    /** CrudRepository.delete, by its meaning: the row with the entity's id is removed. */
    method Delete(bookmark: Bookmark)
      requires Valid()
      modifies this`bookmarks
      ensures Valid()
      ensures bookmarks == WithoutId(old(bookmarks), bookmark.id)
    {
      WithoutIdKeepsKey(bookmarks, bookmark.id);
      bookmarks := WithoutId(bookmarks, bookmark.id);
    }
  }

  /**
   * Whatever other users store, a user's answers from getBookmark and
   * getAllBookmarks are the same: two stores with the same users and the same
   * set of rows owned by `username` answer `username` identically.  In
   * particular, a bookmark that exists for someone else cannot be told from
   * one that does not exist.
   */
  lemma OwnerScopedAnswersIgnoreOtherUsersRows(c: BookmarksController, d: BookmarksController, username: string, bookmarkId: Int32)
    requires c.Valid() && d.Valid()
    requires c.users == d.users
    requires FindByUserUsername(c.bookmarks, username) == FindByUserUsername(d.bookmarks, username)
    ensures c.GetBookmark(username, bookmarkId) == d.GetBookmark(username, bookmarkId)
    ensures c.GetAllBookmarks(username) == d.GetAllBookmarks(username)
  {
    OwnedLookupDependsOnlyOnOwnedSet(c.bookmarks, d.bookmarks, username, bookmarkId);
    OwnedLookupDependsOnlyOnOwnedSet(d.bookmarks, c.bookmarks, username, bookmarkId);
  }

  /** In keyed tables, a hit of the owner-scoped lookup in one is a hit in any other with the same owned rows. */
  lemma OwnedLookupDependsOnlyOnOwnedSet(t: seq<Bookmark>, u: seq<Bookmark>, username: string, bookmarkId: Int32)
    requires KeyedById(t) && KeyedById(u)
    requires FindByUserUsername(t, username) == FindByUserUsername(u, username)
    ensures FindByIdAndUserUsername(t, bookmarkId, username).Some?
        ==> FindByIdAndUserUsername(u, bookmarkId, username) == FindByIdAndUserUsername(t, bookmarkId, username)
  {
    var found := FindByIdAndUserUsername(t, bookmarkId, username);
    if found.Some? {
      var x := found.value;
      assert x in FindByUserUsername(u, username);
      var other := FindByIdAndUserUsername(u, bookmarkId, username);
      var i :| 0 <= i < |u| && u[i] == x;
      var j :| 0 <= j < |u| && u[j] == other.value;
      assert u[i].id == u[j].id;
    }
  }

  /**
   * A bookmark stored for another user reads, to a known user, exactly like a
   * missing one: BookmarkNotFound carrying its id.
   */
  lemma AnotherUsersBookmarkLooksMissing(c: BookmarksController, username: string, b: Bookmark)
    requires c.Valid()
    requires b in c.bookmarks && !OwnedBy(b, username)
    requires exists u :: u in c.users && u.username == Some(username)
    ensures b.id.Some?
    ensures c.GetBookmark(username, b.id.value) == Failure(GetNotFound(b.id.value))
  {
    var k :| 0 <= k < |c.bookmarks| && c.bookmarks[k] == b;
    forall x | x in c.bookmarks && x.id == b.id
      ensures x == b
    {
      var j :| 0 <= j < |c.bookmarks| && c.bookmarks[j] == x;
      assert c.bookmarks[j].id == c.bookmarks[k].id;
    }
  }

  // ---- HelloController: the greeting endpoints under /hello ----

  const GREETING: string := "Hello Spring Boot World"
  const SALUTATION: string := "Hello "

  /** Every answer of this controller opens with "Hello ". */
  predicate IsGreeting(s: string) {
    |s| >= |SALUTATION| && s[..|SALUTATION|] == SALUTATION
  }

  /** getGreeting: the fixed greeting. */
  function GetGreeting(): (r: string)
    ensures r == GREETING
    ensures IsGreeting(r)
  {
    GREETING
  }

  /** getPathParamGreeting: "Hello " followed by the name, whatever it is (the empty name included). */
  function GetPathParamGreeting(name: string): (r: string)
    ensures IsGreeting(r)
    ensures r[|SALUTATION|..] == name
  {
    SALUTATION + name
  }

  /** getQueryParamGreeting: the optional request parameter "name"; absent gives the fixed greeting. */
  function GetQueryParamGreeting(name: Option<string>): (r: string)
    ensures name.Some? ==> r == GetPathParamGreeting(name.value)
    ensures name.None? ==> r == GetGreeting()
    ensures IsGreeting(r)
  {
    if name.Some? then SALUTATION + name.value else GREETING
  }

  /** The path and the query forms agree, and a greeting determines the name it was built from. */
  lemma GreetingsDetermineName(a: string, b: string)
    ensures GetQueryParamGreeting(Some(a)) == GetPathParamGreeting(a)
    ensures GetPathParamGreeting(a) == GetPathParamGreeting(b) ==> a == b
  {
    assert GetPathParamGreeting(a)[|SALUTATION|..] == a;
  }
}
