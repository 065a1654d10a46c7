/**
 * The two JPA entities of the bookmark service, Bookmark and User.
 *
 * Both are mutable objects: every setter overwrites one field, and a User
 * keeps a HashSet of its bookmarks.  Identity is by `id` alone, and a missing
 * (null) id counts as equal to another missing id.  The column annotations
 * (@NotNull, @Size) are stated as validity predicates; nothing in the entities
 * enforces them.
 */
module Entities {
  import opened Wrappers

  /** java.lang.Integer, the declared type of both entities' ids. */
  newtype Int32 = x: int | -0x8000_0000 <= x < 0x8000_0000

  const MAX_URL_LENGTH: nat := 255
  const MAX_DESCRIPTION_LENGTH: nat := 2048
  const MAX_USERNAME_LENGTH: nat := 255
  const MAX_PASSWORD_LENGTH: nat := 255

  /**
   * String.length(): the number of UTF-16 code units.  A character outside
   * the Basic Multilingual Plane is a surrogate pair, so it counts twice.
   */
  function Utf16Length(s: string): (r: nat)
    ensures |s| <= r <= 2 * |s|
  {
    if |s| == 0 then 0
    else Utf16Length(s[..|s| - 1]) + (if s[|s| - 1] as int >= 0x1_0000 then 2 else 1)
  }

  /** On text inside the Basic Multilingual Plane, String.length() is the number of characters. */
  lemma {:induction false} Utf16LengthOfBmp(s: string)
    requires forall i :: 0 <= i < |s| ==> s[i] as int < 0x1_0000
    ensures Utf16Length(s) == |s|
  {
    if |s| > 0 {
      Utf16LengthOfBmp(s[..|s| - 1]);
    }
  }

  /** A column that is @NotNull with @Size(min = 1, max = max), measured by String.length(). */
  predicate RequiredText(s: Option<string>, max: nat) {
    s.Some? && 1 <= Utf16Length(s.value) <= max
  }

  /** A nullable column with @Size(max = max), measured by String.length(). */
  predicate OptionalText(s: Option<string>, max: nat) {
    s.None? || Utf16Length(s.value) <= max
  }

  /** Integer.hashCode: the value itself. */
  function IntegerHash(x: Int32): Int32 { x }

  /** The hashCode both entities compute: 0 plus the id's hash, or 0 when the id is null. */
  function IdHash(id: Option<Int32>): Int32 {
    0 + (if id.Some? then IntegerHash(id.value) else 0)
  }

  /**
   * The equals both entities compute on ids: unequal when exactly one id is
   * null or when both are present and differ.
   */
  function IdsEqual(a: Option<Int32>, b: Option<Int32>): (r: bool)
    ensures r <==> a == b
  {
    !((a.None? && b.Some?) || (a.Some? && !(b.Some? && a.value == b.value)))
  }

  /** The scalar fields of a bookmark, as a value: what BeanUtils may overwrite. */
  datatype BookmarkFields = BookmarkFields(id: Option<Int32>, url: Option<string>, description: Option<string>)

  class Bookmark {
    var id: Option<Int32>
    var url: Option<string>
    var description: Option<string>
    var user: User?

    /** The no-argument constructor JPA and Jackson use. */
    constructor ()
      ensures id.None? && url.None? && description.None? && user == null
    {
      id, url, description, user := None, None, None, null;
    }

    /** Bookmark(url, user): no argument is checked. */
    constructor WithOwner(url: Option<string>, user: User?)
      ensures this.url == url && this.user == user
      ensures id.None? && description.None?
    {
      this.url, this.user := url, user;
      id, description := None, None;
    }

    function Fields(): BookmarkFields
      reads this
    {
      BookmarkFields(id, url, description)
    }

    /** Each setter may write its own field only, as its modifies frame says. */
    method SetId(id: Option<Int32>)
      modifies this`id
      ensures this.id == id
    {
      this.id := id;
    }

    method SetUrl(url: Option<string>)
      modifies this`url
      ensures this.url == url
    {
      this.url := url;
    }

    method SetDescription(description: Option<string>)
      modifies this`description
      ensures this.description == description
    {
      this.description := description;
    }

    method SetUser(user: User?)
      modifies this`user
      ensures this.user == user
    {
      this.user := user;
    }

    /** Bookmark.hashCode: 0 for a null id, otherwise Integer.hashCode of the id, which is its value. */
    function HashCode(): (r: Int32)
      reads this
      ensures id.None? ==> r == 0
      ensures id.Some? ==> r == id.value
    {
      IdHash(id)
    }

    /** Bookmark.equals; a null argument is not an instance of Bookmark. */
    function Equals(other: Bookmark?): (r: bool)
      reads this, other
      ensures r <==> other != null && id == other.id
    {
      other != null && IdsEqual(id, other.id)
    }

    /**
     * The @NotNull and @Size constraints of the bookmarks table.  A valid url
     * has at most 255 characters, and exactly 255 code units may hold fewer.
     */
    function IsValid(): (r: bool)
      reads this
      ensures r ==> url.Some? && 1 <= |url.value| <= MAX_URL_LENGTH && user != null
      ensures r ==> description.None? || |description.value| <= MAX_DESCRIPTION_LENGTH
    {
      RequiredText(url, MAX_URL_LENGTH)
      && OptionalText(description, MAX_DESCRIPTION_LENGTH)
      && user != null
    }
  }

  class User {
    var id: Option<Int32>
    var username: Option<string>
    var password: Option<string>
    var bookmarks: set<Bookmark>

    /** The no-argument constructor JPA uses; the bookmark set starts empty. */
    constructor ()
      ensures id.None? && username.None? && password.None? && bookmarks == {}
    {
      id, username, password, bookmarks := None, None, None, {};
    }

    /** User(username, password): no argument is checked. */
    constructor WithCredentials(username: Option<string>, password: Option<string>)
      ensures this.username == username && this.password == password
      ensures id.None? && bookmarks == {}
    {
      this.username, this.password := username, password;
      id, bookmarks := None, {};
    }

    method SetId(id: Option<Int32>)
      modifies this`id
      ensures this.id == id
    {
      this.id := id;
    }

    method SetUsername(username: Option<string>)
      modifies this`username
      ensures this.username == username
    {
      this.username := username;
    }

    method SetPassword(password: Option<string>)
      modifies this`password
      ensures this.password == password
    {
      this.password := password;
    }

    /**
     * User.addBookmark: HashSet.add, then the argument is returned.  Only the
     * set changes; the bookmark itself (its owner included) is untouched.
     */
    method AddBookmark(bookmark: Bookmark) returns (r: Bookmark)
      modifies this`bookmarks
      ensures r == bookmark
      ensures bookmarks == Inserted(old(bookmarks), bookmark)
      ensures ContainsEqual(bookmarks, bookmark)
    {
      bookmarks := Inserted(bookmarks, bookmark);
      r := bookmark;
    }

    /** User.hashCode: 0 for a null id, otherwise the id's value. */
    function HashCode(): (r: Int32)
      reads this
      ensures id.None? ==> r == 0
      ensures id.Some? ==> r == id.value
    {
      IdHash(id)
    }

    /** User.equals; a null argument is not an instance of User. */
    function Equals(other: User?): (r: bool)
      reads this, other
      ensures r <==> other != null && id == other.id
    {
      other != null && IdsEqual(id, other.id)
    }

    /** The @NotNull and @Size constraints of the users table (uniqueness is a table property). */
    function IsValid(): (r: bool)
      reads this
      ensures r ==> username.Some? && 1 <= |username.value| <= MAX_USERNAME_LENGTH
      ensures r ==> password.Some? && 1 <= |password.value| <= MAX_PASSWORD_LENGTH
    {
      RequiredText(username, MAX_USERNAME_LENGTH) && RequiredText(password, MAX_PASSWORD_LENGTH)
    }
  }

  /** HashSet.contains under Bookmark.equals: some member has the same id. */
  predicate ContainsEqual(s: set<Bookmark>, b: Bookmark)
    reads s, b
  {
    exists x :: x in s && x.Equals(b)
  }

  /** A HashSet never holds two members that are equal to each other. */
  ghost predicate NoEqualMembers(s: set<Bookmark>)
    reads s
  {
    forall x, y :: x in s && y in s && x.Equals(y) ==> x == y
  }

  /** HashSet.add under Bookmark.equals: the set is left alone when an equal member is present. */
  function Inserted(s: set<Bookmark>, b: Bookmark): (r: set<Bookmark>)
    reads s, b
    ensures r == s || r == s + {b}
    ensures r == s <==> ContainsEqual(s, b)
  {
    if ContainsEqual(s, b) then s else s + {b}
  }

  // ---- properties of the id-based identity ----

  lemma BookmarkEqualsReflexive(a: Bookmark)
    ensures a.Equals(a)
  {
  }

  lemma BookmarkEqualsSymmetric(a: Bookmark, b: Bookmark)
    ensures a.Equals(b) <==> b.Equals(a)
  {
  }

  lemma BookmarkEqualsTransitive(a: Bookmark, b: Bookmark, c: Bookmark)
    requires a.Equals(b) && b.Equals(c)
    ensures a.Equals(c)
  {
  }

  /** Equal bookmarks hash equally; a bookmark without id hashes to 0. */
  lemma BookmarkHashConsistent(a: Bookmark, b: Bookmark)
    ensures a.Equals(b) ==> a.HashCode() == b.HashCode()
    ensures a.id.None? ==> a.HashCode() == 0
    ensures a.id.Some? ==> a.HashCode() == IntegerHash(a.id.value)
  {
  }

  lemma UserEqualsIsEquivalence(a: User, b: User, c: User)
    ensures a.Equals(a)
    ensures a.Equals(b) <==> b.Equals(a)
    ensures a.Equals(b) && b.Equals(c) ==> a.Equals(c)
  {
  }

  /** Equal users hash equally; a user without id hashes to 0. */
  lemma UserHashConsistent(a: User, b: User)
    ensures a.Equals(b) ==> a.HashCode() == b.HashCode()
    ensures a.id.None? ==> a.HashCode() == 0
    ensures a.id.Some? ==> a.HashCode() == IntegerHash(a.id.value)
  {
  }

  // ---- properties of HashSet.add as addBookmark uses it ----

  /** After the add, an equal member is present, and nothing but the argument was added. */
  lemma InsertedContains(s: set<Bookmark>, b: Bookmark)
    ensures ContainsEqual(Inserted(s, b), b)
    ensures s <= Inserted(s, b) <= s + {b}
  {
    assert b.Equals(b);
  }

  /** The size grows by one exactly when no member equals the argument. */
  lemma InsertedSize(s: set<Bookmark>, b: Bookmark)
    ensures |Inserted(s, b)| == if ContainsEqual(s, b) then |s| else |s| + 1
  {
    if !ContainsEqual(s, b) {
      assert b.Equals(b);
      assert b !in s;
    }
  }

  /** Adding twice is adding once. */
  lemma InsertedIdempotent(s: set<Bookmark>, b: Bookmark)
    ensures Inserted(Inserted(s, b), b) == Inserted(s, b)
  {
    InsertedContains(s, b);
  }

  /** The add keeps the HashSet free of equal pairs. */
  lemma InsertedKeepsNoEqualMembers(s: set<Bookmark>, b: Bookmark)
    requires NoEqualMembers(s)
    ensures NoEqualMembers(Inserted(s, b))
  {
  }
}
